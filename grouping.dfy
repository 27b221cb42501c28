/**
 * The row grouper. The join query returns one row per message and
 * attachment; adjacent rows with the same row id form a run, and each run
 * becomes one logical message built from its first row, carrying the
 * attachments of all its rows in row order.
 */
module Grouping {
  import opened Wrappers
  import opened TimeCodec
  import opened Text
  import opened Messages

  /** The rows of `runs`, run after run */
  function Flatten(runs: seq<seq<RawRow>>): seq<RawRow> {
    if runs == [] then [] else runs[0] + Flatten(runs[1..])
  }

  lemma {:induction false} FlattenSnoc(runs: seq<seq<RawRow>>, run: seq<RawRow>)
    ensures Flatten(runs + [run]) == Flatten(runs) + run
  {
    if runs == [] {
      assert runs + [run] == [run];
      assert [run][1..] == [];
      assert run + [] == run;
    } else {
      assert (runs + [run])[0] == runs[0];
      assert (runs + [run])[1..] == runs[1..] + [run];
      FlattenSnoc(runs[1..], run);
    }
  }

  /** Every row of `run` has the row id of its first row */
  predicate SameId(run: seq<RawRow>) {
    forall j :: 0 <= j < |run| ==> run[j].id == run[0].id
  }

  /** `runs` cuts `rows` into maximal non-empty runs of adjacent rows sharing a row id */
  ghost predicate IsRunPartition(rows: seq<RawRow>, runs: seq<seq<RawRow>>) {
    && Flatten(runs) == rows
    && (forall k :: 0 <= k < |runs| ==> runs[k] != [] && SameId(runs[k]))
    && (forall k :: 0 < k < |runs| ==> runs[k - 1][0].id != runs[k][0].id)
  }

  /** The runs of `rows`: each row joins the last run when it shares that run's row id, and starts a new one otherwise */
  function Runs(rows: seq<RawRow>): (runs: seq<seq<RawRow>>)
    ensures |runs| <= |rows|
    ensures forall k :: 0 <= k < |runs| ==> runs[k] != []
    ensures rows != [] ==> runs != [] && runs[|runs| - 1][0].id == rows[|rows| - 1].id
  {
    if rows == [] then []
    else
      var before := Runs(rows[..|rows| - 1]);
      var row := rows[|rows| - 1];
      if before != [] && before[|before| - 1][0].id == row.id then
        before[..|before| - 1] + [before[|before| - 1] + [row]]
      else
        before + [[row]]
  }

  /** A row with the last run's id extends a partition by joining that run */
  lemma JoinLastRun(rows: seq<RawRow>, runs: seq<seq<RawRow>>, row: RawRow)
    requires IsRunPartition(rows, runs)
    requires runs != [] && runs[|runs| - 1][0].id == row.id
    ensures IsRunPartition(rows + [row], runs[..|runs| - 1] + [runs[|runs| - 1] + [row]])
  {
    var init, last := runs[..|runs| - 1], runs[|runs| - 1];
    assert runs == init + [last];
    FlattenSnoc(init, last);
    FlattenSnoc(init, last + [row]);
    var runs' := init + [last + [row]];
    assert SameId(last + [row]) by {
      assert SameId(runs[|runs| - 1]);
    }
    forall k | 0 <= k < |runs'| - 1
      ensures runs'[k] == runs[k]
    {
    }
  }

  /** A row with another id than the last run's extends a partition as a run of its own */
  lemma StartRun(rows: seq<RawRow>, runs: seq<seq<RawRow>>, row: RawRow)
    requires IsRunPartition(rows, runs)
    requires runs == [] || runs[|runs| - 1][0].id != row.id
    ensures IsRunPartition(rows + [row], runs + [[row]])
  {
    FlattenSnoc(runs, [row]);
    var runs' := runs + [[row]];
    forall k | 0 <= k < |runs'| - 1
      ensures runs'[k] == runs[k]
    {
    }
  }

  /** `Runs` is the partition of the rows into maximal runs */
  lemma {:induction false} RunsPartition(rows: seq<RawRow>)
    ensures IsRunPartition(rows, Runs(rows))
  {
    if rows != [] {
      var pre, row := rows[..|rows| - 1], rows[|rows| - 1];
      assert rows == pre + [row];
      var before: seq<seq<RawRow>> := Runs(pre);
      RunsPartition(pre);
      if before != [] && before[|before| - 1][0].id == row.id {
        JoinLastRun(pre, before, row);
      } else {
        StartRun(pre, before, row);
      }
    }
  }

  /** The prefix-stripped paths of the image attachments among `rows`, in row order */
  function ImagePaths(rows: seq<RawRow>): (paths: seq<string>)
    ensures |paths| <= |rows|
  {
    if rows == [] then []
    else
      (if HasFile(rows[0]) && IsImage(rows[0].mimeType) then [AttachmentPath(rows[0])] else [])
      + ImagePaths(rows[1..])
  }

  /** The non-image attachments among `rows`, in row order */
  function FileAttachments(rows: seq<RawRow>): (files: seq<Attachment>)
    ensures |files| <= |rows|
    ensures forall a :: a in files ==> !IsImage(a.mimeType)
  {
    if rows == [] then []
    else
      (if HasFile(rows[0]) && !IsImage(rows[0].mimeType)
       then [Attachment(AttachmentPath(rows[0]), rows[0].mimeType)] else [])
      + FileAttachments(rows[1..])
  }

  lemma {:induction false} ImagePathsAppend(a: seq<RawRow>, b: seq<RawRow>)
    ensures ImagePaths(a + b) == ImagePaths(a) + ImagePaths(b)
  {
    if a == [] {
      assert a + b == b;
    } else {
      assert (a + b)[0] == a[0] && (a + b)[1..] == a[1..] + b;
      ImagePathsAppend(a[1..], b);
    }
  }

  lemma {:induction false} FileAttachmentsAppend(a: seq<RawRow>, b: seq<RawRow>)
    ensures FileAttachments(a + b) == FileAttachments(a) + FileAttachments(b)
  {
    if a == [] {
      assert a + b == b;
    } else {
      assert (a + b)[0] == a[0] && (a + b)[1..] == a[1..] + b;
      FileAttachmentsAppend(a[1..], b);
    }
  }

  /** Every row with a file lands in exactly one of the two lists */
  lemma {:induction false} AttachmentRows(rows: seq<RawRow>)
    ensures FileAttachments(rows) != [] <==>
      exists i :: 0 <= i < |rows| && HasFile(rows[i]) && !IsImage(rows[i].mimeType)
    ensures ImagePaths(rows) != [] || FileAttachments(rows) != [] <==>
      exists i :: 0 <= i < |rows| && HasFile(rows[i])
  {
    if rows != [] {
      AttachmentRows(rows[1..]);
      forall i | 1 <= i < |rows|
        ensures rows[i] == rows[1..][i - 1]
      {
      }
      if HasFile(rows[0]) {
        assert exists i :: 0 <= i < |rows| && HasFile(rows[i]);
      }
      if exists i :: 0 <= i < |rows| && HasFile(rows[i]) && !IsImage(rows[i].mimeType) {
        var i :| 0 <= i < |rows| && HasFile(rows[i]) && !IsImage(rows[i].mimeType);
        if i > 0 {
          assert HasFile(rows[1..][i - 1]) && !IsImage(rows[1..][i - 1].mimeType);
        }
      }
      if exists i :: 0 <= i < |rows| && HasFile(rows[i]) {
        var i :| 0 <= i < |rows| && HasFile(rows[i]);
        if i > 0 {
          assert HasFile(rows[1..][i - 1]);
        }
      }
    }
  }

  /**
   * The logical message of one run: the normalised first row, with the
   * image list present when any row of the run has a file and the
   * attachment list present when any row has a non-image file.
   */
  function Gathered(run: seq<RawRow>): (m: Message)
    requires run != []
    ensures m.id == run[0].id
  {
    var images := ImagePaths(run);
    var files := FileAttachments(run);
    Normalize(run[0]).(
      imageAttachmentUrl := if images != [] || files != [] then Some(images) else None,
      attachment := if files != [] then Some(files) else None)
  }

  /** When each attachment list of a run's message exists */
  lemma GatheredLists(run: seq<RawRow>)
    requires run != []
    ensures Gathered(run).imageAttachmentUrl.Some? <==> exists i :: 0 <= i < |run| && HasFile(run[i])
    ensures Gathered(run).attachment.Some? <==>
      exists i :: 0 <= i < |run| && HasFile(run[i]) && !IsImage(run[i].mimeType)
  {
    AttachmentRows(run);
  }

  /** The messages of a sequence of runs, one per run */
  function GatherAll(runs: seq<seq<RawRow>>): (ms: seq<Message>)
    requires forall k :: 0 <= k < |runs| ==> runs[k] != []
    ensures |ms| == |runs|
    ensures forall k :: 0 <= k < |runs| ==> ms[k] == Gathered(runs[k])
  {
    if runs == [] then [] else [Gathered(runs[0])] + GatherAll(runs[1..])
  }

  lemma {:induction false} GatherAllSnoc(runs: seq<seq<RawRow>>, run: seq<RawRow>)
    requires forall k :: 0 <= k < |runs| ==> runs[k] != []
    requires run != []
    ensures GatherAll(runs + [run]) == GatherAll(runs) + [Gathered(run)]
  {
    if runs == [] {
      assert runs + [run] == [run];
      assert [run][1..] == [];
    } else {
      var runs' := runs + [run];
      assert runs'[0] == runs[0] && runs'[1..] == runs[1..] + [run];
      GatherAllSnoc(runs[1..], run);
    }
  }

  /**
   * What parsing a query result yields: the message of each run, in order.
   * There is at most one message per row, none for no rows, and the last
   * message is that of the last row's run.
   */
  function Parse(rows: seq<RawRow>): (ms: seq<Message>)
    ensures |ms| <= |rows|
    ensures ms == [] <==> rows == []
    ensures rows != [] ==> ms[|ms| - 1].id == rows[|rows| - 1].id
  {
    GatherAll(Runs(rows))
  }

  /** Neighbouring messages never share a row id */
  lemma ParseNeighboursDiffer(rows: seq<RawRow>)
    ensures forall k :: 0 < k < |Parse(rows)| ==> Parse(rows)[k - 1].id != Parse(rows)[k].id
  {
    RunsPartition(rows);
  }

  /** The attachment lists of a single row */
  lemma SingleRowLists(row: RawRow)
    ensures ImagePaths([row]) ==
      if HasFile(row) && IsImage(row.mimeType) then [AttachmentPath(row)] else []
    ensures FileAttachments([row]) ==
      if HasFile(row) && !IsImage(row.mimeType) then [Attachment(AttachmentPath(row), row.mimeType)] else []
  {
    assert [row][1..] == [];
  }

  /** A row added to a run adds its attachment to the run's message */
  lemma GatheredSnoc(run: seq<RawRow>, row: RawRow)
    requires run != []
    ensures Gathered(run + [row]) == AddAttachment(Gathered(run), row)
  {
    assert (run + [row])[0] == run[0];
    ImagePathsAppend(run, [row]);
    FileAttachmentsAppend(run, [row]);
    SingleRowLists(row);
    var images, files := ImagePaths(run), FileAttachments(run);
    if !HasFile(row) {
      assert images + [] == images && files + [] == files;
    } else if IsImage(row.mimeType) {
      assert files + [] == files;
    } else {
      assert images + [] == images;
    }
  }

  /** A run of one row is that row normalised, with its attachment */
  lemma GatheredSingle(row: RawRow)
    ensures Gathered([row]) == AddAttachment(Normalize(row), row)
  {
    assert [row][1..] == [];
    if !HasFile(row) {
      assert ImagePaths([row]) == [] && FileAttachments([row]) == [];
    } else if IsImage(row.mimeType) {
      assert ImagePaths([row]) == [AttachmentPath(row)] && FileAttachments([row]) == [];
      assert [] + [AttachmentPath(row)] == [AttachmentPath(row)];
    } else {
      var a := Attachment(AttachmentPath(row), row.mimeType);
      assert ImagePaths([row]) == [] && FileAttachments([row]) == [a];
      assert [] + [a] == [a];
    }
  }

  /** A row continuing the run of the last message adds its attachment to that message and is otherwise dropped */
  lemma ParseContinuesRun(rows: seq<RawRow>, row: RawRow)
    requires Parse(rows) != [] && Parse(rows)[|Parse(rows)| - 1].id == row.id
    ensures var out := Parse(rows);
      Parse(rows + [row]) == out[..|out| - 1] + [AddAttachment(out[|out| - 1], row)]
  {
    var all := rows + [row];
    assert all[..|all| - 1] == rows;
    var before: seq<seq<RawRow>> := Runs(rows);
    var init, last := before[..|before| - 1], before[|before| - 1];
    assert before == init + [last];
    assert Runs(all) == init + [last + [row]];
    GatherAllSnoc(init, last);
    GatherAllSnoc(init, last + [row]);
    GatheredSnoc(last, row);
    assert Parse(rows)[..|Parse(rows)| - 1] == GatherAll(init);
  }

  /** Any other row starts a new message */
  lemma ParseStartsRun(rows: seq<RawRow>, row: RawRow)
    requires Parse(rows) == [] || Parse(rows)[|Parse(rows)| - 1].id != row.id
    ensures Parse(rows + [row]) == Parse(rows) + [AddAttachment(Normalize(row), row)]
  {
    var all := rows + [row];
    assert all[..|all| - 1] == rows;
    var before: seq<seq<RawRow>> := Runs(rows);
    assert Runs(all) == before + [[row]];
    GatherAllSnoc(before, [row]);
    GatheredSingle(row);
  }

  lemma PrefixSnoc<T>(s: seq<T>, i: nat)
    requires 0 < i <= |s|
    ensures s[..i] == s[..i - 1] + [s[i - 1]]
  {
  }

  /**
   * The parser's fold over the first `i` rows: a row continuing the run of
   * the last message adds its attachment to it, any other row starts a new
   * message.
   */
  function ParseFold(rows: seq<RawRow>, i: nat): (ms: seq<Message>)
    requires i <= |rows|
    ensures ms == Parse(rows[..i])
  {
    if i == 0 then []
    else
      var out, row := ParseFold(rows, i - 1), rows[i - 1];
      PrefixSnoc(rows, i);
      if out != [] && out[|out| - 1].id == row.id then
        ParseContinuesRun(rows[..i - 1], row);
        out[..|out| - 1] + [AddAttachment(out[|out| - 1], row)]
      else
        ParseStartsRun(rows[..i - 1], row);
        out + [AddAttachment(Normalize(row), row)]
  }

  /** The parser: one pass over the rows, folding each continuation row into the last kept message */
  method ParseMessages(rows: seq<RawRow>) returns (out: seq<Message>)
    ensures out == Parse(rows)
  {
    out := [];
    var i := 0;
    while i < |rows|
      invariant 0 <= i <= |rows|
      invariant out == ParseFold(rows, i)
    {
      var msg := rows[i];
      if out != [] && out[|out| - 1].id == msg.id {
        // the previous kept row's run continues: this row only contributes its attachment
        out := out[..|out| - 1] + [AddAttachment(out[|out| - 1], msg)];
      } else {
        out := out + [AddAttachment(Normalize(msg), msg)];
      }
      i := i + 1;
    }
    assert rows[..i] == rows;
  }

  /** The row ids of `ms`, in order */
  function MessageIds(ms: seq<Message>): (ids: seq<int>)
    ensures |ids| == |ms|
    ensures forall k :: 0 <= k < |ms| ==> ids[k] == ms[k].id
  {
    seq(|ms|, k requires 0 <= k < |ms| => ms[k].id)
  }

  /** The ids of the rows that start a run: the first row, and every row whose id differs from its predecessor's */
  function RunHeads(rows: seq<RawRow>): (ids: seq<int>)
    ensures |ids| <= |rows|
  {
    if rows == [] then []
    else
      var pre, row := rows[..|rows| - 1], rows[|rows| - 1];
      RunHeads(pre) + (if pre == [] || pre[|pre| - 1].id != row.id then [row.id] else [])
  }

  lemma IdsReplaceLast(ms: seq<Message>, m: Message)
    requires ms != [] && m.id == ms[|ms| - 1].id
    ensures MessageIds(ms[..|ms| - 1] + [m]) == MessageIds(ms)
  {
  }

  lemma IdsSnoc(ms: seq<Message>, m: Message)
    ensures MessageIds(ms + [m]) == MessageIds(ms) + [m.id]
  {
  }

  /** Parsing yields exactly one message per run, in the order the runs start */
  lemma {:induction false} ParseIds(rows: seq<RawRow>)
    ensures MessageIds(Parse(rows)) == RunHeads(rows)
  {
    if rows != [] {
      var pre, row := rows[..|rows| - 1], rows[|rows| - 1];
      assert rows == pre + [row];
      ParseIds(pre);
      var out := Parse(pre);
      if out != [] && out[|out| - 1].id == row.id {
        ParseContinuesRun(pre, row);
        var m := AddAttachment(out[|out| - 1], row);
        assert m.id == row.id;
        IdsReplaceLast(out, m);
      } else {
        ParseStartsRun(pre, row);
        var m := AddAttachment(Normalize(row), row);
        assert m.id == row.id;
        IdsSnoc(out, m);
      }
    }
  }

  /** All image paths of `ms`, message after message */
  function AllImages(ms: seq<Message>): seq<string> {
    if ms == [] then [] else ms[0].imageAttachmentUrl.GetOr([]) + AllImages(ms[1..])
  }

  /** All generic attachments of `ms`, message after message */
  function AllFiles(ms: seq<Message>): seq<Attachment> {
    if ms == [] then [] else ms[0].attachment.GetOr([]) + AllFiles(ms[1..])
  }

  /** A run's message holds exactly the run's attachments, an absent list standing for none */
  lemma GatheredAttachments(run: seq<RawRow>)
    requires run != []
    ensures Gathered(run).imageAttachmentUrl.GetOr([]) == ImagePaths(run)
    ensures Gathered(run).attachment.GetOr([]) == FileAttachments(run)
  {
  }

  lemma {:induction false} GatherAllAttachments(runs: seq<seq<RawRow>>)
    requires forall k :: 0 <= k < |runs| ==> runs[k] != []
    ensures AllImages(GatherAll(runs)) == ImagePaths(Flatten(runs))
    ensures AllFiles(GatherAll(runs)) == FileAttachments(Flatten(runs))
  {
    if runs != [] {
      var ms := GatherAll(runs);
      assert ms[1..] == GatherAll(runs[1..]);
      GatheredAttachments(runs[0]);
      GatherAllAttachments(runs[1..]);
      ImagePathsAppend(runs[0], Flatten(runs[1..]));
      FileAttachmentsAppend(runs[0], Flatten(runs[1..]));
    }
  }

  /** Grouping loses, duplicates and reorders no attachment: the messages carry every file of the rows, in row order */
  lemma ParseKeepsAttachments(rows: seq<RawRow>)
    ensures AllImages(Parse(rows)) == ImagePaths(rows)
    ensures AllFiles(Parse(rows)) == FileAttachments(rows)
  {
    RunsPartition(rows);
    GatherAllAttachments(Runs(rows));
  }

  /** Two rows of one message parse to the first row's message with both rows' attachments */
  lemma ParseSameIdPair(r1: RawRow, r2: RawRow)
    requires r1.id == r2.id
    ensures Parse([r1, r2]) == [AddAttachment(AddAttachment(Normalize(r1), r1), r2)]
  {
    var m0 := AddAttachment(Normalize(r1), r1);
    ParseStartsRun([], r1);
    assert [] + [r1] == [r1];
    assert Parse([r1]) == [m0];
    ParseContinuesRun([r1], r2);
    assert [r1] + [r2] == [r1, r2];
  }

  /** Two rows of one message, an image and a PDF, give one message holding one file in each list */
  lemma AttachmentGroupingExample(png: RawRow, pdf: RawRow)
    requires png == RawRow(1, 0, None, "m1", None, Some("image/png"), Some(AttachmentsDir + "/a.png"), 0)
    requires pdf == png.(mimeType := Some("application/pdf"), filename := Some(AttachmentsDir + "/b.pdf"))
    ensures |Parse([png, pdf])| == 1
    ensures Parse([png, pdf])[0].imageAttachmentUrl == Some(["/a.png"])
    ensures Parse([png, pdf])[0].attachment == Some([Attachment("/b.pdf", Some("application/pdf"))])
  {
    assert AttachmentPath(png) == "/a.png" && AttachmentPath(pdf) == "/b.pdf";
    UnlistedImageTypes();
    assert "application/pdf"[..6][0] == 'a';
    NonImageType("application/pdf");
    var m0 := AddAttachment(Normalize(png), png);
    assert [] + ["/a.png"] == ["/a.png"];
    assert m0.imageAttachmentUrl == Some(["/a.png"]) && m0.attachment == None;
    var m1 := AddAttachment(m0, pdf);
    assert m1.imageAttachmentUrl == m0.imageAttachmentUrl;
    var b := Attachment("/b.pdf", Some("application/pdf"));
    assert [] + [b] == [b];
    assert m1.attachment == Some([b]);
    ParseSameIdPair(png, pdf);
  }
}
