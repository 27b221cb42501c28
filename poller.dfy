/**
 * The poller behind `listen`: a process-wide singleton that remembers a
 * high-water mark `last` and the message ids it has already published.
 * Each successful poll advances the mark and publishes every parsed message
 * whose id it has not seen; a failed poll publishes the error and stops
 * polling; compaction announces the current mark.  Event emission is
 * modelled as the sequence of events an operation returns, in emission
 * order.
 */
module Poller {
  import opened Wrappers
  import opened TimeCodec
  import opened Messages
  import opened Grouping

  datatype Event =
    | MessageEvent(message: Message)
    | ErrorEvent(reason: string)
    | ChangeLast(mark: int)

  /** The events announcing `ms`, one per message, in order */
  function MessageEvents(ms: seq<Message>): (events: seq<Event>)
    ensures |events| == |ms|
    ensures forall k :: 0 <= k < |ms| ==> events[k] == MessageEvent(ms[k])
  {
    seq(|ms|, k requires 0 <= k < |ms| => MessageEvent(ms[k]))
  }

  /** The message ids of `ms`, in order */
  function Guids(ms: seq<Message>): (ids: seq<string>)
    ensures |ids| == |ms|
    ensures forall k :: 0 <= k < |ms| ==> ids[k] == ms[k].messageId
  {
    seq(|ms|, k requires 0 <= k < |ms| => ms[k].messageId)
  }

  /** The message ids carried by the first `k` messages of `ms` */
  function GuidsBefore(ms: seq<Message>, k: nat): set<string>
    requires k <= |ms|
  {
    set j | 0 <= j < k :: ms[j].messageId
  }

  predicate Distinct(ids: seq<string>) {
    forall i, j :: 0 <= i < j < |ids| ==> ids[i] != ids[j]
  }

  /**
   * The messages among the first `k` of `ms` that a poll publishes when the
   * ids in `seen` were recorded before it: a message is published when, at
   * the moment it is reached, its id is neither in `seen` nor carried by an
   * earlier message of the same poll.
   */
  function Unseen(ms: seq<Message>, seen: set<string>, k: nat): seq<Message>
    requires k <= |ms|
  {
    if k == 0 then []
    else
      var m := ms[k - 1];
      Unseen(ms, seen, k - 1) + (if m.messageId in seen || m.messageId in GuidsBefore(ms, k - 1) then [] else [m])
  }

  lemma GuidsBeforeNone(ms: seq<Message>)
    ensures GuidsBefore(ms, 0) == {}
  {
  }

  lemma GuidsBeforeStep(ms: seq<Message>, k: nat)
    requires 0 < k <= |ms|
    ensures GuidsBefore(ms, k) == GuidsBefore(ms, k - 1) + {ms[k - 1].messageId}
  {
  }

  lemma DistinctAppend(a: seq<string>, b: seq<string>)
    requires Distinct(a) && Distinct(b)
    requires forall id :: id in b ==> id !in a
    ensures Distinct(a + b)
  {
    forall i, j | 0 <= i < j < |a + b|
      ensures (a + b)[i] != (a + b)[j]
    {
      if j < |a| {
        assert (a + b)[i] == a[i] && (a + b)[j] == a[j];
      } else if i < |a| {
        assert (a + b)[i] == a[i] && (a + b)[j] == b[j - |a|];
        assert b[j - |a|] in b;
      } else {
        assert (a + b)[i] == b[i - |a|] && (a + b)[j] == b[j - |a|];
      }
    }
  }

  /** One more message: it is published exactly when its id is neither recorded nor carried by an earlier message */
  lemma UnseenStep(ms: seq<Message>, seen: set<string>, k: nat)
    requires k < |ms|
    ensures ms[k].messageId in seen + GuidsBefore(ms, k) ==> Unseen(ms, seen, k + 1) == Unseen(ms, seen, k)
    ensures ms[k].messageId !in seen + GuidsBefore(ms, k) ==> Unseen(ms, seen, k + 1) == Unseen(ms, seen, k) + [ms[k]]
  {
    assert Unseen(ms, seen, k) + [] == Unseen(ms, seen, k);
  }

  lemma AppendSnoc<T>(a: seq<T>, b: seq<T>, x: T)
    ensures a + (b + [x]) == (a + b) + [x]
  {
  }

  lemma KeysUpdate<K, V>(m: map<K, V>, k: K, v: V)
    ensures m[k := v].Keys == m.Keys + {k}
  {
  }

  lemma UnionStep<T>(keys: set<T>, seen: set<T>, before: set<T>, x: T)
    requires keys == seen + before
    ensures keys + {x} == seen + (before + {x})
  {
  }

  lemma AbsorbMember<T>(s: set<T>, x: T)
    requires x in s
    ensures s + {x} == s
  {
  }

  lemma EventsSnoc(ms: seq<Message>, m: Message)
    ensures MessageEvents(ms + [m]) == MessageEvents(ms) + [MessageEvent(m)]
  {
  }

  lemma GuidsSnoc(ms: seq<Message>, m: Message)
    ensures Guids(ms + [m]) == Guids(ms) + [m.messageId]
  {
  }

  /** Every message id the first `k` messages carry is published once, unless it was already recorded */
  lemma {:induction false} UnseenGuids(ms: seq<Message>, seen: set<string>, k: nat)
    requires k <= |ms|
    ensures forall id :: id in Guids(Unseen(ms, seen, k)) <==> id in GuidsBefore(ms, k) && id !in seen
    ensures Distinct(Guids(Unseen(ms, seen, k)))
  {
    if k > 0 {
      UnseenGuids(ms, seen, k - 1);
      GuidsBeforeStep(ms, k);
      var m, prev := ms[k - 1], Unseen(ms, seen, k - 1);
      if m.messageId in seen || m.messageId in GuidsBefore(ms, k - 1) {
        assert Unseen(ms, seen, k) == prev + [] == prev;
      } else {
        assert Unseen(ms, seen, k) == prev + [m];
        GuidsSnoc(prev, m);
        DistinctAppend(Guids(prev), [m.messageId]);
      }
    }
  }

  /**
   * Across two polls no message id is published twice: whatever the first
   * poll publishes is recorded before the second one runs.
   */
  lemma PublishedOnce(ms1: seq<Message>, ms2: seq<Message>, seen: set<string>)
    ensures Distinct(Guids(Unseen(ms1, seen, |ms1|)) + Guids(Unseen(ms2, seen + GuidsBefore(ms1, |ms1|), |ms2|)))
  {
    var first := Guids(Unseen(ms1, seen, |ms1|));
    var second := Guids(Unseen(ms2, seen + GuidsBefore(ms1, |ms1|), |ms2|));
    UnseenGuids(ms1, seen, |ms1|);
    UnseenGuids(ms2, seen + GuidsBefore(ms1, |ms1|), |ms2|);
    DistinctAppend(first, second);
  }

  /**
   * The mark after a poll that returned `rows` (non-empty): the raw time of
   * the last row, or the current time packed when that time is zero.
   */
  function NextMark(rows: seq<RawRow>, nowMs: int, extended: bool): (mark: int)
    requires rows != []
    ensures rows[|rows| - 1].time != 0 ==> mark == rows[|rows| - 1].time
    ensures rows[|rows| - 1].time == 0 && !extended ==> mark == AppleTimeNow(nowMs)
    ensures rows[|rows| - 1].time == 0 && extended ==>
      UnpackTime(mark) == AppleTimeNow(nowMs) && mark % PackFactor == 0
  {
    var t := rows[|rows| - 1].time;
    if t != 0 then t else PackTimeConditionally(AppleTimeNow(nowMs), extended)
  }

  /**
   * The mark never moves back, given what the polling query returns: only
   * rows whose time is at least the current mark. A zero last time then
   * means the mark was not positive, and the clock fallback is not negative
   * for any clock reading at or after Apple's epoch.
   */
  lemma MarkNeverDecreases(rows: seq<RawRow>, last: int, nowMs: int, extended: bool)
    requires rows != []
    requires forall r :: r in rows ==> r.time >= last
    requires nowMs >= DateOffset * 1000
    ensures NextMark(rows, nowMs, extended) >= last
  {
    assert rows[|rows| - 1] in rows;
  }

  class Poller {
    /** the system packs timestamps with extended precision (macOS 10.13 or later); fixed for the process */
    const extended: bool
    /** `listen` has created the shared event source */
    var started: bool
    /** a poll failed, so no further poll is scheduled */
    var halted: bool
    /** the high-water mark: rows with an earlier time are not asked for */
    var last: int
    /** every published message id, with the mark in force when it was published */
    var emitted: map<string, int>
    /** the ids of all published messages, in publication order */
    ghost var published: seq<string>

    /** Each published id is recorded, each recorded id was published, and none was published twice */
    ghost predicate Valid()
      reads this
    {
      && Distinct(published)
      && (forall id :: id in emitted <==> id in published)
    }

    /** The state when the module is loaded: no event source, nothing published */
    constructor(extended: bool)
      ensures Valid()
      ensures this.extended == extended
      ensures !started && !halted && emitted == map[] && published == []
    {
      this.extended := extended;
      started := false;
      halted := false;
      last := 0;
      emitted := map[];
      published := [];
    }

    /**
     * Starts polling, once per process: a later call returns the existing
     * event source and changes nothing. The first call seeds the mark with
     * `lastTime` when that is present and non-zero, and otherwise with the
     * current time in Apple seconds, packed on extended-precision systems.
     */
    method Listen(lastTime: Option<int>, nowMs: int)
      requires Valid()
      modifies this
      ensures Valid()
      ensures old(started) ==> unchanged(this)
      ensures !old(started) ==> (
        && started && halted == old(halted)
        && emitted == old(emitted) && published == old(published)
        && last == (if lastTime.GetOr(0) != 0 then lastTime.value
                    else PackTimeConditionally(AppleTime(None, nowMs), extended)))
    {
      if started {
        return;
      }
      started := true;
      last := if lastTime.GetOr(0) != 0 then lastTime.value
              else PackTimeConditionally(AppleTime(None, nowMs), extended);
    }

    /**
     * One successful poll that returned `rows`. With no rows nothing
     * changes. Otherwise the mark advances to `NextMark`, the rows are
     * parsed, and each parsed message whose id is not yet recorded is
     * recorded with the new mark and published.
     */
    method Check(rows: seq<RawRow>, nowMs: int) returns (events: seq<Event>)
      requires Valid() && started && !halted
      modifies this
      ensures Valid()
      ensures started && !halted
      ensures last == if rows == [] then old(last) else NextMark(rows, nowMs, extended)
      ensures events == MessageEvents(Unseen(Parse(rows), old(emitted).Keys, |Parse(rows)|))
      ensures emitted.Keys == old(emitted).Keys + GuidsBefore(Parse(rows), |Parse(rows)|)
      ensures forall id :: id in old(emitted) ==> emitted[id] == old(emitted)[id]
      ensures forall id :: id in emitted && id !in old(emitted) ==> emitted[id] == last
      ensures published == old(published) + Guids(Unseen(Parse(rows), old(emitted).Keys, |Parse(rows)|))
    {
      if rows == [] {
        GuidsBeforeNone([]);
        assert old(emitted).Keys + {} == old(emitted).Keys;
        return [];
      }
      last := NextMark(rows, nowMs, extended);
      var ms := ParseMessages(rows);
      events := Publish(ms);
    }

    /**
     * Publishes, in order, each of `ms` whose id is not recorded when it is
     * reached, recording that id with the current mark.
     */
    method Publish(ms: seq<Message>) returns (events: seq<Event>)
      requires Valid()
      modifies this
      ensures Valid()
      ensures started == old(started) && halted == old(halted) && last == old(last)
      ensures events == MessageEvents(Unseen(ms, old(emitted).Keys, |ms|))
      ensures emitted.Keys == old(emitted).Keys + GuidsBefore(ms, |ms|)
      ensures forall id :: id in old(emitted) ==> emitted[id] == old(emitted)[id]
      ensures forall id :: id in emitted && id !in old(emitted) ==> emitted[id] == last
      ensures published == old(published) + Guids(Unseen(ms, old(emitted).Keys, |ms|))
    {
      events := [];
      ghost var seen := emitted.Keys;
      GuidsBeforeNone(ms);
      var i := 0;
      while i < |ms|
        invariant 0 <= i <= |ms|
        invariant started == old(started) && halted == old(halted) && last == old(last)
        invariant events == MessageEvents(Unseen(ms, seen, i))
        invariant emitted.Keys == seen + GuidsBefore(ms, i)
        invariant forall id :: id in seen ==> emitted[id] == old(emitted)[id]
        invariant forall id :: id in emitted && id !in seen ==> emitted[id] == last
        invariant published == old(published) + Guids(Unseen(ms, seen, i))
      {
        var msg := ms[i];
        GuidsBeforeStep(ms, i + 1);
        UnseenStep(ms, seen, i);
        UnionStep(emitted.Keys, seen, GuidsBefore(ms, i), msg.messageId);
        if msg.messageId !in emitted {
          KeysUpdate(emitted, msg.messageId, last);
          GuidsSnoc(Unseen(ms, seen, i), msg);
          EventsSnoc(Unseen(ms, seen, i), msg);
          AppendSnoc(old(published), Guids(Unseen(ms, seen, i)), msg.messageId);
          emitted := emitted[msg.messageId := last];
          published := published + [msg.messageId];
          events := events + [MessageEvent(msg)];
        } else {
          AbsorbMember(emitted.Keys, msg.messageId);
        }
        i := i + 1;
      }
      UnseenGuids(ms, seen, |ms|);
      DistinctAppend(old(published), Guids(Unseen(ms, seen, |ms|)));
    }

    /**
     * A poll whose query failed: the error is published and polling stops
     * for good; the mark and the recorded ids stay as they were.
     */
    method CheckFailed(reason: string) returns (events: seq<Event>)
      requires Valid() && started && !halted
      modifies this
      ensures Valid()
      ensures started && halted
      ensures last == old(last) && emitted == old(emitted) && published == old(published)
      ensures events == [ErrorEvent(reason)]
    {
      halted := true;
      events := [ErrorEvent(reason)];
    }

    /**
     * Compaction, run on a timer whether or not polling has stopped: it
     * announces the current mark. The purge it attempts removes nothing,
     * so the method changes no state.
     */
    method EmptyEmitted() returns (events: seq<Event>)
      requires started
      ensures events == [ChangeLast(last)]
    {
      events := [ChangeLast(last)];
    }
  }
}
