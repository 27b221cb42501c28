/** The two string rewrites the message parser applies. */
module Text {
  import opened Wrappers

  /** U+FFFC OBJECT REPLACEMENT CHARACTER, the placeholder the store leaves in the text of a message with attachments */
  const ObjectReplacement: char := '\U{FFFC}'

  /** `s` with every object-replacement character removed and everything else kept in order */
  function StripObjectReplacement(s: string): (r: string)
    ensures ObjectReplacement !in r
    ensures |r| <= |s|
  {
    if s == [] then []
    else
      (if s[0] == ObjectReplacement then [] else [s[0]]) + StripObjectReplacement(s[1..])
  }

  /** Stripping works piece by piece, so the characters it keeps stay in their order */
  lemma {:induction false} StripAppend(a: string, b: string)
    ensures StripObjectReplacement(a + b) == StripObjectReplacement(a) + StripObjectReplacement(b)
  {
    if a == [] {
      assert a + b == b;
    } else {
      var head := if a[0] == ObjectReplacement then [] else [a[0]];
      assert (a + b)[0] == a[0] && (a + b)[1..] == a[1..] + b;
      StripAppend(a[1..], b);
      assert StripObjectReplacement(a + b) == head + StripObjectReplacement(a[1..] + b);
      assert StripObjectReplacement(a) == head + StripObjectReplacement(a[1..]);
    }
  }

  /** Stripping removes every placeholder and keeps every other character as often as it occurs */
  lemma {:induction false} StripCounts(s: string)
    ensures multiset(StripObjectReplacement(s)) == multiset(s)[ObjectReplacement := 0]
  {
    if s != [] {
      StripCounts(s[1..]);
      assert s == [s[0]] + s[1..];
    }
  }

  /** Text without the placeholder is left as it is */
  lemma {:induction false} StripKeepsPlainText(s: string)
    requires ObjectReplacement !in s
    ensures StripObjectReplacement(s) == s
  {
    if s != [] {
      StripKeepsPlainText(s[1..]);
    }
  }

  /** `p` occurs in `s` starting at index `i` */
  predicate OccursAt(s: string, p: string, i: nat) {
    i + |p| <= |s| && s[i..i + |p|] == p
  }

  /** `i` is the first index at which `p` occurs in `s` */
  ghost predicate FirstOccurrence(s: string, p: string, i: nat) {
    OccursAt(s, p, i) && forall j :: 0 <= j < i ==> !OccursAt(s, p, j)
  }

  /** The first index at or after `k` where `p` occurs in `s` */
  function IndexFrom(s: string, p: string, k: nat): (i: Option<nat>)
    requires k <= |s|
    ensures i.Some? ==> k <= i.value && OccursAt(s, p, i.value)
    ensures i.Some? ==> forall j :: k <= j < i.value ==> !OccursAt(s, p, j)
    ensures i.None? ==> forall j :: k <= j ==> !OccursAt(s, p, j)
    decreases |s| - k
  {
    if OccursAt(s, p, k) then Some(k)
    else if k + |p| >= |s| then None
    else IndexFrom(s, p, k + 1)
  }

  /** The first index where `p` occurs in `s`, if any */
  function IndexOf(s: string, p: string): (i: Option<nat>)
    ensures i.Some? ==> FirstOccurrence(s, p, i.value)
    ensures i.None? ==> forall j :: !OccursAt(s, p, j)
  {
    IndexFrom(s, p, 0)
  }

  /**
   * `s` with its first occurrence of `p` cut out, as a string `replace`
   * with a string pattern and an empty replacement does.
   */
  function RemoveFirst(s: string, p: string): (r: string)
    ensures (forall j :: !OccursAt(s, p, j)) ==> r == s
    ensures forall i: nat :: FirstOccurrence(s, p, i) ==> r == s[..i] + s[i + |p|..]
  {
    match IndexOf(s, p)
    case None => s
    case Some(i) => s[..i] + s[i + |p|..]
  }

  /** A leading `p` is removed, and only that one occurrence */
  lemma RemoveLeadingPrefix(p: string, t: string)
    ensures RemoveFirst(p + t, p) == t
  {
    assert OccursAt(p + t, p, 0);
    assert FirstOccurrence(p + t, p, 0);
  }
}
