/**
 * Apple-style timestamps: whole seconds since 2001-01-01 00:00:00 GMT, which
 * newer versions of the message store pack with nine extra decimal digits of
 * precision. Dates on the Unix side are integer milliseconds.
 */
module TimeCodec {
  import opened Wrappers

  /** Seconds between the Unix epoch and Apple's epoch */
  const DateOffset: int := 978307200

  /** The factor by which an extended-precision timestamp is packed */
  const PackFactor: int := 1_000_000_000

  /** The Apple timestamp of the clock reading `nowMs` (Unix milliseconds), rounded down to a second */
  function AppleTimeNow(nowMs: int): (t: int)
    ensures (t + DateOffset) * 1000 <= nowMs < (t + DateOffset + 1) * 1000
  {
    nowMs / 1000 - DateOffset
  }

  /**
   * The Apple timestamp of `timestamp` (Unix milliseconds); an absent or zero
   * `timestamp` is falsy and falls back to the clock reading `nowMs`.
   */
  function AppleTime(timestamp: Option<int>, nowMs: int): (t: int)
    ensures timestamp.GetOr(0) == 0 ==> t == AppleTimeNow(nowMs)
    ensures timestamp.GetOr(0) != 0 ==>
      (t + DateOffset) * 1000 <= timestamp.value < (t + DateOffset + 1) * 1000
  {
    var ms := if timestamp.GetOr(0) != 0 then timestamp.value else nowMs;
    ms / 1000 - DateOffset
  }

  /** Removes the packed precision: the floor of `ts / 10^9`, zero exactly for unpacked values */
  function UnpackTime(ts: int): (u: int)
    ensures u * PackFactor <= ts < (u + 1) * PackFactor
    ensures u == 0 <==> 0 <= ts < PackFactor
  {
    ts / PackFactor
  }

  /** Packs `ts` with extended precision when the writer uses it */
  function PackTimeConditionally(ts: int, extended: bool): (p: int)
    ensures !extended ==> p == ts
    ensures extended ==> UnpackTime(p) == ts && p % PackFactor == 0
  {
    if extended then ts * PackFactor else ts
  }

  /**
   * The Unix date (milliseconds) of a stored timestamp, or None for the
   * store's zero sentinel. A timestamp whose unpacked value is non-zero is
   * taken to be packed.
   */
  function FromAppleTime(ts: int): (date: Option<int>)
    ensures date == None <==> ts == 0
    ensures date.Some? ==> date.value % 1000 == 0
  {
    if ts == 0 then None
    else
      var seconds := if UnpackTime(ts) != 0 then UnpackTime(ts) else ts;
      Some((seconds + DateOffset) * 1000)
  }

  /** An unpacked timestamp converts to its date and back to itself */
  lemma UnpackedRoundTrip(ts: int, nowMs: int)
    requires 0 < ts < PackFactor
    ensures UnpackTime(ts) == 0
    ensures FromAppleTime(ts) == Some((ts + DateOffset) * 1000)
    ensures AppleTime(FromAppleTime(ts), nowMs) == ts
  {
  }

  /** A date taken from the clock and stored unpacked converts back to that date, to the second */
  lemma ClockRoundTrip(ms: int, nowMs: int)
    requires ms != 0
    requires 0 < AppleTime(Some(ms), nowMs) < PackFactor
    ensures FromAppleTime(AppleTime(Some(ms), nowMs)) == Some(ms - ms % 1000)
  {
  }

  /** Packing then converting yields the date of the unpacked value, for every non-zero value */
  lemma PackedRoundTrip(t: int)
    requires t != 0
    ensures FromAppleTime(PackTimeConditionally(t, true)) == Some((t + DateOffset) * 1000)
  {
  }

  /**
   * Packing leaves the date unchanged exactly for the values that the
   * unpacking heuristic takes as already unpacked (and for -1, whose floor
   * division by 10^9 is itself).
   */
  lemma PackingKeepsDate(t: int)
    ensures FromAppleTime(PackTimeConditionally(t, true)) == FromAppleTime(t) <==> -1 <= t < PackFactor
  {
    if t < -1 {
      assert UnpackTime(t) != t;
    } else if t >= PackFactor {
      assert UnpackTime(t) < t;
    }
  }

  /** A packed timestamp converts through the floor of its division by 10^9 */
  lemma ExtendedPrecision(ts: int)
    requires ts < 0 || PackFactor <= ts
    ensures FromAppleTime(ts) == Some((ts / PackFactor + DateOffset) * 1000)
  {
  }
}
