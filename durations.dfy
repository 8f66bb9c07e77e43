/**
 * The compact duration label shown in the Age and Due columns: the count of the
 * largest whole unit of a fixed ladder (year, month, week, day, hour, minute, second).
 * Durations are Go time.Duration values, that is signed 64-bit counts of nanoseconds.
 */
module Durations {
  import opened Decimal

  const Second: int := 1_000_000_000
  const Minute: int := 60 * Second
  const Hour: int := 60 * Minute
  const Day: int := 24 * Hour

  /** The range of a time.Duration (int64 nanoseconds). */
  const MinDuration: int := -0x8000_0000_0000_0000
  const MaxDuration: int := 0x7FFF_FFFF_FFFF_FFFF

  datatype Unit = Unit(length: int, suffix: string)

  /** The ladder, largest unit first; a year is 365 days and a month 30 days. */
  const Units: seq<Unit> := [
    Unit(365 * Day, "y"),
    Unit(30 * Day, "mo"),
    Unit(7 * Day, "w"),
    Unit(Day, "d"),
    Unit(Hour, "h"),
    Unit(Minute, "min"),
    Unit(Second, "s")
  ]

  predicate PositiveLengths(us: seq<Unit>) {
    forall k :: 0 <= k < |us| ==> us[k].length > 0
  }

  /** Go's integer division, which truncates toward zero (Dafny's `/` is Euclidean). */
  function Quo(d: int, n: int): (q: int)
    requires n > 0
    ensures q > 0 <==> d >= n
    ensures d >= 0 ==> q == d / n
  {
    if d >= 0 then d / n else -((-d) / n)
  }

  /** time.Time.Sub: the difference t - u, saturated to the range of a Duration. */
  function Sub(t: int, u: int): (d: int)
    ensures MinDuration <= d <= MaxDuration
    ensures MinDuration <= t - u <= MaxDuration ==> d == t - u
    ensures d > 0 <==> t > u
    ensures d >= 0 <==> t >= u
  {
    if t - u > MaxDuration then MaxDuration
    else if t - u < MinDuration then MinDuration
    else t - u
  }

  /** The loop of fmtDuration over the units still to try: the first positive quotient wins. */
  function FormatFrom(d: int, us: seq<Unit>): string
    requires PositiveLengths(us)
  {
    if us == [] then ""
    else
      var q := Quo(d, us[0].length);
      if q > 0 then IntToString(q) + us[0].suffix else FormatFrom(d, us[1..])
  }

  /** fmtDuration. */
  function FmtDuration(d: int): string {
    FormatFrom(d, Units)
  }

  /** Unit i is the largest unit of the ladder that fits in d at least once. */
  ghost predicate LargestFitting(d: int, i: int) {
    0 <= i < |Units| && Units[i].length <= d &&
    forall j :: 0 <= j < i ==> d < Units[j].length
  }

  lemma {:induction false} FormatFromSkips(d: int, k: nat, i: nat)
    requires LargestFitting(d, i) && k <= i
    ensures FormatFrom(d, Units[k..]) == IntToString(d / Units[i].length) + Units[i].suffix
    decreases i - k
  {
    if k < i {
      FormatFromPast(d, k);
      FormatFromSkips(d, k + 1, i);
    } else {
      FormatFromAt(d, k);
    }
  }

  /** A unit longer than d is passed over. */
  lemma FormatFromPast(d: int, k: nat)
    requires k < |Units| && d < Units[k].length
    ensures FormatFrom(d, Units[k..]) == FormatFrom(d, Units[k + 1..])
  {
    assert Units[k..][0] == Units[k];
    assert Units[k..][1..] == Units[k + 1..];
  }

  /** A unit that fits in d ends the walk with d's quotient by it. */
  lemma FormatFromAt(d: int, k: nat)
    requires k < |Units| && Units[k].length <= d
    ensures FormatFrom(d, Units[k..]) == IntToString(d / Units[k].length) + Units[k].suffix
  {
    assert Units[k..][0] == Units[k];
  }

  lemma {:induction false} FormatFromEmpty(d: int, k: nat)
    requires k <= |Units| && d < Second
    ensures FormatFrom(d, Units[k..]) == ""
    decreases |Units| - k
  {
    if k < |Units| {
      assert Units[k..][1..] == Units[k + 1..];
      FormatFromEmpty(d, k + 1);
    }
  }

  /** A duration below one second (zero and negative ones included) has the empty label. */
  lemma FmtDurationEmptyIff(d: int)
    ensures FmtDuration(d) == "" <==> d < Second
  {
    if d < Second {
      FormatFromEmpty(d, 0);
    } else {
      var i := LargestFittingExists(d);
      FormatFromSkips(d, 0, i);
    }
  }

  /** From one second on, some unit of the ladder fits. */
  lemma LargestFittingExists(d: int) returns (i: int)
    requires d >= Second
    ensures LargestFitting(d, i)
  {
    i := 0;
    while Units[i].length > d
      invariant 0 <= i < |Units|
      invariant forall j :: 0 <= j < i ==> d < Units[j].length
      decreases |Units| - i
    {
      i := i + 1;
    }
  }

  /**
   * The label is the whole count of the largest fitting unit followed by that unit's
   * suffix; the count is at least one (the truncated quotient).
   */
  lemma FmtDurationLargestUnit(d: int, i: int)
    requires LargestFitting(d, i)
    ensures FmtDuration(d) == IntToString(d / Units[i].length) + Units[i].suffix
    ensures d / Units[i].length >= 1
  {
    assert Units[0..] == Units;
    FormatFromSkips(d, 0, i);
    QuotientAtLeastOne(d, Units[i].length);
  }

  lemma QuotientAtLeastOne(d: int, n: int)
    requires 0 < n <= d
    ensures d / n >= 1
  {
  }

  /** A label is empty or starts with a non-zero digit, never with a minus sign. */
  lemma FmtDurationShape(d: int)
    ensures var s := FmtDuration(d); s == "" || ('1' <= s[0] <= '9')
  {
    if d >= Second {
      var i := LargestFittingExists(d);
      FmtDurationLargestUnit(d, i);
    } else {
      FmtDurationEmptyIff(d);
    }
  }

  lemma FmtDurationExamples()
    ensures FmtDuration(3661 * Second) == "1h"
    ensures FmtDuration(59 * Second) == "59s"
    ensures FmtDuration(2 * Day) == "2d"
    ensures FmtDuration(0) == ""
    ensures FmtDuration(-5 * Second) == ""
  {
    FmtDurationLargestUnit(3661 * Second, 4);
    FmtDurationLargestUnit(59 * Second, 6);
    FmtDurationLargestUnit(2 * Day, 3);
    FmtDurationEmptyIff(0);
    FmtDurationEmptyIff(-5 * Second);
  }
}
