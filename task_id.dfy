/**
 * getTaskID: the id announced by the engine's confirmation line, as the first match of
 * the regular expression `Created task (\d+).` yields it. The final `.` is unescaped, so
 * it stands for any one character other than a newline. Go's matcher picks the leftmost
 * match, and at that position the one a backtracking matcher meets first: the digit
 * group takes as many digits as it can while still leaving one character for the `.`.
 */
module TaskIds {
  import opened Decimal
  import opened Wrappers

  const Prefix: string := "Created task "

  /** The regular expression matches at p with a digit group of k digits. */
  predicate MatchesPattern(s: string, p: int, k: int) {
    0 <= p && 1 <= k && p + |Prefix| + k < |s| &&
    s[p..p + |Prefix|] == Prefix &&
    AllDigits(s[p + |Prefix|..p + |Prefix| + k]) &&
    s[p + |Prefix| + k] != '\n'
  }

  /** The length of the run of digits that starts at i. */
  function DigitRun(s: string, i: nat): (n: nat)
    requires i <= |s|
    ensures i + n <= |s|
    ensures forall j :: i <= j < i + n ==> IsDigit(s[j])
    ensures i + n == |s| || !IsDigit(s[i + n])
    decreases |s| - i
  {
    if i < |s| && IsDigit(s[i]) then 1 + DigitRun(s, i + 1) else 0
  }

  /** The digit group of the match that starts at p, if the expression matches there. */
  function MatchAt(s: string, p: nat): Option<string>
    requires p <= |s|
  {
    if p + |Prefix| <= |s| && s[p..p + |Prefix|] == Prefix then
      var d := p + |Prefix|;
      var n := DigitRun(s, d);
      if n >= 1 && d + n < |s| && s[d + n] != '\n' then Some(s[d..d + n])
      else if n >= 2 then Some(s[d..d + n - 1])
      else None
    else None
  }

  /** The first match at p or later. */
  function FindFrom(s: string, p: nat): Option<string>
    requires p <= |s|
    decreases |s| - p
  {
    if p == |s| then None
    else if MatchAt(s, p).Some? then MatchAt(s, p)
    else FindFrom(s, p + 1)
  }

  /** getTaskID: the digit group of the first match, or "" when there is none. */
  function TaskID(s: string): (id: string)
    ensures id == "" || (AllDigits(id) && IsDigit(id[0]))
  {
    var m := FindFrom(s, 0);
    if m.Some? then
      FindFromDigits(s, 0);
      m.value
    else ""
  }

  /** Whatever is found is a non-empty run of digits. */
  lemma {:induction false} FindFromDigits(s: string, p: nat)
    requires p <= |s|
    ensures FindFrom(s, p).Some? ==> |FindFrom(s, p).value| > 0 && AllDigits(FindFrom(s, p).value)
    decreases |s| - p
  {
    if p < |s| && MatchAt(s, p).None? {
      FindFromDigits(s, p + 1);
    }
  }

  /**
   * MatchAt is exactly the expression at p: it finds something iff some digit group
   * fits, and then it returns the longest one that fits.
   */
  lemma MatchAtCorrect(s: string, p: nat)
    requires p <= |s|
    ensures MatchAt(s, p).Some? <==> MatchesAt(s, p)
    ensures MatchAt(s, p).Some? ==> LongestAt(s, p, MatchAt(s, p).value)
  {
    if p + |Prefix| <= |s| && s[p..p + |Prefix|] == Prefix {
      var d := p + |Prefix|;
      var n := DigitRun(s, d);
      forall k | MatchesPattern(s, p, k)
        ensures k <= n && (k == n ==> d + n < |s| && s[d + n] != '\n')
      {
        forall j | d <= j < d + k
          ensures IsDigit(s[j])
        {
          assert s[d..d + k][j - d] == s[j];
        }
      }
      if n >= 1 && d + n < |s| && s[d + n] != '\n' {
        assert AllDigits(s[d..d + n]);
        assert MatchesPattern(s, p, n);
      } else if n >= 2 {
        assert AllDigits(s[d..d + n - 1]);
        assert MatchesPattern(s, p, n - 1);
      }
    }
  }

  /** The expression matches at q with some digit group. */
  ghost predicate MatchesAt(s: string, q: int) {
    exists k :: MatchesPattern(s, q, k)
  }

  /** r is the digit group of the longest match at p. */
  ghost predicate LongestAt(s: string, p: int, r: string) {
    MatchesPattern(s, p, |r|) &&
    r == s[p + |Prefix|..p + |Prefix| + |r|] &&
    forall k :: MatchesPattern(s, p, k) ==> k <= |r|
  }

  /** The expression matches at no position in [a, b). */
  ghost predicate NoMatchIn(s: string, a: int, b: int) {
    forall q :: a <= q < b ==> !MatchesAt(s, q)
  }

  /** FindFrom returns the match at the smallest position from p on. */
  lemma {:induction false} FindFromLeftmost(s: string, p: nat) returns (q: nat)
    requires p <= |s|
    ensures FindFrom(s, p).None? ==> q == |s| && !MatchesAt(s, |s|)
    ensures FindFrom(s, p).Some? ==> p <= q < |s| && FindFrom(s, p) == MatchAt(s, q)
    ensures NoMatchIn(s, p, q)
    decreases |s| - p
  {
    if p == |s| {
      q := p;
      assert !MatchesAt(s, |s|);
    } else {
      MatchAtCorrect(s, p);
      if MatchAt(s, p).None? {
        q := FindFromLeftmost(s, p + 1);
      } else {
        q := p;
      }
    }
  }

  /**
   * A non-empty id is the digit group of the leftmost match, taken as long as the
   * trailing any-character still fits.
   */
  lemma TaskIDFound(s: string) returns (p: nat)
    requires TaskID(s) != ""
    ensures MatchesPattern(s, p, |TaskID(s)|)
    ensures TaskID(s) == s[p + |Prefix|..p + |Prefix| + |TaskID(s)|]
    ensures forall q, k :: 0 <= q < p ==> !MatchesPattern(s, q, k)
    ensures forall k :: MatchesPattern(s, p, k) ==> k <= |TaskID(s)|
  {
    p := FindFromLeftmost(s, 0);
    MatchAtCorrect(s, p);
    forall q, k | 0 <= q < p
      ensures !MatchesPattern(s, q, k)
    {
      assert !MatchesAt(s, q);
    }
  }

  /** The id is empty exactly when the expression matches nowhere. */
  lemma TaskIDEmptyIff(s: string)
    ensures TaskID(s) == "" <==> forall p, k :: !MatchesPattern(s, p, k)
  {
    var q := FindFromLeftmost(s, 0);
    if TaskID(s) == "" {
      forall p, k | MatchesPattern(s, p, k)
        ensures false
      {
        assert MatchesAt(s, p);
      }
    } else {
      MatchAtCorrect(s, q);
    }
  }

  /** The engine's usual line yields its id; without the trailing character the group loses a digit. */
  lemma TaskIDExamples()
    ensures TaskID("Created task 42.") == "42"
    ensures TaskID("Created task 42") == "4"
    ensures TaskID("Created task 7") == ""
  {
    var a := "Created task 42.";
    assert a[..13] == Prefix;
    assert DigitRun(a, 15) == 0;
    assert DigitRun(a, 13) == 2;
    assert a[13..15] == "42";
    var b := "Created task 42";
    assert b[..13] == Prefix;
    assert DigitRun(b, 13) == 2;
    assert b[13..14] == "4";
    var c := "Created task 7";
    assert c[..13] == Prefix;
    assert DigitRun(c, 13) == 1;
    assert FindFrom(c, 1) == None;
  }
}
