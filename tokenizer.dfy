/**
 * splitFields: the text typed for a new task is cut into engine arguments at spaces,
 * except inside a region opened and closed by single quotes. The quotes stay in the
 * arguments. It is strings.FieldsFunc driven by a closure that flips an `inQuotes`
 * flag at each quote character it is shown.
 */
module Tokenizer {

  /** The number of single quotes in s. */
  function QuoteCount(s: string): nat {
    if s == [] then 0
    else QuoteCount(s[..|s| - 1]) + (if s[|s| - 1] == '\'' then 1 else 0)
  }

  /** The value of the `inQuotes` flag once the closure has been shown every character of s. */
  predicate InQuotes(s: string) {
    QuoteCount(s) % 2 == 1
  }

  /** Position i is a split point: a space seen while the flag is off. */
  predicate IsSplitPoint(s: string, i: int)
    requires 0 <= i < |s|
  {
    s[i] == ' ' && !InQuotes(s[..i + 1])
  }

  /** The closure's answer for every position of s, in order. */
  function SplitMask(s: string): (m: seq<bool>)
    ensures |m| == |s|
  {
    seq(|s|, i requires 0 <= i < |s| => IsSplitPoint(s, i))
  }

  lemma SplitMaskAt(s: string, i: nat)
    requires i < |s|
    ensures SplitMask(s)[i] == IsSplitPoint(s, i)
  {
  }

  /** Showing the closure one more character flips the flag exactly on a quote. */
  lemma QuoteStep(s: string, i: nat)
    requires i < |s|
    ensures InQuotes(s[..i + 1]) == (InQuotes(s[..i]) != (s[i] == '\''))
  {
    assert s[..i + 1][..i] == s[..i];
  }

  /**
   * strings.FieldsFunc over a separator mask: the maximal runs of characters whose
   * mask bit is off, in order. Defined by adding one character at a time at the end.
   */
  function Fields(s: string, sep: seq<bool>): (r: seq<string>)
    requires |sep| == |s|
    ensures |s| > 0 && !sep[|s| - 1] ==> |r| > 0
  {
    if s == [] then []
    else
      var n := |s|;
      Push(Fields(s[..n - 1], sep[..n - 1]), s[n - 1], sep[n - 1], n > 1 && !sep[n - 2])
  }

  /**
   * One step of FieldsFunc: a separator ends the current field; any other character
   * extends the field in progress (`inField`) or starts a new one.
   */
  function Push(fields: seq<string>, c: char, isSep: bool, inField: bool): (r: seq<string>)
    requires inField ==> |fields| > 0
    ensures !isSep ==> |r| > 0
  {
    if isSep then fields
    else if inField then fields[..|fields| - 1] + [fields[|fields| - 1] + [c]]
    else fields + [[c]]
  }

  lemma PushAfter(a: seq<string>, b: seq<string>, c: char, isSep: bool, inField: bool)
    requires inField ==> |b| > 0
    ensures Push(a + b, c, isSep, inField) == a + Push(b, c, isSep, inField)
  {
    if !isSep && inField {
      assert (a + b)[..|a + b| - 1] == a + b[..|b| - 1];
    }
  }

  /** The characters of s that are not separators, in order. */
  function Kept(s: string, sep: seq<bool>): string
    requires |sep| == |s|
  {
    if s == [] then []
    else Kept(s[..|s| - 1], sep[..|s| - 1]) + (if sep[|s| - 1] then [] else [s[|s| - 1]])
  }

  function Concat(ss: seq<string>): string {
    if ss == [] then [] else Concat(ss[..|ss| - 1]) + ss[|ss| - 1]
  }

  function Last(ss: seq<string>): string
    requires |ss| > 0
  {
    ss[|ss| - 1]
  }

  predicate EndsWith(t: string, u: string) {
    |u| <= |t| && t[|t| - |u|..] == u
  }

  /** The number of positions where a run of non-separators begins. */
  function RunStarts(s: string, sep: seq<bool>): nat
    requires |sep| == |s|
  {
    if s == [] then 0
    else
      RunStarts(s[..|s| - 1], sep[..|s| - 1]) +
      (if !sep[|s| - 1] && (|s| == 1 || sep[|s| - 2]) then 1 else 0)
  }

  /** splitFields, as the scan that FieldsFunc performs with the quote-tracking closure. */
  method SplitFields(s: string) returns (fields: seq<string>)
    ensures fields == Fields(s, SplitMask(s))
  {
    ghost var mask := SplitMask(s);
    var inQuotes := false;
    var start := -1;  // where the field being scanned began, or -1 between fields
    fields := [];
    for i := 0 to |s|
      invariant inQuotes == InQuotes(s[..i])
      invariant -1 <= start < i
      invariant start >= 0 <==> (i > 0 && !mask[i - 1])
      invariant start >= 0 ==> Fields(s[..i], mask[..i]) == fields + [s[start..i]]
      invariant start < 0 ==> Fields(s[..i], mask[..i]) == fields
    {
      QuoteStep(s, i);
      SplitMaskAt(s, i);
      if s[i] == '\'' {
        inQuotes := !inQuotes;
      }
      var isSplit := s[i] == ' ' && !inQuotes;
      assert isSplit == mask[i];
      ghost var before := Fields(s[..i], mask[..i]);
      ghost var after := Fields(s[..i + 1], mask[..i + 1]);
      assert after == Push(before, s[i], isSplit, start >= 0) by {
        FieldsPrefixStep(s, mask, i);
      }
      if isSplit {
        if start >= 0 {
          fields := fields + [s[start..i]];
          start := -1;
        }
      } else if start < 0 {
        assert after == fields + [s[i..i + 1]] by {
          assert before == fields;
          PushStart(fields, s[i]);
          assert s[i..i + 1] == [s[i]];
        }
        start := i;
      } else {
        assert after == fields + [s[start..i + 1]] by {
          PushExtend(fields, s[start..i], s[i]);
          SliceSnoc(s, start, i);
        }
      }
    }
    assert s[..|s|] == s && mask[..|s|] == mask;
    if start >= 0 {
      fields := fields + [s[start..]];
    }
  }

  lemma PushStart(fields: seq<string>, c: char)
    ensures Push(fields, c, false, false) == fields + [[c]]
  {
  }

  lemma PushExtend(fields: seq<string>, tok: string, c: char)
    ensures Push(fields + [tok], c, false, true) == fields + [tok + [c]]
  {
    assert (fields + [tok])[..|fields|] == fields;
  }

  lemma SliceSnoc(s: string, a: nat, b: nat)
    requires a <= b < |s|
    ensures s[a..b] + [s[b]] == s[a..b + 1]
  {
  }

  /** Fields of a longer prefix: one more step of the scan. */
  lemma FieldsPrefixStep(s: string, sep: seq<bool>, i: nat)
    requires |sep| == |s| && i < |s|
    ensures Fields(s[..i + 1], sep[..i + 1]) ==
      Push(Fields(s[..i], sep[..i]), s[i], sep[i], i > 0 && !sep[i - 1])
  {
    assert s[..i + 1][..i] == s[..i];
    assert sep[..i + 1][..i] == sep[..i];
  }

  /** No field is empty. */
  lemma {:induction false} FieldsNonEmpty(s: string, sep: seq<bool>)
    requires |sep| == |s|
    ensures forall k :: 0 <= k < |Fields(s, sep)| ==> |Fields(s, sep)[k]| > 0
  {
    if s != [] {
      FieldsNonEmpty(s[..|s| - 1], sep[..|s| - 1]);
    }
  }

  /** Joining the fields back gives the input with exactly its separators removed. */
  lemma {:induction false} FieldsConcat(s: string, sep: seq<bool>)
    requires |sep| == |s|
    ensures Concat(Fields(s, sep)) == Kept(s, sep)
  {
    if s != [] {
      var s', sep' := s[..|s| - 1], sep[..|s| - 1];
      var init := Fields(s', sep');
      FieldsConcat(s', sep');
      var c := s[|s| - 1];
      if !sep[|s| - 1] {
        if |s| > 1 && !sep[|s| - 2] {
          var front := init[..|init| - 1];
          assert init == front + [init[|init| - 1]];
          assert Concat(init) == Concat(front) + init[|init| - 1];
          var r := front + [init[|init| - 1] + [c]];
          assert r[..|r| - 1] == front;
        } else {
          var r := init + [[c]];
          assert r[..|r| - 1] == init;
        }
      }
    }
  }

  /** There is one field per run of non-separators. */
  lemma {:induction false} FieldsCount(s: string, sep: seq<bool>)
    requires |sep| == |s|
    ensures |Fields(s, sep)| == RunStarts(s, sep)
  {
    if s != [] {
      FieldsCount(s[..|s| - 1], sep[..|s| - 1]);
    }
  }

  /** No field contains a separator character: for the quote closure, no split-point space. */
  lemma {:induction false} FieldsAvoidSeparators(s: string, sep: seq<bool>, c: char)
    requires |sep| == |s|
    requires forall i :: 0 <= i < |s| && s[i] == c ==> sep[i]
    ensures forall k :: 0 <= k < |Fields(s, sep)| ==> c !in Fields(s, sep)[k]
  {
    if s != [] {
      var s', sep' := s[..|s| - 1], sep[..|s| - 1];
      FieldsAvoidSeparators(s', sep', c);
    }
  }

  /**
   * If every position from j on is a non-separator, the last field ends with all of
   * s[j..]: nothing after j is ever split off.
   */
  lemma {:induction false} FieldsTailRun(s: string, sep: seq<bool>, j: nat)
    requires |sep| == |s| && j < |s|
    requires forall k :: j <= k < |s| ==> !sep[k]
    ensures |Fields(s, sep)| > 0 && EndsWith(Last(Fields(s, sep)), s[j..])
    decreases |s|
  {
    var n := |s|;
    if n - 1 == j {
      TailRunStart(s, sep, j);
    } else {
      FieldsTailRun(s[..n - 1], sep[..n - 1], j);
      TailRunStep(s, sep, j);
    }
  }

  /** The run that starts at the last character: the last field ends with it. */
  lemma TailRunStart(s: string, sep: seq<bool>, j: nat)
    requires |sep| == |s| && j == |s| - 1 && !sep[j]
    ensures |Fields(s, sep)| > 0 && EndsWith(Last(Fields(s, sep)), s[j..])
  {
    var n := |s|;
    var inField := n > 1 && !sep[n - 2];
    var init := Fields(s[..n - 1], sep[..n - 1]);
    FieldsLast(s, sep);
    assert s[j..] == [s[n - 1]];
    EndsWithSnoc(if inField then Last(init) else [], [], s[n - 1]);
  }

  /** One more non-separator extends both the last field and the run it ends with. */
  lemma TailRunStep(s: string, sep: seq<bool>, j: nat)
    requires |sep| == |s| && j + 1 < |s| && !sep[|s| - 1] && !sep[|s| - 2]
    requires var init := Fields(s[..|s| - 1], sep[..|s| - 1]);
      |init| > 0 && EndsWith(Last(init), s[..|s| - 1][j..])
    ensures |Fields(s, sep)| > 0 && EndsWith(Last(Fields(s, sep)), s[j..])
  {
    var n := |s|;
    var s' := s[..n - 1];
    var init := Fields(s', sep[..n - 1]);
    FieldsLast(s, sep);
    assert s[j..] == s'[j..] + [s[n - 1]];
    EndsWithSnoc(Last(init), s'[j..], s[n - 1]);
  }

  lemma FieldsLast(s: string, sep: seq<bool>)
    requires |sep| == |s| && |s| > 0 && !sep[|s| - 1]
    ensures var n := |s|; var init := Fields(s[..n - 1], sep[..n - 1]);
      |Fields(s, sep)| > 0 &&
      Last(Fields(s, sep)) == (if n > 1 && !sep[n - 2] then Last(init) else []) + [s[n - 1]]
  {
  }

  lemma EndsWithSnoc(t: string, u: string, c: char)
    requires EndsWith(t, u)
    ensures EndsWith(t + [c], u + [c])
  {
    assert (t + [c])[|t + [c]| - |u + [c]|..] == t[|t| - |u|..] + [c];
  }

  /** Quotes seen after position j: none, so the count stays that of s[..j + 1]. */
  lemma {:induction false} QuoteCountAfter(s: string, j: nat)
    requires j < |s|
    requires forall k :: j < k < |s| ==> s[k] != '\''
    ensures QuoteCount(s) == QuoteCount(s[..j + 1])
    decreases |s|
  {
    if |s| == j + 1 {
      assert s[..j + 1] == s;
    } else {
      var s' := s[..|s| - 1];
      assert s'[..j + 1] == s[..j + 1];
      QuoteCountAfter(s', j);
    }
  }

  /**
   * An odd number of quotes leaves the flag on after the last quote: every later
   * space is kept, and the last field ends with everything from that quote on.
   */
  lemma UnbalancedQuoteKeepsTail(s: string, j: nat)
    requires j < |s| && s[j] == '\''
    requires forall k :: j < k < |s| ==> s[k] != '\''
    requires InQuotes(s)
    ensures forall k :: j <= k < |s| ==> !IsSplitPoint(s, k)
    ensures |Fields(s, SplitMask(s))| > 0 && EndsWith(Last(Fields(s, SplitMask(s))), s[j..])
  {
    forall k | j <= k < |s|
      ensures !IsSplitPoint(s, k)
    {
      if k > j {
        assert s[..k + 1][..j + 1] == s[..j + 1];
        QuoteCountAfter(s[..k + 1], j);
        QuoteCountAfter(s, j);
      }
    }
    forall k | j <= k < |s|
      ensures !SplitMask(s)[k]
    {
      SplitMaskAt(s, k);
    }
    FieldsTailRun(s, SplitMask(s), j);
  }

  /** splitFields returns no empty field, loses nothing but the split-point spaces, and gives one field per run. */
  lemma SplitFieldsProperties(s: string)
    ensures var f := Fields(s, SplitMask(s));
      (forall k :: 0 <= k < |f| ==> |f[k]| > 0) &&
      Concat(f) == Kept(s, SplitMask(s)) &&
      |f| == RunStarts(s, SplitMask(s))
  {
    FieldsNonEmpty(s, SplitMask(s));
    FieldsConcat(s, SplitMask(s));
    FieldsCount(s, SplitMask(s));
  }

  /** The closure's answers on the example line: only the two unquoted spaces split. */
  lemma SplitMaskExample()
    ensures SplitMask(ExampleLine) == ExampleMask
  {
    ExampleQuoteCountsLow();
    ExampleQuoteCountsHigh();
  }

  /** The quotes seen by the closure up to each of the first ten characters of the example line. */
  lemma ExampleQuoteCountsLow()
    ensures var s := ExampleLine;
      QuoteCount(s[..1]) == 0 && QuoteCount(s[..2]) == 0 && QuoteCount(s[..3]) == 0 &&
      QuoteCount(s[..4]) == 0 && QuoteCount(s[..5]) == 1 && QuoteCount(s[..6]) == 1 &&
      QuoteCount(s[..7]) == 1 && QuoteCount(s[..8]) == 1 && QuoteCount(s[..9]) == 1 &&
      QuoteCount(s[..10]) == 1
  {
    var s := ExampleLine;
    assert s[..1][..0] == s[..0];
    assert QuoteCount(s[..1]) == 0;
    assert s[..2][..1] == s[..1];
    assert QuoteCount(s[..2]) == 0;
    assert s[..3][..2] == s[..2];
    assert QuoteCount(s[..3]) == 0;
    assert s[..4][..3] == s[..3];
    assert QuoteCount(s[..4]) == 0;
    assert s[..5][..4] == s[..4];
    assert QuoteCount(s[..5]) == 1;
    assert s[..6][..5] == s[..5];
    assert QuoteCount(s[..6]) == 1;
    assert s[..7][..6] == s[..6];
    assert QuoteCount(s[..7]) == 1;
    assert s[..8][..7] == s[..7];
    assert QuoteCount(s[..8]) == 1;
    assert s[..9][..8] == s[..8];
    assert QuoteCount(s[..9]) == 1;
    assert s[..10][..9] == s[..9];
    assert QuoteCount(s[..10]) == 1;
  }

  /** The same for the last ten characters. */
  lemma ExampleQuoteCountsHigh()
    ensures var s := ExampleLine;
      QuoteCount(s[..11]) == 1 && QuoteCount(s[..12]) == 1 && QuoteCount(s[..13]) == 1 &&
      QuoteCount(s[..14]) == 2 && QuoteCount(s[..15]) == 2 && QuoteCount(s[..16]) == 2 &&
      QuoteCount(s[..17]) == 2 && QuoteCount(s[..18]) == 2 && QuoteCount(s[..19]) == 2 &&
      QuoteCount(s[..20]) == 2
  {
    var s := ExampleLine;
    ExampleQuoteCountsLow();
    assert s[..11][..10] == s[..10];
    assert QuoteCount(s[..11]) == 1;
    assert s[..12][..11] == s[..11];
    assert QuoteCount(s[..12]) == 1;
    assert s[..13][..12] == s[..12];
    assert QuoteCount(s[..13]) == 1;
    assert s[..14][..13] == s[..13];
    assert QuoteCount(s[..14]) == 2;
    assert s[..15][..14] == s[..14];
    assert QuoteCount(s[..15]) == 2;
    assert s[..16][..15] == s[..15];
    assert QuoteCount(s[..16]) == 2;
    assert s[..17][..16] == s[..16];
    assert QuoteCount(s[..17]) == 2;
    assert s[..18][..17] == s[..17];
    assert QuoteCount(s[..18]) == 2;
    assert s[..19][..18] == s[..18];
    assert QuoteCount(s[..19]) == 2;
    assert s[..20][..19] == s[..19];
    assert QuoteCount(s[..20]) == 2;
  }

  /** A stretch without separators is a single field. */
  lemma {:induction false} FieldsNoSeparator(s: string, sep: seq<bool>)
    requires |sep| == |s| && s != []
    requires forall k :: 0 <= k < |s| ==> !sep[k]
    ensures Fields(s, sep) == [s]
  {
    var n := |s|;
    if n == 1 {
      assert s[..0] == [] && sep[..0] == [];
      assert s == [s[0]];
    } else {
      FieldsNoSeparator(s[..n - 1], sep[..n - 1]);
      var init := Fields(s[..n - 1], sep[..n - 1]);
      assert init[..|init| - 1] == [];
      assert s[..n - 1] + [s[n - 1]] == s;
    }
  }

  /** A separator cuts the input in two parts whose fields are split independently. */
  lemma {:induction false} FieldsSplitAt(s: string, sep: seq<bool>, k: nat)
    requires |sep| == |s| && k < |s| && sep[k]
    ensures Fields(s, sep) == Fields(s[..k], sep[..k]) + Fields(s[k + 1..], sep[k + 1..])
    decreases |s|
  {
    var n := |s|;
    if n == k + 1 {
      SplitAtEnd(s, sep, k);
    } else {
      FieldsSplitAt(s[..n - 1], sep[..n - 1], k);
      SplitAtStep(s, sep, k);
    }
  }

  /** A separator at the very end adds no field. */
  lemma SplitAtEnd(s: string, sep: seq<bool>, k: nat)
    requires |sep| == |s| && k == |s| - 1 && sep[k]
    ensures Fields(s, sep) == Fields(s[..k], sep[..k]) + Fields(s[k + 1..], sep[k + 1..])
  {
    FieldsLastStep(s, sep);
    assert s[k + 1..] == [];
  }

  /** Adding a character after the split point only changes the right-hand part. */
  lemma SplitAtStep(s: string, sep: seq<bool>, k: nat)
    requires |sep| == |s| && k + 1 < |s| && sep[k]
    requires var s', sep' := s[..|s| - 1], sep[..|s| - 1];
      Fields(s', sep') == Fields(s'[..k], sep'[..k]) + Fields(s'[k + 1..], sep'[k + 1..])
    ensures Fields(s, sep) == Fields(s[..k], sep[..k]) + Fields(s[k + 1..], sep[k + 1..])
  {
    var n := |s|;
    SplitAtStepWhole(s, sep, k);
    SuffixLastStep(s, sep, k);
    PushJoin(Fields(s, sep), Fields(s[k + 1..], sep[k + 1..]), Fields(s[..k], sep[..k]),
      Fields(s[..n - 1][k + 1..], sep[..n - 1][k + 1..]), s[n - 1], sep[n - 1], !sep[n - 2]);
  }

  lemma PushJoin(whole: seq<string>, right: seq<string>, a: seq<string>, b: seq<string>,
                 c: char, isSep: bool, inField: bool)
    requires inField ==> |b| > 0
    requires whole == Push(a + b, c, isSep, inField) && right == Push(b, c, isSep, inField)
    ensures whole == a + right
  {
    PushAfter(a, b, c, isSep, inField);
  }

  /** The whole input, one character after the split point: a push onto both parts. */
  lemma SplitAtStepWhole(s: string, sep: seq<bool>, k: nat)
    requires |sep| == |s| && k + 1 < |s| && sep[k]
    requires var s', sep' := s[..|s| - 1], sep[..|s| - 1];
      Fields(s', sep') == Fields(s'[..k], sep'[..k]) + Fields(s'[k + 1..], sep'[k + 1..])
    ensures var n := |s|;
      Fields(s, sep) == Push(Fields(s[..k], sep[..k]) +
        Fields(s[..n - 1][k + 1..], sep[..n - 1][k + 1..]), s[n - 1], sep[n - 1], !sep[n - 2])
  {
    var n := |s|;
    FieldsLastStep(s, sep);
    assert s[..n - 1][..k] == s[..k] && sep[..n - 1][..k] == sep[..k];
  }

  /** One unfolding of Fields at the last character, for the part after position k. */
  lemma SuffixLastStep(s: string, sep: seq<bool>, k: nat)
    requires |sep| == |s| && k + 1 < |s| && sep[k]
    ensures var n := |s|;
      Fields(s[k + 1..], sep[k + 1..]) ==
      Push(Fields(s[..n - 1][k + 1..], sep[..n - 1][k + 1..]), s[n - 1], sep[n - 1], !sep[n - 2])
    ensures var n := |s|; !sep[n - 2] ==> |Fields(s[..n - 1][k + 1..], sep[..n - 1][k + 1..])| > 0
  {
    var n := |s|;
    if !sep[n - 2] {
      FieldsLastNonSep(s[..n - 1][k + 1..], sep[..n - 1][k + 1..]);
    }
    FieldsLastStep(s[k + 1..], sep[k + 1..]);
    SuffixSlices(s, sep, k);
  }

  /** Dropping the last character and the first k + 1 commute. */
  lemma SuffixSlices(s: string, sep: seq<bool>, k: nat)
    requires |sep| == |s| && k + 1 < |s|
    ensures var n, t, tsep := |s|, s[k + 1..], sep[k + 1..];
      t[..|t| - 1] == s[..n - 1][k + 1..] && tsep[..|t| - 1] == sep[..n - 1][k + 1..] &&
      t[|t| - 1] == s[n - 1] && tsep[|t| - 1] == sep[n - 1] &&
      (|t| > 1 ==> tsep[|t| - 2] == sep[n - 2])
  {
  }

  /** One unfolding of Fields at the last character. */
  lemma FieldsLastStep(s: string, sep: seq<bool>)
    requires |sep| == |s| && |s| > 0
    ensures Fields(s, sep) ==
      Push(Fields(s[..|s| - 1], sep[..|s| - 1]), s[|s| - 1], sep[|s| - 1], |s| > 1 && !sep[|s| - 2])
  {
  }

  lemma FieldsLastNonSep(s: string, sep: seq<bool>)
    requires |sep| == |s| && |s| > 0 && !sep[|s| - 1]
    ensures |Fields(s, sep)| > 0
  {
  }

  /** No position in [lo, hi) of the mask is a separator. */
  predicate NoSeparatorIn(m: seq<bool>, lo: nat, hi: nat)
    requires hi <= |m|
    decreases hi - lo
  {
    lo >= hi || (!m[lo] && NoSeparatorIn(m, lo + 1, hi))
  }

  lemma {:induction false} NoSeparatorInAll(m: seq<bool>, lo: nat, hi: nat)
    requires hi <= |m| && NoSeparatorIn(m, lo, hi)
    ensures forall k :: lo <= k < hi ==> !m[k]
    decreases hi - lo
  {
    if lo < hi {
      NoSeparatorInAll(m, lo + 1, hi);
    }
  }

  lemma PrefixSingleField(s: string, m: seq<bool>, i: nat)
    requires |m| == |s| && 0 < i <= |s| && NoSeparatorIn(m, 0, i)
    ensures Fields(s[..i], m[..i]) == [s[..i]]
  {
    NoSeparatorInAll(m, 0, i);
    FieldsNoSeparator(s[..i], m[..i]);
  }

  lemma MiddleSingleField(s: string, m: seq<bool>, i: nat, j: nat)
    requires |m| == |s| && i < j <= |s| && NoSeparatorIn(m, i, j)
    ensures Fields(s[i..j], m[i..j]) == [s[i..j]]
  {
    NoSeparatorInAll(m, i, j);
    forall k | 0 <= k < j - i
      ensures !m[i..j][k]
    {
      assert m[i..j][k] == m[i + k];
    }
    FieldsNoSeparator(s[i..j], m[i..j]);
  }

  lemma SuffixSingleField(s: string, m: seq<bool>, j: nat)
    requires |m| == |s| && j < |s| && NoSeparatorIn(m, j, |s|)
    ensures Fields(s[j..], m[j..]) == [s[j..]]
  {
    NoSeparatorInAll(m, j, |s|);
    forall k | 0 <= k < |s| - j
      ensures !m[j..][k]
    {
      assert m[j..][k] == m[j + k];
    }
    FieldsNoSeparator(s[j..], m[j..]);
  }

  /** One separator strictly inside: two fields. */
  lemma FieldsOneSeparator(s: string, m: seq<bool>, i: nat)
    requires |m| == |s| && 0 < i && i + 1 < |s| && m[i]
    requires NoSeparatorIn(m, 0, i) && NoSeparatorIn(m, i + 1, |s|)
    ensures Fields(s, m) == [s[..i], s[i + 1..]]
  {
    FieldsSplitAt(s, m, i);
    PrefixSingleField(s, m, i);
    SuffixSingleField(s, m, i + 1);
  }

  /** Two separators strictly inside and apart: three fields. */
  lemma FieldsTwoSeparators(s: string, m: seq<bool>, i: nat, j: nat)
    requires |m| == |s| && 0 < i && i + 1 < j && j + 1 < |s| && m[i] && m[j]
    requires NoSeparatorIn(m, 0, i) && NoSeparatorIn(m, i + 1, j) && NoSeparatorIn(m, j + 1, |s|)
    ensures Fields(s, m) == [s[..i], s[i + 1..j], s[j + 1..]]
  {
    FieldsSplitAt(s, m, i);
    PrefixSingleField(s, m, i);
    FieldsAfterFirstSeparator(s, m, i, j);
  }

  lemma FieldsAfterFirstSeparator(s: string, m: seq<bool>, i: nat, j: nat)
    requires |m| == |s| && i + 1 < j && j + 1 < |s| && m[j]
    requires NoSeparatorIn(m, i + 1, j) && NoSeparatorIn(m, j + 1, |s|)
    ensures Fields(s[i + 1..], m[i + 1..]) == [s[i + 1..j], s[j + 1..]]
  {
    var r, rm := s[i + 1..], m[i + 1..];
    FieldsSplitAt(r, rm, j - i - 1);
    assert r[..j - i - 1] == s[i + 1..j] && rm[..j - i - 1] == m[i + 1..j];
    MiddleSingleField(s, m, i + 1, j);
    assert r[j - i..] == s[j + 1..] && rm[j - i..] == m[j + 1..];
    SuffixSingleField(s, m, j + 1);
  }

  /** A line for the examples below, and the split points of its two unquoted spaces. */
  const ExampleLine: string := "add 'buy milk' +home"
  const ExampleMask: seq<bool> := [false, false, false, true, false, false, false, false, false, false,
                                   false, false, false, false, true, false, false, false, false, false]

  lemma ExampleLineSlices()
    ensures ExampleLine[..3] == "add"
    ensures ExampleLine[4..14] == "'buy milk'"
    ensures ExampleLine[15..] == "+home"
  {
  }

  lemma ExampleMaskGaps()
    ensures NoSeparatorIn(ExampleMask, 0, 3)
    ensures NoSeparatorIn(ExampleMask, 4, 14)
    ensures NoSeparatorIn(ExampleMask, 15, 20)
  {
  }

  lemma FieldsExample()
    ensures Fields(ExampleLine, ExampleMask) == ["add", "'buy milk'", "+home"]
  {
    ExampleMaskGaps();
    FieldsTwoSeparators(ExampleLine, ExampleMask, 3, 14);
    ExampleLineSlices();
  }

  /** The quoted space stays inside its argument; the quotes are kept. */
  lemma SplitFieldsExample()
    ensures Fields(ExampleLine, SplitMask(ExampleLine)) == ["add", "'buy milk'", "+home"]
  {
    SplitMaskExample();
    FieldsExample();
  }
}
