/**
 * The task list: the records the engine exports, the row insertRow renders for each
 * of them (with setCell's priority colouring and the signed Due column), the stable
 * sort by descending urgency and the separator widths computed at start-up.
 */
module Tasks {
  import opened Decimal
  import opened Durations
  import opened Wrappers

  /**
   * A timestamp field of the export: the empty string, a text that does not parse in
   * the engine's fixed layout, or an instant in nanoseconds.
   */
  datatype Stamp = NoStamp | Unparsable | At(nanos: int)

  /**
   * The fields of an exported task that the table shows. Urgency is counted in
   * hundredths, the precision of the column that displays it.
   */
  datatype Task = Task(
    id: int,
    description: string,
    due: Stamp,
    entry: Stamp,
    priority: string,
    project: string,
    urgency: int)

  /** The terminal colours setCell picks; DefaultColor is the zero value of the lookup. */
  datatype Color = Red | Grey250 | Grey245 | DefaultColor

  /** A table cell: never set, or a text with an explicit colour (None: the default style). */
  datatype Cell = Unset | Cell(text: string, color: Option<Color>)

  type Row = seq<Cell>

  const Columns: nat := 7

  const Headers: seq<string> := ["ID", "Age", "P", "Project", "Due", "Description", "Urg"]

  /** The priority-to-colour map; a priority outside it reads as the zero colour. */
  function PriorityColor(priority: string): Color {
    if priority == "H" then Red
    else if priority == "M" then Grey250
    else if priority == "L" then Grey245
    else DefaultColor
  }

  /** setCell: plain when the task has no priority, otherwise in the priority's colour. */
  function SetCell(priority: string, text: string): Cell {
    if priority == "" then Cell(text, None) else Cell(text, Some(PriorityColor(priority)))
  }

  /** The Age column: how long ago the task was entered; unset when the entry does not parse. */
  function AgeCell(t: Task, now: int): Cell {
    if t.entry.At? then SetCell(t.priority, FmtDuration(Sub(now, t.entry.nanos))) else Unset
  }

  /**
   * The Due column: an empty plain cell without a due date, unset when the date does
   * not parse, the time left when it lies ahead, and a minus sign followed by the time
   * elapsed otherwise.
   */
  function DueCell(t: Task, now: int): Cell {
    match t.due
    case NoStamp => Cell("", None)
    case Unparsable => Unset
    case At(due) =>
      if due > now then SetCell(t.priority, FmtDuration(Sub(due, now)))
      else SetCell(t.priority, "-" + FmtDuration(Sub(now, due)))
  }

  /** `%.2f` of an amount counted in hundredths. */
  function FormatUrgency(u: int): string {
    var m := if u < 0 then -u else u;
    (if u < 0 then "-" else "") + (NatToString(m / 100) + Cents(m % 100))
  }

  /** The point and the two decimals of c hundredths. */
  function Cents(c: nat): (r: string)
    requires c < 100
    ensures |r| == 3
  {
    "." + [DigitChar(c / 10), DigitChar(c % 10)]
  }

  /** insertRow: the seven cells of the row a task gets. */
  function RenderRow(t: Task, now: int): Row {
    [SetCell(t.priority, IntToString(t.id)),
     AgeCell(t, now),
     SetCell(t.priority, t.priority),
     SetCell(t.priority, t.project),
     DueCell(t, now),
     SetCell(t.priority, t.description),
     SetCell(t.priority, FormatUrgency(t.urgency))]
  }

  /** A row is written in the priority's colour, or plainly when there is no priority. */
  predicate Coloured(c: Cell, priority: string) {
    c.Cell? && (c.color.None? <==> priority == "") &&
    (priority != "" ==> c.color == Some(PriorityColor(priority)))
  }

  /**
   * The row has the seven columns in header order: the id (read back as the task's id),
   * the priority, project, description and `%.2f` urgency texts, all in the row's colour; Age and
   * Due follow the rules of AgeCellRule and DueCellRule.
   */
  lemma RenderRowLayout(t: Task, now: int)
    ensures var r := RenderRow(t, now);
      |r| == Columns == |Headers| &&
      (forall k :: 0 <= k < Columns && k != 1 && k != 4 ==> Coloured(r[k], t.priority)) &&
      (t.id >= 0 ==> AllDigits(r[0].text) && DigitsValue(r[0].text) == t.id) &&
      (t.id < 0 ==> r[0].text[0] == '-' && DigitsValue(r[0].text[1..]) == -t.id) &&
      r[2].text == t.priority && r[3].text == t.project && r[5].text == t.description &&
      r[6].text == FormatUrgency(t.urgency) &&
      r[1] == AgeCell(t, now) && r[4] == DueCell(t, now)
  {
    IntToStringCorrect(t.id);
  }

  /** The Age cell is set exactly when the entry timestamp parses, and never shows a sign. */
  lemma AgeCellRule(t: Task, now: int)
    ensures AgeCell(t, now).Unset? <==> !t.entry.At?
    ensures AgeCell(t, now).Cell? ==> Coloured(AgeCell(t, now), t.priority)
    ensures AgeCell(t, now).Cell? ==> var s := AgeCell(t, now).text; s == "" || IsDigit(s[0])
    ensures AgeCell(t, now).Cell? ==> (AgeCell(t, now).text == "" <==> now - t.entry.nanos < Second)
  {
    if t.entry.At? {
      FmtDurationShape(Sub(now, t.entry.nanos));
      FmtDurationEmptyIff(Sub(now, t.entry.nanos));
    }
  }

  /**
   * The Due sign rule: a parsed due date shows a leading minus exactly when it is not
   * after now; the rest of the text is the distance in the largest fitting unit.
   */
  lemma DueCellRule(t: Task, now: int)
    ensures DueCell(t, now).Unset? <==> t.due.Unparsable?
    ensures t.due.NoStamp? ==> DueCell(t, now) == Cell("", None)
    ensures t.due.At? ==> Coloured(DueCell(t, now), t.priority)
    ensures t.due.At? ==>
      var s := DueCell(t, now).text;
      (|s| > 0 && s[0] == '-' <==> t.due.nanos <= now)
    ensures t.due.At? && t.due.nanos <= now ==>
      DueCell(t, now).text[1..] == FmtDuration(Sub(now, t.due.nanos))
    ensures t.due.At? && t.due.nanos > now ==>
      DueCell(t, now).text == FmtDuration(Sub(t.due.nanos, now))
  {
    if t.due.At? {
      FmtDurationShape(Sub(t.due.nanos, now));
      var s := "-" + FmtDuration(Sub(now, t.due.nanos));
      assert s[1..] == FmtDuration(Sub(now, t.due.nanos));
    }
  }

  /** Two days ahead reads "2d", two days behind "-2d". */
  lemma DueCellExamples()
    ensures DueCell(Task(1, "x", At(2 * Day), NoStamp, "", "", 0), 0).text == "2d"
    ensures DueCell(Task(1, "x", At(-2 * Day), NoStamp, "", "", 0), 0).text == "-2d"
  {
    FmtDurationLargestUnit(2 * Day, 3);
  }

  lemma DigitCharInjective(a: nat, b: nat)
    requires a < 10 && b < 10 && DigitChar(a) == DigitChar(b)
    ensures a == b
  {
  }

  lemma CentsInjective(a: nat, b: nat)
    requires a < 100 && b < 100 && Cents(a) == Cents(b)
    ensures a == b
  {
    assert Cents(a)[1] == Cents(b)[1] && Cents(a)[2] == Cents(b)[2];
    DigitCharInjective(a / 10, b / 10);
    DigitCharInjective(a % 10, b % 10);
  }

  /** Equal texts whose tails have the same length have equal heads and tails. */
  lemma SplitEqual(h1: string, t1: string, h2: string, t2: string)
    requires h1 + t1 == h2 + t2 && |t1| == |t2|
    ensures h1 == h2 && t1 == t2
  {
    assert h1 == (h1 + t1)[..|h1|];
    assert h2 == (h2 + t2)[..|h2|];
    assert t1 == (h1 + t1)[|h1|..];
    assert t2 == (h2 + t2)[|h2|..];
  }

  /** Different urgencies never share a text: the column determines the hundredths. */
  lemma FormatUrgencyInjective(u: int, v: int)
    requires FormatUrgency(u) == FormatUrgency(v)
    ensures u == v
  {
    var mu := if u < 0 then -u else u;
    var mv := if v < 0 then -v else v;
    var nu, nv := NatToString(mu / 100), NatToString(mv / 100);
    var pu, pv := if u < 0 then "-" else "", if v < 0 then "-" else "";
    assert (u < 0) == (v < 0) by {
      assert FormatUrgency(u)[0] == (if u < 0 then '-' else nu[0]);
      assert FormatUrgency(v)[0] == (if v < 0 then '-' else nv[0]);
    }
    SplitEqual(pu, nu + Cents(mu % 100), pv, nv + Cents(mv % 100));
    SplitEqual(nu, Cents(mu % 100), nv, Cents(mv % 100));
    NatToStringInjective(mu / 100, mv / 100);
    CentsInjective(mu % 100, mv % 100);
  }

  /** The number of bytes the UTF-8 encoding of c takes. */
  function Utf8Width(c: char): nat {
    if c as int < 0x80 then 1
    else if c as int < 0x800 then 2
    else if c as int < 0x1_0000 then 3
    else 4
  }

  /** Go's `len` of a string: its length in UTF-8 bytes. */
  function ByteLen(s: string): nat {
    if s == [] then 0 else ByteLen(s[..|s| - 1]) + Utf8Width(s[|s| - 1])
  }

  /** A byte count is at least the character count, and equal to it for ASCII text. */
  lemma {:induction false} ByteLenBounds(s: string)
    ensures |s| <= ByteLen(s) <= 4 * |s|
    ensures (forall i :: 0 <= i < |s| ==> s[i] as int < 0x80) <==> ByteLen(s) == |s|
  {
    if s != [] {
      ByteLenBounds(s[..|s| - 1]);
      if ByteLen(s) == |s| {
        forall i | 0 <= i < |s|
          ensures s[i] as int < 0x80
        {
          if i < |s| - 1 {
            assert s[..|s| - 1][i] == s[i];
          }
        }
      }
    }
  }

  /** strings.Repeat("-", n). */
  function Dashes(n: nat): (r: string)
    ensures |r| == n && forall i :: 0 <= i < n ==> r[i] == '-'
  {
    seq(n, _ => '-')
  }

  /** The fixed header row. */
  function HeaderRow(): (r: Row)
    ensures |r| == Columns
  {
    seq(Columns, k requires 0 <= k < Columns => Cell(Headers[k], None))
  }

  /** The separator row under the header; the project and description dashes are as wide as the widest entry. */
  function SeparatorRow(project: nat, description: nat): (r: Row)
    ensures |r| == Columns
  {
    [Cell("--", None), Cell("---", None), Cell("--", None), Cell(Dashes(project), None),
     Cell("---", None), Cell(Dashes(description), None), Cell(Dashes(5), None)]
  }

  /** The widest project, in bytes, or 0 without tasks. */
  function ProjectWidth(ts: seq<Task>): nat {
    if ts == [] then 0
    else
      var w := ProjectWidth(ts[..|ts| - 1]);
      if ByteLen(ts[|ts| - 1].project) > w then ByteLen(ts[|ts| - 1].project) else w
  }

  /** The widest description, in bytes, or 0 without tasks. */
  function DescriptionWidth(ts: seq<Task>): nat {
    if ts == [] then 0
    else
      var w := DescriptionWidth(ts[..|ts| - 1]);
      if ByteLen(ts[|ts| - 1].description) > w then ByteLen(ts[|ts| - 1].description) else w
  }

  /**
   * The two running maxima of the start-up loop: the byte lengths of the widest project
   * and description.
   */
  method SeparatorWidths(tasks: seq<Task>) returns (project: nat, description: nat)
    ensures project == ProjectWidth(tasks) && description == DescriptionWidth(tasks)
  {
    project, description := 0, 0;
    for k := 0 to |tasks|
      invariant project == ProjectWidth(tasks[..k])
      invariant description == DescriptionWidth(tasks[..k])
    {
      assert tasks[..k + 1][..k] == tasks[..k];
      if ByteLen(tasks[k].project) > project {
        project := ByteLen(tasks[k].project);
      }
      if ByteLen(tasks[k].description) > description {
        description := ByteLen(tasks[k].description);
      }
    }
    assert tasks[..|tasks|] == tasks;
  }

  /** Highest urgency first. */
  predicate NonIncreasing(ts: seq<Task>) {
    forall i, j :: 0 <= i < j < |ts| ==> ts[i].urgency >= ts[j].urgency
  }

  /** The tasks of urgency u, in their order in ts. */
  function WithUrgency(ts: seq<Task>, u: int): seq<Task> {
    if ts == [] then []
    else WithUrgency(ts[..|ts| - 1], u) + (if ts[|ts| - 1].urgency == u then [ts[|ts| - 1]] else [])
  }

  /** Insertion into a non-increasing list, after every task at least as urgent. */
  function Insert(ts: seq<Task>, t: Task): seq<Task> {
    if ts == [] || ts[|ts| - 1].urgency >= t.urgency then ts + [t]
    else Insert(ts[..|ts| - 1], t) + [ts[|ts| - 1]]
  }

  lemma {:induction false} InsertSorted(ts: seq<Task>, t: Task)
    requires NonIncreasing(ts)
    ensures NonIncreasing(Insert(ts, t))
    ensures |Insert(ts, t)| == |ts| + 1
    ensures Insert(ts, t)[|ts|].urgency <= t.urgency
  {
    if ts != [] && ts[|ts| - 1].urgency < t.urgency {
      var init := ts[..|ts| - 1];
      InsertSorted(init, t);
      var r := Insert(init, t);
      var last := ts[|ts| - 1];
      forall i | 0 <= i < |r|
        ensures r[i].urgency >= last.urgency
      {
        if i < |r| - 1 {
          assert r[i].urgency >= r[|r| - 1].urgency;
          if |init| > 0 {
            assert r[|r| - 1].urgency <= t.urgency;
          }
        }
      }
      InsertSortedLast(init, t);
    }
  }

  /** Every task in Insert(ts, t) is ts's or t. */
  lemma {:induction false} InsertSortedLast(ts: seq<Task>, t: Task)
    ensures forall i :: 0 <= i < |Insert(ts, t)| ==> Insert(ts, t)[i] == t || Insert(ts, t)[i] in ts
  {
    if ts != [] && ts[|ts| - 1].urgency < t.urgency {
      InsertSortedLast(ts[..|ts| - 1], t);
    }
  }

  lemma {:induction false} WithUrgencyAppend(a: seq<Task>, b: seq<Task>, u: int)
    ensures WithUrgency(a + b, u) == WithUrgency(a, u) + WithUrgency(b, u)
    decreases |b|
  {
    if b == [] {
      assert a + b == a;
    } else {
      var b' := b[..|b| - 1];
      assert (a + b)[..|a + b| - 1] == a + b';
      WithUrgencyAppend(a, b', u);
    }
  }

  /** Insertion keeps the order among the tasks of every urgency, t joining its own group last. */
  lemma {:induction false} InsertStable(ts: seq<Task>, t: Task, u: int)
    ensures WithUrgency(Insert(ts, t), u) == WithUrgency(ts, u) + (if t.urgency == u then [t] else [])
  {
    if ts == [] || ts[|ts| - 1].urgency >= t.urgency {
      WithUrgencyAppend(ts, [t], u);
      WithUrgencyOne(t, u);
    } else {
      InsertStable(ts[..|ts| - 1], t, u);
      InsertStableStep(ts, t, u);
    }
  }

  /** Inserting before a less urgent last task: t's group and the last task's are apart. */
  lemma InsertStableStep(ts: seq<Task>, t: Task, u: int)
    requires ts != [] && ts[|ts| - 1].urgency < t.urgency
    requires WithUrgency(Insert(ts[..|ts| - 1], t), u) ==
      WithUrgency(ts[..|ts| - 1], u) + (if t.urgency == u then [t] else [])
    ensures WithUrgency(Insert(ts, t), u) == WithUrgency(ts, u) + (if t.urgency == u then [t] else [])
  {
    var init, last := ts[..|ts| - 1], ts[|ts| - 1];
    var mine := if t.urgency == u then [t] else [];
    var theirs := if last.urgency == u then [last] else [];
    assert Insert(ts, t) == Insert(init, t) + [last];
    WithUrgencyAppend(Insert(init, t), [last], u);
    WithUrgencyOne(last, u);
    assert WithUrgency(ts, u) == WithUrgency(init, u) + theirs;
    SwapApart(WithUrgency(init, u), mine, theirs);
  }

  /** Two additions of which one is empty can be made in either order. */
  lemma SwapApart(w: seq<Task>, x: seq<Task>, y: seq<Task>)
    requires x == [] || y == []
    ensures (w + x) + y == (w + y) + x
  {
  }

  lemma {:induction false} InsertPermutes(ts: seq<Task>, t: Task)
    ensures multiset(Insert(ts, t)) == multiset(ts) + multiset{t}
  {
    if ts != [] && ts[|ts| - 1].urgency < t.urgency {
      var init := ts[..|ts| - 1];
      InsertPermutes(init, t);
      assert ts == init + [ts[|ts| - 1]];
    }
  }

  /**
   * sort.SliceStable by descending urgency, as repeated insertion into the sorted
   * prefix (StableSortUnique shows every stable sort gives this list).
   */
  function SortedByUrgency(ts: seq<Task>): seq<Task> {
    if ts == [] then [] else Insert(SortedByUrgency(ts[..|ts| - 1]), ts[|ts| - 1])
  }

  lemma {:induction false} InsertLength(ts: seq<Task>, t: Task)
    ensures |Insert(ts, t)| == |ts| + 1
  {
    if ts != [] && ts[|ts| - 1].urgency < t.urgency {
      InsertLength(ts[..|ts| - 1], t);
    }
  }

  lemma {:induction false} SortedByUrgencyLength(ts: seq<Task>)
    ensures |SortedByUrgency(ts)| == |ts|
  {
    if ts != [] {
      SortedByUrgencyLength(ts[..|ts| - 1]);
      InsertLength(SortedByUrgency(ts[..|ts| - 1]), ts[|ts| - 1]);
    }
  }

  /** The insertion order is the stable descending order, a permutation of the input. */
  lemma SortedByUrgencyCorrect(ts: seq<Task>)
    ensures NonIncreasing(SortedByUrgency(ts))
    ensures multiset(SortedByUrgency(ts)) == multiset(ts)
    ensures forall u :: WithUrgency(SortedByUrgency(ts), u) == WithUrgency(ts, u)
  {
    SortedByUrgencySorted(ts);
    SortedByUrgencyPermutes(ts);
    forall u
      ensures WithUrgency(SortedByUrgency(ts), u) == WithUrgency(ts, u)
    {
      SortedByUrgencyStable(ts, u);
    }
  }

  lemma {:induction false} SortedByUrgencySorted(ts: seq<Task>)
    ensures NonIncreasing(SortedByUrgency(ts))
  {
    if ts != [] {
      SortedByUrgencySorted(ts[..|ts| - 1]);
      InsertSorted(SortedByUrgency(ts[..|ts| - 1]), ts[|ts| - 1]);
    }
  }

  lemma {:induction false} SortedByUrgencyPermutes(ts: seq<Task>)
    ensures multiset(SortedByUrgency(ts)) == multiset(ts)
  {
    if ts != [] {
      var init, last := ts[..|ts| - 1], ts[|ts| - 1];
      SortedByUrgencyPermutes(init);
      InsertPermutes(SortedByUrgency(init), last);
      assert ts == init + [last];
      SnocMultiset(init, last);
    }
  }

  lemma SnocMultiset(init: seq<Task>, last: Task)
    ensures multiset(init + [last]) == multiset(init) + multiset{last}
  {
  }

  lemma {:induction false} SortedByUrgencyStable(ts: seq<Task>, u: int)
    ensures WithUrgency(SortedByUrgency(ts), u) == WithUrgency(ts, u)
  {
    if ts != [] {
      var init, last := ts[..|ts| - 1], ts[|ts| - 1];
      SortedByUrgencyStable(init, u);
      InsertStable(SortedByUrgency(init), last, u);
    }
  }

  /** The separator widths are the largest byte lengths, and 0 without tasks. */
  lemma {:induction false} WidthsAreMaxima(ts: seq<Task>)
    ensures forall i :: 0 <= i < |ts| ==> ByteLen(ts[i].project) <= ProjectWidth(ts)
    ensures ProjectWidth(ts) == 0 || exists i :: 0 <= i < |ts| && ByteLen(ts[i].project) == ProjectWidth(ts)
    ensures forall i :: 0 <= i < |ts| ==> ByteLen(ts[i].description) <= DescriptionWidth(ts)
    ensures DescriptionWidth(ts) == 0 ||
      exists i :: 0 <= i < |ts| && ByteLen(ts[i].description) == DescriptionWidth(ts)
  {
    if ts != [] {
      var init := ts[..|ts| - 1];
      WidthsAreMaxima(init);
      assert forall i :: 0 <= i < |init| ==> init[i] == ts[i];
    }
  }

  lemma WithUrgencyOne(t: Task, u: int)
    ensures WithUrgency([t], u) == if t.urgency == u then [t] else []
  {
    assert [t][..0] == [];
  }

  lemma {:induction false} WithUrgencyAbsent(ts: seq<Task>, u: int)
    requires forall i :: 0 <= i < |ts| ==> ts[i].urgency != u
    ensures WithUrgency(ts, u) == []
  {
    if ts != [] {
      WithUrgencyAbsent(ts[..|ts| - 1], u);
    }
  }

  /**
   * A stable sort has only one possible result: two non-increasing lists that agree on
   * the order within every urgency are equal. So any stable sorting algorithm yields
   * what SortedByUrgency yields.
   */
  lemma {:induction false} StableSortUnique(a: seq<Task>, b: seq<Task>)
    requires NonIncreasing(a) && NonIncreasing(b)
    requires forall u :: WithUrgency(a, u) == WithUrgency(b, u)
    ensures a == b
    decreases |a|
  {
    SameGroupsBothEmpty(a, b);
    if a != [] {
      SameGroupsSameLast(a, b);
      var a', b' := a[..|a| - 1], b[..|b| - 1];
      SameGroupsInit(a, b, a', b');
      StableSortUnique(a', b');
      assert a == a' + [a[|a| - 1]] && b == b' + [b[|b| - 1]];
    }
  }

  lemma SameGroupsBothEmpty(a: seq<Task>, b: seq<Task>)
    requires forall u :: WithUrgency(a, u) == WithUrgency(b, u)
    ensures a == [] <==> b == []
  {
    if a != [] {
      assert WithUrgency(a, a[|a| - 1].urgency) != [];
    }
    if b != [] {
      assert WithUrgency(b, b[|b| - 1].urgency) != [];
    }
  }

  /** The last task of a non-increasing list is the last of the least urgent group. */
  lemma SameGroupsSameLast(a: seq<Task>, b: seq<Task>)
    requires NonIncreasing(a) && NonIncreasing(b) && a != [] && b != []
    requires forall u :: WithUrgency(a, u) == WithUrgency(b, u)
    ensures a[|a| - 1] == b[|b| - 1]
  {
    LastUrgencyBound(a, b);
    LastUrgencyBound(b, a);
    LastOfGroup(a);
    LastOfGroup(b);
  }

  /** The last task of a list closes the group of its urgency. */
  lemma LastOfGroup(a: seq<Task>)
    requires a != []
    ensures var w := WithUrgency(a, a[|a| - 1].urgency); w != [] && w[|w| - 1] == a[|a| - 1]
  {
  }

  /** Some task of a has the urgency of a's last one, so b cannot end more urgent. */
  lemma LastUrgencyBound(a: seq<Task>, b: seq<Task>)
    requires NonIncreasing(b) && a != [] && b != []
    requires forall u :: WithUrgency(a, u) == WithUrgency(b, u)
    ensures a[|a| - 1].urgency >= b[|b| - 1].urgency
  {
    var u := a[|a| - 1].urgency;
    assert WithUrgency(a, u) != [];
    if u < b[|b| - 1].urgency {
      BelowLastAbsent(b, u);
    }
  }

  /** No task of a non-increasing list is less urgent than its last one. */
  lemma BelowLastAbsent(b: seq<Task>, u: int)
    requires NonIncreasing(b) && b != [] && u < b[|b| - 1].urgency
    ensures WithUrgency(b, u) == []
  {
    forall i | 0 <= i < |b|
      ensures b[i].urgency != u
    {
      if i < |b| - 1 {
        assert b[i].urgency >= b[|b| - 1].urgency;
      }
    }
    WithUrgencyAbsent(b, u);
  }

  /** Dropping the same last task from both lists keeps their groups equal. */
  lemma SameGroupsInit(a: seq<Task>, b: seq<Task>, a': seq<Task>, b': seq<Task>)
    requires a != [] && b != [] && a[|a| - 1] == b[|b| - 1]
    requires a' == a[..|a| - 1] && b' == b[..|b| - 1]
    requires forall u :: WithUrgency(a, u) == WithUrgency(b, u)
    ensures forall u :: WithUrgency(a', u) == WithUrgency(b', u)
  {
    forall u
      ensures WithUrgency(a', u) == WithUrgency(b', u)
    {
      var wa, wb := WithUrgency(a, u), WithUrgency(b, u);
      if u == a[|a| - 1].urgency {
        assert wa == WithUrgency(a', u) + [a[|a| - 1]];
        assert wb == WithUrgency(b', u) + [b[|b| - 1]];
        assert WithUrgency(a', u) == wa[..|wa| - 1];
        assert WithUrgency(b', u) == wb[..|wb| - 1];
      } else {
        assert wa == WithUrgency(a', u);
        assert wb == WithUrgency(b', u);
      }
    }
  }

  /**
   * Exported as c, a, b where a and b are equally urgent and c less so: whatever stable
   * sort is used, the table shows a, b, c; a and b keep their export order.
   */
  lemma SortExample(a: Task, b: Task, c: Task, sorted: seq<Task>)
    requires a.urgency == b.urgency > c.urgency
    requires NonIncreasing(sorted)
    requires forall u :: WithUrgency(sorted, u) == WithUrgency([c, a, b], u)
    ensures sorted == [a, b, c]
  {
    forall u
      ensures WithUrgency([a, b, c], u) == WithUrgency([c, a, b], u)
    {
      SortExampleGroups(a, b, c, u);
    }
    StableSortUnique(sorted, [a, b, c]);
  }

  lemma SortExampleGroups(a: Task, b: Task, c: Task, u: int)
    requires a.urgency == b.urgency != c.urgency
    ensures WithUrgency([a, b, c], u) == WithUrgency([c, a, b], u)
  {
    WithUrgencyOne(a, u);
    WithUrgencyOne(b, u);
    WithUrgencyOne(c, u);
    assert [a, b] + [c] == [a, b, c] && [a] + [b] == [a, b];
    assert [c, a] + [b] == [c, a, b] && [c] + [a] == [c, a];
    WithUrgencyAppend([a, b], [c], u);
    WithUrgencyAppend([a], [b], u);
    WithUrgencyAppend([c, a], [b], u);
    WithUrgencyAppend([c], [a], u);
  }
}
