/**
 * The dashboard controller: the task table (header, separator, one row per task), the
 * screen on top of it (the table, the new-task entry or the delete confirmation), the
 * entry text, the detail pane, the command log and the list of engine commands issued.
 *
 * The engine is not called: each event that runs a command takes the engine's
 * response as a parameter, and the command's argument list is recorded.
 */
module Dashboard {
  import opened Decimal
  import opened Wrappers
  import opened Tokenizer
  import opened TaskIds
  import opened Tasks

  /** What the engine answered: whether it exited successfully, and its combined output. */
  datatype Response = Response(succeeded: bool, output: string)

  /**
   * Which page has the keyboard: the table, the new-task entry, or the delete
   * confirmation, which remembers the row and id it was opened for and its prompt.
   */
  datatype Mode = Normal | CreateEntry | ConfirmDelete(row: int, taskID: string, prompt: string)

  /** The whole observable state of the dashboard. */
  datatype Screen = Screen(
    table: seq<Row>,
    mode: Mode,
    entry: string,
    detail: string,
    log: string,
    issued: seq<seq<string>>)

  /** The entry field accepts at most this many characters. */
  const MaxEntryLength: nat := 100

  const CancelButton: string := "Cancel"
  const DeleteButton: string := "Delete"

  /** runCommand's value: the output on success, nothing on failure. */
  function CommandResult(r: Response): string {
    if r.succeeded then r.output else ""
  }

  /** What runCommand writes to the log: the output and a newline, on failure only. */
  function CommandLogEntry(r: Response): string {
    if r.succeeded then "" else r.output + "\n"
  }

  /** The table's RemoveRow: an index outside the table changes nothing. */
  function RemoveAt(rows: seq<Row>, i: int): (r: seq<Row>)
    ensures 0 <= i < |rows| ==> (|r| == |rows| - 1 &&
      (forall k :: 0 <= k < i ==> r[k] == rows[k]) &&
      (forall k :: i <= k < |r| ==> r[k] == rows[k + 1]))
    ensures !(0 <= i < |rows|) ==> r == rows
  {
    if 0 <= i < |rows| then rows[..i] + rows[i + 1..] else rows
  }

  /** GetCell(row, col).Text: the empty text for a cell that is missing or was never set. */
  function CellText(table: seq<Row>, row: int, col: int): string {
    if 0 <= row < |table| && 0 <= col < |table[row]| && table[row][col].Cell? then
      table[row][col].text
    else ""
  }

  /** strings.TrimSuffix(s, "\n"). */
  function TrimNewline(s: string): string {
    if |s| > 0 && s[|s| - 1] == '\n' then s[..|s| - 1] else s
  }

  /** The text before the first newline: element 0 of strings.Split(s, "\n"). */
  function LineBefore(s: string): (r: string)
    ensures '\n' !in r && r <= s
    ensures |r| < |s| ==> s[|r|] == '\n'
  {
    if s == [] || s[0] == '\n' then [] else [s[0]] + LineBefore(s[1..])
  }

  /**
   * The first line of the engine's answer to `add`. Split always yields at least one
   * element, so there is always a first line, possibly empty.
   */
  function FirstLine(s: string): string {
    LineBefore(TrimNewline(s))
  }

  /** Trimming the final newline never changes the first line. */
  lemma {:induction false} FirstLineIsPrefix(s: string)
    ensures '\n' !in FirstLine(s) && FirstLine(s) <= s
    ensures |FirstLine(s)| < |s| ==> s[|FirstLine(s)|] == '\n'
    ensures FirstLine(s) == LineBefore(s)
  {
    var t := TrimNewline(s);
    if t != s {
      LineBeforeTrim(s);
    }
  }

  lemma {:induction false} LineBeforeTrim(s: string)
    requires |s| > 0 && s[|s| - 1] == '\n'
    ensures LineBefore(s[..|s| - 1]) == LineBefore(s)
    decreases |s|
  {
    if |s| > 1 && s[0] != '\n' {
      assert s[..|s| - 1][1..] == s[1..][..|s| - 2];
      LineBeforeTrim(s[1..]);
    }
  }

  /** The question the delete confirmation asks. */
  function DeletePrompt(taskID: string, description: string): string {
    "Delete task " + taskID + " '" + description + "'?"
  }

  /** The command that deletes a task without the engine asking again. */
  function DeleteCommand(taskID: string): seq<string> {
    ["rc.confirmation=off", taskID, "delete"]
  }

  predicate IsDeleteCommand(args: seq<string>) {
    |args| == 3 && args[0] == "rc.confirmation=off" && args[2] == "delete"
  }

  /** Every row has the seven columns, and the entry text fits the field. */
  predicate ValidScreen(s: Screen) {
    (forall i :: 0 <= i < |s.table| ==> |s.table[i]| == Columns) && |s.entry| <= MaxEntryLength
  }

  /** runCommand: the command is issued, and a failure is written to the log. */
  function Issue(s: Screen, args: seq<string>, r: Response): Screen {
    s.(issued := s.issued + [args], log := s.log + CommandLogEntry(r))
  }

  /** The task rows insertRow appends at start-up, in order. */
  function RenderRows(ts: seq<Task>, now: int): (rows: seq<Row>)
    ensures |rows| == |ts|
  {
    if ts == [] then [] else RenderRows(ts[..|ts| - 1], now) + [RenderRow(ts[|ts| - 1], now)]
  }

  /** The header, the separator sized to the widest entries, and one row per task. */
  function StartTable(sorted: seq<Task>, now: int): seq<Row> {
    [HeaderRow(), SeparatorRow(ProjectWidth(sorted), DescriptionWidth(sorted))] + RenderRows(sorted, now)
  }

  /**
   * The screen after start-up: the header, the separator sized to the widest project and
   * description, the rows of the tasks by descending urgency, and the detail of the
   * table's second row, which is the separator row, so the engine is asked about "--".
   */
  function Loaded(loaded: seq<Task>, now: int, detailOut: Response): Screen {
    var table := StartTable(SortedByUrgency(loaded), now);
    var s := Screen(table, Normal, "", "", "", [["+PENDING", "export"]]);
    var s' := Issue(s, [CellText(table, 1, 0)], detailOut);
    s'.(detail := CommandResult(detailOut))
  }

  /**
   * A key typed while the table has the keyboard: `a` opens the entry, `e` edits and
   * `d` completes the selected task, `x` asks to delete it. In the entry a key is
   * typed into the text if it fits; the confirmation ignores keys. The keys 1 and 2 are
   * taken by the application in every mode.
   */
  function OnKey(s: Screen, c: char, row: int, r: Response): Screen {
    if c == '1' || c == '2' then s
    else
      match s.mode
      case Normal =>
        var id := CellText(s.table, row, 0);
        if c == 'a' then s.(mode := CreateEntry)
        else if c == 'e' then Issue(s, [id, "edit"], r)
        else if c == 'd' then
          var s' := Issue(s, [id, "done"], r);
          s'.(table := RemoveAt(s.table, row), log := s'.log + CommandResult(r) + "\n")
        else if c == 'x' then
          s.(mode := ConfirmDelete(row, id, DeletePrompt(id, CellText(s.table, row, 5))))
        else s
      case CreateEntry =>
        if |s.entry| + 1 <= MaxEntryLength then s.(entry := s.entry + [c]) else s
      case ConfirmDelete(_, _, _) => s
  }

  /** Escape closes the entry or the confirmation, keeping the rows and the entry text. */
  function OnEscape(s: Screen): Screen {
    if s.mode.Normal? then s else s.(mode := Normal)
  }

  /**
   * Enter in the entry: `add` with the split text, then `export` of the id read from the
   * first line of the answer. The program stops when that export did not succeed
   * or holds no task; otherwise the first task exported gets a row at the end.
   */
  function OnEnter(s: Screen, addOut: Response, exportOut: Response, exported: seq<Task>, now: int): Screen {
    if !s.mode.CreateEntry? then s
    else
      var s1 := Issue(s, ["add"] + Fields(s.entry, SplitMask(s.entry)), addOut);
      var id := TaskID(FirstLine(CommandResult(addOut)));
      var s2 := Issue(s1, [id, "export"], exportOut);
      if EnterPanics(s, exportOut, exported) then s2
      else s2.(table := s2.table + [RenderRow(exported[0], now)], mode := Normal)
  }

  /** The export cannot be decoded (a failed command yields no output) or is empty. */
  predicate EnterPanics(s: Screen, exportOut: Response, exported: seq<Task>) {
    s.mode.CreateEntry? && (!exportOut.succeeded || exported == [])
  }

  /**
   * A button of the delete confirmation: Cancel closes it; Delete removes the row it was
   * opened for, deletes the task, and gives the keyboard back to the table while any
   * row is left.
   */
  function OnButton(s: Screen, button: string, r: Response): Screen {
    match s.mode
    case ConfirmDelete(row, id, _) =>
      if button == CancelButton then s.(mode := Normal)
      else if button == DeleteButton then
        var s' := Issue(s.(table := RemoveAt(s.table, row)), DeleteCommand(id), r);
        if |s'.table| > 0 then s'.(mode := Normal) else s'
      else s
    case _ => s
  }

  /** Selecting a row shows the engine's description of its task; the header row clears it. */
  function OnSelect(s: Screen, row: int, r: Response): Screen {
    if row == 0 then s.(detail := "")
    else
      var s' := Issue(s, [CellText(s.table, row, 0)], r);
      s'.(detail := CommandResult(r))
  }

  /** The start-up screen, field by field. */
  lemma LoadedFields(loaded: seq<Task>, now: int, detailOut: Response)
    ensures Loaded(loaded, now, detailOut) == Screen(StartTable(SortedByUrgency(loaded), now),
      Normal, "", CommandResult(detailOut), CommandLogEntry(detailOut),
      [["+PENDING", "export"], ["--"]])
  {
    StartTableShape(SortedByUrgency(loaded), now);
  }

  /** Start-up gives a well-formed screen with one row per loaded task after the two fixed rows. */
  lemma LoadedShape(loaded: seq<Task>, now: int, detailOut: Response)
    ensures ValidScreen(Loaded(loaded, now, detailOut))
    ensures |Loaded(loaded, now, detailOut).table| == |loaded| + 2
    ensures Loaded(loaded, now, detailOut).issued == [["+PENDING", "export"], ["--"]]
  {
    var sorted := SortedByUrgency(loaded);
    SortedByUrgencyLength(loaded);
    StartTableShape(sorted, now);
    LoadedFields(loaded, now, detailOut);
  }

  lemma StartTableShape(sorted: seq<Task>, now: int)
    ensures var t := StartTable(sorted, now);
      |t| == |sorted| + 2 && CellText(t, 1, 0) == "--" &&
      forall i :: 0 <= i < |t| ==> |t[i]| == Columns
  {
    StartTableWidth(sorted, now);
    assert StartTable(sorted, now)[1] == SeparatorRow(ProjectWidth(sorted), DescriptionWidth(sorted));
  }

  lemma StartTableWidth(sorted: seq<Task>, now: int)
    ensures forall i :: 0 <= i < |StartTable(sorted, now)| ==> |StartTable(sorted, now)[i]| == Columns
  {
    var t := StartTable(sorted, now);
    var rows := RenderRows(sorted, now);
    RenderRowsWidth(sorted, now);
    forall i | 0 <= i < |t|
      ensures |t[i]| == Columns
    {
      if i >= 2 {
        assert t[i] == rows[i - 2];
      }
    }
  }

  lemma {:induction false} RenderRowsWidth(ts: seq<Task>, now: int)
    ensures forall i :: 0 <= i < |RenderRows(ts, now)| ==> |RenderRows(ts, now)[i]| == Columns
  {
    if ts != [] {
      RenderRowsWidth(ts[..|ts| - 1], now);
    }
  }

  lemma RenderRowsSnoc(ts: seq<Task>, i: nat, now: int)
    requires i < |ts|
    ensures RenderRows(ts[..i + 1], now) == RenderRows(ts[..i], now) + [RenderRow(ts[i], now)]
  {
    assert ts[..i + 1][..i] == ts[..i];
  }

  /** The rows are those of the tasks, one each and in order. */
  lemma {:induction false} RenderRowsAt(ts: seq<Task>, now: int, i: nat)
    requires i < |ts|
    ensures RenderRows(ts, now)[i] == RenderRow(ts[i], now)
  {
    if i < |ts| - 1 {
      RenderRowsAt(ts[..|ts| - 1], now, i);
    }
  }

  /** Every event keeps the screen well formed. */
  lemma KeyKeepsValid(s: Screen, c: char, row: int, r: Response)
    requires ValidScreen(s)
    ensures ValidScreen(OnKey(s, c, row, r))
  {
  }

  lemma EnterKeepsValid(s: Screen, r: Response, r2: Response, exported: seq<Task>, now: int)
    requires ValidScreen(s)
    ensures ValidScreen(OnEnter(s, r, r2, exported, now))
  {
    if s.mode.CreateEntry? && !EnterPanics(s, r2, exported) {
      RenderRowLayout(exported[0], now);
    }
  }

  lemma ButtonKeepsValid(s: Screen, button: string, r: Response)
    requires ValidScreen(s)
    ensures ValidScreen(OnButton(s, button, r))
  {
  }

  lemma EscapeAndSelectKeepValid(s: Screen, row: int, r: Response)
    requires ValidScreen(s)
    ensures ValidScreen(OnEscape(s))
    ensures ValidScreen(OnSelect(s, row, r))
  {
  }

  /**
   * Only the Delete button of an open confirmation deletes, and it deletes the task
   * whose id the confirmation captured when it was opened.
   */
  lemma DeleteOnlyFromConfirmation(s: Screen, c: char, row: int, button: string, r: Response,
                                   r2: Response, exported: seq<Task>, now: int)
    ensures OnKey(s, c, row, r).issued == s.issued ||
      (|OnKey(s, c, row, r).issued| == |s.issued| + 1 &&
       OnKey(s, c, row, r).issued[..|s.issued|] == s.issued &&
       !IsDeleteCommand(OnKey(s, c, row, r).issued[|s.issued|]))
    ensures OnEscape(s).issued == s.issued
    ensures OnSelect(s, row, r).issued == s.issued ||
      OnSelect(s, row, r).issued == s.issued + [[CellText(s.table, row, 0)]]
    ensures OnButton(s, button, r).issued != s.issued <==>
      s.mode.ConfirmDelete? && button == DeleteButton
    ensures s.mode.ConfirmDelete? && button == DeleteButton ==>
      OnButton(s, button, r).issued == s.issued + [DeleteCommand(s.mode.taskID)]
  {
  }

  /** Creation issues `add` and `export`, neither of which deletes. */
  lemma CreateNeverDeletes(s: Screen, r: Response, r2: Response, exported: seq<Task>, now: int)
    requires s.mode.CreateEntry?
    ensures var t := OnEnter(s, r, r2, exported, now);
      |t.issued| == |s.issued| + 2 && t.issued[..|s.issued|] == s.issued &&
      t.issued[|s.issued|][0] == "add" && t.issued[|s.issued| + 1][1] == "export"
  {
  }

  /** Cancel and Escape leave the rows, the log and the commands as they were. */
  lemma CancelKeepsRows(s: Screen, r: Response)
    requires s.mode.ConfirmDelete?
    ensures OnButton(s, CancelButton, r) == s.(mode := Normal)
    ensures OnEscape(s) == s.(mode := Normal)
  {
  }

  /** Asking to delete and then cancelling (by button or Escape) is no change at all. */
  lemma ConfirmThenCancel(s: Screen, row: int, r: Response, r2: Response)
    requires s.mode.Normal?
    ensures OnButton(OnKey(s, 'x', row, r), CancelButton, r2) == s
    ensures OnEscape(OnKey(s, 'x', row, r)) == s
  {
  }

  /** Opening the entry and leaving with Escape changes nothing; typed text is kept. */
  lemma EntryThenEscape(s: Screen, c: char, row: int, r: Response)
    requires s.mode.Normal? && c != '1' && c != '2'
    ensures OnEscape(OnKey(s, 'a', row, r)) == s
    ensures |s.entry| < MaxEntryLength ==>
      OnEscape(OnKey(OnKey(s, 'a', row, r), c, row, r)) == s.(entry := s.entry + [c])
  {
  }

  /**
   * Completing a task removes exactly the selected row, whatever the engine answered;
   * the rows above stay and the rows below move up by one.
   */
  lemma DoneRemovesRow(s: Screen, row: int, r: Response)
    requires s.mode.Normal? && 0 <= row < |s.table|
    ensures var t := OnKey(s, 'd', row, r).table;
      |t| == |s.table| - 1 &&
      (forall k :: 0 <= k < row ==> t[k] == s.table[k]) &&
      (forall k :: row <= k < |t| ==> t[k] == s.table[k + 1])
    ensures OnKey(s, 'd', row, r).issued == s.issued + [[CellText(s.table, row, 0), "done"]]
  {
  }

  /** Deleting from the confirmation removes the row captured when it opened. */
  lemma DeleteRemovesCapturedRow(s: Screen, row: int, r: Response, r2: Response)
    requires s.mode.Normal? && 0 <= row < |s.table|
    ensures var t := OnButton(OnKey(s, 'x', row, r), DeleteButton, r2);
      t.table == RemoveAt(s.table, row) &&
      t.issued == s.issued + [DeleteCommand(CellText(s.table, row, 0))] &&
      (|t.table| > 0 <==> t.mode.Normal?)
  {
  }

  /**
   * A successful creation appends exactly one row, the first exported task's, and leaves
   * every earlier row as it was.
   */
  lemma CreateAppendsRow(s: Screen, addOut: Response, exportOut: Response, exported: seq<Task>, now: int)
    requires s.mode.CreateEntry? && !EnterPanics(s, exportOut, exported)
    ensures var t := OnEnter(s, addOut, exportOut, exported, now).table;
      |t| == |s.table| + 1 && t[..|s.table|] == s.table && t[|s.table|] == RenderRow(exported[0], now)
    ensures OnEnter(s, addOut, exportOut, exported, now).mode == Normal
  {
  }

  /**
   * The confirmation opens only from the table: `x` in Normal mode is the one event that
   * reaches ConfirmDelete from any other mode, so no delete is issued without a prior `x`.
   */
  lemma OnlyXOpensConfirmation(s: Screen, c: char, row: int, button: string, r: Response,
                               r2: Response, exported: seq<Task>, now: int)
    requires !s.mode.ConfirmDelete?
    ensures OnKey(s, c, row, r).mode.ConfirmDelete? <==> s.mode.Normal? && c == 'x'
    ensures !OnEscape(s).mode.ConfirmDelete?
    ensures !OnEnter(s, r, r2, exported, now).mode.ConfirmDelete?
    ensures !OnButton(s, button, r).mode.ConfirmDelete?
    ensures !OnSelect(s, row, r).mode.ConfirmDelete?
  {
  }

  /**
   * Creating a task and then completing its new row, the last one, gives back the table
   * as it was before the creation, and completes the task whose id the new row shows.
   */
  lemma CreateThenDone(s: Screen, addOut: Response, exportOut: Response, exported: seq<Task>,
                       now: int, r: Response)
    requires s.mode.CreateEntry? && !EnterPanics(s, exportOut, exported)
    ensures OnKey(OnEnter(s, addOut, exportOut, exported, now), 'd', |s.table|, r).table == s.table
    ensures OnKey(OnEnter(s, addOut, exportOut, exported, now), 'd', |s.table|, r).issued[|s.issued| + 2]
      == [IntToString(exported[0].id), "done"]
  {
    var t := OnEnter(s, addOut, exportOut, exported, now);
    assert t.table[|s.table|] == RenderRow(exported[0], now);
    assert t.table[..|s.table|] == s.table;
  }

  /** The dashboard as the program holds it: the table widget, the pages, the entry field, the views. */
  class Dashboard {
    var table: seq<Row>
    var mode: Mode
    var entry: string
    var detail: string
    var log: string
    var issued: seq<seq<string>>

    function State(): Screen
      reads this
    {
      Screen(table, mode, entry, detail, log, issued)
    }

    ghost predicate Valid()
      reads this
    {
      ValidScreen(State())
    }

    /** The start-up sequence of main. */
    constructor Load(loaded: seq<Task>, now: int, detailOut: Response)
      ensures Valid()
      ensures State() == Loaded(loaded, now, detailOut)
    {
      table := [HeaderRow()];
      mode := Normal;
      entry := "";
      detail := "";
      log := "";
      issued := [["+PENDING", "export"]];
      new;
      var sorted := SortedByUrgency(loaded);
      FillTable(sorted, now);
      StartTableShape(sorted, now);
      LoadedFields(loaded, now, detailOut);
      LoadedShape(loaded, now, detailOut);
      if |table| > 1 {
        detail := Run([CellText(table, 1, 0)], detailOut);
      }
      assert issued == [["+PENDING", "export"], ["--"]];
      assert log == CommandLogEntry(detailOut) && detail == CommandResult(detailOut);
    }

    /** Below the header: the separator sized to the widest entries, then the tasks' rows. */
    method FillTable(sorted: seq<Task>, now: int)
      requires table == [HeaderRow()]
      modifies this
      ensures State() == old(State()).(table := StartTable(sorted, now))
    {
      var project, description := SeparatorWidths(sorted);
      table := table + [SeparatorRow(project, description)];
      InsertRows(sorted, now);
    }

    /** runCommand. */
    method Run(args: seq<string>, r: Response) returns (out: string)
      modifies this
      ensures State() == Issue(old(State()), args, r)
      ensures out == CommandResult(r)
    {
      issued := issued + [args];
      if r.succeeded {
        out := r.output;
      } else {
        log := log + r.output + "\n";
        out := "";
      }
    }

    /** insertRow: the task's row after the last one. */
    method InsertRow(t: Task, now: int)
      modifies this
      ensures State() == old(State()).(table := old(table) + [RenderRow(t, now)])
    {
      table := table + [RenderRow(t, now)];
    }

    /** insertRow for each task in turn. */
    method InsertRows(ts: seq<Task>, now: int)
      modifies this
      ensures State() == old(State()).(table := old(table) + RenderRows(ts, now))
    {
      for i := 0 to |ts|
        invariant table == old(table) + RenderRows(ts[..i], now)
        invariant mode == old(mode) && entry == old(entry) && detail == old(detail)
        invariant log == old(log) && issued == old(issued)
      {
        RenderRowsSnoc(ts, i, now);
        InsertRow(ts[i], now);
      }
      assert ts[..|ts|] == ts;
    }

    /** The table's RemoveRow. */
    method RemoveRow(row: int)
      modifies this
      ensures State() == old(State()).(table := RemoveAt(old(table), row))
    {
      if 0 <= row < |table| {
        table := table[..row] + table[row + 1..];
      }
    }

    method Key(c: char, row: int, r: Response)
      requires Valid()
      modifies this
      ensures Valid()
      ensures State() == OnKey(old(State()), c, row, r)
    {
      if c == '1' || c == '2' {
        return;
      }
      match mode
      case Normal =>
        if c == 'a' {
          mode := CreateEntry;
        } else if c == 'e' {
          var _ := Run([CellText(table, row, 0), "edit"], r);
        } else if c == 'd' {
          var out := Run([CellText(table, row, 0), "done"], r);
          RemoveRow(row);
          log := log + out + "\n";
        } else if c == 'x' {
          var taskID := CellText(table, row, 0);
          var description := CellText(table, row, 5);
          mode := ConfirmDelete(row, taskID, DeletePrompt(taskID, description));
        }
      case CreateEntry =>
        if |entry| + 1 <= MaxEntryLength {
          entry := entry + [c];
        }
      case ConfirmDelete(_, _, _) =>
    }

    method Escape()
      requires Valid()
      modifies this
      ensures Valid()
      ensures State() == OnEscape(old(State()))
    {
      if !mode.Normal? {
        mode := Normal;
      }
    }

    /** The entry's done function for Enter; `panicked` reports that the program stopped. */
    method Enter(addOut: Response, exportOut: Response, exported: seq<Task>, now: int)
      returns (panicked: bool)
      requires Valid()
      modifies this
      ensures Valid()
      ensures State() == OnEnter(old(State()), addOut, exportOut, exported, now)
      ensures panicked == EnterPanics(old(State()), exportOut, exported)
    {
      panicked := false;
      if !mode.CreateEntry? {
        return;
      }
      var args := SplitFields(entry);
      var out := Run(["add"] + args, addOut);
      var line := FirstLine(out);
      var _ := Run([TaskID(line), "export"], exportOut);
      if !exportOut.succeeded || exported == [] {
        panicked := true;
        return;
      }
      InsertRow(exported[0], now);
      mode := Normal;
    }

    /** The confirmation's done function. */
    method Button(button: string, r: Response)
      requires Valid()
      modifies this
      ensures Valid()
      ensures State() == OnButton(old(State()), button, r)
    {
      match mode
      case ConfirmDelete(row, taskID, _) =>
        if button == CancelButton {
          mode := Normal;
        } else if button == DeleteButton {
          RemoveRow(row);
          var _ := Run(DeleteCommand(taskID), r);
          if |table| > 0 {
            mode := Normal;
          }
        }
      case _ =>
    }

    /** The selection-changed function. */
    method Select(row: int, r: Response)
      requires Valid()
      modifies this
      ensures Valid()
      ensures State() == OnSelect(old(State()), row, r)
    {
      if row == 0 {
        detail := "";
      } else {
        detail := Run([CellText(table, row, 0)], r);
      }
    }
  }
}
