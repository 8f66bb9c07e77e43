# taskwarrior-tui core, modelled in Dafny

taskwarrior-tui is a terminal dashboard for the Taskwarrior engine. It shows a table of the
pending tasks with a header row, a separator row and one row per task, sorted by descending
urgency. Next to the table are a detail pane and a command log. Keys drive it:

- `a` opens a one-line entry; Enter runs `task add …` and appends the new task's row;
- `e` runs the editor;
- `d` completes the selected task and removes its row;
- `x` opens a Cancel/Delete confirmation.

Every engine call goes through `runCommand`. A failed call writes its output to the log and
yields nothing.

This project models the logic behind that screen, module by module:

| file | module | what it models |
|---|---|---|
| `wrappers.dfy` | `Wrappers` | `Option` |
| `decimal.dfy` | `Decimal` | `strconv.Itoa` / `%d` and reading a numeral back |
| `durations.dfy` | `Durations` | the `units` ladder and `fmtDuration`; Go's truncating `Duration` division and saturating `Time.Sub` |
| `tokenizer.dfy` | `Tokenizer` | `splitFields`: `strings.FieldsFunc` driven by the quote-flipping closure, as an imperative scan proved equal to a recursive definition |
| `task_id.dfy` | `TaskIds` | `getTaskID`: a hand-written matcher for `Created task (\d+).` with leftmost-first, greedy-with-backtrack semantics |
| `tasks.dfy` | `Tasks` | the exported task record, `insertRow`/`setCell` (row layout, colours, the Age and signed Due columns, `%.2f` urgency), the stable urgency sort, and the separator-width loop |
| `dashboard.dfy` | `Dashboard` | the screen state and its transitions as functions (`OnKey`, `OnEnter`, …), and a `Dashboard` class with one method per event |

The class's methods are proved to move the state exactly as those functions say, and to keep
the screen well formed. The lemmas beside the functions state what the program promises.

Conventions of the model:

- Durations and instants are integer nanoseconds.
- `now` is a parameter.
- A timestamp field is `NoStamp` (empty), `Unparsable`, or `At(nanos)`.
- Urgency is an integer count of hundredths. That is the precision of the `Urg` column, so the
  sort key and the displayed text agree.
- Go's `len` on strings counts UTF-8 bytes (`ByteLen`).
- Each engine call takes the engine's `Response` (success flag and combined output) as a
  parameter. Its argument list is appended to `issued`.
- Decoded JSON (the start-up export, the export after `add`) is passed in as a task list.

Behaviours of the code that the model keeps as written:

- splitFields keeps a quoted space and the quotes: `add 'buy milk' +home` gives
  `["add", "'buy milk'", "+home"]` (`Tokenizer.SplitFieldsExample`).
- Enter in the entry always runs `<id> export`, even when the id extracted from the first
  line of the answer is empty. The program panics when that output cannot be decoded or
  holds no task, and otherwise appends the first task's row (`Dashboard.OnEnter`,
  `Dashboard.EnterPanics`).
- The entry text is never cleared, neither by Escape nor by Enter
  (`Dashboard.EntryThenEscape`).
- The pattern's final `.` is unescaped, so `Created task 42` yields `4`
  (`TaskIds.TaskIDExamples`).
- At start-up the detail pane asks the engine about the text of cell (1, 0). That cell is the
  separator `--`, not the first task (`Dashboard.LoadedShape`).
- The application-wide key handler consumes `1` and `2` in every mode, so they can never be
  typed into the entry (`Dashboard.OnKey`).

## Model

| member | source | states |
|---|---|---|
| Decimal.NatToString | main.go:275 | the numeral is non-empty, all digits, and starts with `0` only for zero |
| Decimal.NatToStringRoundTrip | main.go:275 | reading the numeral back gives the number |
| Decimal.NatToStringInjective | main.go:275 | different numbers never share a numeral |
| Decimal.IntToStringCorrect | main.go:275 | `strconv.Itoa`: a minus sign exactly for negative ids, then digits whose value is the magnitude, with no leading zero (zero is `0`) |
| Durations.Quo | main.go:349 | Go's truncating `Duration` division: positive exactly when the duration reaches the unit; equal to floor division for non-negative durations |
| Durations.Sub | main.go:279 | `time.Time.Sub` saturates to the int64 range: the exact difference when it fits, and the same sign as the difference always |
| Durations.LargestFittingExists | main.go:316-345 | from one second on some unit of the ladder fits, because it ends with the second |
| Durations.FormatFromSkips | main.go:348-353 | the loop passes every unit longer than the duration and stops at the first that fits, with that unit's quotient and label |
| Durations.FormatFromEmpty | main.go:348-354 | below one second no quotient is positive, and the loop falls through to `""` |
| Durations.FmtDurationEmptyIff | main.go:347-355 | `fmtDuration` is `""` exactly when the duration is under one second, zero and negative durations included |
| Durations.FmtDurationLargestUnit | main.go:316-353 | for the largest fitting unit, the text is its whole count (at least one) followed by its label |
| Durations.FmtDurationShape | main.go:347-355 | the text is empty or starts with a non-zero digit, never with a minus sign |
| Durations.FmtDurationExamples | main.go:316-353 | 3661 s gives `1h`, 59 s gives `59s`, two days gives `2d`, 0 and -5 s give `""` |
| Tokenizer.QuoteStep | main.go:250-252 | the closure's flag flips exactly at each quote character |
| Tokenizer.SplitFields | main.go:247-255 | the rune-by-rune scan with the mutable flag returns exactly the maximal runs of non-split characters, in order |
| Tokenizer.FieldsNonEmpty | main.go:249 | FieldsFunc never yields an empty field |
| Tokenizer.FieldsConcat | main.go:249-254 | the fields joined back are the input with exactly its split points removed; every other character, `'` included, is kept in order |
| Tokenizer.FieldsCount | main.go:249 | there is one field per run of non-split characters |
| Tokenizer.FieldsAvoidSeparators | main.go:249-254 | a character that is a split point wherever it occurs never appears inside a field |
| Tokenizer.SplitFieldsProperties | main.go:247-255 | for splitFields: no empty token, tokens joined equal the input without its split-point spaces, one token per run |
| Tokenizer.FieldsTailRun | main.go:249 | when nothing from position j on is a split point, the last field ends with everything from j on |
| Tokenizer.UnbalancedQuoteKeepsTail | main.go:248-253 | after an odd quote count, no later space splits, and the last token ends with everything from the last quote on |
| Tokenizer.FieldsSplitAt | main.go:249 | a split point cuts the input into two parts that are split independently |
| Tokenizer.FieldsNoSeparator | main.go:249 | a non-empty stretch without split points is one field |
| Tokenizer.FieldsOneSeparator | main.go:249 | one inner split point gives the two sides as fields |
| Tokenizer.FieldsTwoSeparators | main.go:249 | two inner, separated split points give three fields |
| Tokenizer.SplitMaskExample | main.go:250-253 | in `add 'buy milk' +home` only the two unquoted spaces are split points |
| Tokenizer.FieldsExample | main.go:249 | that mask splits the line into `add`, `'buy milk'`, `+home` |
| Tokenizer.SplitFieldsExample | main.go:247-255 | splitFields keeps the quoted space and the quotes: `["add", "'buy milk'", "+home"]` |
| TaskIds.DigitRun | main.go:258 | the run of digits from a position is maximal: all digits, followed by the end or a non-digit |
| TaskIds.MatchAtCorrect | main.go:258-259 | the matcher finds a group at a position exactly when the expression matches there, and returns the longest group that still leaves a non-newline character for the `.` |
| TaskIds.FindFromDigits | main.go:259-261 | whatever is found is a non-empty string of digits |
| TaskIds.FindFromLeftmost | main.go:259 | the search returns the match at the smallest position, with no match before it |
| TaskIds.TaskID | main.go:257-264 | the id is `""` or a non-empty string of digits |
| TaskIds.TaskIDFound | main.go:257-264 | a non-empty id is the digit group of the leftmost match, taken as long as the match allows |
| TaskIds.TaskIDEmptyIff | main.go:257-264 | the id is `""` exactly when the expression matches nowhere in the line |
| TaskIds.TaskIDExamples | main.go:258 | `Created task 42.` gives `42`; `Created task 42` gives `4`; `Created task 7` gives `""` |
| Tasks.RenderRowLayout | main.go:272-301 | a row has the seven columns in header order: the id reads back as the task's id, the priority, project and description are shown as they are, the urgency is its `%.2f` text, all five in the priority's colour; Age and Due follow their rules |
| Tasks.AgeCellRule | main.go:277-280 | Age is unset exactly when the entry stamp is missing or does not parse; otherwise it is in the row's colour, never signed, and empty exactly when the task is under a second old |
| Tasks.DueCellRule | main.go:285-297 | no due date gives an empty plain cell; an unparsable one leaves the cell unset; a parsed one has a leading minus exactly when it is not after now, followed by the distance formatted by fmtDuration |
| Tasks.DueCellExamples | main.go:291-295 | due two days ahead shows `2d`, two days ago `-2d` |
| Tasks.CentsInjective | main.go:300 | different hundredths give different fractional texts |
| Tasks.FormatUrgencyInjective | main.go:300 | the urgency column determines the urgency to the hundredth |
| Tasks.ByteLenBounds | main.go:78-83 | `len` counts between one and four bytes per character, and exactly one per character for ASCII text |
| Tasks.Dashes | main.go:87 | `strings.Repeat("-", n)` is n dashes |
| Tasks.HeaderRow | main.go:61-63 | the header row has the seven columns |
| Tasks.SeparatorRow | main.go:87-90 | the separator row has the seven columns |
| Tasks.SeparatorWidths | main.go:75-85 | the loop's two running maxima end as the widest project and the widest description over all tasks |
| Tasks.WidthsAreMaxima | main.go:75-85 | every project and description is at most its width, and a non-zero width is reached by some task, so the widths are 0 with no tasks |
| Tasks.InsertSorted | main.go:71-73 | insertion into a list in descending urgency keeps it descending |
| Tasks.InsertStable | main.go:71-73 | insertion keeps the order among tasks of equal urgency, and the new task joins its group last |
| Tasks.InsertPermutes | main.go:71-73 | insertion adds exactly the one task |
| Tasks.SortedByUrgencyLength | main.go:71-73 | the sort keeps the number of tasks |
| Tasks.SortedByUrgencyCorrect | main.go:71-73 | the sorted list is a permutation of the export, in non-increasing urgency, with equally urgent tasks in export order |
| Tasks.StableSortUnique | main.go:71-73 | any two lists that are non-increasing and agree on the order within every urgency are equal, so any stable sort yields SortedByUrgency |
| Tasks.SortExample | main.go:71-73 | exported as c, a, b with a and b equally urgent and c less so, every stable sort shows a, b, c |
| Dashboard.RemoveAt | main.go:162-166 | `RemoveRow`: in range, the rows above stay and the rows below move up by one; out of range, nothing changes |
| Dashboard.LineBefore | main.go:145 | the first element of the split holds no newline, is a prefix of the text, and is followed by a newline unless it is the whole text |
| Dashboard.FirstLineIsPrefix | main.go:145-148 | trimming the final newline never changes the first line, which is a newline-free prefix of the answer |
| Dashboard.RenderRows | main.go:92-94 | one row per task |
| Dashboard.RenderRowsAt | main.go:92-94 | row i is the row of task i |
| Dashboard.StartTableShape | main.go:58-95 | the start-up table has two fixed rows plus one per task, every row has seven columns, and cell (1, 0) reads `--` |
| Dashboard.LoadedFields | main.go:55-105 | the start-up screen is the table in urgency order, in Normal mode, with an empty entry; the detail is the engine's answer to `--`, the log holds only a failure of that call, and the commands issued are the export and `--` |
| Dashboard.LoadedShape | main.go:66-105 | start-up gives a well-formed screen with one row per loaded task after the two fixed rows, having issued the export and `--` |
| Dashboard.KeyKeepsValid | main.go:109-200 | no key breaks the seven-column rows or lets the entry exceed 100 characters |
| Dashboard.EnterKeepsValid | main.go:140-156 | creating a task keeps every row at seven columns |
| Dashboard.ButtonKeepsValid | main.go:174-188 | the confirmation's buttons keep the screen well formed |
| Dashboard.EscapeAndSelectKeepValid | main.go:189-210 | Escape and a selection change keep the screen well formed |
| Dashboard.DeleteOnlyFromConfirmation | main.go:159-197 | keys, Escape and selections never issue a delete; a button issues a command exactly when it is Delete in an open confirmation, and that command deletes the id captured when `x` was pressed |
| Dashboard.CreateNeverDeletes | main.go:140-152 | Enter in the entry issues exactly two commands, an `add` and then an `export`, so it never deletes |
| Dashboard.CancelKeepsRows | main.go:174-196 | Cancel and Escape in the confirmation only return to Normal: rows, log and commands are unchanged |
| Dashboard.ConfirmThenCancel | main.go:167-196 | pressing `x` and then cancelling, by button or by Escape, leaves the screen exactly as it was |
| Dashboard.EntryThenEscape | main.go:134-139 | opening the entry and leaving with Escape changes nothing, except that a typed character stays in the entry |
| Dashboard.DoneRemovesRow | main.go:162-166 | `d` removes exactly the selected row, whatever the engine answered, and issues `<id> done` |
| Dashboard.DeleteRemovesCapturedRow | main.go:167-186 | `x` then Delete removes the row `x` was pressed on and deletes its id; the table keeps the keyboard exactly while rows remain |
| Dashboard.CreateAppendsRow | main.go:140-155 | a creation that does not panic appends exactly the first exported task's row after all earlier rows and returns to Normal |
| Dashboard.OnlyXOpensConfirmation | main.go:132-210 | from any other mode the confirmation is reached only by `x` in Normal mode; Escape, Enter, buttons and selections never open it, so no delete is issued without a prior `x` |
| Dashboard.CreateThenDone | main.go:140-166 | creating a task and then completing its new last row gives back the earlier table, and the `done` command carries the id that row shows |
| Dashboard.Dashboard.Load | main.go:55-105 | the start-up sequence produces the screen `Loaded` describes, which is well formed |
| Dashboard.Dashboard.FillTable | main.go:75-94 | under the header it adds the separator row, sized by the width loop, and then the tasks' rows in order, giving exactly the start-up table |
| Dashboard.Dashboard.Run | main.go:238-245 | `runCommand` records the command, returns the output on success, and on failure returns nothing and appends the output and a newline to the log |
| Dashboard.Dashboard.InsertRow | main.go:272-274 | `insertRow` appends the task's row at index `GetRowCount()` and changes nothing else |
| Dashboard.Dashboard.InsertRows | main.go:92-94 | the start-up loop appends the tasks' rows in order |
| Dashboard.Dashboard.RemoveRow | main.go:165 | the table loses the row at the index, if there is one |
| Dashboard.Dashboard.Key | main.go:132-200 | a key moves the screen as `OnKey` says (the 1/2 capture, `a`, `e`, `d`, `x`, typing into the entry) and keeps it well formed |
| Dashboard.Dashboard.Escape | main.go:137-196 | Escape, in the entry (137-139) or in the delete confirmation (189-196), moves the screen as `OnEscape` says and keeps it well formed |
| Dashboard.Dashboard.Enter | main.go:140-156 | Enter in the entry moves the screen as `OnEnter` says, reports the panic exactly when the export fails or is empty, and keeps the screen well formed |
| Dashboard.Dashboard.Button | main.go:174-188 | a confirmation button moves the screen as `OnButton` says and keeps it well formed |
| Dashboard.Dashboard.Select | main.go:202-210 | a selection change moves the screen as `OnSelect` says: header row clears the detail, any other row shows the engine's answer for its id |

## Left out

- The terminal user interface is not modelled: tview/tcell layout, the modal helper, pages, focus, borders and titles (main.go:56-60, 64, 97-101, 106-111, 114-128, 225-235; the header row of 61-63 is `Tasks.HeaderRow`). The screen state records only which page has the keyboard (`Mode`).
- Focus switching with `1` and `2` (main.go:213-223) is reduced to those keys being consumed.
- Cursor movement and deletion inside the entry field are not modelled; the entry only receives typed characters up to its 100-character limit.
- The subprocess call inside `runCommand` (main.go:239) is replaced by a `Response` parameter.
- `json.Unmarshal` (main.go:68, 148) is replaced by a decoded task list given as a parameter. The start-up decode failure and its panic are not modelled: `Load` assumes the export decoded. After `add`, a decode failure is modelled only as the export command failing, whose empty output cannot decode.
- A panic is reported as a returned flag (`Dashboard.Dashboard.Enter`); what happens to the process afterwards is not modelled.
- `time.Parse` with the fixed layout (main.go:277, 289) is replaced by the `Stamp` datatype; `time.Now` (main.go:279, 288) by a single `now` parameter, so the two separate clock reads in `insertRow` are taken to agree.
- `float32` urgency and the rounding of `%.2f` (main.go:47, 300) are not modelled: urgency is an exact count of hundredths. As a consequence, two urgencies that differ within the same hundredth are ordered strictly by `sort.SliceStable` in the program (main.go:71-73), but tie in the model and keep their export order.
- Tasks.FormatUrgency: gives the text of an exact count of hundredths, so it does not model binary floating-point rounding.
- `strings.FieldsFunc` (main.go:249) is documented to promise neither the order nor the number of calls to its function, and to assume that the function always returns the same value for a given character; the stateful closure of splitFields breaks that assumption. splitFields' stateful closure (main.go:248-253) relies on the current implementation calling it once per rune, in order; the model (`Tokenizer.SplitFields`) fixes that behaviour and does not cover any other calling order.
- Invalid UTF-8 in task fields is not modelled: strings are sequences of characters.
- Task fields the table never shows (`Age`, `Modified`, `Status`, `UUID`; main.go:38-46) are left out of the `Task` record.
- `sort.SliceStable`'s in-place algorithm (main.go:71-73) is not modelled step by step: the sorted list is given by insertion (`Tasks.SortedByUrgency`), and `Tasks.StableSortUnique` shows that every stable sort by descending urgency produces that same list.
- The colour values themselves are cosmetic; the model keeps only which colour tag (`Red`, `Grey250`, `Grey245`, or the zero colour) a cell gets.
- After Delete empties the table, the program hides the confirmation page (main.go:183) but gives the keyboard back to nobody (main.go:184-186). The model chooses to represent this by staying in `ConfirmDelete`, so in the model a further Delete press would issue the same delete command again; whether the hidden dialog still receives keys in the program is not modelled.
