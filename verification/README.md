# Personal task manager — a Dafny model

The repository is one personal task manager written four times:

- Stage 1 keeps tasks in memory as four-element lists and edits them through console prompts.
- Stage 2 adds a flat text file `tasks.txt`: four labelled lines and a `-----` separator per task.
- Stage 3 stores tasks as dictionaries in a JSON file.
- Stage 4 is a Tkinter window over a `TaskManager` class. The class adds, updates, deletes, filters and sorts `Task` objects.

A task has no identifier: its position in the list is its identity in every stage.

This project models the logic of those stages as pure functions over immutable values:

- the input checks;
- the console add, update and delete operations (one model of the answers the user types, in order);
- the text file writer and reader of stage 2;
- the `TaskManager` operations;
- the parts of the window that decide something: the sort toggle, the Save-button checks, and how Edit and Delete find the selected task.

Modules, one per file:

| module | file | what it holds |
|---|---|---|
| `Maybe` | maybe.dfy | `Option` and `Result` |
| `Text` | text.dfy | `str.strip`, `lower`, `capitalize`, `startswith`, `in` on strings, and string `<` |
| `Numbers` | numbers.dfy | `int()` on a string: surrounding whitespace, a sign, and digits grouped by single underscores |
| `Validation` | validation.dfy | the priority check; the loose due-date check of stages 1-3; `datetime.strptime(s, "%Y-%m-%d")` of stage 4 |
| `Tasks` | tasks.dfy | the task record; `to_dict`, `from_dict` and `Task(**data)`; assigning a dictionary of fields |
| `Console` | console.dfy | the add, update and delete prompts of stages 1-3 |
| `FlatText` | flat_text.dfy | `save_tasks_to_file` and `load_tasks_from_file` of stage 2 |
| `Sorting` | sorting.dfy | a stable sort by computed keys, ascending or reversed |
| `Manager` | manager.dfy | `TaskManager` of stage 4 |
| `Gui` | gui.dfy | the sort state, the Edit dialog's prefill, the Save checks and the row lookup of `TaskManagerGUI` |

Python is modelled as follows:

- A `while True` prompt loop becomes a function of the sequence of answers. It yields the first accepted answer, or `None` when every answer is refused, which is the program waiting forever or ending at end of input.
- A Python exception becomes an `Option` or `Result` value, or an `ok` flag where the source returns `False`.

## Model

| member | source | states |
|---|---|---|
| Tasks.ToDict | Stage_04.py:22-28 | the dictionary of a task has exactly the keys name, description, priority and due_date |
| Tasks.FromDict | Stage_04.py:31-38 | `from_dict` succeeds exactly when the four keys are present (a missing key raises `KeyError`); extra keys are ignored |
| Tasks.FromKeywords | Stage_04.py:69-70 | `Task(**task_data)` succeeds exactly when the keys are the four field names, no more and no fewer, and the task built gives back that same dictionary through `to_dict` |
| Tasks.DictRoundTrip | Stage_04.py:22-38 | `from_dict(to_dict(t))` and `Task(**to_dict(t))` both give back `t` |
| Tasks.DictRoundTripBack | Stage_04.py:22-38 | a dictionary with exactly the four keys survives `from_dict` then `to_dict` unchanged |
| Tasks.ToDictInjective | Stage_04.py:22-28 | two tasks with the same dictionary are the same task |
| Tasks.Assign | Stage_04.py:79-80 | after `setattr` for each supplied pair, every supplied field holds the supplied value and every other field keeps its old value |
| Tasks.RemoveAt | Stage_04.py:88 | `pop(i)` keeps the elements before `i`, shifts the later ones down by one, and removes exactly one copy of the `i`-th element |
| Text.StripSlice | Stage_02.py:183 | what `strip()` returns is a slice of the string with only whitespace before it and only whitespace after it |
| Text.StripTrailingSpace | Stage_04.py:298 | a whitespace character added at the end of a string makes no difference to what `strip()` returns |
| Text.StripFixed | Stage_02.py:183 | `strip()` leaves a string unchanged exactly when it is empty or has no whitespace at either end |
| Text.StripIdempotent | Stage_02.py:183 | stripping twice is stripping once |
| Text.LowerCapitalize | Stage_01.py:23 | `capitalize()` changes only case: lower-casing its result gives the lower-cased input |
| Numbers.ParseInt | Stage_01.py:33-35 | `int()` on a string of ASCII digits gives its decimal value |
| Numbers.SpaceDigit | Stage_03.py:37 | `int()` on a blank followed by a digit gives the digit, since `int()` ignores surrounding whitespace |
| Numbers.SeparatorNotSkipped | Stage_01.py:33-35 | a digit after one of the separators U+001C to U+001F: `strip()` removes the separator, but `int()` refuses the string, so the two whitespace sets differ |
| Validation.ValidatePriority | Stage_03.py:24-28 | an answer is accepted exactly when it is "high", "medium" or "low" ignoring case; the value kept is one of High, Medium, Low and is the same word as the answer |
| Validation.PriorityExamples | Stage_01.py:22-26 | "high" is stored as "High", "mEDIUM" as "Medium", and "urgent" is refused |
| Validation.LooseDueDate | Stage_01.py:31-36 | the console date check: an accepted answer has ten characters and dashes at positions 4 and 7; on a zero-padded date it accepts exactly month 1-12 and day 1-31 |
| Validation.LooseOnPadded | Stage_03.py:31-42 | a zero-padded `YYYY-MM-DD` string passes the console check exactly when its month is 1-12 and its day is 1-31, whatever the month's length |
| Validation.LooseAcceptsPadded | Stage_01.py:29-40 | every zero-padded date with month 1-12 and day 1-31 passes the console check |
| Validation.LooseRefusesSeparatorPadding | Stage_01.py:31-37 | a date whose month field is a separator U+001C to U+001F and a digit, such as "2025-\x1c1-01", fails the console check, because `int()` does not skip the separator |
| Validation.LooseTakesFebruary30 | Stage_01.py:29-40 | the console check accepts "2025-02-30" |
| Validation.LooseRefusesMonth13 | Stage_01.py:29-40 | the console check refuses "2025-13-01" |
| Validation.LeapDayCases | Stage_04.py:308 | `datetime` has no 29 February 1900 or 2023, and has 29 February 2000 and 2024 |
| Validation.LeapDayInLongYears | Stage_04.py:308 | a year has a 29 February exactly when its months add up to 366 days |
| Validation.DaysBeforeYearFormula | Stage_04.py:308 | counting the days of the calendar year by year gives the Python library's `_days_before_year`: 365 a year, plus one every fourth year, less one every century, plus one every fourth century |
| Validation.FourHundredYearCycle | Stage_04.py:308 | every 400 consecutive years hold 146097 days, the Gregorian cycle |
| Validation.Strptime | Stage_04.py:307-311 | every string `strptime` accepts has 8 to 10 characters, a dash after the year, and denotes a real calendar date |
| Validation.StrptimeFormat | Stage_04.py:110 | every calendar date written zero-padded is parsed back by `strptime` to the same date |
| Validation.StrictRefusesFebruary30 | Stage_04.py:307-311 | `strptime` refuses "2025-02-30", which the console check accepts |
| Validation.StrictTakesUnpadded | Stage_04.py:307-311 | `strptime` accepts "2025-1-5" as 5 January 2025, which the console check refuses |
| Validation.StrictTenImpliesLoose | Stage_04.py:307-311 | every ten-character date the window accepts also passes the console check |
| Console.FirstAccepted | Stage_03.py:24-28 | a retry loop stops at the first accepted answer, after refusing every answer before it; it never stops exactly when every answer is refused |
| Console.Selection | Stage_03.py:87-95 | the chosen position is inside the list and is named by the first answer that is a number from 1 to the list's length; every earlier answer is refused; there is none exactly when no answer is such a number |
| Console.IndexAnswerBlanks | Stage_03.py:89 | the answer " 3 " selects the third task, since `int()` ignores the blanks |
| Console.IndexAnswerZero | Stage_01.py:75-83 | the answer "0" is refused |
| Console.IndexAnswerPastEnd | Stage_01.py:75-83 | a number one past the list's length is refused |
| Console.NewTask | Stage_03.py:15-52 | a task is built exactly when some priority answer and some date answer are accepted; it has the name and description as typed, the priority the first accepted priority answer spells (a valid one), and the due date the first accepted date answer, every earlier answer of each prompt being refused |
| Console.AddTask | Stage_03.py:15-52 | a task is added exactly when one is built from the answers; it goes last and the earlier tasks are unchanged |
| Console.UpdateTask | Stage_03.py:78-142 | an empty list is left as it is; otherwise the update completes exactly when a task is selected and both the priority and date loops accept an answer; the length is kept and only the selected task can change |
| Console.UpdatedTask | Stage_03.py:78-142 | a completed update stores at the selected position the task with the typed name and description where non-empty, and the first accepted priority and date answers |
| Console.UpdateTextFields | Stage_03.py:102-110 | an empty name or description keeps the old value; any other answer replaces it unchecked |
| Console.UpdatePriorityField | Stage_03.py:112-122 | the new priority is the old one or the validated form of a non-empty answer; an empty first answer keeps the old one |
| Console.UpdateDateField | Stage_03.py:124-140 | the new due date is the old one or a non-empty answer that passes the console check; an empty first answer keeps the old one |
| Console.Confirms | Stage_03.py:173 | the answers that confirm a deletion are the eight spellings of "yes" in any mix of upper and lower case |
| Console.DeleteTask | Stage_03.py:147-180 | an empty list is left as it is; a task must be selected; only an answer that lower-cases to "yes" removes exactly the selected task, and any other answer leaves the list unchanged |
| Console.AddKeepsWellFormed | Stage_01.py:22-44 | adding to a list whose priorities and dates all pass the checks keeps that true |
| Console.UpdateKeepsWellFormed | Stage_01.py:99-125 | updating keeps every priority and due date valid |
| FlatText.Serialise | Stage_02.py:216-229 | the file holds, when no field has a line break, exactly the lines of `BlockLines` one after another, each ended by a newline |
| FlatText.WriteRows | Stage_02.py:216-229 | over the rows as stage 2 stores them, the writer stops on an error exactly when some row has fewer than four values |
| FlatText.SerialiseWritesRows | Stage_02.py:216-229 | given the rows of a list of tasks the writer never stops early and writes the file `Serialise` describes |
| FlatText.ShortRowTruncates | Stage_02.py:218-229 | a stored row of three values stops the writer after its three lines: the rows before it are written whole, and no row after it is written |
| FlatText.ShortRowReloaded | Stage_02.py:173-229 | that file is loaded back as the rows before the short row and the short row itself; every row after it is lost |
| FlatText.AddAfterEmptyDescriptionLost | Stage_02.py:183-229 | as written: after a task with an empty description has been saved and loaded, the next save stops at its row, so a task added then is never stored and the file loads back as it was |
| FlatText.AddAfterEmptyDescriptionKept | Stage_02.py:183-229 | corrected: with the corrected reader, the next save writes every row and the added task is loaded back after the saved one |
| FlatText.BlockLines | Stage_02.py:220-225 | the file holds five lines per task, in list order: the name, description, priority and due date after their labels, then the `-----` separator |
| FlatText.SplitJoin | Stage_02.py:182 | a file written as newline-ended single lines is read back as those lines |
| FlatText.Read | Stage_02.py:181-208 | no row is empty: a row is added only at a separator or at the end of the file, and only when it has a value |
| FlatText.Value | Stage_02.py:197-204 | a line gives a value exactly when it starts with one of the four labels, and the value is the rest of the line after that label |
| FlatText.SeparatorStep | Stage_02.py:183-194 | a line that strips to the separator closes the row being read, whatever blanks surround it |
| FlatText.SeparatorOnEmpty | Stage_02.py:183-194 | a line that strips to the separator, with no row open, adds no empty row |
| FlatText.FoldBlank | Stage_02.py:183-187 | a line that strips to nothing changes nothing |
| FlatText.FoldBlock | Stage_02.py:182-204 | the five lines of one task add exactly that task's row |
| FlatText.LastRowKept | Stage_02.py:182-208 | saved tasks followed by a last task without its closing separator are read as the rows of all of them, the last one included |
| FlatText.Load | Stage_02.py:173-212 | a missing file leaves the list as it was; otherwise the list is replaced by the rows read, none of which is empty |
| FlatText.ReadSerialise | Stage_02.py:173-225 | reading what the writer wrote gives back the rows of the saved tasks, for the reader as written when fields are clean and for the corrected reader when fields are on one line |
| FlatText.LoadSaved | Stage_02.py:173-225 | a saved list is loaded back row for row when every field is non-empty, ends in a non-blank character and has no line break |
| FlatText.EmptyDescriptionLost | Stage_02.py:183-200 | a task saved with an empty description is loaded back with three values, the description missing; the corrected reader keeps all four |
| FlatText.LoadFixed | Stage_02.py:173-212 | the corrected reader, with labels matched on the line before stripping: a missing file leaves the list as it was, and no row read is empty |
| FlatText.LoadFixedSaved | Stage_02.py:173-225 | with the corrected reader, any saved list whose fields have no line breaks is loaded back row for row |
| Sorting.KeyTransitive | Stage_04.py:105-112 | the order on sort keys is transitive (with `KeyIrreflexive` and `KeyTotal`: a strict total order) |
| Sorting.Sort | Stage_04.py:108 | the sorted list is a permutation in key order (reversed when asked), and each group of equal keys keeps its input order |
| Sorting.SortUnique | Stage_04.py:108 | any list in key order whose equal-key groups are those of the input, in input order, is the sorted list: the stable sort is unique |
| Sorting.SortRanksExample | Stage_04.py:107-108 | ranks 2, 0, 1 sort to 0, 1, 2 |
| Manager.AddTask | Stage_04.py:69-73 | adding succeeds exactly when the dictionary has the four keys; the list grows by one, earlier tasks are unchanged, and the new last task's dictionary is the one given |
| Manager.UpdateTask | Stage_04.py:76-83 | the result is true exactly when the index is in range; the length is kept, every other task is unchanged, and the indexed task has the supplied fields assigned |
| Manager.UpdateWithFullDict | Stage_04.py:76-83 | updating with all four fields makes the task the one `from_dict` builds |
| Manager.UpdateIdempotent | Stage_04.py:76-83 | applying the same update twice is applying it once |
| Manager.DeleteTask | Stage_04.py:86-91 | the result is true exactly when the index is in range; then the list is `tasks[:i] + tasks[i+1:]`, one shorter, one copy of the task fewer; otherwise it is unchanged |
| Manager.FilterTasks | Stage_04.py:94-102 | the three comprehensions give the list of tasks that meet every active condition, in list order |
| Manager.SelectMembers | Stage_04.py:94-102 | a task is in the filtered list exactly when it is in the list and its lower-cased name contains the lower-cased name filter, its priority is the chosen one (or All) and its due date is the chosen one (or none) |
| Manager.PositionsIncrease | Stage_04.py:94-102 | the filtered tasks sit at increasing positions of the list |
| Manager.PositionsSelect | Stage_04.py:94-102 | the filtered list is the list read at those positions, so it is an order-preserving sub-list |
| Manager.FilterIdempotent | Stage_04.py:94-102 | filtering a filtered list again changes nothing |
| Manager.PriorityRank | Stage_04.py:106-108 | High ranks 0, Medium 1, Low 2, and every other priority 3, after all of them |
| Manager.KeyFor | Stage_04.py:105-112 | the key is the priority rank, the year, month and day `strptime` parses from the due date (absent when it raises), or the lower-cased field; only the four field names give a key |
| Manager.SortTasks | Stage_04.py:105-113 | sorting fails exactly when some task has no key; otherwise the result is a permutation whose keys are in order and whose equal-key groups keep their input order |
| Manager.SortTasksUnique | Stage_04.py:105-113 | any stable key-ordered rearrangement of the list is the result of `sort_tasks`, so Python's stable sort and this one agree |
| Manager.PrioritySortExample | Stage_04.py:106-108 | tasks of priority Low, High, Medium sort to High, Medium, Low |
| Gui.Click | Stage_04.py:236-240 | clicking the current column flips the direction; clicking another column selects it ascending |
| Gui.ClicksAlternate | Stage_04.py:236-240 | clicking a new column `n` times leaves it descending exactly when `n` is even |
| Gui.ClickTwice | Stage_04.py:237-238 | two clicks on the current column restore the state |
| Gui.SortByColumn | Stage_04.py:236-242 | the state changes even when the sort raises; the sort raises exactly when some task has no key, and then the list is unchanged; otherwise the list is the one `sort_tasks` gives for the new direction: a permutation of the old one in key order for that direction |
| Gui.SaveForm | Stage_04.py:295-311 | the form is refused for a name empty after stripping, or else for a stripped due date `strptime` refuses; otherwise the dictionary of stripped fields is passed on |
| Gui.SavedFormValid | Stage_04.py:295-311 | an accepted form has a non-empty name and a parseable due date, both already stripped |
| Gui.SaveFormStable | Stage_04.py:295-311 | `save_task` is stable on its own output: saving again the values an accepted form produced gives the same dictionary |
| Gui.SaveFormIgnoresPriority | Stage_04.py:299 | the priority box is never checked and is passed on as selected |
| Gui.SavedFormAdds | Stage_04.py:314-324 | an accepted form always makes a task `add_task` can build; the task appended has the stripped name, description and due date and the priority as selected |
| Gui.PrefillAsWritten | Stage_04.py:269-284 | as written: the Edit dialog shows the task's name, description and due date, and in the priority box the task's priority followed by the six characters of "Medium" |
| Gui.Prefill | Stage_04.py:269-284 | corrected: the Edit dialog's fields make up exactly the task being edited |
| Gui.EditUnchangedAsWritten | Stage_04.py:269-311 | as written: saving an untouched Edit dialog for any task whose name and date the form accepts stores its priority with "Medium" appended, so the list changes |
| Gui.HighBecomesHighMedium | Stage_04.py:269-311 | as written: an untouched Edit of any High task with a name and a valid date stores the priority "HighMedium" |
| Gui.SaveDialog | Stage_04.py:298 | the newline a `Text` widget adds after the description changes nothing: the dialog is saved exactly as its fields would be without it |
| Gui.StripNewline | Stage_04.py:298 | the newline a `Text` widget adds is removed by `strip()` from contents without surrounding whitespace |
| Gui.EditUnchangedKeepsTask | Stage_04.py:269-311 | corrected: saving an untouched Edit dialog, for a task with a name, a parseable date and no surrounding whitespace, passes the task's own dictionary, and updating with it leaves the list as it was |
| Gui.DeleteRowAsWritten | Stage_04.py:331-340 | as written: the row number in the tree is deleted as a position in the whole list; the other tasks keep their order |
| Gui.EditRowAsWritten | Stage_04.py:249-255 | as written: the row number in the tree is edited as a position in the whole list, and no other task changes |
| Gui.Shown | Stage_04.py:220-226 | the tree after Apply shows exactly the tasks of the list that meet the three filter fields |
| Manager.SelectBeforePosition | Stage_04.py:94-102 | the tasks kept before the `k`-th kept task's position are the first `k` tasks kept |
| Gui.StoreIndex | Stage_04.py:220-226 | the position in the whole list of the task on a row of the filtered tree: it holds that task, and exactly `row` shown tasks come before it, so it is the one position the row can name |
| Gui.DeleteRow | Stage_04.py:331-340 | corrected: deleting a row removes the task shown on that row from its own position, and the other tasks keep their order |
| Gui.EditRow | Stage_04.py:249-255 | corrected: editing a row assigns the fields to the task shown on that row and changes nothing else |
| Gui.UnfilteredRowsAgree | Stage_04.py:213-217 | with no filter the tree shows the whole list and the written and corrected lookups agree |
| Gui.DeleteRowAsWrittenHitsHiddenTask | Stage_04.py:336-340 | filtering [Low task, High task] to High and deleting its only row removes the hidden Low task as written and the High task when corrected |
| Gui.EditRowAsWrittenHitsHiddenTask | Stage_04.py:253-255 | under the same filter, editing the only row changes the hidden Low task as written and the High task when corrected |

## Left out

- Input and output are left out: `print`, the menu loops, the Tkinter widgets and message boxes, and the opening of files. File contents are parameters: `Some(text)` for a readable file, `None` for `FileNotFoundError`.
- JSON persistence of stages 3 and 4 (`json.load`, `json.dump`, `JSONDecodeError`) is left out. It writes and reads the task dictionaries that `Tasks.ToDict` and `Tasks.FromDict` model.
- Stage 3's `run_tests` manipulates the filesystem only and is left out.
- Persisting after each change is left out. The model gives the list after the operation.
- The stage 2 reader's generic `except Exception` branch is left out.
- Python's TimSort is replaced by insertion sort. `Sorting.SortUnique` proves that any stable sort gives the same list.
- `Manager.KeyFor`: sorting by a column that is not a task field would raise `AttributeError` in `getattr`, or use some other attribute of the object. The model treats every such column as having no key.
- `Tasks.Assign`: `setattr` with a key that is not one of the four fields adds an attribute to the task. `sort_tasks` can later read such an attribute through `getattr(t, key)`. The model keeps only the four fields, so sorting by such a key gives no key at all.
- `Text.LowerCapitalize`: `lower` and `capitalize` are modelled on ASCII letters only. Unicode case mapping is not modelled. `strip` removes the full `str.isspace()` set, Unicode spaces included.
- `Numbers.ParseInt`: digits are ASCII only. Python's `int()` also accepts other Unicode decimal digits. The whitespace `int()` skips is modelled: the `str.isspace()` set without U+001C to U+001F.
- `tk.Text.get("1.0", END)` adds a newline at the end. `Gui.SaveDialog` appends it; `Gui.SaveForm` takes the description as read.
- `Validation.Strptime`: the year must be four digits and `%Y` has no other forms. Locale and other directives are not modelled. In `_strptime` the `\d` of `%Y`, `%m` and `%d` also matches non-ASCII Unicode digits; the model accepts ASCII digits only.
- The stage 2 `view_task` reads `task[3]` (Stage_02.py:64) and raises `IndexError` on a row with three values. Such rows arise from the first finding below. `update_task` and `delete_task` call `view_task` first (Stage_02.py:76, 146) and nothing catches the error, so with such a row loaded both menu choices end the program. Printing and that crash are not modelled; `Console` models the stage 3 operations, which read dictionaries.
- The stage 2 writer on a row of three values is modelled by `FlatText.WriteRows`: the file is opened for writing, the write of `task[3]` (Stage_02.py:224) raises, and the `except` at Stage_02.py:228 reports the error and goes on. The model keeps what was written up to that point.
- Text.Strip: carries no `ensures` of its own. What it returns is stated by the lemmas `Text.StripSlice`, `Text.StripFixed`, `Text.StripEdges` and `Text.StripTrailingSpace`, which callers invoke where they need them; a postcondition on the function itself makes every proof about the stage 2 reader carry it.
- `FlatText.SplitLines`: universal newlines turn `\r\n` into one line end. The model splits at `\r` and at `\n` separately. The extra empty piece is a blank line, which the reader skips.
- `FlatText.LoadSaved`: the round trip of the reader as written is proved only for fields that are non-empty, end in a non-blank character and have no line break. Outside that, the findings below apply.
- The console stages accept an empty name.
- A missing `tasks.txt` or `tasks.json` leaves the list as it was.
- `update_task` and `delete_task` of stage 4 return `False` for an index out of range rather than raising.
- `sort_tasks` reorders the list in place, and the window shows that order afterwards.

## Findings

| source | as written | input that shows it | evidently intended | confidence | as-written member | corrected member |
|---|---|---|---|---|---|---|
| Stage_02.py:183-204 | each line is stripped before the labels are matched, so a saved `"Description: "` becomes `"Description:"`, which no label matches | a task whose description is empty: it is saved, and on reload it becomes a row of three values, name, priority and due date. Viewing, updating or deleting then raises `IndexError` at `task[3]` in `view_task` (Stage_02.py:64, reached from 76 and 146), uncaught. Adding a task saves: the file is truncated by `open("w")`, the rows before the short row are written whole, the short row writes its three lines shifted into the wrong labels, `task[3]` raises at Stage_02.py:224 and the `except` at 228 swallows it, so every later row, the new task included, is lost | a saved task is read back with its four fields, and a save writes every task | not executed | FlatText.Load and FlatText.WriteRows (shown by FlatText.EmptyDescriptionLost, FlatText.ShortRowTruncates, FlatText.ShortRowReloaded, FlatText.AddAfterEmptyDescriptionLost) | FlatText.LoadFixed (proved by FlatText.LoadFixedSaved and FlatText.AddAfterEmptyDescriptionKept) |
| Stage_04.py:336-340 | the Delete and Edit buttons use the row number in the tree, which is a position in the filtered list, as a position in the whole list | tasks [Low, High], filter priority High, select the only row and press Delete: the confirmation box at Stage_04.py:339 asks to delete the hidden Low task by name, and Yes deletes it; pressing Edit instead opens a dialog filled with the hidden Low task's fields (Stage_04.py:253-255), and Save overwrites that task | the task shown on the selected row is the one deleted or edited | not executed | Gui.DeleteRowAsWritten, Gui.EditRowAsWritten (shown by Gui.DeleteRowAsWrittenHitsHiddenTask, Gui.EditRowAsWrittenHitsHiddenTask) | Gui.DeleteRow, Gui.EditRow (proved by their contracts and Gui.UnfilteredRowsAgree) |
| Stage_04.py:271-284 | the priority box is set to "Medium" by `current(1)`, then the task's priority is inserted at position 0 in front of it | a High task with a name and a valid due date, e.g. ("Report", "", "High", "2025-01-05"): open Edit and press Save without touching anything; it is stored with priority "HighMedium" | the Edit dialog shows the task's own priority, so an untouched save keeps the task | not executed | Gui.PrefillAsWritten (shown by Gui.EditUnchangedAsWritten, Gui.HighBecomesHighMedium) | Gui.Prefill (proved by Gui.EditUnchangedKeepsTask) |
