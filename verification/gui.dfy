/** `TaskManagerGUI` of stage 4, without the widgets: the sort state behind
    the column headings, the checks of the Save button, and the way the
    Edit and Delete buttons find the selected task. */
module Gui {
  import opened Maybe
  import opened Text
  import opened Validation
  import opened Tasks
  import opened Manager
  import Sorting

  /** `current_sort`: the column last clicked and its direction. */
  datatype SortState = SortState(column: string, reverse: bool)

  /** The window opens sorted by name, ascending, as far as the state says. */
  const InitialSort: SortState := SortState("name", false)

  /** A click on a heading: the same column flips the direction, another
      column starts ascending. */
  function Click(s: SortState, column: string): (r: SortState)
    ensures r.column == column
    ensures s.column != column ==> !r.reverse
    ensures s.column == column ==> r.reverse != s.reverse
  {
    if s.column == column then SortState(column, !s.reverse) else SortState(column, false)
  }

  /** `n` clicks in a row on one heading. */
  function Clicks(s: SortState, column: string, n: nat): SortState {
    if n == 0 then s else Click(Clicks(s, column, n - 1), column)
  }

  /** Clicking a new heading `n` times sorts descending exactly after an even number of clicks. */
  lemma {:induction false} ClicksAlternate(s: SortState, column: string, n: nat)
    requires s.column != column && n > 0
    ensures Clicks(s, column, n) == SortState(column, n % 2 == 0)
  {
    if n > 1 {
      ClicksAlternate(s, column, n - 1);
    }
  }

  /** Two clicks on the current column give back the state before them. */
  lemma ClickTwice(s: SortState)
    ensures Click(Click(s, s.column), s.column) == s
  {
  }

  /** What `sort_by_column` leaves: the new sort state, the list, and
      whether the sort raised. */
  datatype SortOutcome = SortOutcome(state: SortState, tasks: seq<Task>, raised: bool)

  /** `sort_by_column(column)`: the state is updated before the sort runs,
      so a sort that raises still flips the direction. */
  function SortByColumn(s: SortState, tasks: seq<Task>, column: string): (r: SortOutcome)
    ensures r.state == Click(s, column)
    ensures r.raised <==> exists i :: 0 <= i < |tasks| && KeyFor(column, tasks[i]).None?
    ensures r.raised ==> r.tasks == tasks
    ensures !r.raised ==> multiset(r.tasks) == multiset(tasks)
    ensures !r.raised ==> SortTasks(tasks, column, r.state.reverse) == Some(r.tasks)
    ensures !r.raised ==> Decorate(column, r.tasks).Some?
                          && Sorting.Sorted(Decorate(column, r.tasks).value, r.state.reverse)
  {
    var next := Click(s, column);
    match SortTasks(tasks, column, next.reverse)
    case None => SortOutcome(next, tasks, true)
    case Some(sorted) => SortOutcome(next, sorted, false)
  }

  /** Why the Save button refuses a form. */
  datatype FormError = NameRequired | BadDate

  /** The dictionary `save_task` builds from the dialog: name, description
      and due date stripped, the priority as selected. */
  function FormData(name: string, description: string, priority: string, dueDate: string): (d: Dict)
    ensures d.Keys == FieldNames
  {
    ToDict(Task(Strip(name), Strip(description), priority, Strip(dueDate)))
  }

  /** `save_task`: a name is required, then the stripped due date must pass
      `strptime`; the priority is not checked. */
  function SaveForm(name: string, description: string, priority: string, dueDate: string): (r: Result<Dict, FormError>)
    ensures r == Err(NameRequired) <==> Strip(name) == ""
    ensures r == Err(BadDate) <==> Strip(name) != "" && Strptime(Strip(dueDate)).None?
    ensures r.Ok? ==> r.value == FormData(name, description, priority, dueDate)
  {
    if Strip(name) == "" then Err(NameRequired)
    else if Strptime(Strip(dueDate)).None? then Err(BadDate)
    else Ok(FormData(name, description, priority, dueDate))
  }

  /** What a saved form holds: a non-empty name and a due date `strptime`
      takes, neither with surrounding whitespace. */
  lemma SavedFormValid(name: string, description: string, priority: string, dueDate: string)
    requires SaveForm(name, description, priority, dueDate).Ok?
    ensures var d := SaveForm(name, description, priority, dueDate).value;
      && d["name"] != "" && Strip(d["name"]) == d["name"]
      && Strptime(d["due_date"]).Some? && Strip(d["due_date"]) == d["due_date"]
  {
    assert SaveForm(name, description, priority, dueDate) == Ok(FormData(name, description, priority, dueDate));
    FormDataFields(name, description, priority, dueDate);
    StripIdempotent(name);
    StripIdempotent(dueDate);
  }

  /** A saved form always makes a task: the dictionary has exactly the four
      keys `Task(**data)` needs, and the new task is the form's content. */
  lemma SavedFormAdds(tasks: seq<Task>, name: string, description: string, priority: string, dueDate: string)
    requires SaveForm(name, description, priority, dueDate).Ok?
    ensures var data := SaveForm(name, description, priority, dueDate).value;
      && Manager.AddTask(tasks, data).Some?
      && Manager.AddTask(tasks, data).value[|tasks|]
         == Task(Strip(name), Strip(description), priority, Strip(dueDate))
  {
    var data := SaveForm(name, description, priority, dueDate).value;
    var t := Task(Strip(name), Strip(description), priority, Strip(dueDate));
    ToDictInjective(Manager.AddTask(tasks, data).value[|tasks|], t);
  }

  /** `save_task` is stable on its own output: saving again the values an
      accepted form produced gives the same dictionary. */
  lemma SaveFormStable(name: string, description: string, priority: string, dueDate: string)
    requires SaveForm(name, description, priority, dueDate).Ok?
    ensures var d := SaveForm(name, description, priority, dueDate).value;
      SaveForm(d["name"], d["description"], d["priority"], d["due_date"]) == Ok(d)
  {
    var n, de, du := Strip(name), Strip(description), Strip(dueDate);
    var d := FormData(name, description, priority, dueDate);
    assert SaveForm(name, description, priority, dueDate) == Ok(d);
    FormDataFields(name, description, priority, dueDate);
    StripIdempotent(name);
    StripIdempotent(description);
    StripIdempotent(dueDate);
    assert FormData(n, de, priority, du) == d;
    assert Strip(n) != "" && Strptime(Strip(du)).Some?;
  }

  lemma FormDataFields(name: string, description: string, priority: string, dueDate: string)
    ensures var d := FormData(name, description, priority, dueDate);
      && d["name"] == Strip(name) && d["description"] == Strip(description)
      && d["priority"] == priority && d["due_date"] == Strip(dueDate)
  {
    DictValues(Task(Strip(name), Strip(description), priority, Strip(dueDate)));
  }

  /** The priority plays no part in whether a form is saved, and any
      priority, "Urgent" as much as "High", is stored as given. */
  lemma SaveFormIgnoresPriority(name: string, description: string, p: string, q: string, dueDate: string)
    ensures SaveForm(name, description, p, dueDate).Ok? <==> SaveForm(name, description, q, dueDate).Ok?
    ensures SaveForm(name, description, p, dueDate).Ok? ==> SaveForm(name, description, p, dueDate).value["priority"] == p
  {
    var accepted := Strip(name) != "" && Strptime(Strip(dueDate)).Some?;
    assert SaveForm(name, description, p, dueDate).Ok? <==> accepted;
    assert SaveForm(name, description, q, dueDate).Ok? <==> accepted;
    if accepted {
      assert SaveForm(name, description, p, dueDate).value["priority"] == p by {
        assert SaveForm(name, description, p, dueDate).value == FormData(name, description, p, dueDate);
      }
    }
  }

  /** What the four fields of the task dialog hold. */
  datatype Form = Form(name: string, description: string, priority: string, dueDate: string)

  /** A new dialog: the entries empty, the priority box on its second value, "Medium". */
  const BlankForm: Form := Form("", "", "Medium", "")

  /** `insert(0, text)` on an entry or a combo box: `text` goes in front of what the field holds. */
  function InsertFront(field: string, text: string): (r: string)
    ensures |r| == |text| + |field|
    ensures r[..|text|] == text && r[|text|..] == field
  {
    text + field
  }

  /** `task_dialog` for Edit as written: each field of a new dialog gets the
      task's value inserted at its front, so the priority box, already on
      "Medium", ends up holding the task's priority followed by "Medium". */
  function PrefillAsWritten(t: Task): (f: Form)
    ensures f.name == t.name && f.description == t.description && f.dueDate == t.dueDate
    ensures |f.priority| == |t.priority| + 6 && f.priority[..|t.priority|] == t.priority
  {
    Form(InsertFront(BlankForm.name, t.name), InsertFront(BlankForm.description, t.description),
         InsertFront(BlankForm.priority, t.priority), InsertFront(BlankForm.dueDate, t.dueDate))
  }

  /** The edit dialog as intended: every field shows the task's value, the
      priority box selecting the task's priority. */
  function Prefill(t: Task): (f: Form)
    ensures ToDict(Task(f.name, f.description, f.priority, f.dueDate)) == ToDict(t)
  {
    Form(t.name, t.description, t.priority, t.dueDate)
  }

  /** The Save button on a dialog: a `Text` widget's contents are read back
      with a newline at the end. */
  function SaveDialog(f: Form): (r: Result<Dict, FormError>)
    ensures r == SaveForm(f.name, f.description, f.priority, f.dueDate)
  {
    StripTrailingSpace(f.description, '\n');
    assert f.description + "\n" == f.description + ['\n'];
    SaveFormSameDescription(f.name, f.description + "\n", f.description, f.priority, f.dueDate);
    SaveForm(f.name, f.description + "\n", f.priority, f.dueDate)
  }

  /** Descriptions that strip alike are saved alike. */
  lemma SaveFormSameDescription(name: string, d: string, e: string, priority: string, dueDate: string)
    requires Strip(d) == Strip(e)
    ensures SaveForm(name, d, priority, dueDate) == SaveForm(name, e, priority, dueDate)
  {
    assert FormData(name, d, priority, dueDate) == FormData(name, e, priority, dueDate);
  }

  /** As written, saving an edit dialog without touching it stores the
      task's priority with "Medium" appended, for every task the form accepts. */
  lemma EditUnchangedAsWritten(tasks: seq<Task>, i: nat)
    requires i < |tasks|
    requires Strip(tasks[i].name) != "" && Strptime(Strip(tasks[i].dueDate)).Some?
    ensures SaveDialog(PrefillAsWritten(tasks[i])).Ok?
    ensures var data := SaveDialog(PrefillAsWritten(tasks[i])).value;
      && UpdateTask(tasks, i, data).tasks[i].priority == tasks[i].priority + "Medium"
      && UpdateTask(tasks, i, data).tasks != tasks
  {
    var t := tasks[i];
    var f := PrefillAsWritten(t);
    SaveFormAccepts(f.name, f.description + "\n", f.priority, f.dueDate);
    var data := SaveDialog(f).value;
    assert data["priority"] == t.priority + "Medium";
    UpdatePriority(tasks, i, data);
    var u := UpdateTask(tasks, i, data).tasks;
    assert |u[i].priority| != |tasks[i].priority|;
  }

  /** A form with a name and a date `strptime` takes is saved, the priority as given. */
  lemma SaveFormAccepts(name: string, description: string, priority: string, dueDate: string)
    requires Strip(name) != "" && Strptime(Strip(dueDate)).Some?
    ensures SaveForm(name, description, priority, dueDate) == Ok(FormData(name, description, priority, dueDate))
    ensures FormData(name, description, priority, dueDate)["priority"] == priority
  {
    FormDataFields(name, description, priority, dueDate);
  }

  lemma UpdatePriority(tasks: seq<Task>, i: nat, data: Dict)
    requires i < |tasks| && data.Keys == FieldNames
    ensures UpdateTask(tasks, i, data).tasks[i].priority == data["priority"]
  {
    var r := UpdateTask(tasks, i, data).tasks[i];
    assert "priority" in FieldNames;
    assert ToDict(r)["priority"] == data["priority"];
  }

  /** A High task with a name and a valid date comes back from an untouched edit as "HighMedium". */
  lemma HighBecomesHighMedium(t: Task)
    requires t.priority == "High"
    requires Strip(t.name) != "" && Strptime(Strip(t.dueDate)).Some?
    ensures SaveDialog(PrefillAsWritten(t)).Ok?
    ensures UpdateTask([t], 0, SaveDialog(PrefillAsWritten(t)).value).tasks[0].priority == "HighMedium"
  {
    EditUnchangedAsWritten([t], 0);
    HighMedium();
  }

  lemma HighMedium()
    ensures "High" + "Medium" == "HighMedium"
  {
    var s := "High" + "Medium";
    assert |s| == 10;
    assert forall k :: 0 <= k < 4 ==> s[k] == "High"[k];
    assert forall k :: 4 <= k < 10 ==> s[k] == "Medium"[k - 4];
  }

  /** `strip()` drops the newline a `Text` widget adds after contents it leaves alone. */
  lemma StripNewline(s: string)
    requires Strip(s) == s
    ensures Strip(s + "\n") == s
  {
    var u := s + "\n";
    if |s| == 0 {
      assert TrimStart(u) == TrimStart(u[1..]);
      assert u[1..] == "";
    } else {
      StripEnds(s);
      assert TrimStart(u) == u;
      assert u[..|u| - 1] == s;
      assert TrimEnd(u) == TrimEnd(s);
      StripKeeps(s);
    }
  }

  /** With the intended prefill, saving an edit dialog without touching it
      leaves every task as it was, for a task the form accepts and whose
      fields have no surrounding whitespace. */
  lemma EditUnchangedKeepsTask(tasks: seq<Task>, i: nat)
    requires i < |tasks|
    requires var t := tasks[i];
      && t.name != "" && Strip(t.name) == t.name
      && Strip(t.description) == t.description
      && Strip(t.dueDate) == t.dueDate && Strptime(t.dueDate).Some?
    ensures SaveDialog(Prefill(tasks[i])) == Ok(ToDict(tasks[i]))
    ensures UpdateTask(tasks, i, ToDict(tasks[i])).tasks == tasks
  {
    PrefillSaved(tasks[i]);
    UpdateSame(tasks, i);
  }

  lemma PrefillSaved(t: Task)
    requires t.name != "" && Strip(t.name) == t.name
    requires Strip(t.description) == t.description
    requires Strip(t.dueDate) == t.dueDate && Strptime(t.dueDate).Some?
    ensures SaveDialog(Prefill(t)) == Ok(ToDict(t))
  {
    var f := Prefill(t);
    StripNewline(t.description);
    assert SaveDialog(f) == Ok(FormData(f.name, f.description + "\n", f.priority, f.dueDate));
    FormDataFields(f.name, f.description + "\n", f.priority, f.dueDate);
    assert FormData(f.name, f.description + "\n", f.priority, f.dueDate) == ToDict(t);
  }

  /** Updating a task with its own dictionary changes nothing. */
  lemma UpdateSame(tasks: seq<Task>, i: nat)
    requires i < |tasks|
    ensures UpdateTask(tasks, i, ToDict(tasks[i])).tasks == tasks
  {
    var u := UpdateTask(tasks, i, ToDict(tasks[i])).tasks;
    ToDictInjective(u[i], tasks[i]);
  }

  /** The three filter fields; the tree shows the list they select. */
  datatype Filter = Filter(name: string, priority: string, date: string)

  /** The fields after Clear, and what a refresh shows. */
  const NoFilter: Filter := Filter("", "All", "")

  /** The rows of the tree after Apply. */
  function Shown(tasks: seq<Task>, f: Filter): (r: seq<Task>)
    ensures |r| <= |tasks|
    ensures forall t :: t in r <==> t in tasks && Matches(t, f.name, f.priority, f.date)
  {
    SelectMembers(tasks, f.name, f.priority, f.date);
    FilterTasks(tasks, f.name, f.priority, f.date)
  }

  /** `delete_task` of the window as written: the row number of the selected
      line in the tree is passed on as a position in the whole list. */
  function DeleteRowAsWritten(tasks: seq<Task>, f: Filter, row: nat): (r: Outcome)
    requires row < |Shown(tasks, f)|
    ensures r.ok && |r.tasks| == |tasks| - 1
    ensures multiset(r.tasks) + multiset{tasks[row]} == multiset(tasks)
    ensures r.tasks == tasks[..row] + tasks[row + 1..]
  {
    Manager.DeleteTask(tasks, row)
  }

  /** `show_edit_dialog` followed by Save, as written: the same row number is
      the position updated. */
  function EditRowAsWritten(tasks: seq<Task>, f: Filter, row: nat, data: Dict): (r: Outcome)
    requires row < |Shown(tasks, f)|
    ensures r.ok && |r.tasks| == |tasks| && row < |tasks|
    ensures r.tasks[row] == Assign(tasks[row], data)
    ensures forall j :: 0 <= j < |tasks| && j != row ==> r.tasks[j] == tasks[j]
  {
    Manager.UpdateTask(tasks, row, data)
  }

  /** The position in the whole list of the task on row `row` of the tree. */
  function StoreIndex(tasks: seq<Task>, f: Filter, row: nat): (i: nat)
    requires row < |Shown(tasks, f)|
    ensures i < |tasks| && tasks[i] == Shown(tasks, f)[row]
    ensures Shown(tasks[..i], f) == Shown(tasks, f)[..row]
  {
    PositionsSelect(tasks, f.name, f.priority, f.date);
    SelectBeforePosition(tasks, f.name, f.priority, f.date, row);
    Positions(tasks, f.name, f.priority, f.date)[row]
  }

  /** Delete, corrected: the selected row is mapped back to its position in the list. */
  function DeleteRow(tasks: seq<Task>, f: Filter, row: nat): (r: Outcome)
    requires row < |Shown(tasks, f)|
    ensures r.ok && |r.tasks| == |tasks| - 1
    ensures multiset(r.tasks) + multiset{Shown(tasks, f)[row]} == multiset(tasks)
    ensures var i := StoreIndex(tasks, f, row); r.tasks == tasks[..i] + tasks[i + 1..]
  {
    Manager.DeleteTask(tasks, StoreIndex(tasks, f, row))
  }

  /** Edit, corrected: the task on the selected row, and only it, takes the dialog's values. */
  function EditRow(tasks: seq<Task>, f: Filter, row: nat, data: Dict): (r: Outcome)
    requires row < |Shown(tasks, f)|
    ensures r.ok && |r.tasks| == |tasks|
    ensures var i := StoreIndex(tasks, f, row);
      && tasks[i] == Shown(tasks, f)[row]
      && r.tasks[i] == Assign(Shown(tasks, f)[row], data)
      && forall j :: 0 <= j < |tasks| && j != i ==> r.tasks[j] == tasks[j]
  {
    Manager.UpdateTask(tasks, StoreIndex(tasks, f, row), data)
  }

  /** Without a filter every row number is the task's position, so the
      code as written and the corrected code agree. */
  lemma {:induction false} UnfilteredPositions(tasks: seq<Task>)
    ensures var p := Positions(tasks, "", "All", "");
      |p| == |tasks| && forall k :: 0 <= k < |p| ==> p[k] == k
  {
    if |tasks| > 0 {
      UnfilteredPositions(Init(tasks));
      assert Matches(Last(tasks), "", "All", "");
    }
  }

  lemma UnfilteredRowsAgree(tasks: seq<Task>, row: nat, data: Dict)
    requires row < |Shown(tasks, NoFilter)|
    ensures StoreIndex(tasks, NoFilter, row) == row
    ensures DeleteRow(tasks, NoFilter, row) == DeleteRowAsWritten(tasks, NoFilter, row)
    ensures EditRow(tasks, NoFilter, row, data) == EditRowAsWritten(tasks, NoFilter, row, data)
  {
    UnfilteredPositions(tasks);
  }

  /** Two tasks, the tree filtered to High: its only row is the second
      task, at position 1 of the list. */
  lemma HighRowIsSecond(a: Task, b: Task)
    requires a.priority == "Low" && b.priority == "High"
    ensures Shown([a, b], Filter("", "High", "")) == [b]
    ensures StoreIndex([a, b], Filter("", "High", ""), 0) == 1
  {
    assert Init([a, b]) == [a] && Last([a, b]) == b;
    assert Init([a]) == [] && Last([a]) == a;
    assert Select([a], "", "High", "") == [];
    assert Select([a, b], "", "High", "") == [b];
    assert Positions([a, b], "", "High", "") == [1];
  }

  /** With that filter, Delete as written removes the hidden first task;
      the corrected Delete removes the shown one. */
  lemma DeleteRowAsWrittenHitsHiddenTask(a: Task, b: Task)
    requires a.priority == "Low" && b.priority == "High"
    ensures Shown([a, b], Filter("", "High", "")) == [b]
    ensures DeleteRowAsWritten([a, b], Filter("", "High", ""), 0).tasks == [b]
    ensures DeleteRow([a, b], Filter("", "High", ""), 0).tasks == [a]
  {
    HighRowIsSecond(a, b);
    assert [a, b][1..] == [b];
    assert [a, b][..1] == [a];
  }

  /** The same for Edit: the hidden first task is overwritten and the shown one is untouched. */
  lemma EditRowAsWrittenHitsHiddenTask(a: Task, b: Task, data: Dict)
    requires a.priority == "Low" && b.priority == "High"
    ensures EditRowAsWritten([a, b], Filter("", "High", ""), 0, data).tasks == [Assign(a, data), b]
    ensures EditRow([a, b], Filter("", "High", ""), 0, data).tasks == [a, Assign(b, data)]
  {
    var f := Filter("", "High", "");
    HighRowIsSecond(a, b);
    var r1 := EditRowAsWritten([a, b], f, 0, data).tasks;
    assert |r1| == 2 && r1[0] == Assign(a, data) && r1[1] == b;
    var r2 := EditRow([a, b], f, 0, data).tasks;
    assert |r2| == 2 && r2[0] == a && r2[1] == Assign(b, data);
  }
}
