/** The console stages (1-3): add, update and delete driven by `input()`.
    Each prompt loop becomes a function of the answers the user gives, in
    order; a loop that never sees an acceptable answer yields `None` (the
    program would block on, or fail at, the next `input()`). */
module Console {
  import opened Maybe
  import opened Text
  import opened Numbers
  import opened Validation
  import opened Tasks

  /** The answer a retry loop stopped at: its position and what it yielded. */
  datatype Accepted<T> = Accepted(at: nat, value: T)

  /** A `while True` prompt loop that stops at the first answer `accept` takes. */
  function FirstAccepted<T(==)>(answers: seq<string>, accept: string -> Option<T>): (r: Option<Accepted<T>>)
    ensures r.Some? ==> r.value.at < |answers| && accept(answers[r.value.at]) == Some(r.value.value)
    ensures r.Some? ==> forall k :: 0 <= k < r.value.at ==> accept(answers[k]).None?
    ensures r.None? <==> forall k :: 0 <= k < |answers| ==> accept(answers[k]).None?
  {
    if |answers| == 0 then None
    else match accept(answers[0])
      case Some(v) => Some(Accepted(0, v))
      case None =>
        match FirstAccepted(answers[1..], accept)
        case None => None
        case Some(a) => Some(Accepted(a.at + 1, a.value))
  }

  /** The due-date prompt of `add_task`: an answer is kept as typed if the loose check passes. */
  function DateAnswer(answer: string): Option<string> {
    if LooseDueDate(answer) then Some(answer) else None
  }

  /** The task-number prompt: `int(answer) - 1` must be a position in a list of `count` tasks. */
  function IndexAnswer(count: nat, answer: string): Option<nat> {
    var n := ParseInt(answer);
    if n.Some? && 1 <= n.value <= count then Some((n.value - 1) as nat) else None
  }

  /** What one field edit in `update_task` does: keep the current value or replace it. */
  datatype Edit = Keep | Replace(value: string)

  function Apply(e: Edit, current: string): string {
    match e
    case Keep => current
    case Replace(v) => v
  }

  /** The name and description prompts: an empty answer keeps the value, any other replaces it. */
  function TextEdit(answer: string): Edit {
    if answer == "" then Keep else Replace(answer)
  }

  /** One answer to the priority prompt of `update_task`. */
  function PriorityEdit(answer: string): Option<Edit> {
    if answer == "" then Some(Keep)
    else match ValidatePriority(answer)
      case Some(p) => Some(Replace(p))
      case None => None
  }

  /** One answer to the due-date prompt of `update_task`. */
  function DateEdit(answer: string): Option<Edit> {
    if answer == "" then Some(Keep)
    else if LooseDueDate(answer) then Some(Replace(answer))
    else None
  }

  /** The task-number loop (`while True` around `int(input()) - 1`): the
      position named by the first answer that names a task of `count`. */
  function Selection(count: nat, answers: seq<string>): (r: Option<nat>)
    ensures r.Some? ==> r.value < count
    ensures r.None? <==> forall k :: 0 <= k < |answers| ==> IndexAnswer(count, answers[k]).None?
    ensures r.Some? ==> exists k :: 0 <= k < |answers| && IndexAnswer(count, answers[k]) == Some(r.value)
                                   && forall j :: 0 <= j < k ==> IndexAnswer(count, answers[j]).None?
  {
    match FirstAccepted(answers, a => IndexAnswer(count, a))
    case None => None
    case Some(a) =>
      assert IndexAnswer(count, answers[a.at]) == Some(a.value);
      Some(a.value)
  }

  lemma IndexAnswerPlain()
    ensures IndexAnswer(3, "2") == Some(1)
  {
    assert AllDigits("2");
  }

  /** A task number is read by `int()`, so surrounding blanks are allowed. */
  lemma IndexAnswerBlanks()
    ensures IndexAnswer(3, " 3 ") == Some(2)
  {
    ParseIntBlanks();
  }

  lemma UnpadBlanks()
    ensures Unpad(" 3 ") == "3"
  {
    assert UnpadStart(" 3 ") == "3 ";
    assert UnpadEnd("3 ") == "3";
  }

  lemma ParseIntBlanks()
    ensures ParseInt(" 3 ") == Some(3)
  {
    UnpadBlanks();
    assert IsDigitGroups("3");
  }

  /** Task numbers start at 1 and stop at the length of the list. */
  lemma IndexAnswerZero()
    ensures IndexAnswer(3, "0") == None
  {
    assert AllDigits("0");
  }

  lemma IndexAnswerPastEnd()
    ensures IndexAnswer(3, "4") == None
  {
    assert AllDigits("4");
  }

  /** The task `add_task` builds: the first priority and the first due date
      the prompts accept, if each prompt is ever answered acceptably. */
  function NewTask(name: string, description: string,
                   priorityAnswers: seq<string>, dateAnswers: seq<string>): (r: Option<Task>)
    ensures r.Some? <==>
      && (exists k :: 0 <= k < |priorityAnswers| && ValidatePriority(priorityAnswers[k]).Some?)
      && (exists k :: 0 <= k < |dateAnswers| && LooseDueDate(dateAnswers[k]))
    ensures r.Some? ==>
      && r.value.name == name && r.value.description == description
      && IsPriority(r.value.priority) && LooseDueDate(r.value.dueDate)
      && (exists k :: 0 <= k < |priorityAnswers| && Lower(priorityAnswers[k]) == Lower(r.value.priority))
    ensures r.Some? ==>
      exists k :: 0 <= k < |priorityAnswers| && ValidatePriority(priorityAnswers[k]) == Some(r.value.priority)
                  && forall j :: 0 <= j < k ==> ValidatePriority(priorityAnswers[j]).None?
    ensures r.Some? ==>
      exists k :: 0 <= k < |dateAnswers| && dateAnswers[k] == r.value.dueDate
                  && forall j :: 0 <= j < k ==> !LooseDueDate(dateAnswers[j])
  {
    var p := FirstAccepted(priorityAnswers, ValidatePriority);
    var d := FirstAccepted(dateAnswers, DateAnswer);
    DateFound(dateAnswers);
    if p.None? || d.None? then None
    else
      FirstPriority(priorityAnswers, p.value);
      FirstDate(dateAnswers, d.value);
      Some(Task(name, description, p.value.value, d.value.value))
  }

  /** The priority `add_task` keeps is the one the first accepted answer spells. */
  lemma FirstPriority(answers: seq<string>, p: Accepted<string>)
    requires FirstAccepted(answers, ValidatePriority) == Some(p)
    ensures IsPriority(p.value)
    ensures exists k :: 0 <= k < |answers| && Lower(answers[k]) == Lower(p.value)
    ensures exists k :: 0 <= k < |answers| && ValidatePriority(answers[k]) == Some(p.value)
                        && forall j :: 0 <= j < k ==> ValidatePriority(answers[j]).None?
  {
    assert ValidatePriority(answers[p.at]) == Some(p.value);
  }

  /** The date prompt ends exactly when some answer passes the date check. */
  lemma DateFound(answers: seq<string>)
    ensures FirstAccepted(answers, DateAnswer).Some? <==> exists k :: 0 <= k < |answers| && LooseDueDate(answers[k])
  {
    if FirstAccepted(answers, DateAnswer).None? {
      forall k | 0 <= k < |answers|
        ensures !LooseDueDate(answers[k])
      {
        assert DateAnswer(answers[k]).None?;
      }
    } else {
      var d := FirstAccepted(answers, DateAnswer).value;
      assert DateAnswer(answers[d.at]).Some?;
    }
  }

  /** The date `add_task` keeps is the first answer the date check accepts. */
  lemma FirstDate(answers: seq<string>, d: Accepted<string>)
    requires FirstAccepted(answers, DateAnswer) == Some(d)
    ensures LooseDueDate(d.value)
    ensures exists k :: 0 <= k < |answers| && answers[k] == d.value
                        && forall j :: 0 <= j < k ==> !LooseDueDate(answers[j])
  {
    forall j | 0 <= j < d.at
      ensures !LooseDueDate(answers[j])
    {
      assert DateAnswer(answers[j]).None?;
    }
    assert answers[d.at] == d.value;
  }

  /** `add_task`: read the priority and the due date until each is valid,
      then append the new task. */
  function AddTask(tasks: seq<Task>, name: string, description: string,
                   priorityAnswers: seq<string>, dateAnswers: seq<string>): (r: Option<seq<Task>>)
    ensures r.Some? <==> NewTask(name, description, priorityAnswers, dateAnswers).Some?
    ensures r.Some? ==> |r.value| == |tasks| + 1 && r.value[..|tasks|] == tasks
    ensures r.Some? ==> Some(r.value[|tasks|]) == NewTask(name, description, priorityAnswers, dateAnswers)
  {
    match NewTask(name, description, priorityAnswers, dateAnswers)
    case None => None
    case Some(t) => Some(tasks + [t])
  }

  /** The answers one run of `update_task` reads, in prompt order. */
  datatype UpdateAnswers = UpdateAnswers(
    selection: seq<string>, name: string, description: string,
    priority: seq<string>, dueDate: seq<string>)

  /** The task `update_task` stores in place of `t` once every prompt has an answer. */
  function Edited(t: Task, name: string, description: string, p: Edit, d: Edit): (r: Task)
    ensures r.name == (if name == "" then t.name else name)
    ensures r.description == (if description == "" then t.description else description)
    ensures p.Keep? ==> r.priority == t.priority
    ensures d.Keep? ==> r.dueDate == t.dueDate
    ensures p.Replace? ==> r.priority == p.value
    ensures d.Replace? ==> r.dueDate == d.value
  {
    Task(Apply(TextEdit(name), t.name), Apply(TextEdit(description), t.description),
         Apply(p, t.priority), Apply(d, t.dueDate))
  }

  /** `update_task`: pick a task by number, then edit each field, an empty
      answer keeping the current value. An empty list is left as it is. */
  function UpdateTask(tasks: seq<Task>, a: UpdateAnswers): (r: Option<seq<Task>>)
    ensures |tasks| == 0 ==> r == Some(tasks)
    ensures r.None? <==>
      && |tasks| > 0
      && (|| Selection(|tasks|, a.selection).None?
          || (forall k :: 0 <= k < |a.priority| ==> PriorityEdit(a.priority[k]).None?)
          || (forall k :: 0 <= k < |a.dueDate| ==> DateEdit(a.dueDate[k]).None?))
    ensures r.Some? ==> |r.value| == |tasks|
    ensures r.Some? ==> forall j :: 0 <= j < |tasks| && r.value[j] != tasks[j] ==> Selection(|tasks|, a.selection) == Some(j)
  {
    if |tasks| == 0 then Some(tasks)
    else
      match Selection(|tasks|, a.selection)
      case None => None
      case Some(i) => EditAt(tasks, i, a)
  }

  /** The field prompts of `update_task` once task `i` is selected. */
  function EditAt(tasks: seq<Task>, i: nat, a: UpdateAnswers): (r: Option<seq<Task>>)
    requires i < |tasks|
    ensures r.None? <==>
      || (forall k :: 0 <= k < |a.priority| ==> PriorityEdit(a.priority[k]).None?)
      || (forall k :: 0 <= k < |a.dueDate| ==> DateEdit(a.dueDate[k]).None?)
    ensures r.Some? ==> |r.value| == |tasks| && forall j :: 0 <= j < |tasks| && j != i ==> r.value[j] == tasks[j]
  {
    var p := FirstAccepted(a.priority, PriorityEdit);
    var d := FirstAccepted(a.dueDate, DateEdit);
    if p.None? || d.None? then None
    else Some(tasks[i := Edited(tasks[i], a.name, a.description, p.value.value, d.value.value)])
  }

  /** The task `update_task` stores at the selected position. */
  lemma UpdatedTask(tasks: seq<Task>, a: UpdateAnswers)
    requires UpdateTask(tasks, a).Some? && |tasks| > 0
    ensures Selection(|tasks|, a.selection).Some?
    ensures FirstAccepted(a.priority, PriorityEdit).Some? && FirstAccepted(a.dueDate, DateEdit).Some?
    ensures
      var i := Selection(|tasks|, a.selection).value;
      UpdateTask(tasks, a).value[i]
        == Edited(tasks[i], a.name, a.description,
                  FirstAccepted(a.priority, PriorityEdit).value.value,
                  FirstAccepted(a.dueDate, DateEdit).value.value)
  {
  }

  /** The name and description of the selected task: the typed text unless empty. */
  lemma UpdateTextFields(tasks: seq<Task>, a: UpdateAnswers)
    requires UpdateTask(tasks, a).Some? && |tasks| > 0
    ensures Selection(|tasks|, a.selection).Some?
    ensures
      var i := Selection(|tasks|, a.selection).value;
      var t, u := tasks[i], UpdateTask(tasks, a).value[i];
      && u.name == (if a.name == "" then t.name else a.name)
      && u.description == (if a.description == "" then t.description else a.description)
  {
    UpdatedTask(tasks, a);
  }

  /** The priority of the selected task stays, or comes from a non-empty
      answer the priority check accepts; an empty first answer keeps it. */
  lemma UpdatePriorityField(tasks: seq<Task>, a: UpdateAnswers)
    requires UpdateTask(tasks, a).Some? && |tasks| > 0
    ensures Selection(|tasks|, a.selection).Some?
    ensures
      var i := Selection(|tasks|, a.selection).value;
      var t, u := tasks[i], UpdateTask(tasks, a).value[i];
      && (u.priority == t.priority ||
          exists k :: 0 <= k < |a.priority| && a.priority[k] != "" && ValidatePriority(a.priority[k]) == Some(u.priority))
      && (|a.priority| > 0 && a.priority[0] == "" ==> u.priority == t.priority)
  {
    UpdatedTask(tasks, a);
    PriorityEditAccepted(a.priority);
  }

  lemma PriorityEditAccepted(answers: seq<string>)
    requires FirstAccepted(answers, PriorityEdit).Some?
    ensures
      var e := FirstAccepted(answers, PriorityEdit).value.value;
      && (e.Replace? ==> exists k :: 0 <= k < |answers| && answers[k] != "" && ValidatePriority(answers[k]) == Some(e.value))
      && (|answers| > 0 && answers[0] == "" ==> e.Keep?)
  {
    var p := FirstAccepted(answers, PriorityEdit).value;
    if p.value.Replace? {
      assert answers[p.at] != "";
    }
  }

  /** The due date of the selected task stays, or is a non-empty answer the
      loose date check accepts; an empty first answer keeps it. */
  lemma UpdateDateField(tasks: seq<Task>, a: UpdateAnswers)
    requires UpdateTask(tasks, a).Some? && |tasks| > 0
    ensures Selection(|tasks|, a.selection).Some?
    ensures
      var i := Selection(|tasks|, a.selection).value;
      var t, u := tasks[i], UpdateTask(tasks, a).value[i];
      && (u.dueDate == t.dueDate ||
          exists k :: 0 <= k < |a.dueDate| && a.dueDate[k] != "" && LooseDueDate(a.dueDate[k]) && a.dueDate[k] == u.dueDate)
      && (|a.dueDate| > 0 && a.dueDate[0] == "" ==> u.dueDate == t.dueDate)
  {
    UpdatedTask(tasks, a);
    DateEditAccepted(a.dueDate);
  }

  lemma DateEditAccepted(answers: seq<string>)
    requires FirstAccepted(answers, DateEdit).Some?
    ensures
      var e := FirstAccepted(answers, DateEdit).value.value;
      && (e.Replace? ==> exists k :: 0 <= k < |answers| && answers[k] != "" && LooseDueDate(answers[k]) && answers[k] == e.value)
      && (|answers| > 0 && answers[0] == "" ==> e.Keep?)
  {
    var d := FirstAccepted(answers, DateEdit).value;
    if d.value.Replace? {
      assert answers[d.at] != "";
    }
  }

  /** The confirmation of `delete_task`: any case of `yes`. */
  function Confirms(answer: string): (r: bool)
    ensures r <==> |answer| == 3 && answer[0] in "yY" && answer[1] in "eE" && answer[2] in "sS"
  {
    ConfirmSpellings(answer);
    Lower(answer) == "yes"
  }

  /** The answers that lower-case to "yes": its letters in either case. */
  lemma ConfirmSpellings(answer: string)
    ensures Lower(answer) == "yes" <==> |answer| == 3 && answer[0] in "yY" && answer[1] in "eE" && answer[2] in "sS"
  {
    if |answer| == 3 {
      var l := Lower(answer);
      assert l[0] == LowerChar(answer[0]) && l[1] == LowerChar(answer[1]) && l[2] == LowerChar(answer[2]);
      assert l == "yes" <==> l[0] == 'y' && l[1] == 'e' && l[2] == 's';
      assert LowerChar(answer[0]) == 'y' <==> answer[0] in "yY";
      assert LowerChar(answer[1]) == 'e' <==> answer[1] in "eE";
      assert LowerChar(answer[2]) == 's' <==> answer[2] in "sS";
    }
  }

  /** `delete_task`: pick a task by number and remove it if the user confirms. */
  function DeleteTask(tasks: seq<Task>, selection: seq<string>, confirm: string): (r: Option<seq<Task>>)
    ensures |tasks| == 0 ==> r == Some(tasks)
    ensures r.None? <==> |tasks| > 0 && Selection(|tasks|, selection).None?
    ensures r.Some? && !Confirms(confirm) ==> r.value == tasks
    ensures r.Some? && |tasks| > 0 && Confirms(confirm) ==>
      Selection(|tasks|, selection).Some? && r.value == RemoveAt(tasks, Selection(|tasks|, selection).value)
  {
    if |tasks| == 0 then Some(tasks)
    else
      match Selection(|tasks|, selection)
      case None => None
      case Some(i) => if Confirms(confirm) then Some(RemoveAt(tasks, i)) else Some(tasks)
  }

  /** What the console stages keep true of every stored task. */
  predicate WellFormed(t: Task) {
    IsPriority(t.priority) && LooseDueDate(t.dueDate)
  }

  predicate AllWellFormed(tasks: seq<Task>) {
    forall i :: 0 <= i < |tasks| ==> WellFormed(tasks[i])
  }

  /** Adding never stores a priority or a due date the console checks refuse. */
  lemma AddKeepsWellFormed(tasks: seq<Task>, name: string, description: string,
                           priorityAnswers: seq<string>, dateAnswers: seq<string>)
    requires AllWellFormed(tasks)
    requires AddTask(tasks, name, description, priorityAnswers, dateAnswers).Some?
    ensures AllWellFormed(AddTask(tasks, name, description, priorityAnswers, dateAnswers).value)
  {
    var r := AddTask(tasks, name, description, priorityAnswers, dateAnswers).value;
    var t := r[|tasks|];
    assert WellFormed(t);
    assert r == r[..|tasks|] + [t];
    AppendWellFormed(tasks, t);
  }

  lemma AppendWellFormed(tasks: seq<Task>, t: Task)
    requires AllWellFormed(tasks) && WellFormed(t)
    ensures AllWellFormed(tasks + [t])
  {
    forall j | 0 <= j < |tasks| + 1
      ensures WellFormed((tasks + [t])[j])
    {
      if j < |tasks| {
        assert (tasks + [t])[j] == tasks[j];
      }
    }
  }

  /** Nor does updating. */
  lemma UpdateKeepsWellFormed(tasks: seq<Task>, a: UpdateAnswers)
    requires AllWellFormed(tasks)
    requires UpdateTask(tasks, a).Some?
    ensures AllWellFormed(UpdateTask(tasks, a).value)
  {
    if |tasks| > 0 {
      UpdatePriorityField(tasks, a);
      UpdateDateField(tasks, a);
    }
  }

  /** Nor does deleting. */
  lemma DeleteKeepsWellFormed(tasks: seq<Task>, selection: seq<string>, confirm: string)
    requires AllWellFormed(tasks)
    requires DeleteTask(tasks, selection, confirm).Some?
    ensures AllWellFormed(DeleteTask(tasks, selection, confirm).value)
  {
  }
}
