/** The task record. Stages 1 and 2 hold it as a four-element list, stage 3
    as a dictionary, stage 4 as a `Task` object; all carry the same four
    strings, so one datatype stands for all of them. A task has no identity
    of its own: its position in the list is what the operations refer to. */
module Tasks {
  import opened Maybe

  datatype Task = Task(name: string, description: string, priority: string, dueDate: string)

  /** A JSON object with string values. */
  type Dict = map<string, string>

  /** The keys of a stored task, in the order they are written. */
  const FieldNames: set<string> := {"name", "description", "priority", "due_date"}

  /** `Task.to_dict` of stage 4, and the dictionary stage 3 builds in `add_task`. */
  function ToDict(t: Task): (d: Dict)
    ensures d.Keys == FieldNames
  {
    map["name" := t.name, "description" := t.description, "priority" := t.priority, "due_date" := t.dueDate]
  }

  lemma DictValues(t: Task)
    ensures ToDict(t)["name"] == t.name && ToDict(t)["description"] == t.description
    ensures ToDict(t)["priority"] == t.priority && ToDict(t)["due_date"] == t.dueDate
  {
  }

  /** `Task.from_dict`: a missing key raises `KeyError`; other keys are ignored. */
  function FromDict(d: Dict): (r: Option<Task>)
    ensures r.Some? <==> FieldNames <= d.Keys
  {
    if "name" in d && "description" in d && "priority" in d && "due_date" in d
    then Some(Task(d["name"], d["description"], d["priority"], d["due_date"]))
    else None
  }

  /** `Task(**task_data)` in `TaskManager.add_task`: the keyword arguments must
      be exactly the four parameters, otherwise Python raises `TypeError`. */
  function FromKeywords(d: Dict): (r: Option<Task>)
    ensures r.Some? <==> d.Keys == FieldNames
    ensures r.Some? ==> ToDict(r.value) == d
  {
    if d.Keys == FieldNames then
      DictRoundTripBack(d);
      FromDict(d)
    else None
  }

  /** Saving a task as a dictionary and reading it back gives the same task. */
  lemma DictRoundTrip(t: Task)
    ensures FromDict(ToDict(t)) == Some(t)
    ensures FromKeywords(ToDict(t)) == Some(t)
  {
  }

  /** A dictionary with exactly the four keys is the dictionary of the task read from it. */
  lemma DictRoundTripBack(d: Dict)
    requires d.Keys == FieldNames
    ensures FromDict(d).Some? && ToDict(FromDict(d).value) == d
  {
    var e := ToDict(FromDict(d).value);
    assert forall k :: k in d ==> k in e && e[k] == d[k];
  }

  /** The four-element list of stages 1 and 2. */
  function Row(t: Task): seq<string> {
    [t.name, t.description, t.priority, t.dueDate]
  }

  function Rows(ts: seq<Task>): (rs: seq<seq<string>>)
    ensures |rs| == |ts|
    ensures forall i :: 0 <= i < |ts| ==> rs[i] == Row(ts[i])
  {
    if |ts| == 0 then [] else [Row(ts[0])] + Rows(ts[1..])
  }

  /** `list.pop(i)`: `s` without its element at `i`, the rest in order. */
  function RemoveAt<T>(s: seq<T>, i: nat): (r: seq<T>)
    requires i < |s|
    ensures |r| == |s| - 1
    ensures forall j :: 0 <= j < i ==> r[j] == s[j]
    ensures forall j :: i <= j < |r| ==> r[j] == s[j + 1]
    ensures multiset(r) + multiset{s[i]} == multiset(s)
  {
    assert s == s[..i] + [s[i]] + s[i + 1..];
    s[..i] + s[i + 1..]
  }

  /** `setattr(task, key, value)` for every entry of `data`, as far as the four
      fields go: the fields named in `data` take its values, the others stay. */
  function Assign(t: Task, data: Dict): (r: Task)
    ensures forall k :: k in FieldNames && k in data ==> ToDict(r)[k] == data[k]
    ensures forall k :: k in FieldNames && k !in data ==> ToDict(r)[k] == ToDict(t)[k]
  {
    Task(if "name" in data then data["name"] else t.name,
         if "description" in data then data["description"] else t.description,
         if "priority" in data then data["priority"] else t.priority,
         if "due_date" in data then data["due_date"] else t.dueDate)
  }

  /** A task is fixed by its dictionary. */
  lemma ToDictInjective(a: Task, b: Task)
    requires ToDict(a) == ToDict(b)
    ensures a == b
  {
    assert ToDict(a)["name"] == ToDict(b)["name"];
    assert ToDict(a)["description"] == ToDict(b)["description"];
    assert ToDict(a)["priority"] == ToDict(b)["priority"];
    assert ToDict(a)["due_date"] == ToDict(b)["due_date"];
  }
}
