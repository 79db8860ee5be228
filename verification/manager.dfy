/** `TaskManager` of stage 4: the task list behind the window, changed by
    position and searched and sorted on request. Saving to and loading from
    `tasks.json` happen outside this model; each operation here is the list
    before and after. */
module Manager {
  import opened Maybe
  import opened Text
  import opened Validation
  import opened Tasks
  import opened Sorting

  /** `add_task`: `Task(**task_data)` appended to the list. */
  function AddTask(tasks: seq<Task>, data: Dict): (r: Option<seq<Task>>)
    ensures r.Some? <==> data.Keys == FieldNames
    ensures r.Some? ==> |r.value| == |tasks| + 1 && r.value[..|tasks|] == tasks
    ensures r.Some? ==> ToDict(r.value[|tasks|]) == data
  {
    match FromKeywords(data)
    case None => None
    case Some(t) =>
      DictRoundTripBack(data);
      assert (tasks + [t])[..|tasks|] == tasks;
      Some(tasks + [t])
  }

  /** What `update_task` and `delete_task` return: whether the index was in
      range, and the list afterwards. */
  datatype Outcome = Outcome(ok: bool, tasks: seq<Task>)

  /** `update_task(index, task_data)`: an index outside the list changes nothing. */
  function UpdateTask(tasks: seq<Task>, index: int, data: Dict): (r: Outcome)
    ensures r.ok <==> 0 <= index < |tasks|
    ensures |r.tasks| == |tasks|
    ensures forall j :: 0 <= j < |tasks| && j != index ==> r.tasks[j] == tasks[j]
    ensures r.ok ==> r.tasks[index] == Assign(tasks[index], data)
  {
    if 0 <= index < |tasks| then Outcome(true, tasks[index := Assign(tasks[index], data)])
    else Outcome(false, tasks)
  }

  /** Updating with a complete dictionary, as the edit dialog does, stores
      exactly the task that dictionary describes. */
  lemma UpdateWithFullDict(tasks: seq<Task>, index: int, data: Dict)
    requires 0 <= index < |tasks| && data.Keys == FieldNames
    ensures FromDict(data).Some?
    ensures UpdateTask(tasks, index, data).tasks[index] == FromDict(data).value
  {
    var a := Assign(tasks[index], data);
    DictRoundTripBack(data);
    ToDictInjective(a, FromDict(data).value);
  }

  /** Applying the same update twice is applying it once. */
  lemma UpdateIdempotent(tasks: seq<Task>, index: int, data: Dict)
    ensures var once := UpdateTask(tasks, index, data).tasks;
            UpdateTask(once, index, data).tasks == once
  {
    var once := UpdateTask(tasks, index, data).tasks;
    if 0 <= index < |tasks| {
      ToDictInjective(Assign(once[index], data), once[index]);
    }
  }

  /** `delete_task(index)`: `pop` when the index is in range. */
  function DeleteTask(tasks: seq<Task>, index: int): (r: Outcome)
    ensures r.ok <==> 0 <= index < |tasks|
    ensures !r.ok ==> r.tasks == tasks
    ensures r.ok ==> |r.tasks| == |tasks| - 1 && multiset(r.tasks) + multiset{tasks[index]} == multiset(tasks)
    ensures r.ok ==> r.tasks == tasks[..index] + tasks[index + 1..]
  {
    if 0 <= index < |tasks| then Outcome(true, RemoveAt(tasks, index))
    else Outcome(false, tasks)
  }

  /** The three conditions of `filter_tasks`, each switched off by its
      default: the name contains the search text ignoring case, the priority
      is the chosen one, the due date is the typed one. */
  predicate Matches(t: Task, name: string, priority: string, date: string) {
    && (name == "" || Contains(Lower(t.name), Lower(name)))
    && (priority == "All" || t.priority == priority)
    && (date == "" || t.dueDate == date)
  }

  /** The tasks that match all three conditions, in list order. */
  function Select(tasks: seq<Task>, name: string, priority: string, date: string): (r: seq<Task>)
    ensures |r| <= |tasks|
  {
    if |tasks| == 0 then []
    else
      var rest := Select(Init(tasks), name, priority, date);
      if Matches(Last(tasks), name, priority, date) then rest + [Last(tasks)] else rest
  }

  /** All but the last element. */
  function Init<T>(s: seq<T>): (r: seq<T>)
    requires |s| > 0
    ensures |r| == |s| - 1
  {
    s[..|s| - 1]
  }

  function Last<T>(s: seq<T>): T
    requires |s| > 0
  {
    s[|s| - 1]
  }

  /** A task is kept exactly when it is in the list and matches. */
  lemma {:induction false} SelectMembers(tasks: seq<Task>, name: string, priority: string, date: string)
    ensures forall t :: t in Select(tasks, name, priority, date) <==> t in tasks && Matches(t, name, priority, date)
  {
    if |tasks| > 0 {
      SelectMembers(Init(tasks), name, priority, date);
      assert tasks == Init(tasks) + [Last(tasks)];
    }
  }

  /** `[t for t in tasks if name.lower() in t.name.lower()]` */
  function ByName(tasks: seq<Task>, name: string): seq<Task> {
    if |tasks| == 0 then []
    else if Contains(Lower(Last(tasks).name), Lower(name)) then ByName(Init(tasks), name) + [Last(tasks)]
    else ByName(Init(tasks), name)
  }

  /** `[t for t in tasks if t.priority == priority]` */
  function ByPriority(tasks: seq<Task>, priority: string): seq<Task> {
    if |tasks| == 0 then []
    else if Last(tasks).priority == priority then ByPriority(Init(tasks), priority) + [Last(tasks)]
    else ByPriority(Init(tasks), priority)
  }

  /** `[t for t in tasks if t.due_date == date]` */
  function ByDate(tasks: seq<Task>, date: string): seq<Task> {
    if |tasks| == 0 then []
    else if Last(tasks).dueDate == date then ByDate(Init(tasks), date) + [Last(tasks)]
    else ByDate(Init(tasks), date)
  }

  /** The three passes of `filter_tasks`, each skipped at its default. */
  function NamePass(tasks: seq<Task>, name: string): seq<Task> {
    if name != "" then ByName(tasks, name) else tasks
  }

  function PriorityPass(tasks: seq<Task>, priority: string): seq<Task> {
    if priority != "All" then ByPriority(tasks, priority) else tasks
  }

  function DatePass(tasks: seq<Task>, date: string): seq<Task> {
    if date != "" then ByDate(tasks, date) else tasks
  }

  /** `filter_tasks(name, priority, date)`: the three comprehensions in turn. */
  function FilterTasks(tasks: seq<Task>, name: string, priority: string, date: string): (r: seq<Task>)
    ensures r == Select(tasks, name, priority, date)
  {
    FilterIsSelect(tasks, name, priority, date);
    DatePass(PriorityPass(NamePass(tasks, name), priority), date)
  }

  lemma NamePassStep(init: seq<Task>, t: Task, name: string)
    ensures NamePass(init + [t], name)
      == if name == "" || Contains(Lower(t.name), Lower(name)) then NamePass(init, name) + [t] else NamePass(init, name)
  {
    assert Init(init + [t]) == init && Last(init + [t]) == t;
  }

  lemma PriorityPassStep(init: seq<Task>, t: Task, priority: string)
    ensures PriorityPass(init + [t], priority)
      == if priority == "All" || t.priority == priority then PriorityPass(init, priority) + [t] else PriorityPass(init, priority)
  {
    assert Init(init + [t]) == init && Last(init + [t]) == t;
  }

  lemma DatePassStep(init: seq<Task>, t: Task, date: string)
    ensures DatePass(init + [t], date)
      == if date == "" || t.dueDate == date then DatePass(init, date) + [t] else DatePass(init, date)
  {
    assert Init(init + [t]) == init && Last(init + [t]) == t;
  }

  /** Filtering in three passes keeps what one pass over all three conditions keeps. */
  lemma {:induction false} FilterIsSelect(tasks: seq<Task>, name: string, priority: string, date: string)
    ensures DatePass(PriorityPass(NamePass(tasks, name), priority), date) == Select(tasks, name, priority, date)
  {
    if |tasks| > 0 {
      var init, t := Init(tasks), Last(tasks);
      FilterIsSelect(init, name, priority, date);
      assert tasks == init + [t];
      var n := NamePass(init, name);
      NamePassStep(init, t, name);
      var p := PriorityPass(n, priority);
      PriorityPassStep(n, t, priority);
      DatePassStep(p, t, date);
    }
  }

  /** With every filter at its default the whole list is shown. */
  lemma FilterDefaults(tasks: seq<Task>)
    ensures FilterTasks(tasks, "", "All", "") == tasks
  {
  }

  /** Filtering a filtered list again changes nothing. */
  lemma {:induction false} FilterIdempotent(tasks: seq<Task>, name: string, priority: string, date: string)
    ensures Select(Select(tasks, name, priority, date), name, priority, date) == Select(tasks, name, priority, date)
  {
    if |tasks| > 0 {
      FilterIdempotent(Init(tasks), name, priority, date);
      var rest := Select(Init(tasks), name, priority, date);
      if Matches(Last(tasks), name, priority, date) {
        assert Init(rest + [Last(tasks)]) == rest;
      }
    }
  }

  /** The positions in `tasks` of the tasks that match, in increasing order. */
  function Positions(tasks: seq<Task>, name: string, priority: string, date: string): (r: seq<nat>)
    ensures |r| == |Select(tasks, name, priority, date)|
    ensures forall k :: 0 <= k < |r| ==> r[k] < |tasks|
  {
    if |tasks| == 0 then []
    else
      var rest := Positions(Init(tasks), name, priority, date);
      if Matches(Last(tasks), name, priority, date) then rest + [|tasks| - 1] else rest
  }

  predicate Increasing(s: seq<nat>) {
    forall k, l :: 0 <= k < l < |s| ==> s[k] < s[l]
  }

  /** The positions increase. */
  lemma {:induction false} PositionsIncrease(tasks: seq<Task>, name: string, priority: string, date: string)
    ensures Increasing(Positions(tasks, name, priority, date))
  {
    if |tasks| > 0 {
      PositionsIncrease(Init(tasks), name, priority, date);
      var rest := Positions(Init(tasks), name, priority, date);
      if Matches(Last(tasks), name, priority, date) {
        var r := rest + [|tasks| - 1];
        assert Positions(tasks, name, priority, date) == r;
        forall k, l | 0 <= k < l < |r|
          ensures r[k] < r[l]
        {
          assert r[k] == rest[k] && rest[k] < |tasks| - 1;
          if l < |rest| {
            assert r[l] == rest[l];
            assert rest[k] < rest[l];
          } else {
            assert r[l] == |tasks| - 1;
          }
        }
      }
    }
  }

  /** The `k`-th position holds the `k`-th task `Select` keeps. */
  /** The tasks kept before the `k`-th position are the first `k` tasks kept,
      so that position is the only one a row number can name. */
  lemma {:induction false} SelectBeforePosition(tasks: seq<Task>, name: string, priority: string, date: string, k: nat)
    requires k < |Positions(tasks, name, priority, date)|
    ensures var p := Positions(tasks, name, priority, date)[k];
            Select(tasks[..p], name, priority, date) == Select(tasks, name, priority, date)[..k]
  {
    var init := Init(tasks);
    var rest := Positions(init, name, priority, date);
    if k < |rest| {
      SelectBeforePosition(init, name, priority, date, k);
      assert init[..rest[k]] == tasks[..rest[k]];
    } else {
      assert tasks[..|tasks| - 1] == init;
    }
  }

  lemma {:induction false} PositionsSelect(tasks: seq<Task>, name: string, priority: string, date: string)
    ensures var r := Positions(tasks, name, priority, date);
            forall k :: 0 <= k < |r| ==> tasks[r[k]] == Select(tasks, name, priority, date)[k]
  {
    if |tasks| > 0 {
      PositionsSelect(Init(tasks), name, priority, date);
    }
  }

  /** Python's `{"High": 0, "Medium": 1, "Low": 2}.get(priority, 3)`. */
  function PriorityRank(priority: string): (r: int)
    ensures 0 <= r <= 3
    ensures r == 3 <==> !IsPriority(priority)
    ensures priority == "High" ==> r == 0
    ensures priority == "Medium" ==> r == 1
    ensures priority == "Low" ==> r == 2
  {
    if priority == "High" then 0
    else if priority == "Medium" then 1
    else if priority == "Low" then 2
    else 3
  }

  /** The key `sort_tasks(key)` computes for one task; `None` where computing
      it raises: `strptime` refusing a due date, or a task attribute that
      does not exist. */
  function KeyFor(key: string, t: Task): (r: Option<Key>)
    ensures key == "priority" ==> r == Some(Rank(PriorityRank(t.priority)))
    ensures key == "name" ==> r == Some(Chars(Lower(t.name)))
    ensures key == "description" ==> r == Some(Chars(Lower(t.description)))
    ensures key == "due_date" ==> (r.Some? <==> Strptime(t.dueDate).Some?)
    ensures key == "due_date" && r.Some? ==>
      var d := Strptime(t.dueDate).value;
      r.value == Stamp(d.year, d.month, d.day)
    ensures r.Some? ==> key in {"priority", "due_date", "name", "description"}
  {
    if key == "priority" then Some(Rank(PriorityRank(t.priority)))
    else if key == "due_date" then
      match Strptime(t.dueDate)
      case Some(d) => Some(Stamp(d.year, d.month, d.day))
      case None => None
    else if key == "name" then Some(Chars(Lower(t.name)))
    else if key == "description" then Some(Chars(Lower(t.description)))
    else None
  }

  /** The decorated list `list.sort` builds before it moves anything; `None`
      if some key cannot be computed. */
  function Decorate(key: string, tasks: seq<Task>): (r: Option<seq<Keyed<Task>>>)
    ensures r.Some? <==> forall i :: 0 <= i < |tasks| ==> KeyFor(key, tasks[i]).Some?
    ensures r.Some? ==> |r.value| == |tasks|
    ensures r.Some? ==> forall i :: 0 <= i < |tasks| ==> r.value[i] == Keyed(KeyFor(key, tasks[i]).value, tasks[i])
  {
    if |tasks| == 0 then Some([])
    else
      match KeyFor(key, tasks[0])
      case None => None
      case Some(k) =>
        match Decorate(key, tasks[1..])
        case None => None
        case Some(rest) => Some([Keyed(k, tasks[0])] + rest)
  }

  /** The tasks of a decorated list, keys dropped. */
  function Items(s: seq<Keyed<Task>>): (r: seq<Task>)
    ensures |r| == |s|
    ensures forall i :: 0 <= i < |s| ==> r[i] == s[i].item
  {
    if |s| == 0 then [] else [s[0].item] + Items(s[1..])
  }

  /** Every element carries the key `KeyFor` gives its task. */
  predicate Tagged(key: string, s: seq<Keyed<Task>>) {
    forall i :: 0 <= i < |s| ==> KeyFor(key, s[i].item) == Some(s[i].key)
  }

  /** A list whose keys are the computed ones is the decoration of its tasks. */
  lemma {:induction false} DecorateItems(key: string, s: seq<Keyed<Task>>)
    requires Tagged(key, s)
    ensures Decorate(key, Items(s)) == Some(s)
  {
    if |s| > 0 {
      assert Tagged(key, s[1..]) by {
        assert forall i :: 0 <= i < |s[1..]| ==> s[1..][i] == s[i + 1];
      }
      DecorateItems(key, s[1..]);
      assert Items(s)[1..] == Items(s[1..]);
      assert s == [s[0]] + s[1..];
    }
  }

  /** A rearrangement of a correctly keyed list is correctly keyed. */
  lemma TaggedPermutation(key: string, r: seq<Keyed<Task>>, s: seq<Keyed<Task>>)
    requires Tagged(key, s) && multiset(r) == multiset(s)
    ensures Tagged(key, r)
  {
    forall i | 0 <= i < |r|
      ensures KeyFor(key, r[i].item) == Some(r[i].key)
    {
      assert r[i] in multiset(r);
      assert r[i] in s;
    }
  }

  /** Dropping the keys keeps the multiset of tasks. */
  lemma {:induction false} ItemsPermutation(r: seq<Keyed<Task>>, s: seq<Keyed<Task>>)
    requires multiset(r) == multiset(s)
    ensures multiset(Items(r)) == multiset(Items(s))
    decreases |r|
  {
    if |r| > 0 {
      assert r[0] in multiset(r);
      var i := IndexOf(s, r[0]);
      var s' := RemoveAt(s, i);
      DropSame(r, s, i);
      ItemsPermutation(r[1..], s');
      ItemsRemove(r, 0);
      ItemsRemove(s, i);
    }
  }

  function IndexOf<T(==)>(s: seq<T>, x: T): (i: nat)
    requires x in s
    ensures i < |s| && s[i] == x
  {
    if s[0] == x then 0 else 1 + IndexOf(s[1..], x)
  }

  /** Taking the same element out of two rearrangements of one list leaves two rearrangements. */
  lemma DropSame<T>(r: seq<T>, s: seq<T>, i: nat)
    requires |r| > 0 && i < |s| && s[i] == r[0] && multiset(r) == multiset(s)
    ensures multiset(r[1..]) == multiset(RemoveAt(s, i))
  {
    assert r == [r[0]] + r[1..];
    assert multiset(r[1..]) == multiset(r) - multiset{r[0]};
  }

  lemma ItemsRemove(s: seq<Keyed<Task>>, i: nat)
    requires i < |s|
    ensures multiset(Items(s)) == multiset(Items(RemoveAt(s, i))) + multiset{s[i].item}
  {
    var a, b := s[..i], s[i + 1..];
    assert s == a + ([s[i]] + b);
    ItemsSplit(a, [s[i]] + b);
    ItemsSplit([s[i]], b);
    ItemsSplit(a, b);
    var ia, ib := Items(a), Items(b);
    assert Items(s) == ia + ([s[i].item] + ib);
    assert Items(RemoveAt(s, i)) == ia + ib;
  }

  lemma ItemsSplit(a: seq<Keyed<Task>>, b: seq<Keyed<Task>>)
    ensures Items(a + b) == Items(a) + Items(b)
  {
    assert forall i :: 0 <= i < |a + b| ==> Items(a + b)[i] == (Items(a) + Items(b))[i];
  }

  /** `sort_tasks(key, reverse)`: `None` where computing a key raises, the
      list then being left as it was. */
  function SortTasks(tasks: seq<Task>, key: string, reverse: bool): (r: Option<seq<Task>>)
    ensures r.None? <==> exists i :: 0 <= i < |tasks| && KeyFor(key, tasks[i]).None?
    ensures r.Some? ==> multiset(r.value) == multiset(tasks)
    ensures r.Some? ==> Decorate(key, r.value).Some? && Sorted(Decorate(key, r.value).value, reverse)
    ensures r.Some? ==> SameGroups(Decorate(key, r.value).value, Decorate(key, tasks).value)
  {
    match Decorate(key, tasks)
    case None => None
    case Some(d) =>
      SortedItems(key, tasks, d, reverse);
      Some(Items(Sort(d, reverse)))
  }

  /** The tasks of the sorted decoration are a stable sort of `tasks`. */
  lemma SortedItems(key: string, tasks: seq<Task>, d: seq<Keyed<Task>>, reverse: bool)
    requires Decorate(key, tasks) == Some(d)
    ensures var r := Items(Sort(d, reverse));
      && multiset(r) == multiset(tasks)
      && Decorate(key, r) == Some(Sort(d, reverse))
  {
    var s := Sort(d, reverse);
    DecorateTagged(key, tasks, d);
    TaggedPermutation(key, s, d);
    DecorateItems(key, s);
    ItemsPermutation(s, d);
  }

  /** A decoration carries the computed keys and the tasks in order. */
  lemma DecorateTagged(key: string, tasks: seq<Task>, d: seq<Keyed<Task>>)
    requires Decorate(key, tasks) == Some(d)
    ensures Tagged(key, d) && Items(d) == tasks
  {
  }

  /** Any stable sort of the list in the requested direction gives the same
      list as `SortTasks`: the model is not tied to the algorithm Python uses. */
  lemma SortTasksUnique(tasks: seq<Task>, key: string, reverse: bool, r: seq<Task>)
    requires Decorate(key, tasks).Some? && Decorate(key, r).Some?
    requires Sorted(Decorate(key, r).value, reverse)
    requires SameGroups(Decorate(key, r).value, Decorate(key, tasks).value)
    ensures SortTasks(tasks, key, reverse) == Some(r)
  {
    var d, e := Decorate(key, tasks).value, Decorate(key, r).value;
    SortUnique(e, d, reverse);
    assert Items(e) == r;
  }

  /** Sorting by priority puts High, Medium, Low in that order. */
  lemma PrioritySortExample(a: Task, b: Task, c: Task)
    requires a.priority == "Low" && b.priority == "High" && c.priority == "Medium"
    ensures SortTasks([a, b, c], "priority", false) == Some([b, c, a])
  {
    var ka, kb, kc := Keyed(Rank(2), a), Keyed(Rank(0), b), Keyed(Rank(1), c);
    DecoratePriorities(a, b, c);
    SortRanksExample(ka, kb, kc);
    ItemsOfThree(ka, kb, kc);
  }

  lemma DecoratePriorities(a: Task, b: Task, c: Task)
    requires a.priority == "Low" && b.priority == "High" && c.priority == "Medium"
    ensures Decorate("priority", [a, b, c]) == Some([Keyed(Rank(2), a), Keyed(Rank(0), b), Keyed(Rank(1), c)])
  {
    var ts := [a, b, c];
    assert KeyFor("priority", a) == Some(Rank(2));
    assert KeyFor("priority", b) == Some(Rank(0));
    assert KeyFor("priority", c) == Some(Rank(1));
    var d := Decorate("priority", ts);
    assert d.Some?;
    assert d.value[0] == Keyed(Rank(2), a);
    assert d.value[1] == Keyed(Rank(0), b);
    assert d.value[2] == Keyed(Rank(1), c);
    assert |d.value| == 3;
    assert d.value == [Keyed(Rank(2), a), Keyed(Rank(0), b), Keyed(Rank(1), c)];
  }

  lemma ItemsOfThree(x: Keyed<Task>, y: Keyed<Task>, z: Keyed<Task>)
    ensures Items([y, z, x]) == [y.item, z.item, x.item]
  {
  }
}
