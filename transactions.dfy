// One function per write transaction of the storage service: the committed
// state after the write, as a function of the committed state before it.
// `Apply` names them all; `ApplyKeepsValid` proves that every write keeps
// the database invariant `Model.Valid`, and the remaining lemmas state what
// each write changes and what it leaves alone.
module Transactions {
  import opened Model

  // ---------------------------------------------------------------------
  // Task lists
  // ---------------------------------------------------------------------

  /** The TaskList object that creating a list titled `title` at time `now` adds. */
  function CreatedList(s: StoreState, title: string, now: int): TaskList {
    TaskList(s.nextId, title, now, [])
  }

  /** Create one list: a new object with a fresh identity, the given title,
      the current date and no tasks, after all stored lists. */
  function AddList(s: StoreState, title: string, now: int): StoreState {
    StoreState(s.lists + [CreatedList(s, title, now)], s.tasks, s.nextId + 1)
  }

  /** The managed TaskList an unmanaged one becomes when its identity is
      `first` and its tasks get the identities right after it. */
  function Managed(d: NewTaskList, first: Id): TaskList {
    TaskList(first, d.title, d.date, seq(|d.tasks|, k requires 0 <= k < |d.tasks| => first + 1 + k))
  }

  /** `tasks` with the new Task objects `added` filed under the identities
      right after `first`. */
  function FileTasks(tasks: map<Id, Task>, first: Id, added: seq<Task>): (m: map<Id, Task>)
    requires forall t | t in tasks :: t <= first
    ensures forall t :: t in m <==> t in tasks || first < t <= first + |added|
    ensures forall t | t in tasks :: m[t] == tasks[t]
    ensures forall k | 0 <= k < |added| :: m[first + 1 + k] == added[k]
    decreases |added|
  {
    if added == [] then tasks
    else FileTasks(tasks, first, added[..|added| - 1])[first + |added| := added[|added| - 1]]
  }

  /** Add one unmanaged list with its tasks. */
  function AddNewList(s: StoreState, d: NewTaskList): (r: StoreState)
    requires forall t | t in s.tasks :: t < s.nextId
    ensures forall t | t in r.tasks :: t < r.nextId
    ensures r.nextId == s.nextId + 1 + |d.tasks|
  {
    StoreState(s.lists + [Managed(d, s.nextId)],
               FileTasks(s.tasks, s.nextId, d.tasks),
               s.nextId + 1 + |d.tasks|)
  }

  /** Add the given unmanaged lists, one after another, in order. */
  function AddLists(s: StoreState, ds: seq<NewTaskList>): (r: StoreState)
    requires forall t | t in s.tasks :: t < s.nextId
    ensures forall t | t in r.tasks :: t < r.nextId
    ensures r.nextId >= s.nextId
    decreases |ds|
  {
    if ds == [] then s else AddNewList(AddLists(s, ds[..|ds| - 1]), ds[|ds| - 1])
  }

  /** The stored list at index `i` as an unmanaged value: what it holds,
      whatever its identities. */
  function Unmanaged(s: StoreState, i: nat): NewTaskList
    requires LinksResolve(s) && i < |s.lists|
  {
    NewTaskList(s.lists[i].title, s.lists[i].date, ListTasks(s, i))
  }

  /** Cascade delete: first every Task of the list, then the list itself.
      A handle to a list that is no longer stored changes nothing. */
  function RemoveList(s: StoreState, id: Id): StoreState {
    match ListIndex(s.lists, id)
    case None => s
    case Some(i) =>
      StoreState(s.lists[..i] + s.lists[i + 1..],
                 map t | t in s.tasks && t !in s.lists[i].tasks :: s.tasks[t],
                 s.nextId)
  }

  /** Rename: every list with identity `id` takes the title `title`. */
  function RetitleList(s: StoreState, id: Id, title: string): StoreState {
    var ls := s.lists;
    s.(lists := seq(|ls|, i requires 0 <= i < |ls| =>
                      if ls[i].id == id then ls[i].(title := title) else ls[i]))
  }

  /** Mark every task of the list done, whatever its previous flag. */
  function CompleteAll(s: StoreState, id: Id): StoreState {
    match ListIndex(s.lists, id)
    case None => s
    case Some(i) =>
      s.(tasks := map t | t in s.tasks ::
                    if t in s.lists[i].tasks then s.tasks[t].(isComplete := true) else s.tasks[t])
  }

  // ---------------------------------------------------------------------
  // Tasks
  // ---------------------------------------------------------------------

  /** The Task object that creating a task with this title and note adds. */
  function CreatedTask(title: string, note: string): Task {
    Task(title, note, false)
  }

  /** Create a task under a new identity and link it at the end of the list
      with identity `id`. */
  function AppendTask(s: StoreState, id: Id, title: string, note: string): StoreState {
    if !HasList(s.lists, id) then s
    else
      var ls := s.lists;
      StoreState(seq(|ls|, i requires 0 <= i < |ls| =>
                       if ls[i].id == id then ls[i].(tasks := ls[i].tasks + [s.nextId]) else ls[i]),
                 s.tasks[s.nextId := CreatedTask(title, note)],
                 s.nextId + 1)
  }

  /** Overwrite a task's title and note. */
  function UpdateTask(s: StoreState, t: Id, title: string, note: string): StoreState {
    if t !in s.tasks then s
    else s.(tasks := s.tasks[t := s.tasks[t].(title := title, note := note)])
  }

  /** `links` without the link `t`, order kept. */
  function Without(links: seq<Id>, t: Id): (r: seq<Id>)
    ensures forall u :: u in r <==> u in links && u != t
    ensures t !in links ==> r == links
  {
    if links == [] then []
    else (if links[0] == t then [] else [links[0]]) + Without(links[1..], t)
  }

  /** Delete a task: the object goes, and with it every link to it. */
  function RemoveTask(s: StoreState, t: Id): StoreState {
    if t !in s.tasks then s
    else
      var ls := s.lists;
      StoreState(seq(|ls|, i requires 0 <= i < |ls| => ls[i].(tasks := Without(ls[i].tasks, t))),
                 s.tasks - {t},
                 s.nextId)
  }

  /** Set a task's done flag. */
  function SetComplete(s: StoreState, t: Id, done: bool): StoreState {
    if t !in s.tasks then s
    else s.(tasks := s.tasks[t := s.tasks[t].(isComplete := done)])
  }

  // ---------------------------------------------------------------------
  // Every write keeps the invariant
  // ---------------------------------------------------------------------

  /** The write transactions of the storage service. Lists and tasks are
      named by their object identity. */
  datatype Write =
    | SaveLists(newLists: seq<NewTaskList>)
    | SaveList(title: string, now: int)
    | DeleteList(list: Id)
    | EditList(list: Id, newValue: string)
    | DoneList(list: Id)
    | SaveTask(title: string, note: string, list: Id)
    | EditTask(task: Id, title: string, note: string)
    | DeleteTask(task: Id)
    | DoneTask(task: Id)
    | UndoneTask(task: Id)

  function Apply(s: StoreState, w: Write): StoreState
    requires Valid(s)
  {
    match w
    case SaveLists(ds) => AddLists(s, ds)
    case SaveList(title, now) => AddList(s, title, now)
    case DeleteList(id) => RemoveList(s, id)
    case EditList(id, title) => RetitleList(s, id, title)
    case DoneList(id) => CompleteAll(s, id)
    case SaveTask(title, note, id) => AppendTask(s, id, title, note)
    case EditTask(t, title, note) => UpdateTask(s, t, title, note)
    case DeleteTask(t) => RemoveTask(s, t)
    case DoneTask(t) => SetComplete(s, t, true)
    case UndoneTask(t) => SetComplete(s, t, false)
  }

  /** Every write keeps the invariant: identities stay unique and issued
      once, every link leads to a stored task, and no task outlives its list. */
  lemma ApplyKeepsValid(s: StoreState, w: Write)
    requires Valid(s)
    ensures Valid(Apply(s, w))
  {
    match w
    case SaveLists(ds) => AddListsKeepsValid(s, ds);
    case SaveList(title, now) => AddListKeepsValid(s, title, now);
    case DeleteList(id) => RemoveListKeepsValid(s, id);
    case EditList(id, title) => RetitleListKeepsValid(s, id, title);
    case DoneList(id) => CompleteAllKeepsValid(s, id);
    case SaveTask(title, note, id) => AppendTaskKeepsValid(s, id, title, note);
    case EditTask(t, title, note) => UpdateTaskKeepsValid(s, t, title, note);
    case DeleteTask(t) => RemoveTaskKeepsValid(s, t);
    case DoneTask(t) => SetCompleteKeepsValid(s, t, true);
    case UndoneTask(t) => SetCompleteKeepsValid(s, t, false);
  }

  /** The state after a run of writes, one transaction after another. */
  function Replay(s: StoreState, ws: seq<Write>): (r: StoreState)
    requires Valid(s)
    ensures Valid(r)
    decreases |ws|
  {
    if ws == [] then s
    else
      var m := Replay(s, ws[..|ws| - 1]);
      ApplyKeepsValid(m, ws[|ws| - 1]);
      Apply(m, ws[|ws| - 1])
  }

  lemma {:induction false} AddListsKeepsValid(s: StoreState, ds: seq<NewTaskList>)
    requires Valid(s)
    ensures Valid(AddLists(s, ds))
    decreases |ds|
  {
    if ds != [] {
      AddListsKeepsValid(s, ds[..|ds| - 1]);
      AddNewListKeepsValid(AddLists(s, ds[..|ds| - 1]), ds[|ds| - 1]);
    }
  }

  lemma AddNewListKeepsValid(s: StoreState, d: NewTaskList)
    requires Valid(s)
    ensures Valid(AddNewList(s, d))
  {
    var first := s.nextId;
    var l := Managed(d, first);
    forall t | first < t <= first + |d.tasks| ensures t in l.tasks {
      assert l.tasks[t - first - 1] == t;
    }
    AppendListValid(s, l, AddNewList(s, d));
  }

  lemma AddListKeepsValid(s: StoreState, title: string, now: int)
    requires Valid(s)
    ensures Valid(AddList(s, title, now))
  {
    AppendListValid(s, CreatedList(s, title, now), AddList(s, title, now));
  }

  lemma UpdateTaskKeepsValid(s: StoreState, t: Id, title: string, note: string)
    requires Valid(s)
    ensures Valid(UpdateTask(s, t, title, note))
  {
    SameLinksValid(s, UpdateTask(s, t, title, note));
  }

  lemma SetCompleteKeepsValid(s: StoreState, t: Id, done: bool)
    requires Valid(s)
    ensures Valid(SetComplete(s, t, done))
  {
    SameLinksValid(s, SetComplete(s, t, done));
  }

  lemma RetitleListKeepsValid(s: StoreState, id: Id, title: string)
    requires Valid(s)
    ensures Valid(RetitleList(s, id, title))
  {
    SameLinksValid(s, RetitleList(s, id, title));
  }

  lemma CompleteAllKeepsValid(s: StoreState, id: Id)
    requires Valid(s)
    ensures Valid(CompleteAll(s, id))
  {
    SameLinksValid(s, CompleteAll(s, id));
  }

  lemma RemoveListKeepsValid(s: StoreState, id: Id)
    requires Valid(s)
    ensures Valid(RemoveList(s, id))
  {
    match ListIndex(s.lists, id)
    case None =>
    case Some(i) => RemoveAtValid(s, i, RemoveList(s, id));
  }

  lemma AppendTaskKeepsValid(s: StoreState, id: Id, title: string, note: string)
    requires Valid(s)
    ensures Valid(AppendTask(s, id, title, note))
  {
    if i :| 0 <= i < |s.lists| && s.lists[i].id == id {
      AppendLinkValid(s, i, AppendTask(s, id, title, note));
    }
  }

  lemma RemoveTaskKeepsValid(s: StoreState, t: Id)
    requires Valid(s)
    ensures Valid(RemoveTask(s, t))
  {
    if t in s.tasks {
      var ls := s.lists;
      var r := RemoveTask(s, t);
      forall i | 0 <= i < |ls| ensures Distinct(r.lists[i].tasks) {
        WithoutDistinct(ls[i].tasks, t);
      }
      forall u | u in r.tasks
        ensures exists j | 0 <= j < |r.lists| :: u in r.lists[j].tasks
      {
        var j :| 0 <= j < |ls| && u in ls[j].tasks;
        assert u in r.lists[j].tasks;
      }
    }
  }

  // ---------------------------------------------------------------------
  // What each write changes and what it leaves alone
  // ---------------------------------------------------------------------

  /** Creating a list adds exactly one list, last, under an identity no
      stored list has, with the given title and date and no tasks; the
      stored lists and tasks are unchanged. */
  lemma AddListEffect(s: StoreState, title: string, now: int)
    requires Valid(s)
    ensures var r := AddList(s, title, now);
      && Valid(r)
      && |r.lists| == |s.lists| + 1
      && r.lists[..|s.lists|] == s.lists && r.tasks == s.tasks
      && !HasList(s.lists, r.lists[|s.lists|].id)
      && r.lists[|s.lists|] == TaskList(r.lists[|s.lists|].id, title, now, [])
  {
    ApplyKeepsValid(s, SaveList(title, now));
    var r := AddList(s, title, now);
    assert r.lists[..|s.lists|] == s.lists;
  }

  /** The bulk save adds every given list, in order and with its tasks, after
      the stored lists; lists and tasks already stored are unchanged. */
  lemma {:induction false} AddListsEffect(s: StoreState, ds: seq<NewTaskList>)
    requires LinksResolve(s) && forall t | t in s.tasks :: t < s.nextId
    ensures var r := AddLists(s, ds);
      && LinksResolve(r)
      && |r.lists| == |s.lists| + |ds|
      && r.lists[..|s.lists|] == s.lists
      && (forall t | t in s.tasks :: t in r.tasks && r.tasks[t] == s.tasks[t])
      && (forall j | 0 <= j < |ds| :: Unmanaged(r, |s.lists| + j) == ds[j])
    decreases |ds|
  {
    if ds != [] {
      var front := ds[..|ds| - 1];
      var d := ds[|ds| - 1];
      AddListsEffect(s, front);
      var m := AddLists(s, front);
      var r := AddNewList(m, d);
      AddNewListEffect(m, d);
      forall j | 0 <= j < |ds| ensures Unmanaged(r, |s.lists| + j) == ds[j] {
        var i := |s.lists| + j;
        if j < |front| {
          TasksKept(m, r, i);
          assert Unmanaged(m, i) == front[j];
        }
      }
    }
  }

  /** Adding one unmanaged list puts its managed copy last and keeps every
      stored task. */
  lemma AddNewListEffect(s: StoreState, d: NewTaskList)
    requires LinksResolve(s) && forall t | t in s.tasks :: t < s.nextId
    ensures var r := AddNewList(s, d);
      && LinksResolve(r)
      && r.lists == s.lists + [Managed(d, s.nextId)]
      && (forall t | t in s.tasks :: t in r.tasks && r.tasks[t] == s.tasks[t])
      && Unmanaged(r, |s.lists|) == d
  {
    var first := s.nextId;
    var l := Managed(d, first);
    var m := FileTasks(s.tasks, first, d.tasks);
    assert forall t | t in l.tasks :: t in m;
    var r := AddNewList(s, d);
    forall i, t | 0 <= i < |r.lists| && t in r.lists[i].tasks ensures t in r.tasks {
      if i < |s.lists| { assert t in s.lists[i].tasks; }
    }
    var got := TasksOf(m, l.tasks);
    forall k | 0 <= k < |d.tasks| ensures got[k] == d.tasks[k] {
      assert l.tasks[k] == first + 1 + k;
      assert got[k] == m[first + 1 + k];
    }
    assert got == d.tasks;
  }

  /** Deleting a list removes it and every task it owned; the other lists
      keep their order and their tasks. A list with no tasks is simply
      removed. */
  lemma RemoveListCascade(s: StoreState, i: nat)
    requires Valid(s) && i < |s.lists|
    ensures var r := RemoveList(s, s.lists[i].id);
      && LinksResolve(r)
      && r.lists == s.lists[..i] + s.lists[i + 1..]
      && !HasList(r.lists, s.lists[i].id)
      && (forall t | t in s.lists[i].tasks :: t !in r.tasks)
      && (forall t | t in s.tasks && t !in s.lists[i].tasks :: t in r.tasks && r.tasks[t] == s.tasks[t])
      && (forall j | 0 <= j < |r.lists| :: ListTasks(r, j) == ListTasks(s, Skip(i, j)))
      && (s.lists[i].tasks == [] ==> r.tasks == s.tasks)
  {
    var id := s.lists[i].id;
    var r := RemoveList(s, id);
    assert ListIndex(s.lists, id) == Some(i);
    forall j | 0 <= j < |r.lists|
      ensures r.lists[j] == s.lists[Skip(i, j)] && r.lists[j].id != id
      ensures forall t | t in r.lists[j].tasks :: t in r.tasks && r.tasks[t] == s.tasks[t]
    {
      var k := Skip(i, j);
      assert r.lists[j] == s.lists[k];
      assert forall t | t in s.lists[k].tasks :: t !in s.lists[i].tasks;
    }
    forall j | 0 <= j < |r.lists| ensures ListTasks(r, j) == ListTasks(s, Skip(i, j)) {
    }
  }

  /** Deleting the list without first deleting its tasks would leave them
      stored with no list: the first step of the cascade is needed. */
  lemma DeletingListAloneOrphans(s: StoreState, i: nat)
    requires Valid(s) && i < |s.lists| && s.lists[i].tasks != []
    ensures !NoOrphans(s.(lists := s.lists[..i] + s.lists[i + 1..]))
  {
    var r := s.(lists := s.lists[..i] + s.lists[i + 1..]);
    var t := s.lists[i].tasks[0];
    assert t in s.lists[i].tasks;
    assert t in r.tasks;
    forall j | 0 <= j < |r.lists| ensures t !in r.lists[j].tasks {
      assert r.lists[j] == s.lists[Skip(i, j)];
    }
  }

  /** Renaming changes only that list's title: its date and tasks, and every
      other list, stay as they were. */
  lemma RetitleListEffect(s: StoreState, i: nat, title: string)
    requires Valid(s) && i < |s.lists|
    ensures var r := RetitleList(s, s.lists[i].id, title);
      && |r.lists| == |s.lists| && r.tasks == s.tasks
      && r.lists[i] == s.lists[i].(title := title)
      && (forall j | 0 <= j < |s.lists| && j != i :: r.lists[j] == s.lists[j])
  {
  }

  /** Of two renames of one list, the later one wins; renaming twice to the
      same title is renaming once. */
  lemma RetitleLastWins(s: StoreState, id: Id, first: string, second: string)
    ensures RetitleList(RetitleList(s, id, first), id, second) == RetitleList(s, id, second)
  {
  }

  /** Marking a list done sets every one of its tasks complete, whatever the
      flag was, keeps their number, order, titles and notes, and touches no
      other list's tasks. */
  lemma CompleteAllEffect(s: StoreState, i: nat)
    requires Valid(s) && i < |s.lists|
    ensures var r := CompleteAll(s, s.lists[i].id);
      && LinksResolve(r)
      && r.lists == s.lists
      && |ListTasks(r, i)| == |ListTasks(s, i)|
      && (forall k | 0 <= k < |ListTasks(s, i)| ::
            ListTasks(r, i)[k] == ListTasks(s, i)[k].(isComplete := true))
      && (forall j | 0 <= j < |s.lists| && j != i :: ListTasks(r, j) == ListTasks(s, j))
  {
    var r := CompleteAll(s, s.lists[i].id);
    assert ListIndex(s.lists, s.lists[i].id) == Some(i);
    forall j | 0 <= j < |s.lists| && j != i ensures ListTasks(r, j) == ListTasks(s, j) {
      assert forall t | t in s.lists[j].tasks :: t !in s.lists[i].tasks;
    }
  }

  /** Marking a list done twice is marking it done once. */
  lemma CompleteAllIdempotent(s: StoreState, id: Id)
    ensures CompleteAll(CompleteAll(s, id), id) == CompleteAll(s, id)
  {
    var r := CompleteAll(s, id);
    match ListIndex(s.lists, id)
    case None =>
    case Some(i) =>
      assert r.lists == s.lists;
      var rr := CompleteAll(r, id);
      assert rr.tasks == r.tasks;
  }

  /** Creating a task appends exactly that task at the end of the list's
      tasks under a new identity; earlier tasks keep their positions and no
      other list changes. */
  lemma AppendTaskEffect(s: StoreState, i: nat, title: string, note: string)
    requires Valid(s) && i < |s.lists|
    ensures var r := AppendTask(s, s.lists[i].id, title, note);
      && LinksResolve(r)
      && s.nextId !in s.tasks
      && r.lists[i] == s.lists[i].(tasks := s.lists[i].tasks + [s.nextId])
      && ListTasks(r, i) == ListTasks(s, i) + [CreatedTask(title, note)]
      && (forall j | 0 <= j < |s.lists| && j != i :: r.lists[j] == s.lists[j] && ListTasks(r, j) == ListTasks(s, j))
  {
    var r := AppendTask(s, s.lists[i].id, title, note);
    var n := s.nextId;
    assert HasList(s.lists, s.lists[i].id);
    forall j, t | 0 <= j < |s.lists| && t in s.lists[j].tasks ensures t in s.tasks && t < n {
    }
    forall j | 0 <= j < |s.lists|
      ensures j != i ==> r.lists[j] == s.lists[j]
      ensures forall t | t in r.lists[j].tasks :: t in r.tasks
    {
    }
    forall j | 0 <= j < |s.lists| && j != i ensures ListTasks(r, j) == ListTasks(s, j) {
      TasksKept(s, r, j);
    }
    var old_ := ListTasks(s, i);
    var new_ := ListTasks(r, i);
    forall k | 0 <= k < |old_| ensures new_[k] == old_[k] {
      assert s.lists[i].tasks[k] in s.tasks;
    }
  }

  /** Editing a task overwrites its title and note; its done flag, its
      position in its list and every other task stay as they were. */
  lemma UpdateTaskEffect(s: StoreState, t: Id, title: string, note: string)
    requires t in s.tasks
    ensures var r := UpdateTask(s, t, title, note);
      && r.lists == s.lists
      && r.tasks[t] == Task(title, note, s.tasks[t].isComplete)
      && (forall u | u in s.tasks && u != t :: u in r.tasks && r.tasks[u] == s.tasks[u])
  {
  }

  /** Deleting a task removes only that task: its list survives with the
      other tasks in their order, and no other list changes. */
  lemma RemoveTaskEffect(s: StoreState, i: nat, p: nat)
    requires Valid(s) && i < |s.lists| && p < |s.lists[i].tasks|
    ensures var t := s.lists[i].tasks[p];
      var r := RemoveTask(s, t);
      && t !in r.tasks
      && |r.lists| == |s.lists|
      && r.lists[i] == s.lists[i].(tasks := s.lists[i].tasks[..p] + s.lists[i].tasks[p + 1..])
      && (forall j | 0 <= j < |s.lists| && j != i :: r.lists[j] == s.lists[j])
      && (forall u | u in s.tasks && u != t :: u in r.tasks && r.tasks[u] == s.tasks[u])
  {
    var t := s.lists[i].tasks[p];
    assert t in s.lists[i].tasks;
    WithoutAt(s.lists[i].tasks, p);
    assert forall j | 0 <= j < |s.lists| && j != i :: t !in s.lists[j].tasks;
  }

  /** Setting a task's done flag changes that flag and nothing else. */
  lemma SetCompleteEffect(s: StoreState, t: Id, done: bool)
    requires t in s.tasks
    ensures var r := SetComplete(s, t, done);
      && r.lists == s.lists
      && r.tasks[t] == Task(s.tasks[t].title, s.tasks[t].note, done)
      && (forall u | u in s.tasks && u != t :: u in r.tasks && r.tasks[u] == s.tasks[u])
  {
  }

  /** Of two settings of a task's done flag the later one wins: `done` twice
      is `done` once, and `undone` after `done` leaves the flag false. */
  lemma SetCompleteLastWins(s: StoreState, t: Id, first: bool, second: bool)
    ensures SetComplete(SetComplete(s, t, first), t, second) == SetComplete(s, t, second)
  {
  }

  // ---------------------------------------------------------------------
  // Helper facts
  // ---------------------------------------------------------------------

  /** Index `j` of the lists after removing index `i` is index `Skip(i, j)` before. */
  function Skip(i: nat, j: nat): nat {
    if j < i then j else j + 1
  }

  /** A list whose links and tasks a write keeps shows the same tasks after it. */
  lemma TasksKept(s: StoreState, r: StoreState, i: nat)
    requires LinksResolve(s) && LinksResolve(r) && i < |s.lists| && i < |r.lists|
    requires r.lists[i].tasks == s.lists[i].tasks
    requires forall t | t in s.tasks :: t in r.tasks && r.tasks[t] == s.tasks[t]
    ensures ListTasks(r, i) == ListTasks(s, i)
  {
    assert forall t | t in s.lists[i].tasks :: t in s.tasks;
  }

  /** Adding a list whose identity and links are all new keeps the invariant. */
  lemma AppendListValid(s: StoreState, l: TaskList, r: StoreState)
    requires Valid(s)
    requires r.lists == s.lists + [l] && s.nextId <= l.id < r.nextId
    requires Distinct(l.tasks)
    requires forall t | t in l.tasks :: s.nextId <= t < r.nextId
    requires forall t :: t in r.tasks <==> t in s.tasks || t in l.tasks
    ensures Valid(r)
  {
    var n := |s.lists|;
    assert forall i | 0 <= i < n :: r.lists[i] == s.lists[i];
    assert r.lists[n] == l;
    forall i, j | 0 <= i < j < |r.lists| ensures r.lists[i].id != r.lists[j].id {
      if j == n { assert r.lists[i].id < s.nextId; }
    }
    forall i, j, t | 0 <= i < j < |r.lists| && t in r.lists[i].tasks
      ensures t !in r.lists[j].tasks
    {
      if j == n { assert t in s.tasks; }
    }
    forall t | t in r.tasks
      ensures exists i | 0 <= i < |r.lists| :: t in r.lists[i].tasks
    {
      if t in s.tasks {
        var i :| 0 <= i < n && t in s.lists[i].tasks;
        assert t in r.lists[i].tasks;
      } else {
        assert t in r.lists[n].tasks;
      }
    }
  }

  /** A write that keeps every list's identity and links, and the set of
      stored tasks, keeps the invariant. */
  lemma SameLinksValid(s: StoreState, r: StoreState)
    requires Valid(s)
    requires |r.lists| == |s.lists| && r.tasks.Keys == s.tasks.Keys && r.nextId == s.nextId
    requires forall i | 0 <= i < |s.lists| :: r.lists[i].id == s.lists[i].id && r.lists[i].tasks == s.lists[i].tasks
    ensures Valid(r)
  {
    forall t | t in r.tasks
      ensures exists i | 0 <= i < |r.lists| :: t in r.lists[i].tasks
    {
      var i :| 0 <= i < |s.lists| && t in s.lists[i].tasks;
      assert t in r.lists[i].tasks;
    }
  }

  /** Filing a new Task and linking it at the end of list `i` keeps the invariant. */
  lemma AppendLinkValid(s: StoreState, i: nat, r: StoreState)
    requires Valid(s) && i < |s.lists|
    requires |r.lists| == |s.lists| && r.nextId == s.nextId + 1
    requires forall j | 0 <= j < |s.lists| && j != i :: r.lists[j] == s.lists[j]
    requires r.lists[i] == s.lists[i].(tasks := s.lists[i].tasks + [s.nextId])
    requires r.tasks.Keys == s.tasks.Keys + {s.nextId}
    ensures Valid(r)
  {
    AppendLinkIds(s, i, r);
    AppendLinkUnique(s, i, r);
    AppendLinkOwned(s, i, r);
  }

  lemma AppendLinkIds(s: StoreState, i: nat, r: StoreState)
    requires ListIdsUnique(s.lists) && IdsIssued(s) && i < |s.lists|
    requires |r.lists| == |s.lists| && r.nextId == s.nextId + 1
    requires forall j | 0 <= j < |s.lists| && j != i :: r.lists[j] == s.lists[j]
    requires r.lists[i] == s.lists[i].(tasks := s.lists[i].tasks + [s.nextId])
    requires r.tasks.Keys == s.tasks.Keys + {s.nextId}
    ensures ListIdsUnique(r.lists) && IdsIssued(r)
  {
    assert forall j | 0 <= j < |s.lists| :: r.lists[j].id == s.lists[j].id;
  }

  lemma AppendLinkOwned(s: StoreState, i: nat, r: StoreState)
    requires LinksResolve(s) && NoOrphans(s) && i < |s.lists|
    requires |r.lists| == |s.lists|
    requires forall j | 0 <= j < |s.lists| && j != i :: r.lists[j] == s.lists[j]
    requires r.lists[i] == s.lists[i].(tasks := s.lists[i].tasks + [s.nextId])
    requires r.tasks.Keys == s.tasks.Keys + {s.nextId}
    ensures LinksResolve(r) && NoOrphans(r)
  {
    forall j, t | 0 <= j < |r.lists| && t in r.lists[j].tasks ensures t in r.tasks {
      if t != s.nextId { assert t in s.lists[j].tasks; }
    }
    forall t | t in r.tasks
      ensures exists j | 0 <= j < |r.lists| :: t in r.lists[j].tasks
    {
      if t == s.nextId {
        assert t in r.lists[i].tasks;
      } else {
        var j :| 0 <= j < |s.lists| && t in s.lists[j].tasks;
        assert t in r.lists[j].tasks;
      }
    }
  }

  lemma AppendLinkUnique(s: StoreState, i: nat, r: StoreState)
    requires LinksUnique(s.lists) && LinksResolve(s) && i < |s.lists|
    requires forall t | t in s.tasks :: t < s.nextId
    requires |r.lists| == |s.lists|
    requires forall j | 0 <= j < |s.lists| && j != i :: r.lists[j] == s.lists[j]
    requires r.lists[i] == s.lists[i].(tasks := s.lists[i].tasks + [s.nextId])
    ensures LinksUnique(r.lists)
  {
    var ls := s.lists;
    var n := s.nextId;
    forall j, t: Id | 0 <= j < |ls| && t in ls[j].tasks ensures t < n {
      assert t in s.tasks;
    }
    forall j | 0 <= j < |ls| ensures Distinct(r.lists[j].tasks) {
      if j == i { assert n !in ls[i].tasks; }
    }
    forall j, k, t | 0 <= j < k < |ls| && t in r.lists[j].tasks
      ensures t !in r.lists[k].tasks
    {
      if t == n {
        assert j == i;
        assert t !in ls[k].tasks;
      } else {
        assert t in ls[j].tasks;
      }
    }
  }

  /** Removing list `i` together with all the tasks it links keeps the invariant. */
  lemma RemoveAtValid(s: StoreState, i: nat, r: StoreState)
    requires Valid(s) && i < |s.lists|
    requires r.lists == s.lists[..i] + s.lists[i + 1..] && r.nextId == s.nextId
    requires forall t :: t in r.tasks <==> t in s.tasks && t !in s.lists[i].tasks
    ensures Valid(r)
  {
    var ls := s.lists;
    assert |r.lists| == |ls| - 1;
    assert forall j | 0 <= j < |r.lists| :: r.lists[j] == ls[Skip(i, j)];
    forall j, k | 0 <= j < k < |r.lists| ensures r.lists[j].id != r.lists[k].id {
      assert Skip(i, j) < Skip(i, k);
    }
    forall j, k, t | 0 <= j < k < |r.lists| && t in r.lists[j].tasks
      ensures t !in r.lists[k].tasks
    {
      assert Skip(i, j) < Skip(i, k);
      assert t in ls[Skip(i, j)].tasks;
    }
    forall j, t | 0 <= j < |r.lists| && t in r.lists[j].tasks ensures t in r.tasks {
      var k := Skip(i, j);
      assert t in ls[k].tasks;
      assert k != i;
      assert t !in ls[i].tasks;
    }
    forall t | t in r.tasks
      ensures exists j | 0 <= j < |r.lists| :: t in r.lists[j].tasks
    {
      var k :| 0 <= k < |ls| && t in ls[k].tasks;
      var j := if k < i then k else k - 1;
      assert Skip(i, j) == k;
      assert t in r.lists[j].tasks;
    }
  }

  lemma {:induction false} WithoutDistinct(links: seq<Id>, t: Id)
    requires Distinct(links)
    ensures Distinct(Without(links, t))
  {
    if links != [] {
      WithoutDistinct(links[1..], t);
      assert links[0] !in links[1..];
    }
  }

  /** In distinct links, dropping the link `links[p]` is removing position `p`. */
  lemma {:induction false} WithoutAt(links: seq<Id>, p: nat)
    requires Distinct(links) && p < |links|
    ensures Without(links, links[p]) == links[..p] + links[p + 1..]
  {
    if p == 0 {
      assert links[0] !in links[1..];
    } else {
      WithoutAt(links[1..], p - 1);
      assert links[0] != links[p];
      assert links[1..][..p - 1] == links[1..p];
    }
  }
}
