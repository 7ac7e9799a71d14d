// The persisted entities of the task-list app and the shape of the object
// database that holds them.
//
// The database keeps two tables, as the embedded object database does: the
// TaskList objects in table order, and the Task objects filed under their
// object identity. A TaskList's `tasks` property is a to-many link: the
// ordered identities of the Task objects it owns.
module Model {

  /** Object identity of a managed object; handed out once and never reused. */
  type Id = nat

  datatype Option<T> = None | Some(value: T)

  /** What a write on an object handle reports: the handle may name an object
      that an earlier write has deleted. */
  datatype Outcome = Committed | StaleHandle

  /** A Task object's persisted properties. */
  datatype Task = Task(title: string, note: string, isComplete: bool)

  /** A managed TaskList object: identity, title, creation date (a timestamp)
      and the ordered links to the Task objects it owns. */
  datatype TaskList = TaskList(id: Id, title: string, date: int, tasks: seq<Id>)

  /** A TaskList built in memory and not yet added to the database, with its
      tasks inline (what the seeding code hands to the bulk save). */
  datatype NewTaskList = NewTaskList(title: string, date: int, tasks: seq<Task>)

  /** The committed contents of the database. */
  datatype StoreState = StoreState(lists: seq<TaskList>, tasks: map<Id, Task>, nextId: Id)

  predicate Distinct(links: seq<Id>) {
    forall k, m | 0 <= k < m < |links| :: links[k] != links[m]
  }

  /** No two TaskList objects share an identity. */
  predicate ListIdsUnique(ls: seq<TaskList>) {
    forall i, j | 0 <= i < j < |ls| :: ls[i].id != ls[j].id
  }

  /** Every Task is linked at most once: never twice by one list, never by two lists. */
  predicate LinksUnique(ls: seq<TaskList>) {
    && (forall i | 0 <= i < |ls| :: Distinct(ls[i].tasks))
    && (forall i, j, t | 0 <= i < j < |ls| && t in ls[i].tasks :: t !in ls[j].tasks)
  }

  /** Every link leads to a stored Task. */
  predicate LinksResolve(s: StoreState) {
    forall i, t | 0 <= i < |s.lists| && t in s.lists[i].tasks :: t in s.tasks
  }

  /** Every stored Task belongs to some list: a Task never outlives its list. */
  predicate NoOrphans(s: StoreState) {
    forall t | t in s.tasks :: exists i | 0 <= i < |s.lists| :: t in s.lists[i].tasks
  }

  /** Every identity in use was handed out before `nextId`. */
  predicate IdsIssued(s: StoreState) {
    && (forall i | 0 <= i < |s.lists| :: s.lists[i].id < s.nextId)
    && (forall t | t in s.tasks :: t < s.nextId)
  }

  predicate Valid(s: StoreState) {
    && ListIdsUnique(s.lists)
    && LinksUnique(s.lists)
    && LinksResolve(s)
    && NoOrphans(s)
    && IdsIssued(s)
  }

  /** The database with nothing in it. */
  function Empty(): (s: StoreState)
    ensures Valid(s) && s.lists == [] && s.tasks == map[]
  {
    StoreState([], map[], 0)
  }

  predicate HasList(ls: seq<TaskList>, id: Id) {
    exists i | 0 <= i < |ls| :: ls[i].id == id
  }

  /** Where the TaskList with identity `id` sits in table order, if it is stored. */
  function ListIndex(ls: seq<TaskList>, id: Id): (r: Option<nat>)
    ensures r.Some? ==> r.value < |ls| && ls[r.value].id == id
    ensures r.Some? ==> forall k | 0 <= k < r.value :: ls[k].id != id
    ensures r.None? <==> !HasList(ls, id)
  {
    if |ls| == 0 then None
    else if ls[0].id == id then Some(0)
    else match ListIndex(ls[1..], id)
      case None => assert forall i | 1 <= i < |ls| :: ls[i] == ls[1..][i - 1]; None
      case Some(k) => Some(k + 1)
  }

  /** Where `t` sits among the links `links`, if it is there. */
  function LinkIndex(links: seq<Id>, t: Id): (r: Option<nat>)
    ensures r.Some? ==> r.value < |links| && links[r.value] == t
    ensures r.None? <==> t !in links
  {
    if |links| == 0 then None
    else if links[0] == t then Some(0)
    else match LinkIndex(links[1..], t)
      case None => None
      case Some(k) => Some(k + 1)
  }

  /** The index of the list that links `t`, if one does. */
  function OwnerIndex(ls: seq<TaskList>, t: Id): (r: Option<nat>)
    ensures r.Some? ==> r.value < |ls| && t in ls[r.value].tasks
    ensures r.None? <==> forall i | 0 <= i < |ls| :: t !in ls[i].tasks
  {
    if |ls| == 0 then None
    else if t in ls[0].tasks then Some(0)
    else match OwnerIndex(ls[1..], t)
      case None => assert forall i | 1 <= i < |ls| :: ls[i] == ls[1..][i - 1]; None
      case Some(k) => Some(k + 1)
  }

  /** The Task objects behind the links, in link order. */
  function TasksOf(tasks: map<Id, Task>, links: seq<Id>): seq<Task>
    requires forall t | t in links :: t in tasks
  {
    seq(|links|, k requires 0 <= k < |links| => tasks[links[k]])
  }

  /** The Task objects of the stored list at index `i`. */
  function ListTasks(s: StoreState, i: nat): seq<Task>
    requires LinksResolve(s) && i < |s.lists|
  {
    TasksOf(s.tasks, s.lists[i].tasks)
  }
}
