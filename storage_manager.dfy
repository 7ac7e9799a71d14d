// The storage service: one object that owns the database and runs every
// change to it as a single write transaction. Each method does its write in
// place on the two tables and promises that the committed state is the
// corresponding function of `Transactions` applied to the state before.
//
// The service's methods take object handles; here a handle is the object's
// identity. A handle whose object an earlier write deleted is reported as
// `StaleHandle` and the write changes nothing.
module Services {
  import opened Model
  import T = Transactions

  class StorageManager {
    /** The TaskList table, in table order. */
    var taskLists: seq<TaskList>
    /** The Task table, by object identity. */
    var tasks: map<Id, Task>
    /** The next object identity to hand out. */
    var nextId: Id

    function State(): StoreState
      reads this
    {
      StoreState(taskLists, tasks, nextId)
    }

    predicate Valid()
      reads this
    {
      Model.Valid(State())
    }

    /** Opens the database, here an empty one. */
    constructor ()
      ensures Valid() && State() == Empty()
    {
      taskLists := [];
      tasks := map[];
      nextId := 0;
    }

    /** All stored task lists, in table order. */
    method FetchTaskLists() returns (r: seq<TaskList>)
      requires Valid()
      ensures r == State().lists
    {
      r := taskLists;
    }

    /** Saves the given new lists, with their tasks, one after another. */
    method SaveTaskLists(ds: seq<NewTaskList>)
      requires Valid()
      modifies this
      ensures Valid()
      ensures State() == T.AddLists(old(State()), ds)
    {
      ghost var s0 := State();
      for k := 0 to |ds|
        invariant State() == T.AddLists(s0, ds[..k])
      {
        assert ds[..k + 1][..k] == ds[..k];
        var d := ds[k];
        var first := nextId;
        taskLists := taskLists + [T.Managed(d, first)];
        tasks := T.FileTasks(tasks, first, d.tasks);
        nextId := first + 1 + |d.tasks|;
      }
      assert ds[..|ds|] == ds;
      T.AddListsKeepsValid(s0, ds);
    }

    /** Creates a list with the given title, dated `now`, and hands it to the caller. */
    method SaveTaskList(title: string, now: int) returns (created: TaskList)
      requires Valid()
      modifies this
      ensures Valid()
      ensures State() == T.AddList(old(State()), title, now)
      ensures created == taskLists[|taskLists| - 1] && created.title == title && created.tasks == []
    {
      T.AddListKeepsValid(State(), title, now);
      created := TaskList(nextId, title, now, []);
      taskLists := taskLists + [created];
      nextId := nextId + 1;
    }

    /** Deletes the list's tasks, then the list. */
    method DeleteTaskList(list: Id) returns (o: Outcome)
      requires Valid()
      modifies this
      ensures Valid()
      ensures State() == T.RemoveList(old(State()), list)
      ensures o == Committed <==> HasList(old(taskLists), list)
    {
      ghost var s0 := State();
      var found := ListIndex(taskLists, list);
      if found.None? {
        return StaleHandle;
      }
      var i := found.value;
      tasks := DeleteAll(tasks, taskLists[i].tasks);
      taskLists := taskLists[..i] + taskLists[i + 1..];
      RemoveListMatches(s0, list, i, State());
      T.RemoveListKeepsValid(s0, list);
      o := Committed;
    }

    /** Gives the list a new title. */
    method EditTaskList(list: Id, newValue: string) returns (o: Outcome)
      requires Valid()
      modifies this
      ensures Valid()
      ensures State() == T.RetitleList(old(State()), list, newValue)
      ensures o == Committed <==> HasList(old(taskLists), list)
    {
      ghost var s0 := State();
      T.RetitleListKeepsValid(s0, list, newValue);
      var found := ListIndex(taskLists, list);
      if found.None? {
        return StaleHandle;
      }
      var i := found.value;
      taskLists := taskLists[i := taskLists[i].(title := newValue)];
      RetitleListMatches(s0, i, newValue);
      o := Committed;
    }

    /** Marks every task of the list done. */
    method DoneTaskList(list: Id) returns (o: Outcome)
      requires Valid()
      modifies this
      ensures Valid()
      ensures State() == T.CompleteAll(old(State()), list)
      ensures o == Committed <==> HasList(old(taskLists), list)
    {
      ghost var s0 := State();
      var found := ListIndex(taskLists, list);
      if found.None? {
        return StaleHandle;
      }
      var links := taskLists[found.value].tasks;
      assert forall t | t in links :: t in s0.tasks;
      tasks := SetAllComplete(tasks, links);
      CompleteAllMatches(s0, list, found.value, State());
      T.CompleteAllKeepsValid(s0, list);
      o := Committed;
    }

    /** Creates a task with the given title and note at the end of the list,
        and hands its identity to the caller. */
    method SaveTask(title: string, note: string, list: Id) returns (o: Outcome, created: Id)
      requires Valid()
      modifies this
      ensures Valid()
      ensures State() == T.AppendTask(old(State()), list, title, note)
      ensures o == Committed <==> HasList(old(taskLists), list)
      ensures o == Committed ==> created !in old(tasks) && created in tasks
                                  && tasks[created] == T.CreatedTask(title, note)
    {
      ghost var s0 := State();
      T.AppendTaskKeepsValid(s0, list, title, note);
      created := nextId;
      var found := ListIndex(taskLists, list);
      if found.None? {
        return StaleHandle, created;
      }
      var i := found.value;
      tasks := tasks[created := T.CreatedTask(title, note)];
      taskLists := taskLists[i := taskLists[i].(tasks := taskLists[i].tasks + [created])];
      nextId := nextId + 1;
      AppendTaskMatches(s0, i, title, note);
      o := Committed;
    }

    /** Overwrites the task's title, then its note. */
    method EditTask(task: Id, title: string, note: string) returns (o: Outcome)
      requires Valid()
      modifies this
      ensures Valid()
      ensures State() == T.UpdateTask(old(State()), task, title, note)
      ensures o == Committed <==> task in old(tasks)
    {
      ghost var s0 := State();
      T.UpdateTaskKeepsValid(s0, task, title, note);
      if task !in tasks {
        return StaleHandle;
      }
      tasks := tasks[task := tasks[task].(title := title)];
      tasks := tasks[task := tasks[task].(note := note)];
      assert tasks == s0.tasks[task := s0.tasks[task].(title := title, note := note)];
      assert State() == T.UpdateTask(s0, task, title, note);
      o := Committed;
    }

    /** Deletes the task; the link to it goes out of its list. */
    method DeleteTask(task: Id) returns (o: Outcome)
      requires Valid()
      modifies this
      ensures Valid()
      ensures State() == T.RemoveTask(old(State()), task)
      ensures o == Committed <==> task in old(tasks)
    {
      ghost var s0 := State();
      T.RemoveTaskKeepsValid(s0, task);
      if task !in tasks {
        return StaleHandle;
      }
      OwnerOfStored(s0, task);
      var i := OwnerIndex(taskLists, task).value;
      var p := LinkIndex(taskLists[i].tasks, task).value;
      var links := taskLists[i].tasks;
      taskLists := taskLists[i := taskLists[i].(tasks := links[..p] + links[p + 1..])];
      tasks := tasks - {task};
      DeleteTaskMatches(s0, i, p, State());
      o := Committed;
    }

    /** Sets the task's done flag. */
    method DoneTask(task: Id) returns (o: Outcome)
      requires Valid()
      modifies this
      ensures Valid()
      ensures State() == T.SetComplete(old(State()), task, true)
      ensures o == Committed <==> task in old(tasks)
    {
      T.SetCompleteKeepsValid(State(), task, true);
      if task !in tasks {
        return StaleHandle;
      }
      tasks := tasks[task := tasks[task].(isComplete := true)];
      o := Committed;
    }

    /** Clears the task's done flag. */
    method UndoneTask(task: Id) returns (o: Outcome)
      requires Valid()
      modifies this
      ensures Valid()
      ensures State() == T.SetComplete(old(State()), task, false)
      ensures o == Committed <==> task in old(tasks)
    {
      T.SetCompleteKeepsValid(State(), task, false);
      if task !in tasks {
        return StaleHandle;
      }
      tasks := tasks[task := tasks[task].(isComplete := false)];
      o := Committed;
    }
  }

  /** Deletes, one after another, the objects behind the links: every
      linked task goes, every other task stays as it was. */
  method DeleteAll(tasks: map<Id, Task>, links: seq<Id>) returns (r: map<Id, Task>)
    ensures forall t :: t in r <==> t in tasks && t !in links
    ensures forall t | t in r :: r[t] == tasks[t]
  {
    r := tasks;
    for k := 0 to |links|
      invariant forall t :: t in r <==> t in tasks && t !in links[..k]
      invariant forall t | t in r :: r[t] == tasks[t]
    {
      assert links[..k + 1] == links[..k] + [links[k]];
      r := r - {links[k]};
    }
    assert links[..|links|] == links;
  }

  /** Sets the done flag on each linked task in turn: every linked task is
      complete afterwards, and every other task is as it was. */
  method SetAllComplete(tasks: map<Id, Task>, links: seq<Id>) returns (r: map<Id, Task>)
    requires forall t | t in links :: t in tasks
    ensures r.Keys == tasks.Keys
    ensures forall t | t in r ::
              r[t] == if t in links then tasks[t].(isComplete := true) else tasks[t]
  {
    r := tasks;
    for k := 0 to |links|
      invariant r.Keys == tasks.Keys
      invariant forall t | t in r ::
                  r[t] == if t in links[..k] then tasks[t].(isComplete := true) else tasks[t]
    {
      var t := links[k];
      assert links[..k + 1] == links[..k] + [t];
      assert t in links;
      r := r[t := r[t].(isComplete := true)];
    }
    assert links[..|links|] == links;
  }

  /** Dropping the list's tasks and then the list is the cascade delete. */
  lemma RemoveListMatches(s: StoreState, id: Id, i: nat, r: StoreState)
    requires ListIndex(s.lists, id) == Some(i)
    requires r.lists == s.lists[..i] + s.lists[i + 1..] && r.nextId == s.nextId
    requires forall t :: t in r.tasks <==> t in s.tasks && t !in s.lists[i].tasks
    requires forall t | t in r.tasks :: r.tasks[t] == s.tasks[t]
    ensures r == T.RemoveList(s, id)
  {
  }

  /** Setting the flag on each linked task in turn is marking the list done. */
  lemma CompleteAllMatches(s: StoreState, id: Id, i: nat, r: StoreState)
    requires ListIndex(s.lists, id) == Some(i)
    requires r.lists == s.lists && r.nextId == s.nextId && r.tasks.Keys == s.tasks.Keys
    requires forall t | t in r.tasks ::
               r.tasks[t] == if t in s.lists[i].tasks then s.tasks[t].(isComplete := true) else s.tasks[t]
    ensures r == T.CompleteAll(s, id)
  {
  }

  /** Renaming the list at its index is renaming the list with that identity. */
  lemma RetitleListMatches(s: StoreState, i: nat, title: string)
    requires ListIdsUnique(s.lists) && i < |s.lists|
    ensures T.RetitleList(s, s.lists[i].id, title) == s.(lists := s.lists[i := s.lists[i].(title := title)])
  {
    var r := T.RetitleList(s, s.lists[i].id, title);
    assert forall j | 0 <= j < |s.lists| && j != i :: s.lists[j].id != s.lists[i].id;
    assert r.lists == s.lists[i := s.lists[i].(title := title)];
  }

  /** Appending the new link to the list at its index is appending it to the
      list with that identity. */
  lemma AppendTaskMatches(s: StoreState, i: nat, title: string, note: string)
    requires ListIdsUnique(s.lists) && i < |s.lists|
    ensures T.AppendTask(s, s.lists[i].id, title, note)
         == StoreState(s.lists[i := s.lists[i].(tasks := s.lists[i].tasks + [s.nextId])],
                       s.tasks[s.nextId := T.CreatedTask(title, note)], s.nextId + 1)
  {
    var r := T.AppendTask(s, s.lists[i].id, title, note);
    assert HasList(s.lists, s.lists[i].id);
    assert forall j | 0 <= j < |s.lists| && j != i :: s.lists[j].id != s.lists[i].id;
    assert r.lists == s.lists[i := s.lists[i].(tasks := s.lists[i].tasks + [s.nextId])];
  }

  /** A stored task has an owning list. */
  lemma OwnerOfStored(s: StoreState, t: Id)
    requires NoOrphans(s) && t in s.tasks
    ensures OwnerIndex(s.lists, t).Some?
  {
    var j :| 0 <= j < |s.lists| && t in s.lists[j].tasks;
  }

  /** Splicing the link out of its owning list and dropping the object is
      the deletion of the task. */
  lemma DeleteTaskMatches(s: StoreState, i: nat, p: nat, r: StoreState)
    requires Model.Valid(s) && i < |s.lists| && p < |s.lists[i].tasks|
    requires var links := s.lists[i].tasks;
      r == StoreState(s.lists[i := s.lists[i].(tasks := links[..p] + links[p + 1..])],
                      s.tasks - {links[p]}, s.nextId)
    ensures r == T.RemoveTask(s, s.lists[i].tasks[p])
  {
    var t := s.lists[i].tasks[p];
    assert t in s.lists[i].tasks;
    T.WithoutAt(s.lists[i].tasks, p);
    forall j | 0 <= j < |s.lists| && j != i ensures T.Without(s.lists[j].tasks, t) == s.lists[j].tasks {
      assert t !in s.lists[j].tasks;
    }
  }
}
