// The decisions the task-list screen makes from the stored lists: which
// ordering the segmented control selects, how many rows the table has and
// which list a row shows, the summary shown on each row, and the row a newly
// created list is animated into.
module Screen {
  import opened Model
  import T = Transactions

  // ---------------------------------------------------------------------
  // Orderings
  // ---------------------------------------------------------------------

  /** The two sort keys the segmented control offers. */
  datatype SortKey = ByDate | ByTitle

  /** Lexicographic order on titles, character by character. */
  predicate TitleLeq(a: string, b: string) {
    if a == [] then true
    else if b == [] then false
    else if a[0] != b[0] then a[0] < b[0]
    else TitleLeq(a[1..], b[1..])
  }

  lemma {:induction false} TitleLeqTotal(a: string, b: string)
    ensures TitleLeq(a, b) || TitleLeq(b, a)
  {
    if a != [] && b != [] && a[0] == b[0] {
      TitleLeqTotal(a[1..], b[1..]);
    }
  }

  lemma {:induction false} TitleLeqTrans(a: string, b: string, c: string)
    requires TitleLeq(a, b) && TitleLeq(b, c)
    ensures TitleLeq(a, c)
  {
    if a != [] && b != [] && c != [] && a[0] == b[0] && b[0] == c[0] {
      TitleLeqTrans(a[1..], b[1..], c[1..]);
    }
  }

  /** `x` may come before `y` when ordered by `key`. */
  predicate Leq(key: SortKey, x: TaskList, y: TaskList) {
    match key
    case ByDate => x.date <= y.date
    case ByTitle => TitleLeq(x.title, y.title)
  }

  predicate Sorted(key: SortKey, ls: seq<TaskList>) {
    forall i, j | 0 <= i < j < |ls| :: Leq(key, ls[i], ls[j])
  }

  lemma LeqTotal(key: SortKey, x: TaskList, y: TaskList)
    ensures Leq(key, x, y) || Leq(key, y, x)
  {
    if key == ByTitle { TitleLeqTotal(x.title, y.title); }
  }

  lemma LeqTrans(key: SortKey, x: TaskList, y: TaskList, z: TaskList)
    requires Leq(key, x, y) && Leq(key, y, z)
    ensures Leq(key, x, z)
  {
    if key == ByTitle { TitleLeqTrans(x.title, y.title, z.title); }
  }

  /** `ls` with `x` put after every element that may precede it, that is,
      before the first element whose key is strictly greater. */
  function Insert(key: SortKey, x: TaskList, ls: seq<TaskList>): (r: seq<TaskList>)
    requires Sorted(key, ls)
    ensures Sorted(key, r)
    ensures multiset(r) == multiset(ls) + multiset{x}
  {
    if ls == [] then [x]
    else if !Leq(key, ls[0], x) then
      LeqTotal(key, x, ls[0]);
      InsertFirst(key, x, ls);
      [x] + ls
    else
      var rest := Insert(key, x, ls[1..]);
      assert ls == [ls[0]] + ls[1..];
      InsertLater(key, x, ls, rest);
      [ls[0]] + rest
  }

  lemma InsertFirst(key: SortKey, x: TaskList, ls: seq<TaskList>)
    requires Sorted(key, ls) && ls != [] && Leq(key, x, ls[0])
    ensures Sorted(key, [x] + ls)
  {
    forall j | 0 < j < |ls| ensures Leq(key, x, ls[j]) { LeqTrans(key, x, ls[0], ls[j]); }
  }

  lemma InsertLater(key: SortKey, x: TaskList, ls: seq<TaskList>, rest: seq<TaskList>)
    requires Sorted(key, ls) && ls != [] && Leq(key, ls[0], x)
    requires Sorted(key, rest) && multiset(rest) == multiset(ls[1..]) + multiset{x}
    ensures Sorted(key, [ls[0]] + rest)
  {
    forall j | 0 <= j < |rest| ensures Leq(key, ls[0], rest[j]) {
      assert rest[j] in multiset(rest);
      if rest[j] != x {
        assert rest[j] in ls[1..];
      }
    }
  }

  /** The lists ordered by `key`. */
  function SortBy(key: SortKey, ls: seq<TaskList>): (r: seq<TaskList>)
    ensures Sorted(key, r)
    ensures multiset(r) == multiset(ls)
  {
    if ls == [] then []
    else
      assert ls == ls[..|ls| - 1] + [ls[|ls| - 1]];
      Insert(key, ls[|ls| - 1], SortBy(key, ls[..|ls| - 1]))
  }

  // Stability: lists with equal keys keep their table order.

  /** `x` and `y` have the same key. */
  predicate SameKey(key: SortKey, x: TaskList, y: TaskList) {
    Leq(key, x, y) && Leq(key, y, x)
  }

  /** `[x]` when `x` has the same key as `y`, else nothing. */
  function Tie(key: SortKey, y: TaskList, x: TaskList): seq<TaskList> {
    if SameKey(key, x, y) then [x] else []
  }

  /** The lists of `ls` whose key equals `y`'s, in the order of `ls`. */
  function Ties(key: SortKey, y: TaskList, ls: seq<TaskList>): seq<TaskList> {
    if ls == [] then [] else Tie(key, y, ls[0]) + Ties(key, y, ls[1..])
  }

  lemma {:induction false} TiesConcat(key: SortKey, y: TaskList, a: seq<TaskList>, b: seq<TaskList>)
    ensures Ties(key, y, a + b) == Ties(key, y, a) + Ties(key, y, b)
  {
    if a != [] {
      var h := Tie(key, y, a[0]);
      assert (a + b)[0] == a[0] && (a + b)[1..] == a[1..] + b;
      assert Ties(key, y, a + b) == h + Ties(key, y, a[1..] + b);
      TiesConcat(key, y, a[1..], b);
      assert h + (Ties(key, y, a[1..]) + Ties(key, y, b)) == (h + Ties(key, y, a[1..])) + Ties(key, y, b);
    } else {
      assert a + b == b;
    }
  }

  /** Inserting `x` puts it after every list with the same key. */
  lemma {:induction false} InsertTies(key: SortKey, x: TaskList, ls: seq<TaskList>, y: TaskList)
    requires Sorted(key, ls)
    ensures Ties(key, y, Insert(key, x, ls)) == Ties(key, y, ls) + Tie(key, y, x)
  {
    if ls == [] {
      assert Insert(key, x, ls) == [x];
      assert Ties(key, y, [x]) == Tie(key, y, x) + Ties(key, y, []);
    } else if !Leq(key, ls[0], x) {
      var r := [x] + ls;
      assert Insert(key, x, ls) == r;
      assert r[0] == x && r[1..] == ls;
      assert Ties(key, y, r) == Tie(key, y, x) + Ties(key, y, ls);
      NoTies(key, x, ls, y);
    } else {
      var rest := Insert(key, x, ls[1..]);
      var r := [ls[0]] + rest;
      assert Insert(key, x, ls) == r;
      assert r[0] == ls[0] && r[1..] == rest;
      InsertTies(key, x, ls[1..], y);
      var h := Tie(key, y, ls[0]);
      assert Ties(key, y, r) == h + (Ties(key, y, ls[1..]) + Tie(key, y, x));
      assert Ties(key, y, ls) == h + Ties(key, y, ls[1..]);
    }
  }

  /** When every list of the sorted `ls` has a key strictly greater than
      `x`'s, none of them ties with a `y` that ties with `x`. */
  lemma {:induction false} NoTies(key: SortKey, x: TaskList, ls: seq<TaskList>, y: TaskList)
    requires Sorted(key, ls) && ls != [] && !Leq(key, ls[0], x)
    ensures SameKey(key, x, y) ==> Ties(key, y, ls) == []
  {
    if SameKey(key, x, y) {
      if SameKey(key, ls[0], y) {
        LeqTrans(key, ls[0], y, x);
      }
      assert Tie(key, y, ls[0]) == [];
      if |ls| > 1 {
        if Leq(key, ls[1], x) {
          LeqTrans(key, ls[0], ls[1], x);
        }
        NoTies(key, x, ls[1..], y);
      }
    }
  }

  /** Ordering by a key is stable: the lists with any one key come out in
      the order they had in the table. */
  lemma {:induction false} SortByStable(key: SortKey, ls: seq<TaskList>, y: TaskList)
    ensures Ties(key, y, SortBy(key, ls)) == Ties(key, y, ls)
  {
    if ls != [] {
      var init := ls[..|ls| - 1];
      SortByLast(key, ls);
      SortByStable(key, init, y);
      InsertTies(key, ls[|ls| - 1], SortBy(key, init), y);
      TiesLast(key, y, ls);
    }
  }

  lemma SortByLast(key: SortKey, ls: seq<TaskList>)
    requires ls != []
    ensures SortBy(key, ls) == Insert(key, ls[|ls| - 1], SortBy(key, ls[..|ls| - 1]))
  {
  }

  lemma TiesLast(key: SortKey, y: TaskList, ls: seq<TaskList>)
    requires ls != []
    ensures Ties(key, y, ls) == Ties(key, y, ls[..|ls| - 1]) + Tie(key, y, ls[|ls| - 1])
  {
    var last := ls[|ls| - 1];
    assert Ties(key, y, [last]) == Tie(key, y, last) + Ties(key, y, []);
    TiesConcat(key, y, ls[..|ls| - 1], [last]);
    assert ls == ls[..|ls| - 1] + [last];
  }

  /** The view the rows are read from: segment 0 orders the lists by date,
      segment 1 by title, and any other segment (none selected included)
      leaves them in table order. Every view holds exactly the stored lists,
      and lists with equal keys keep their table order. */
  function SortedTaskLists(segment: int, ls: seq<TaskList>): (r: seq<TaskList>)
    ensures multiset(r) == multiset(ls) && |r| == |ls|
    ensures segment == 0 ==> Sorted(ByDate, r)
    ensures segment == 1 ==> Sorted(ByTitle, r)
    ensures segment != 0 && segment != 1 ==> r == ls
    ensures segment == 0 ==> forall y :: Ties(ByDate, y, r) == Ties(ByDate, y, ls)
    ensures segment == 1 ==> forall y :: Ties(ByTitle, y, r) == Ties(ByTitle, y, ls)
  {
    if segment == 0 then
      SortByStableAll(ByDate, ls);
      SortBy(ByDate, ls)
    else if segment == 1 then
      SortByStableAll(ByTitle, ls);
      SortBy(ByTitle, ls)
    else
      ls
  }

  lemma SortByStableAll(key: SortKey, ls: seq<TaskList>)
    ensures |SortBy(key, ls)| == |ls|
    ensures forall y :: Ties(key, y, SortBy(key, ls)) == Ties(key, y, ls)
  {
    var r := SortBy(key, ls);
    assert |r| == |multiset(r)| == |multiset(ls)| == |ls|;
    forall y ensures Ties(key, y, r) == Ties(key, y, ls) {
      SortByStable(key, ls, y);
    }
  }

  // ---------------------------------------------------------------------
  // Rows
  // ---------------------------------------------------------------------

  /** The table's row count: the number of stored lists, which is the
      length of every view the rows are read from. */
  function NumberOfRowsInSection(ls: seq<TaskList>): (r: nat)
    ensures forall segment: int :: r == |SortedTaskLists(segment, ls)|
  {
    |ls|
  }

  /** The list a row shows: every row below the row count reads inside the
      view, and shows one of the stored lists. */
  function RowTaskList(segment: int, ls: seq<TaskList>, row: nat): (r: TaskList)
    requires row < NumberOfRowsInSection(ls)
    ensures r in ls
  {
    var view := SortedTaskLists(segment, ls);
    assert view[row] in multiset(view);
    view[row]
  }

  /** Every stored list is shown on some row. */
  lemma EveryListShown(segment: int, ls: seq<TaskList>, i: nat)
    requires i < |ls|
    ensures exists row | 0 <= row < NumberOfRowsInSection(ls) :: RowTaskList(segment, ls, row) == ls[i]
  {
    var view := SortedTaskLists(segment, ls);
    assert ls[i] in multiset(view);
    var row :| 0 <= row < |view| && view[row] == ls[i];
    assert RowTaskList(segment, ls, row) == ls[i];
  }

  // ---------------------------------------------------------------------
  // Row summary
  // ---------------------------------------------------------------------

  datatype Accessory = NoAccessory | Checkmark

  /** What a row shows besides the title: an optional secondary text (a
      number of tasks) and an accessory. */
  datatype RowSummary = RowSummary(secondaryText: Option<nat>, accessory: Accessory)

  predicate AllComplete(ts: seq<Task>) {
    forall k | 0 <= k < |ts| :: ts[k].isComplete
  }

  /** The tasks whose flag is not set, in order. */
  function IncompleteTasks(ts: seq<Task>): (r: seq<Task>)
    ensures forall x :: multiset(r)[x] == if x.isComplete then 0 else multiset(ts)[x]
    ensures r == [] <==> AllComplete(ts)
  {
    if ts == [] then []
    else
      assert ts == [ts[0]] + ts[1..];
      var rest := IncompleteTasks(ts[1..]);
      if ts[0].isComplete then
        assert AllComplete(ts) <==> AllComplete(ts[1..]) by {
          if AllComplete(ts[1..]) {
            forall k | 0 < k < |ts| ensures ts[k].isComplete { assert ts[k] == ts[1..][k - 1]; }
          }
        }
        rest
      else
        [ts[0]] + rest
  }

  /** The summary a row shows for a list with tasks `ts`: "0" for a list with
      no tasks; a checkmark and no text for a list whose tasks are all done;
      otherwise the number of tasks not done. */
  function Summary(ts: seq<Task>): (r: RowSummary)
    ensures ts == [] ==> r == RowSummary(Some(0), NoAccessory)
    ensures r.accessory == Checkmark <==> ts != [] && AllComplete(ts)
    ensures r.accessory == Checkmark ==> r.secondaryText == None
    ensures ts != [] && !AllComplete(ts) ==>
              r.secondaryText == Some(|IncompleteTasks(ts)|) && 1 <= |IncompleteTasks(ts)| <= |ts|
  {
    var incomplete := IncompleteTasks(ts);
    if ts == [] then RowSummary(Some(0), NoAccessory)
    else if incomplete == [] then RowSummary(None, Checkmark)
    else
      IncompleteAtMost(ts);
      RowSummary(Some(|incomplete|), NoAccessory)
  }

  lemma {:induction false} IncompleteAtMost(ts: seq<Task>)
    ensures |IncompleteTasks(ts)| <= |ts|
  {
    if ts != [] {
      IncompleteAtMost(ts[1..]);
    }
  }

  /** The number of tasks not done counts only the flags. */
  lemma {:induction false} IncompleteCountByFlags(a: seq<Task>, b: seq<Task>)
    requires |a| == |b| && forall k | 0 <= k < |a| :: a[k].isComplete == b[k].isComplete
    ensures |IncompleteTasks(a)| == |IncompleteTasks(b)|
  {
    if a != [] {
      IncompleteCountByFlags(a[1..], b[1..]);
    }
  }

  /** What a row of the table shows: the list's title and its summary. */
  datatype Cell = Cell(text: string, summary: RowSummary)

  /** The cell for a row: the title and summary of the list the row reads
      from the view, which is one of the stored lists. */
  function CellForRowAt(s: StoreState, segment: int, row: nat): (c: Cell)
    requires LinksResolve(s) && row < NumberOfRowsInSection(s.lists)
    ensures exists i | 0 <= i < |s.lists| ::
              && s.lists[i] == RowTaskList(segment, s.lists, row)
              && c == Cell(s.lists[i].title, Summary(ListTasks(s, i)))
  {
    var l := RowTaskList(segment, s.lists, row);
    var i :| 0 <= i < |s.lists| && s.lists[i] == l;
    Cell(l.title, Summary(ListTasks(s, i)))
  }

  /** A row's summary depends on the tasks' flags alone. */
  lemma SummaryByFlags(a: seq<Task>, b: seq<Task>)
    requires |a| == |b| && forall k | 0 <= k < |a| :: a[k].isComplete == b[k].isComplete
    ensures Summary(a) == Summary(b)
  {
    IncompleteCountByFlags(a, b);
    assert AllComplete(a) <==> AllComplete(b);
  }

  /** A task appended not done counts once more. */
  lemma {:induction false} IncompleteAppend(ts: seq<Task>, x: Task)
    requires !x.isComplete
    ensures |IncompleteTasks(ts + [x])| == |IncompleteTasks(ts)| + 1
  {
    if ts == [] {
      assert IncompleteTasks([x]) == [x] + IncompleteTasks([]);
    } else {
      assert (ts + [x])[1..] == ts[1..] + [x];
      IncompleteAppend(ts[1..], x);
    }
  }

  // ---------------------------------------------------------------------
  // The summary after each write
  // ---------------------------------------------------------------------

  /** After marking a list done, its row shows a checkmark unless it has no tasks. */
  lemma SummaryAfterCompleteAll(s: StoreState, i: nat)
    requires Valid(s) && i < |s.lists| && s.lists[i].tasks != []
    ensures var r := T.CompleteAll(s, s.lists[i].id);
      LinksResolve(r) && Summary(ListTasks(r, i)) == RowSummary(None, Checkmark)
  {
    var r := T.CompleteAll(s, s.lists[i].id);
    T.CompleteAllEffect(s, i);
    assert |ListTasks(s, i)| == |s.lists[i].tasks|;
    assert AllComplete(ListTasks(r, i));
  }

  /** After adding a task to a list, its row shows no checkmark and one more
      task not done. */
  lemma SummaryAfterAppendTask(s: StoreState, i: nat, title: string, note: string)
    requires Valid(s) && i < |s.lists|
    ensures var r := T.AppendTask(s, s.lists[i].id, title, note);
      && LinksResolve(r)
      && Summary(ListTasks(r, i)) == RowSummary(Some(|IncompleteTasks(ListTasks(s, i))| + 1), NoAccessory)
  {
    T.AppendTaskEffect(s, i, title, note);
    var x := T.CreatedTask(title, note);
    var ts := ListTasks(s, i);
    IncompleteAppend(ts, x);
    assert (ts + [x])[|ts|] == x;
  }

  /** Editing a task's title and note leaves every row's summary as it was. */
  lemma SummaryAfterUpdateTask(s: StoreState, i: nat, t: Id, title: string, note: string)
    requires Valid(s) && i < |s.lists|
    ensures var r := T.UpdateTask(s, t, title, note);
      LinksResolve(r) && Summary(ListTasks(r, i)) == Summary(ListTasks(s, i))
  {
    var r := T.UpdateTask(s, t, title, note);
    T.UpdateTaskKeepsValid(s, t, title, note);
    if t in s.tasks {
      T.UpdateTaskEffect(s, t, title, note);
      var links := s.lists[i].tasks;
      forall k | 0 <= k < |links|
        ensures ListTasks(r, i)[k].isComplete == ListTasks(s, i)[k].isComplete
      {
        assert links[k] in s.tasks;
      }
      SummaryByFlags(ListTasks(r, i), ListTasks(s, i));
    }
  }

  /** Clearing a task's flag takes the checkmark off its list's row. */
  lemma SummaryAfterUndoneTask(s: StoreState, i: nat, p: nat)
    requires Valid(s) && i < |s.lists| && p < |s.lists[i].tasks|
    ensures var r := T.SetComplete(s, s.lists[i].tasks[p], false);
      && LinksResolve(r)
      && Summary(ListTasks(r, i)).accessory == NoAccessory
      && Summary(ListTasks(r, i)).secondaryText.Some?
  {
    var t := s.lists[i].tasks[p];
    assert t in s.lists[i].tasks;
    var r := T.SetComplete(s, t, false);
    T.SetCompleteKeepsValid(s, t, false);
    assert !ListTasks(r, i)[p].isComplete;
  }

  // ---------------------------------------------------------------------
  // The row a new list is inserted at
  // ---------------------------------------------------------------------

  /** The row to animate a newly created list into: its first position in the
      view, or row 0 when the view does not hold it. */
  function InsertRowIndex(view: seq<TaskList>, created: TaskList): (r: nat)
    ensures HasList(view, created.id) ==> r < |view| && view[r].id == created.id
    ensures HasList(view, created.id) ==> forall k | 0 <= k < r :: view[k].id != created.id
    ensures !HasList(view, created.id) ==> r == 0
  {
    match ListIndex(view, created.id)
    case Some(k) => k
    case None => 0
  }

  /** The list a save creates is in every view of the lists after the save,
      and the insert row is the row that shows it. */
  lemma NewListRow(s: StoreState, title: string, now: int, segment: int)
    requires Valid(s)
    ensures var r := T.AddList(s, title, now);
      var created := r.lists[|r.lists| - 1];
      var row := InsertRowIndex(SortedTaskLists(segment, r.lists), created);
      && row < NumberOfRowsInSection(r.lists)
      && RowTaskList(segment, r.lists, row) == created
  {
    var r := T.AddList(s, title, now);
    T.AddListKeepsValid(s, title, now);
    var n := |r.lists| - 1;
    var created := r.lists[n];
    var view := SortedTaskLists(segment, r.lists);
    assert created in multiset(view);
    var k :| 0 <= k < |view| && view[k] == created;
    assert HasList(view, created.id);
    var row := InsertRowIndex(view, created);
    assert view[row] in multiset(r.lists);
    var j :| 0 <= j < |r.lists| && r.lists[j] == view[row];
    assert j == n;
  }
}
