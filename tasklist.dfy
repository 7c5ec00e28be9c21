/**
 * The operations of the task list as functions of the list: adding,
 * toggling, deleting and reordering tasks, the filtered view and the
 * progress percentage, with the properties each of them keeps.
 */
module TaskList {
  import opened Text
  import opened Lists
  import opened Tasks

  /** Two lists holding the same tasks hold the same identifiers. */
  lemma SameTasksSameIds(a: seq<Task>, b: seq<Task>)
    requires forall t :: t in a <==> t in b
    ensures Ids(a) == Ids(b)
  {
    forall id | id in Ids(a) ensures id in Ids(b) {
      var k :| 0 <= k < |a| && a[k].id == id;
      assert a[k] in b;
    }
    forall id | id in Ids(b) ensures id in Ids(a) {
      var k :| 0 <= k < |b| && b[k].id == id;
      assert b[k] in a;
    }
  }

  /** A subsequence of a list without duplicate identifiers has none either. */
  lemma {:induction false} SubsequenceKeepsUnique(a: seq<Task>, b: seq<Task>)
    requires IsSubsequence(a, b) && UniqueIds(b)
    ensures UniqueIds(a) && Ids(a) <= Ids(b)
  {
    if a != [] {
      assert UniqueIds(b[1..]) by {
        forall i, j | 0 <= i < j < |b| - 1 ensures b[1..][i].id != b[1..][j].id {
          assert b[1..][i] == b[i + 1] && b[1..][j] == b[j + 1];
        }
      }
      assert Ids(b[1..]) <= Ids(b) by {
        forall id | id in Ids(b[1..]) ensures id in Ids(b) {
          var k :| 0 <= k < |b| - 1 && b[1..][k].id == id;
          assert b[k + 1].id == id;
        }
      }
      if a[0] == b[0] && IsSubsequence(a[1..], b[1..]) {
        SubsequenceKeepsUnique(a[1..], b[1..]);
        assert b[0].id !in Ids(b[1..]);
        forall i, j | 0 <= i < j < |a| ensures a[i].id != a[j].id {
          if i == 0 {
            assert a[j] == a[1..][j - 1];
            assert a[j].id in Ids(a[1..]);
          } else {
            assert a[i] == a[1..][i - 1] && a[j] == a[1..][j - 1];
          }
        }
        forall id | id in Ids(a) ensures id in Ids(b) {
          var k :| 0 <= k < |a| && a[k].id == id;
          if k > 0 {
            assert a[k] == a[1..][k - 1];
            assert id in Ids(a[1..]);
          }
        }
      } else {
        SubsequenceKeepsUnique(a, b[1..]);
      }
    }
  }

  // ----- Adding a task -----

  /**
   * The list after adding a task with the given fields: blank text is
   * refused, otherwise the task, with trimmed text and not completed, is
   * put in front of the old list.
   */
  function AddTask(tasks: seq<Task>, id: TaskId, text: string, category: Category,
                   priority: Priority, dueDate: string): (r: seq<Task>)
    ensures IsBlank(text) ==> r == tasks
    ensures !IsBlank(text) ==> |r| == |tasks| + 1 && r[1..] == tasks
    ensures !IsBlank(text) ==> r[0] == Task(id, Trim(text), category, priority, false, dueDate)
  {
    TrimEmptyIffBlank(text);
    if Trim(text) == [] then tasks
    else [Task(id, Trim(text), category, priority, false, dueDate)] + tasks
  }

  /** A non-blank text trims to a non-empty text with nothing left to trim. */
  lemma TrimmedTextIsClean(text: string)
    requires !IsBlank(text)
    ensures var t := Trim(text);
      t != [] && !IsWhitespace(t[0]) && !IsWhitespace(t[|t| - 1]) && Trim(t) == t
  {
    TrimEmptyIffBlank(text);
    TrimIdempotent(text);
    var i: nat :| IsTrimmedAt(text, Trim(text), i);
  }

  /** The text of an added task is non-empty and has nothing left to trim. */
  lemma AddedTextIsTrimmed(tasks: seq<Task>, id: TaskId, text: string, category: Category,
                           priority: Priority, dueDate: string)
    requires !IsBlank(text)
    ensures var t := AddTask(tasks, id, text, category, priority, dueDate)[0].text;
      t != [] && !IsWhitespace(t[0]) && !IsWhitespace(t[|t| - 1]) && Trim(t) == t
  {
    assert AddTask(tasks, id, text, category, priority, dueDate)[0].text == Trim(text);
    TrimmedTextIsClean(text);
  }

  /** Adding under a fresh identifier keeps the identifiers unique. */
  lemma AddKeepsUnique(tasks: seq<Task>, id: TaskId, text: string, category: Category,
                       priority: Priority, dueDate: string)
    requires UniqueIds(tasks) && id !in Ids(tasks)
    ensures UniqueIds(AddTask(tasks, id, text, category, priority, dueDate))
  {
    var r := AddTask(tasks, id, text, category, priority, dueDate);
    if !IsBlank(text) {
      forall i, j | 0 <= i < j < |r| ensures r[i].id != r[j].id {
        assert r[j] == tasks[j - 1];
        if i > 0 {
          assert r[i] == tasks[i - 1];
        }
      }
    }
  }

  // ----- Toggling a task -----

  /**
   * The list after flipping the completion of the tasks with identifier
   * `id`: same length, same order, only their `completed` field changes.
   */
  function ToggleTask(tasks: seq<Task>, id: TaskId): (r: seq<Task>)
    ensures |r| == |tasks|
    ensures forall k :: 0 <= k < |tasks| ==>
      r[k] == if tasks[k].id == id then tasks[k].(completed := !tasks[k].completed) else tasks[k]
  {
    if tasks == [] then []
    else
      var t := tasks[0];
      [if t.id == id then t.(completed := !t.completed) else t] + ToggleTask(tasks[1..], id)
  }

  /** Toggling the same identifier twice restores the list. */
  lemma ToggleTwice(tasks: seq<Task>, id: TaskId)
    ensures ToggleTask(ToggleTask(tasks, id), id) == tasks
  {
  }

  /** Toggling an identifier that is not in the list changes nothing. */
  lemma ToggleAbsent(tasks: seq<Task>, id: TaskId)
    requires id !in Ids(tasks)
    ensures ToggleTask(tasks, id) == tasks
  {
    forall k | 0 <= k < |tasks| ensures tasks[k].id != id {
      assert tasks[k].id in Ids(tasks);
    }
  }

  /** Toggling keeps every identifier in place, so it keeps them unique. */
  lemma ToggleKeepsIds(tasks: seq<Task>, id: TaskId)
    ensures Ids(ToggleTask(tasks, id)) == Ids(tasks)
    ensures UniqueIds(tasks) ==> UniqueIds(ToggleTask(tasks, id))
  {
    var r := ToggleTask(tasks, id);
    assert forall k :: 0 <= k < |r| ==> r[k].id == tasks[k].id;
    assert Ids(r) == Ids(tasks) by {
      forall x | x in Ids(r) ensures x in Ids(tasks) {
        var k :| 0 <= k < |r| && r[k].id == x;
        assert tasks[k].id == x;
      }
      forall x | x in Ids(tasks) ensures x in Ids(r) {
        var k :| 0 <= k < |tasks| && tasks[k].id == x;
        assert r[k].id == x;
      }
    }
  }

  // ----- Deleting a task -----

  /** The task does not carry identifier `id`. */
  predicate Survives(id: TaskId, t: Task)
  {
    t.id != id
  }

  /**
   * The list after deleting identifier `id`: exactly the tasks with another
   * identifier, each as often as before, in their original order.
   */
  function DeleteTask(tasks: seq<Task>, id: TaskId): (r: seq<Task>)
    ensures IsSubsequence(r, tasks)
    ensures id !in Ids(r)
    ensures forall t :: multiset(r)[t] == if t.id != id then multiset(tasks)[t] else 0
  {
    var r := Keep(tasks, t => Survives(id, t));
    assert forall k :: 0 <= k < |r| ==> r[k] in r;
    r
  }

  /** Deleting an identifier that is not in the list changes nothing. */
  lemma DeleteAbsent(tasks: seq<Task>, id: TaskId)
    requires id !in Ids(tasks)
    ensures DeleteTask(tasks, id) == tasks
  {
    forall k | 0 <= k < |tasks| ensures tasks[k].id != id {
      assert tasks[k].id in Ids(tasks);
    }
    KeepAll(tasks, t => Survives(id, t));
  }

  /** Deleting the same identifier again is a no-op. */
  lemma DeleteTwice(tasks: seq<Task>, id: TaskId)
    ensures DeleteTask(DeleteTask(tasks, id), id) == DeleteTask(tasks, id)
  {
    DeleteAbsent(DeleteTask(tasks, id), id);
  }

  /** Deleting keeps the identifiers unique. */
  lemma DeleteKeepsUnique(tasks: seq<Task>, id: TaskId)
    requires UniqueIds(tasks)
    ensures UniqueIds(DeleteTask(tasks, id))
  {
    SubsequenceKeepsUnique(DeleteTask(tasks, id), tasks);
  }

  /** The identifiers of a non-empty list: its head's and its tail's. */
  lemma IdsCons(tasks: seq<Task>)
    requires tasks != []
    ensures Ids(tasks) == {tasks[0].id} + Ids(tasks[1..])
  {
    forall x | x in Ids(tasks) ensures x in {tasks[0].id} + Ids(tasks[1..]) {
      var k :| 0 <= k < |tasks| && tasks[k].id == x;
      if k > 0 {
        assert tasks[1..][k - 1].id == x;
      }
    }
    forall x | x in Ids(tasks[1..]) ensures x in Ids(tasks) {
      var k :| 0 <= k < |tasks| - 1 && tasks[1..][k].id == x;
      assert tasks[k + 1].id == x;
    }
  }

  /** The tail of a list with unique identifiers has them too, without the head's. */
  lemma UniqueTail(tasks: seq<Task>)
    requires tasks != [] && UniqueIds(tasks)
    ensures UniqueIds(tasks[1..]) && tasks[0].id !in Ids(tasks[1..])
  {
    var rest := tasks[1..];
    forall i, j | 0 <= i < j < |rest| ensures rest[i].id != rest[j].id {
      assert rest[i] == tasks[i + 1] && rest[j] == tasks[j + 1];
    }
    forall k | 0 <= k < |rest| ensures rest[k].id != tasks[0].id {
      assert rest[k] == tasks[k + 1];
    }
  }

  /** Deleting the head's identifier from a list with unique identifiers drops the head. */
  lemma DeleteHead(tasks: seq<Task>)
    requires tasks != [] && UniqueIds(tasks)
    ensures DeleteTask(tasks, tasks[0].id) == tasks[1..]
  {
    var id, rest := tasks[0].id, tasks[1..];
    assert tasks == [tasks[0]] + rest;
    UniqueTail(tasks);
    assert DeleteTask(tasks, id) == DeleteTask(rest, id);
    DeleteAbsent(rest, id);
  }

  /** Deleting another identifier than the head's keeps the head in front. */
  lemma DeleteBehindHead(tasks: seq<Task>, id: TaskId)
    requires tasks != [] && tasks[0].id != id
    ensures DeleteTask(tasks, id) == [tasks[0]] + DeleteTask(tasks[1..], id)
  {
    assert tasks == [tasks[0]] + tasks[1..];
  }

  /** With unique identifiers, deleting a present one removes exactly its task. */
  lemma {:induction false} DeletePresentRemovesOne(tasks: seq<Task>, id: TaskId)
    requires UniqueIds(tasks) && id in Ids(tasks)
    ensures FindIndex(tasks, id) >= 0
    ensures DeleteTask(tasks, id) == RemoveAt(tasks, FindIndex(tasks, id))
  {
    var rest := tasks[1..];
    if tasks[0].id == id {
      DeleteHead(tasks);
      assert RemoveAt(tasks, 0) == rest;
    } else {
      assert id in Ids(rest) by {
        IdsCons(tasks);
      }
      assert UniqueIds(rest) by {
        UniqueTail(tasks);
      }
      DeletePresentRemovesOne(rest, id);
      var i := FindIndex(rest, id);
      DeleteBehindHead(tasks, id);
      RemoveAtCons(tasks, i);
    }
  }

  // ----- The filtered view -----

  /** The subject drop-down: "All" or one category. */
  datatype CategoryFilter = AllCategories | CategoryIs(category: Category)

  /** The priority drop-down: "All" or one priority. */
  datatype PriorityFilter = AllPriorities | PriorityIs(priority: Priority)

  /** The status buttons "All", "Active" and "Completed". */
  datatype StatusFilter = AllStatuses | Active | Completed

  /** The search box and the three filter controls together. */
  datatype Filter = Filter(search: string, category: CategoryFilter,
                           priority: PriorityFilter, status: StatusFilter)

  /** The controls in their initial state: empty search, everything "All". */
  const ShowEverything: Filter := Filter("", AllCategories, AllPriorities, AllStatuses)

  /** The search term occurs in the task text, ignoring letter case. */
  predicate MatchesSearch(t: Task, search: string): (b: bool)
    ensures b <==> exists i: nat :: OccursAt(ToLower(t.text), ToLower(search), i)
    ensures search == [] ==> b
  {
    IncludesIffOccurs(ToLower(t.text), ToLower(search));
    IncludesEmpty(ToLower(t.text));
    Includes(ToLower(t.text), ToLower(search))
  }

  /** The subject drop-down, which compares subject names. */
  predicate MatchesCategory(t: Task, c: CategoryFilter): (b: bool)
    ensures b <==> c == AllCategories || CategoryName(t.category) == CategoryName(c.category)
  {
    match c
    case AllCategories => true
    case CategoryIs(k) =>
      CategoryNamesRoundTrip(t.category);
      CategoryNamesRoundTrip(k);
      t.category == k
  }

  /** The priority drop-down, which compares priority keys. */
  predicate MatchesPriority(t: Task, p: PriorityFilter): (b: bool)
    ensures b <==> p == AllPriorities || PriorityName(t.priority) == PriorityName(p.priority)
  {
    match p
    case AllPriorities => true
    case PriorityIs(k) =>
      PriorityNamesRoundTrip(t.priority);
      PriorityNamesRoundTrip(k);
      t.priority == k
  }

  predicate MatchesStatus(t: Task, s: StatusFilter)
  {
    s == AllStatuses || (s == Active && !t.completed) || (s == Completed && t.completed)
  }

  /** The task passes all four controls. */
  predicate Matches(t: Task, f: Filter)
  {
    && MatchesSearch(t, f.search)
    && MatchesCategory(t, f.category)
    && MatchesPriority(t, f.priority)
    && MatchesStatus(t, f.status)
  }

  /**
   * The tasks shown under filter `f`: exactly the tasks that pass all four
   * controls, each as often as in the list, in list order.
   */
  function FilteredTasks(tasks: seq<Task>, f: Filter): (r: seq<Task>)
    ensures IsSubsequence(r, tasks)
    ensures forall t :: t in r <==> t in tasks && Matches(t, f)
    ensures forall t :: multiset(r)[t] == if Matches(t, f) then multiset(tasks)[t] else 0
  {
    Keep(tasks, t => Matches(t, f))
  }

  /** With an empty search and the other drop-downs on "All", only the status counts. */
  lemma OnlyStatusFilters(t: Task, status: StatusFilter)
    ensures Matches(t, ShowEverything.(status := status)) <==> MatchesStatus(t, status)
  {
    IncludesEmpty(ToLower(t.text));
  }

  /** With an empty search and every control on "All", the whole list is shown. */
  lemma FilterShowEverything(tasks: seq<Task>)
    ensures FilteredTasks(tasks, ShowEverything) == tasks
  {
    forall k | 0 <= k < |tasks| ensures Matches(tasks[k], ShowEverything) {
      IncludesEmpty(ToLower(tasks[k].text));
    }
    KeepAll(tasks, t => Matches(t, ShowEverything));
  }

  /** For fixed search, category and priority, "Active" shows the not completed part of "All". */
  lemma ActiveIsActivePartOfAll(tasks: seq<Task>, f: Filter)
    ensures FilteredTasks(tasks, f.(status := Active))
         == Keep(FilteredTasks(tasks, f.(status := AllStatuses)), IsActive)
  {
    var fAll, fAct := f.(status := AllStatuses), f.(status := Active);
    KeepKeep(tasks, t => Matches(t, fAll), IsActive, t => Matches(t, fAct));
  }

  /** For fixed search, category and priority, "Completed" shows the completed part of "All". */
  lemma CompletedIsCompletedPartOfAll(tasks: seq<Task>, f: Filter)
    ensures FilteredTasks(tasks, f.(status := Completed))
         == Keep(FilteredTasks(tasks, f.(status := AllStatuses)), IsCompleted)
  {
    var fAll, fDone := f.(status := AllStatuses), f.(status := Completed);
    KeepKeep(tasks, t => Matches(t, fAll), IsCompleted, t => Matches(t, fDone));
  }

  /**
   * The "Active" and "Completed" views share no task and together hold
   * every task of the "All" view exactly as often.
   */
  lemma StatusFiltersSplitAll(tasks: seq<Task>, f: Filter)
    ensures multiset(FilteredTasks(tasks, f.(status := Active)))
          + multiset(FilteredTasks(tasks, f.(status := Completed)))
         == multiset(FilteredTasks(tasks, f.(status := AllStatuses)))
    ensures forall t :: !(t in FilteredTasks(tasks, f.(status := Active))
                          && t in FilteredTasks(tasks, f.(status := Completed)))
  {
    var all := FilteredTasks(tasks, f.(status := AllStatuses));
    var act, done := Keep(all, IsActive), Keep(all, IsCompleted);
    ActiveIsActivePartOfAll(tasks, f);
    CompletedIsCompletedPartOfAll(tasks, f);
    assert multiset(act) + multiset(done) == multiset(all) by {
      forall t ensures (multiset(act) + multiset(done))[t] == multiset(all)[t] {
        assert multiset(act)[t] == if IsActive(t) then multiset(all)[t] else 0;
        assert multiset(done)[t] == if IsCompleted(t) then multiset(all)[t] else 0;
      }
    }
  }

  // ----- Progress -----

  predicate IsCompleted(t: Task)
  {
    t.completed
  }

  predicate IsActive(t: Task)
  {
    !t.completed
  }

  /** The number of completed tasks. */
  function CompletedCount(tasks: seq<Task>): (n: nat)
    ensures n <= |tasks|
  {
    if tasks == [] then 0 else (if tasks[0].completed then 1 else 0) + CompletedCount(tasks[1..])
  }

  /** The count is the length of the list filtered down to its completed tasks. */
  lemma {:induction false} CompletedCountIsFilterLength(tasks: seq<Task>)
    ensures CompletedCount(tasks) == |Keep(tasks, IsCompleted)|
  {
    if tasks != [] {
      CompletedCountIsFilterLength(tasks[1..]);
    }
  }

  /** All tasks are counted exactly when all are done, none exactly when none is. */
  lemma CompletedCountExtremes(tasks: seq<Task>)
    ensures CompletedCount(tasks) == |tasks| <==> forall k :: 0 <= k < |tasks| ==> tasks[k].completed
    ensures CompletedCount(tasks) == 0 <==> forall k :: 0 <= k < |tasks| ==> !tasks[k].completed
  {
    CompletedCountIsFilterLength(tasks);
    KeepKeepsLength(tasks, IsCompleted);
    KeepEmpty(tasks, IsCompleted);
  }

  /**
   * `completed` out of `total` as a percentage, 0 when there is nothing to
   * count.
   */
  function Percent(completed: nat, total: nat): (p: real)
    requires completed <= total
    ensures 0.0 <= p <= 100.0
    ensures total == 0 ==> p == 0.0
    ensures total > 0 ==> p * (total as real) == 100.0 * (completed as real)
  {
    if total > 0 then
      var q := completed as real / total as real;
      assert q * (total as real) == completed as real;
      assert 0.0 <= q <= 1.0;
      q * 100.0
    else 0.0
  }

  /** A percentage is 100 exactly for all of a non-empty total, 0 exactly for none. */
  lemma PercentExtremes(completed: nat, total: nat)
    requires completed <= total
    ensures Percent(completed, total) == 100.0 <==> total > 0 && completed == total
    ensures Percent(completed, total) == 0.0 <==> completed == 0
  {
  }

  /**
   * The completion percentage: the completed count as a percentage of the
   * number of tasks, 0 for an empty list, so within [0, 100].
   */
  function Progress(tasks: seq<Task>): (p: real)
    ensures 0.0 <= p <= 100.0
    ensures tasks == [] ==> p == 0.0
  {
    Percent(CompletedCount(tasks), |tasks|)
  }

  /**
   * For a non-empty list of `total` tasks, `completed` of them done, the
   * percentage is 100 times completed over total.
   */
  lemma ProgressRatio(tasks: seq<Task>, completed: nat, total: nat)
    requires tasks != [] && completed == CompletedCount(tasks) && total == |tasks|
    ensures Progress(tasks) * (total as real) == 100.0 * (completed as real)
  {
    PercentTimesTotal(completed, total);
  }

  /** A percentage of a non-empty total, scaled back by the total. */
  lemma PercentTimesTotal(completed: nat, total: nat)
    requires completed <= total && total > 0
    ensures Percent(completed, total) * (total as real) == 100.0 * (completed as real)
  {
  }

  /** The bar is full exactly when the list is non-empty and every task is done. */
  lemma ProgressFull(tasks: seq<Task>)
    ensures Progress(tasks) == 100.0 <==> tasks != [] && forall k :: 0 <= k < |tasks| ==> tasks[k].completed
  {
    CompletedCountExtremes(tasks);
    PercentExtremes(CompletedCount(tasks), |tasks|);
  }

  /** The bar is empty exactly when no task is done. */
  lemma ProgressEmpty(tasks: seq<Task>)
    ensures Progress(tasks) == 0.0 <==> forall k :: 0 <= k < |tasks| ==> !tasks[k].completed
  {
    CompletedCountExtremes(tasks);
    PercentExtremes(CompletedCount(tasks), |tasks|);
  }

  // ----- Reordering by drag and drop -----

  /**
   * `findIndex` by identifier: the first index holding `id`, or -1 when no
   * task has it.
   */
  function FindIndex(tasks: seq<Task>, id: TaskId): (i: int)
    ensures -1 <= i < |tasks|
    ensures i == -1 <==> id !in Ids(tasks)
    ensures 0 <= i ==> tasks[i].id == id && forall j :: 0 <= j < i ==> tasks[j].id != id
  {
    if tasks == [] then -1
    else if tasks[0].id == id then 0
    else
      var j := FindIndex(tasks[1..], id);
      assert id in Ids(tasks[1..]) <==> id in Ids(tasks) by {
        if id in Ids(tasks) {
          var k :| 0 <= k < |tasks| && tasks[k].id == id;
          assert tasks[1..][k - 1].id == id;
        }
        if id in Ids(tasks[1..]) {
          var k :| 0 <= k < |tasks| - 1 && tasks[1..][k].id == id;
          assert tasks[k + 1].id == id;
        }
      }
      if j == -1 then -1 else j + 1
  }

  /** Under unique identifiers, the identifier at index `k` is found at `k`. */
  lemma FindIndexUnique(tasks: seq<Task>, k: nat)
    requires UniqueIds(tasks) && k < |tasks|
    ensures FindIndex(tasks, tasks[k].id) == k
  {
    assert tasks[k].id in Ids(tasks);
  }

  /**
   * The index `splice(currentIndex, 1)` removes: the dragged task's index,
   * or, when it is no longer in the list (`findIndex` gave -1), the last
   * index, which is where a negative splice start counts from.
   */
  function DragSource(tasks: seq<Task>, movedId: TaskId): (i: nat)
    requires tasks != []
    ensures i < |tasks|
    ensures movedId in Ids(tasks) ==> i == FindIndex(tasks, movedId)
    ensures movedId !in Ids(tasks) ==> i == |tasks| - 1
  {
    var j := FindIndex(tasks, movedId);
    SpliceStart(j, |tasks|)
  }

  /**
   * The index `splice(targetIndex, 0, removed)` inserts at, in the list
   * already shortened by one: the target's index, or, when the target is
   * not in the list (`findIndex` gave -1), the index before the last one of
   * the shortened list, which is where a negative splice start counts from.
   */
  function DropTarget(tasks: seq<Task>, targetId: TaskId): (i: nat)
    requires tasks != []
    ensures i < |tasks|
    ensures targetId in Ids(tasks) ==> i == FindIndex(tasks, targetId)
    ensures targetId !in Ids(tasks) ==> i == if |tasks| >= 2 then |tasks| - 2 else 0
  {
    var j := FindIndex(tasks, targetId);
    SpliceStart(j, |tasks| - 1)
  }

  /** A drop moves something: there is a dragged task and it is not the target. */
  predicate Moves(dragged: Option<TaskId>, targetId: TaskId)
  {
    dragged.Some? && dragged.value != targetId
  }

  /**
   * The list after dropping the dragged task (if any) onto the task with
   * `targetId`: unchanged for no drag or a drop onto itself, otherwise the
   * task removed at `DragSource` is reinserted at `DropTarget`. A drop
   * needs a rendered task to land on, so the list is not empty then.
   */
  function Reordered(tasks: seq<Task>, dragged: Option<TaskId>, targetId: TaskId): (r: seq<Task>)
    requires Moves(dragged, targetId) ==> tasks != []
    ensures |r| == |tasks|
    ensures multiset(r) == multiset(tasks)
  {
    if !Moves(dragged, targetId) then tasks
    else
      var from, to := DragSource(tasks, dragged.value), DropTarget(tasks, targetId);
      MovePermutes(tasks, from, to);
      Move(tasks, from, to)
  }

  /** Without a dragged task, or dropped onto itself, nothing moves. */
  lemma ReorderNoop(tasks: seq<Task>, id: TaskId)
    ensures Reordered(tasks, None, id) == tasks
    ensures Reordered(tasks, Some(id), id) == tasks
  {
  }

  /**
   * Dropping one present task onto another: the dragged task now sits at
   * the target's former index and is found there, and all other tasks keep
   * their relative order.
   */
  lemma ReorderMovesToTarget(tasks: seq<Task>, movedId: TaskId, targetId: TaskId)
    requires UniqueIds(tasks)
    requires movedId in Ids(tasks) && targetId in Ids(tasks) && movedId != targetId
    ensures var r := Reordered(tasks, Some(movedId), targetId);
      var from, to := FindIndex(tasks, movedId), FindIndex(tasks, targetId);
      && 0 <= from && 0 <= to
      && r[to] == tasks[from]
      && FindIndex(r, movedId) == to
      && RemoveAt(r, to) == RemoveAt(tasks, from)
  {
    var r := Reordered(tasks, Some(movedId), targetId);
    var from, to := FindIndex(tasks, movedId), FindIndex(tasks, targetId);
    assert r == Move(tasks, from, to);
    MoveLandsAtTarget(tasks, from, to);
    MoveKeepsOthersInOrder(tasks, from, to);
    ReorderKeepsUnique(tasks, Some(movedId), targetId);
    FindIndexUnique(r, to);
  }

  /** Reordering keeps the identifiers unique and the same. */
  lemma ReorderKeepsUnique(tasks: seq<Task>, dragged: Option<TaskId>, targetId: TaskId)
    requires UniqueIds(tasks) && (Moves(dragged, targetId) ==> tasks != [])
    ensures UniqueIds(Reordered(tasks, dragged, targetId))
    ensures Ids(Reordered(tasks, dragged, targetId)) == Ids(tasks)
  {
    var r := Reordered(tasks, dragged, targetId);
    assert forall t :: t in r <==> t in tasks by {
      forall t ensures t in r <==> t in tasks {
        assert t in r <==> t in multiset(r);
      }
    }
    SameTasksSameIds(r, tasks);
    if Moves(dragged, targetId) {
      var n, from, to := |tasks|, DragSource(tasks, dragged.value), DropTarget(tasks, targetId);
      forall i, j | 0 <= i < j < n ensures r[i].id != r[j].id {
        MoveSourceInjective(n, from, to, i, j);
      }
    }
  }

  /**
   * A drop whose dragged task is no longer in the list is not a no-op: the
   * last task is moved to the target's index.
   */
  lemma ReorderStaleDrag(tasks: seq<Task>, movedId: TaskId, targetId: TaskId)
    requires targetId in Ids(tasks) && movedId !in Ids(tasks)
    ensures Reordered(tasks, Some(movedId), targetId)
         == Move(tasks, |tasks| - 1, FindIndex(tasks, targetId))
  {
    assert tasks != [];
    assert FindIndex(tasks, movedId) == -1;
    assert DragSource(tasks, movedId) == |tasks| - 1;
  }

  /**
   * A drop onto a task that is no longer in the list is not a no-op either:
   * the dragged task is moved to the second-to-last index.
   */
  lemma ReorderMissingTarget(tasks: seq<Task>, movedId: TaskId, targetId: TaskId)
    requires movedId in Ids(tasks) && targetId !in Ids(tasks)
    ensures var to := if |tasks| >= 2 then |tasks| - 2 else 0;
      Reordered(tasks, Some(movedId), targetId) == Move(tasks, FindIndex(tasks, movedId), to)
  {
    assert tasks != [];
    assert movedId != targetId;
  }
}
