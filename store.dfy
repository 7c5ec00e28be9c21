/**
 * The task list as owned state: a store holding the ordered list, changed
 * only through adding, toggling, deleting and dropping tasks, each of which
 * replaces the list and keeps its identifiers unique.
 */
module Store {
  import opened Text
  import opened Lists
  import opened Tasks
  import opened TaskList

  /** The four tasks the list starts with. */
  function SeedTasks(): (s: seq<Task>)
    ensures |s| == 4 && UniqueIds(s)
    ensures Ids(s) == {1, 2, 3, 4}
  {
    var s := [
      Task(1, "Complete Algebra II homework", Math, High, false, "2023-10-27"),
      Task(2, "Study for Biology midterm", Science, High, false, "2023-10-29"),
      Task(3, "Write essay on the Renaissance", History, Medium, true, "2023-10-25"),
      Task(4, "Read 'The Great Gatsby' Chapter 3", English, Low, false, "2023-10-26")
    ];
    assert s[0].id == 1 && s[1].id == 2 && s[2].id == 3 && s[3].id == 4;
    s
  }

  class TaskStore {
    /** The ordered task list, newest additions first. */
    var tasks: seq<Task>

    /** Identifiers stay unique. */
    ghost predicate Valid()
      reads this
    {
      UniqueIds(tasks)
    }

    /** A store holding the seed tasks. */
    constructor ()
      ensures Valid() && tasks == SeedTasks()
    {
      tasks := SeedTasks();
    }

    /**
     * Submits the new-task form. `id` stands for the clock reading the
     * source uses and must not be in the list yet.
     */
    method Add(id: TaskId, text: string, category: Category, priority: Priority, dueDate: string)
      requires Valid() && id !in Ids(tasks)
      modifies this
      ensures Valid()
      ensures tasks == AddTask(old(tasks), id, text, category, priority, dueDate)
    {
      AddKeepsUnique(tasks, id, text, category, priority, dueDate);
      tasks := AddTask(tasks, id, text, category, priority, dueDate);
    }

    /** Ticks or unticks the task with identifier `id`. */
    method Toggle(id: TaskId)
      requires Valid()
      modifies this
      ensures Valid()
      ensures tasks == ToggleTask(old(tasks), id)
    {
      ToggleKeepsIds(tasks, id);
      tasks := ToggleTask(tasks, id);
    }

    /** Deletes the task with identifier `id`. */
    method Delete(id: TaskId)
      requires Valid()
      modifies this
      ensures Valid()
      ensures tasks == DeleteTask(old(tasks), id)
    {
      DeleteKeepsUnique(tasks, id);
      tasks := DeleteTask(tasks, id);
    }

    /**
     * Drops the dragged task, whose identifier is `dragged` (None when no
     * drag is under way), onto the task with identifier `targetId`: copies
     * the list, splices the dragged task out at its index and splices it
     * back in at the target's index.
     */
    method Drop(dragged: Option<TaskId>, targetId: TaskId)
      requires Valid() && (Moves(dragged, targetId) ==> tasks != [])
      modifies this
      ensures Valid()
      ensures tasks == Reordered(old(tasks), dragged, targetId)
    {
      if dragged.None? || dragged.value == targetId {
        return;
      }
      var currentIndex := FindIndex(tasks, dragged.value);
      var targetIndex := FindIndex(tasks, targetId);

      ghost var from, to := DragSource(tasks, dragged.value), DropTarget(tasks, targetId);
      MoveIsTwoSplices(tasks, from, to);

      var newTasks := tasks;
      var removal := Splice(newTasks, currentIndex, 1, []);
      assert removal == Splice(tasks, from, 1, []) by {
        SpliceAtStart(tasks, currentIndex, 1, []);
      }
      newTasks := removal.0;
      var removed := removal.1[0];
      assert Splice(newTasks, targetIndex, 0, [removed]) == Splice(newTasks, to, 0, [removed]) by {
        SpliceAtStart(newTasks, targetIndex, 0, [removed]);
      }
      newTasks := Splice(newTasks, targetIndex, 0, [removed]).0;
      assert newTasks == Reordered(tasks, dragged, targetId);

      ReorderKeepsUnique(tasks, dragged, targetId);
      tasks := newTasks;
    }
  }

  /** The seed list: one of four tasks done, so the bar shows 25%. */
  lemma SeedProgress()
    ensures CompletedCount(SeedTasks()) == 1
    ensures Progress(SeedTasks()) == 25.0
  {
    var s := SeedTasks();
    assert CompletedCount(s[3..]) == 0;
    assert CompletedCount(s[2..]) == 1;
    assert CompletedCount(s[1..]) == 1;
  }

  /** An open task `a` and a done task `b`: the bar shows 50%. */
  lemma TwoTaskProgress(a: Task, b: Task)
    requires !a.completed && b.completed
    ensures Progress([a, b]) == 50.0
  {
    assert [a, b][1..] == [b] && [b][1..] == [];
    assert CompletedCount([a, b]) == 1;
  }

  /** With the list [a, b] (a open, b done), "Active" shows [a]. */
  lemma TwoTaskActive(a: Task, b: Task)
    requires !a.completed && b.completed
    ensures FilteredTasks([a, b], ShowEverything.(status := Active)) == [a]
  {
    var f := ShowEverything.(status := Active);
    var p := t => Matches(t, f);
    assert p(a) && !p(b) by {
      OnlyStatusFilters(a, Active);
      OnlyStatusFilters(b, Active);
    }
    KeepPair(a, b, p);
  }

  /** With the list [a, b] (a open, b done), "Completed" shows [b]. */
  lemma TwoTaskCompleted(a: Task, b: Task)
    requires !a.completed && b.completed
    ensures FilteredTasks([a, b], ShowEverything.(status := Completed)) == [b]
  {
    var f := ShowEverything.(status := Completed);
    var p := t => Matches(t, f);
    assert p(b) && !p(a) by {
      OnlyStatusFilters(a, Completed);
      OnlyStatusFilters(b, Completed);
    }
    KeepPair(a, b, p);
  }

  /** The task the form creates from "Finish lab" with identifier 12. */
  const FinishLab: Task := Task(12, "Finish lab", LabReport, Low, false, "2024-01-01")

  /** Submitting "Finish lab" puts the new, open task in front of the list. */
  lemma AddFinishLab(tasks: seq<Task>)
    ensures AddTask(tasks, 12, "Finish lab", LabReport, Low, "2024-01-01") == [FinishLab] + tasks
  {
    var text := "Finish lab";
    assert !IsBlank(text) by {
      assert !IsWhitespace(text[0]);
    }
    assert IsTrimmedAt(text, text, 0);
    TrimmedAtIsTrim(text, text, 0);
  }

  /** After adding it to [a, b] one of three tasks is done: the bar shows 100/3 %. */
  lemma AddFinishLabProgress(a: Task, b: Task)
    requires !a.completed && b.completed
    ensures Progress(AddTask([a, b], 12, "Finish lab", LabReport, Low, "2024-01-01")) * 3.0 == 100.0
  {
    AddFinishLab([a, b]);
    var r := [FinishLab] + [a, b];
    assert [b][1..] == [] && CompletedCount([b]) == 1;
    assert [a, b][1..] == [b] && CompletedCount([a, b]) == 1;
    assert r[1..] == [a, b] && CompletedCount(r) == 1;
  }

  /**
   * Dropping the first of four tasks onto the third moves it there and
   * shifts the two in between forward; a swap would have given
   * [s[2], s[1], s[0], s[3]].
   */
  lemma DropIsMoveNotSwap(s: seq<Task>)
    requires |s| == 4 && UniqueIds(s)
    ensures Reordered(s, Some(s[0].id), s[2].id) == [s[1], s[2], s[0], s[3]]
  {
    FindIndexUnique(s, 0);
    FindIndexUnique(s, 2);
    var m := Move(s, 0, 2);
    assert m[0] == s[1] && m[1] == s[2] && m[2] == s[0] && m[3] == s[3];
  }

  /**
   * A drop whose dragged task has been deleted meanwhile moves the last of
   * four tasks to the target's index (here the first) instead of doing
   * nothing.
   */
  lemma StaleDropMovesLastTask(s: seq<Task>, stale: TaskId)
    requires |s| == 4 && UniqueIds(s) && stale !in Ids(s)
    ensures Reordered(s, Some(stale), s[0].id) == [s[3], s[0], s[1], s[2]]
  {
    FindIndexUnique(s, 0);
    assert s[0].id in Ids(s);
    ReorderStaleDrag(s, stale, s[0].id);
    var m := Move(s, 3, 0);
    assert m[0] == s[3] && m[1] == s[0] && m[2] == s[1] && m[3] == s[2];
  }

  /**
   * Dropping the first of four tasks onto a task no longer in the list
   * moves it to the third position (before the last one of the other three).
   */
  lemma DropOntoMissingTask(s: seq<Task>, missing: TaskId)
    requires |s| == 4 && UniqueIds(s) && missing !in Ids(s)
    ensures Reordered(s, Some(s[0].id), missing) == [s[1], s[2], s[0], s[3]]
  {
    FindIndexUnique(s, 0);
    assert s[0].id in Ids(s);
    ReorderMissingTarget(s, s[0].id, missing);
    var m := Move(s, 0, 2);
    assert m[0] == s[1] && m[1] == s[2] && m[2] == s[0] && m[3] == s[3];
  }

  /**
   * On the seed list: task 1 dropped onto task 3, a drop of a deleted task
   * 99 onto task 1, and task 1 dropped onto a deleted task 99.
   */
  lemma SeedDrops()
    ensures var s := SeedTasks();
      && Reordered(s, Some(1), 3) == [s[1], s[2], s[0], s[3]]
      && Reordered(s, Some(99), 1) == [s[3], s[0], s[1], s[2]]
      && Reordered(s, Some(1), 99) == [s[1], s[2], s[0], s[3]]
  {
    var s := SeedTasks();
    assert s[0].id == 1 && s[2].id == 3 && 99 !in Ids(s);
    DropIsMoveNotSwap(s);
    StaleDropMovesLastTask(s, 99);
    DropOntoMissingTask(s, 99);
  }
}
