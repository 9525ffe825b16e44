/** The in-memory task list of simple-todo-app/style.js: the sample data loaded at
    start-up, and the three mutations the page offers (add, toggle-complete, delete).
    Ids come from a millisecond clock in the application and are therefore NOT assumed
    unique: toggling affects the first task carrying the id, deleting removes all of them. */
module Tasks {
  import opened Outcomes
  import opened Seqs

  /** One task as the page stores it. `priority`, `category` and `dueDate` are the raw
      form-field strings (the code never validates them); `dueDate` is "" when unset. */
  datatype Task = Task(
    id: int,
    text: string,
    priority: string,
    category: string,
    dueDate: string,
    completed: bool,
    createdAt: string)

  /** No two tasks share an id. Nothing in the application enforces this. */
  predicate UniqueIds(tasks: seq<Task>)
  {
    forall i, j :: 0 <= i < j < |tasks| ==> tasks[i].id != tasks[j].id
  }

  /** Some task carries `id`. */
  predicate HasTask(tasks: seq<Task>, id: int)
  {
    exists i :: 0 <= i < |tasks| && tasks[i].id == id
  }

  /** `k` is the position of the first task carrying `id`. */
  predicate IsFirstWithId(tasks: seq<Task>, id: int, k: int)
  {
    0 <= k < |tasks| && tasks[k].id == id && forall j :: 0 <= j < k ==> tasks[j].id != id
  }

  /** The clock readings `loadSampleData` takes: one `Date.now()` per sample id and one
      `new Date().toISOString()` per creation stamp, in the order the page evaluates them. */
  datatype LoadClock = LoadClock(now1: int, now2: int, now3: int, stamp1: string, stamp2: string, stamp3: string)

  /** The wall clock did not step back while the three ids were read. */
  predicate Monotone(c: LoadClock)
  {
    c.now1 <= c.now2 <= c.now3
  }

  /** The three demonstration tasks installed when the page loads; the i-th id is the
      i-th clock reading plus i, and the i-th creation stamp is the i-th stamp reading. */
  function SampleTasks(c: LoadClock): (r: seq<Task>)
    ensures |r| == 3
    ensures r[0].text == "Complete Java full-stack project" && r[0].priority == "high"
         && r[0].category == "work" && !r[0].completed && r[0].dueDate == "2025-10-30"
    ensures r[1].text == "Learn Spring Boot framework" && r[1].priority == "medium"
         && r[1].category == "learning" && !r[1].completed && r[1].dueDate == "2025-11-05"
    ensures r[2].text == "Practice database queries" && r[2].priority == "low"
         && r[2].category == "learning" && r[2].completed && r[2].dueDate == "2025-10-25"
    ensures r[0].id == c.now1 + 1 && r[1].id == c.now2 + 2 && r[2].id == c.now3 + 3
    ensures r[0].createdAt == c.stamp1 && r[1].createdAt == c.stamp2 && r[2].createdAt == c.stamp3
  {
    [ Task(c.now1 + 1, "Complete Java full-stack project", "high", "work", "2025-10-30", false, c.stamp1),
      Task(c.now2 + 2, "Learn Spring Boot framework", "medium", "learning", "2025-11-05", false, c.stamp2),
      Task(c.now3 + 3, "Practice database queries", "low", "learning", "2025-10-25", true, c.stamp3) ]
  }

  /** The sample ids are unique exactly when no later id lands on an earlier one; in
      particular they are unique whenever the clock did not step back. */
  lemma SampleIdsUnique(c: LoadClock)
    ensures UniqueIds(SampleTasks(c)) <==>
              c.now1 + 1 != c.now2 + 2 && c.now1 + 1 != c.now3 + 3 && c.now2 + 2 != c.now3 + 3
    ensures Monotone(c) ==> UniqueIds(SampleTasks(c))
  {
    var r := SampleTasks(c);
    if UniqueIds(r) {
      assert r[0].id != r[1].id && r[0].id != r[2].id && r[1].id != r[2].id;
    }
  }

  /** A clock that steps back one millisecond between the first two readings gives the
      first two sample tasks the same id. */
  lemma SampleIdsClash(t: int, stamp: string)
    ensures var r := SampleTasks(LoadClock(t, t - 1, t, stamp, stamp, stamp));
      r[0].id == r[1].id && !UniqueIds(r)
  {
    var r := SampleTasks(LoadClock(t, t - 1, t, stamp, stamp, stamp));
    assert r[0].id == r[1].id;
  }

  /** Position of the first task carrying `id` (`tasks.find` in the page). */
  function FindIndex(tasks: seq<Task>, id: int): (r: Option<nat>)
    ensures r.Some? <==> HasTask(tasks, id)
    ensures r.Some? ==> IsFirstWithId(tasks, id, r.value)
    decreases |tasks|
  {
    if tasks == [] then None
    else if tasks[0].id == id then Some(0)
    else match FindIndex(tasks[1..], id)
      case None => None
      case Some(k) => Some(k + 1)
  }

  /** Appends a fresh, not yet completed task; `id` and `createdAt` are the clock
      readings the page takes at that moment. */
  function AddTask(tasks: seq<Task>, id: int, text: string, priority: string, category: string,
                   dueDate: string, createdAt: string): (r: seq<Task>)
    ensures |r| == |tasks| + 1 && r[..|tasks|] == tasks
    ensures var t := r[|tasks|];
      t.id == id && t.text == text && t.priority == priority && t.category == category
      && t.dueDate == dueDate && t.createdAt == createdAt && !t.completed
    ensures !HasTask(tasks, id) ==> FindIndex(r, id) == Some(|tasks|)
  {
    var r := tasks + [Task(id, text, priority, category, dueDate, false, createdAt)];
    assert !HasTask(tasks, id) ==> IsFirstWithId(r, id, |tasks|);
    r
  }

  /** The list after toggling, with the new `completed` value of the task that changed
      (None when no task carries the id). */
  datatype Toggled = Toggled(tasks: seq<Task>, nowCompleted: Option<bool>)

  /** Flips `completed` on the first task carrying `id`; an absent id changes nothing. */
  function ToggleComplete(tasks: seq<Task>, id: int): (r: Toggled)
    ensures |r.tasks| == |tasks|
    ensures !HasTask(tasks, id) ==> r.tasks == tasks && r.nowCompleted == None
    ensures forall k :: IsFirstWithId(tasks, id, k) ==>
              r.nowCompleted == Some(r.tasks[k].completed)
              && r.tasks[k].completed == !tasks[k].completed
              && r.tasks[k] == tasks[k].(completed := r.tasks[k].completed)
    ensures forall j :: 0 <= j < |tasks| && !IsFirstWithId(tasks, id, j) ==> r.tasks[j] == tasks[j]
  {
    match FindIndex(tasks, id)
    case None => Toggled(tasks, None)
    case Some(k) =>
      var flipped := !tasks[k].completed;
      Toggled(tasks[k := tasks[k].(completed := flipped)], Some(flipped))
  }

  /** The selection that keeps every task not carrying `id`. */
  function KeepOther(id: int): Task -> bool
  {
    (t: Task) => t.id != id
  }

  /** Removes every task carrying `id` (`tasks.filter(t => t.id !== taskId)`). */
  function DeleteTask(tasks: seq<Task>, id: int): (r: seq<Task>)
    ensures forall i :: 0 <= i < |r| ==> r[i].id != id
    ensures IsSubsequence(r, tasks)
    ensures forall t: Task :: t.id != id ==> multiset(r)[t] == multiset(tasks)[t]
    ensures !HasTask(tasks, id) ==> r == tasks
  {
    var r := Filter(tasks, KeepOther(id));
    FilterIsSubsequence(tasks, KeepOther(id));
    assert forall t: Task :: t.id != id ==> multiset(r)[t] == multiset(tasks)[t] by {
      forall t: Task | t.id != id {
        FilterMultiset(tasks, KeepOther(id), t);
      }
    }
    if HasTask(tasks, id) then r
    else FilterKeepsAll(tasks, KeepOther(id)); r
  }

  /** Toggling only rewrites a `completed` flag: ids, order and length stay. */
  lemma ToggleKeepsIds(tasks: seq<Task>, id: int)
    ensures var r := ToggleComplete(tasks, id).tasks;
      |r| == |tasks| && forall j :: 0 <= j < |tasks| ==> r[j].id == tasks[j].id
  {
  }

  /** Toggling the same id twice restores the list. */
  lemma {:induction false} ToggleTwiceRestores(tasks: seq<Task>, id: int)
    ensures ToggleComplete(ToggleComplete(tasks, id).tasks, id).tasks == tasks
  {
    var once := ToggleComplete(tasks, id).tasks;
    var twice := ToggleComplete(once, id).tasks;
    ToggleKeepsIds(tasks, id);
    assert forall k :: IsFirstWithId(once, id, k) <==> IsFirstWithId(tasks, id, k);
    assert HasTask(once, id) <==> HasTask(tasks, id) by {
      if HasTask(once, id) {
        var i :| 0 <= i < |once| && once[i].id == id;
        assert tasks[i].id == id;
      }
    }
    assert forall j :: 0 <= j < |tasks| ==> twice[j] == tasks[j];
  }

  /** Toggling never touches a later task that merely repeats the id. */
  lemma LaterDuplicateUntouched(tasks: seq<Task>, id: int, k: nat, j: nat)
    requires IsFirstWithId(tasks, id, k) && k < j < |tasks| && tasks[j].id == id
    ensures ToggleComplete(tasks, id).tasks[j] == tasks[j]
  {
  }

  /** Deleting a task that was just added with an unused id gives back the original list. */
  lemma AddThenDelete(tasks: seq<Task>, id: int, text: string, priority: string, category: string,
                      dueDate: string, createdAt: string)
    requires !HasTask(tasks, id)
    ensures DeleteTask(AddTask(tasks, id, text, priority, category, dueDate, createdAt), id) == tasks
  {
    var t := Task(id, text, priority, category, dueDate, false, createdAt);
    assert AddTask(tasks, id, text, priority, category, dueDate, createdAt) == tasks + [t];
    FilterConcat(tasks, [t], KeepOther(id));
    FilterKeepsAll(tasks, KeepOther(id));
  }

  /** Adding keeps ids unique exactly when they were unique and the new id is not in use. */
  lemma AddKeepsUnique(tasks: seq<Task>, id: int, text: string, priority: string, category: string,
                       dueDate: string, createdAt: string)
    ensures UniqueIds(AddTask(tasks, id, text, priority, category, dueDate, createdAt))
        <==> UniqueIds(tasks) && !HasTask(tasks, id)
  {
    var r := AddTask(tasks, id, text, priority, category, dueDate, createdAt);
    if HasTask(tasks, id) {
      var i :| 0 <= i < |tasks| && tasks[i].id == id;
      assert r[i].id == r[|tasks|].id;
    }
    if !UniqueIds(tasks) {
      var i, j :| 0 <= i < j < |tasks| && tasks[i].id == tasks[j].id;
      assert r[i] == tasks[i] && r[j] == tasks[j];
    }
  }

  /** A subsequence of a list with unique ids has unique ids. */
  lemma {:induction false} SubsequenceKeepsUnique(xs: seq<Task>, ys: seq<Task>)
    requires IsSubsequence(xs, ys) && UniqueIds(ys)
    ensures UniqueIds(xs)
    decreases |ys|
  {
    if xs != [] {
      assert ys != [];
      assert UniqueIds(ys[1..]);
      if xs[0] == ys[0] && IsSubsequence(xs[1..], ys[1..]) {
        SubsequenceKeepsUnique(xs[1..], ys[1..]);
        forall j | 0 < j < |xs|
          ensures xs[0].id != xs[j].id
        {
          assert xs[j] == xs[1..][j - 1];
          SubsequenceMembers(xs[1..], ys[1..]);
          var m :| 0 <= m < |ys[1..]| && ys[1..][m] == xs[j];
          assert ys[m + 1] == xs[j];
        }
      } else {
        SubsequenceKeepsUnique(xs, ys[1..]);
      }
    }
  }

  /** Deleting keeps ids unique, and toggling does too. */
  lemma MutationsKeepUnique(tasks: seq<Task>, id: int)
    requires UniqueIds(tasks)
    ensures UniqueIds(DeleteTask(tasks, id))
    ensures UniqueIds(ToggleComplete(tasks, id).tasks)
  {
    SubsequenceKeepsUnique(DeleteTask(tasks, id), tasks);
    ToggleKeepsIds(tasks, id);
  }

  /** With two tasks sharing an id, deleting that id removes both. */
  lemma DeleteRemovesDuplicates(a: Task, b: Task)
    requires a.id == b.id
    ensures DeleteTask([a, b], a.id) == []
  {
  }
}
