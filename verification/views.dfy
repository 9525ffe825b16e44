/** The read-only views the page derives from the task list: the searchable, filterable
    task list, the completed list, the "due today" panel and the dashboard counters. */
module Views {
  import opened Outcomes
  import opened Seqs
  import opened Tasks

  // ---------------------------------------------------------------------------
  // Case-insensitive substring search
  // ---------------------------------------------------------------------------

  /** ASCII lowering of one character; every other character is left alone. */
  function LowerChar(c: char): char
  {
    if 'A' <= c <= 'Z' then (c as int + 32) as char else c
  }

  /** `String.prototype.toLowerCase`, restricted to ASCII letters. */
  function Lower(s: string): (r: string)
    ensures |r| == |s|
    ensures forall i :: 0 <= i < |r| ==> r[i] == LowerChar(s[i]) && !('A' <= r[i] <= 'Z')
  {
    seq(|s|, i requires 0 <= i < |s| => LowerChar(s[i]))
  }

  /** `needle` occurs in `hay` starting at position `i`. */
  predicate OccursAt(hay: string, needle: string, i: int)
  {
    0 <= i && i + |needle| <= |hay| && hay[i..i + |needle|] == needle
  }

  /** `String.prototype.includes`: whether `needle` occurs anywhere in `hay`
      (the empty needle occurs everywhere). */
  function Contains(hay: string, needle: string): (r: bool)
    ensures r <==> exists i :: OccursAt(hay, needle, i)
    decreases |hay|
  {
    if |needle| > |hay| then
      assert forall i :: !OccursAt(hay, needle, i);
      false
    else if hay[..|needle|] == needle then
      assert OccursAt(hay, needle, 0);
      true
    else
      ContainsShift(hay, needle);
      assert !OccursAt(hay, needle, 0);
      var rest := Contains(hay[1..], needle);
      assert rest ==> exists i :: OccursAt(hay, needle, i) by {
        if rest {
          var j :| OccursAt(hay[1..], needle, j);
          assert OccursAt(hay, needle, j + 1);
        }
      }
      rest
  }

  /** An occurrence past the first position of `hay` is an occurrence in its tail. */
  lemma ContainsShift(hay: string, needle: string)
    requires hay != []
    ensures forall i :: 0 < i ==> (OccursAt(hay, needle, i) <==> OccursAt(hay[1..], needle, i - 1))
  {
    forall i | 0 < i
      ensures OccursAt(hay, needle, i) <==> OccursAt(hay[1..], needle, i - 1)
    {
      if i + |needle| <= |hay| {
        var a, b := hay[i..i + |needle|], hay[1..][i - 1..i - 1 + |needle|];
        assert |a| == |b|;
        assert forall j :: 0 <= j < |a| ==> a[j] == hay[i + j] == b[j];
        assert a == b;
      }
    }
  }

  /** Lowering twice is lowering once. */
  lemma LowerIdempotent(s: string)
    ensures Lower(Lower(s)) == Lower(s)
  {
    assert forall i :: 0 <= i < |s| ==> Lower(Lower(s))[i] == Lower(s)[i];
  }

  // ---------------------------------------------------------------------------
  // The filtered task list
  // ---------------------------------------------------------------------------

  /** Tasks whose lowered text contains the (already lowered) search term. */
  function MatchesSearch(term: string): Task -> bool
  {
    (t: Task) => Contains(Lower(t.text), term)
  }

  /** Tasks of exactly this category. */
  function InCategory(category: string): Task -> bool
  {
    (t: Task) => t.category == category
  }

  /** Tasks of exactly this priority. */
  function HasPriority(priority: string): Task -> bool
  {
    (t: Task) => t.priority == priority
  }

  /** Reference definition of one entry of the task list: its text contains the search
      text ignoring ASCII case, and it matches the category and the priority unless
      the respective filter is "all". */
  predicate Selected(t: Task, search: string, category: string, priority: string)
  {
    && Contains(Lower(t.text), Lower(search))
    && (category == "all" || t.category == category)
    && (priority == "all" || t.priority == priority)
  }

  /** `Selected` as a selection function. */
  function SelectedBy(search: string, category: string, priority: string): Task -> bool
  {
    (t: Task) => Selected(t, search, category, priority)
  }

  /** Tasks of this category, or every task when the filter is "all". */
  function CategoryOrAll(category: string): Task -> bool
  {
    (t: Task) => category == "all" || t.category == category
  }

  /** Tasks of this priority, or every task when the filter is "all". */
  function PriorityOrAll(priority: string): Task -> bool
  {
    (t: Task) => priority == "all" || t.priority == priority
  }

  /** Skipping the search stage for an empty term is the same as running it. */
  lemma SearchStage(tasks: seq<Task>, term: string)
    ensures (if term != "" then Filter(tasks, MatchesSearch(term)) else tasks) == Filter(tasks, MatchesSearch(term))
  {
    if term == "" {
      forall i | 0 <= i < |tasks| ensures MatchesSearch(term)(tasks[i]) {
        assert OccursAt(Lower(tasks[i].text), term, 0);
      }
      FilterKeepsAll(tasks, MatchesSearch(term));
    }
  }

  /** The guarded category stage is the filter by `CategoryOrAll`. */
  lemma CategoryStage(xs: seq<Task>, category: string)
    ensures (if category != "all" then Filter(xs, InCategory(category)) else xs) == Filter(xs, CategoryOrAll(category))
  {
    if category != "all" {
      FilterCongruent(xs, InCategory(category), CategoryOrAll(category));
    } else {
      FilterKeepsAll(xs, CategoryOrAll(category));
    }
  }

  /** The guarded priority stage is the filter by `PriorityOrAll`. */
  lemma PriorityStage(xs: seq<Task>, priority: string)
    ensures (if priority != "all" then Filter(xs, HasPriority(priority)) else xs) == Filter(xs, PriorityOrAll(priority))
  {
    if priority != "all" {
      FilterCongruent(xs, HasPriority(priority), PriorityOrAll(priority));
    } else {
      FilterKeepsAll(xs, PriorityOrAll(priority));
    }
  }

  /** The conjunction of the three stage selections is the reference selection. */
  lemma ConjunctionIsSelected(tasks: seq<Task>, search: string, category: string, priority: string)
    ensures Filter(tasks, And(And(MatchesSearch(Lower(search)), CategoryOrAll(category)), PriorityOrAll(priority)))
         == Filter(tasks, SelectedBy(search, category, priority))
  {
    var conj := And(And(MatchesSearch(Lower(search)), CategoryOrAll(category)), PriorityOrAll(priority));
    forall i | 0 <= i < |tasks|
      ensures conj(tasks[i]) == SelectedBy(search, category, priority)(tasks[i])
    {
    }
    FilterCongruent(tasks, conj, SelectedBy(search, category, priority));
  }

  /** The task list the "All Tasks" view shows, computed stage by stage as the page
      does: search (skipped when the lowered term is empty), then category, then
      priority, each skipped when its filter is "all". It selects exactly the tasks the
      reference predicate accepts, keeps their order, and keeps each selected task as
      often as the store holds it. */
  function FilteredTasks(tasks: seq<Task>, search: string, category: string, priority: string): (r: seq<Task>)
    ensures r == Filter(tasks, SelectedBy(search, category, priority))
    ensures IsSubsequence(r, tasks)
    ensures forall i :: 0 <= i < |r| ==> Selected(r[i], search, category, priority)
    ensures forall t: Task :: multiset(r)[t] == if Selected(t, search, category, priority) then multiset(tasks)[t] else 0
  {
    var term := Lower(search);
    var bySearch := if term != "" then Filter(tasks, MatchesSearch(term)) else tasks;
    var byCategory := if category != "all" then Filter(bySearch, InCategory(category)) else bySearch;
    var r := if priority != "all" then Filter(byCategory, HasPriority(priority)) else byCategory;
    StagesAreReference(tasks, search, category, priority, bySearch, byCategory, r);
    r
  }

  /** The three guarded stages, chained, are one filter by the reference selection,
      with the consequences the task list promises. */
  lemma StagesAreReference(tasks: seq<Task>, search: string, category: string, priority: string,
                           bySearch: seq<Task>, byCategory: seq<Task>, r: seq<Task>)
    requires bySearch == if Lower(search) != "" then Filter(tasks, MatchesSearch(Lower(search))) else tasks
    requires byCategory == if category != "all" then Filter(bySearch, InCategory(category)) else bySearch
    requires r == if priority != "all" then Filter(byCategory, HasPriority(priority)) else byCategory
    ensures r == Filter(tasks, SelectedBy(search, category, priority))
    ensures IsSubsequence(r, tasks)
    ensures forall t: Task :: multiset(r)[t] == if Selected(t, search, category, priority) then multiset(tasks)[t] else 0
  {
    var s1, s2, s3 := MatchesSearch(Lower(search)), CategoryOrAll(category), PriorityOrAll(priority);
    SearchStage(tasks, Lower(search));
    CategoryStage(bySearch, category);
    PriorityStage(byCategory, priority);
    FilterFilter(tasks, s1, s2);
    FilterFilter(tasks, And(s1, s2), s3);
    ConjunctionIsSelected(tasks, search, category, priority);
    var p := SelectedBy(search, category, priority);
    FilterIsSubsequence(tasks, p);
    forall t: Task {
      FilterMultiset(tasks, p, t);
    }
  }

  /** With an empty search and both filters at "all" the list is shown unchanged. */
  lemma FilteredIdentity(tasks: seq<Task>)
    ensures FilteredTasks(tasks, "", "all", "all") == tasks
  {
  }

  /** The search ignores ASCII case: a search text and its lowered form select the same tasks. */
  lemma SearchIgnoresCase(tasks: seq<Task>, search: string, category: string, priority: string)
    ensures FilteredTasks(tasks, search, category, priority) == FilteredTasks(tasks, Lower(search), category, priority)
  {
    LowerIdempotent(search);
  }

  // ---------------------------------------------------------------------------
  // Completed list and "due today" panel
  // ---------------------------------------------------------------------------

  /** Selection of completed tasks. */
  const IsCompleted: Task -> bool := (t: Task) => t.completed

  /** The "Completed Tasks" view: the completed tasks, in store order. */
  function CompletedTasks(tasks: seq<Task>): (r: seq<Task>)
    ensures forall i :: 0 <= i < |r| ==> r[i].completed
    ensures IsSubsequence(r, tasks)
    ensures forall t: Task :: t.completed ==> multiset(r)[t] == multiset(tasks)[t]
  {
    var r := Filter(tasks, IsCompleted);
    FilterIsSubsequence(tasks, IsCompleted);
    assert forall t: Task :: t.completed ==> multiset(r)[t] == multiset(tasks)[t] by {
      forall t: Task | t.completed {
        FilterMultiset(tasks, IsCompleted, t);
      }
    }
    r
  }

  /** How many tasks the "due today" panel shows at most. */
  const TodayLimit: nat := 5

  /** Selection of tasks due on `day` (exact string equality of the yyyy-mm-dd form value). */
  function DueOn(day: string): Task -> bool
  {
    (t: Task) => t.dueDate == day
  }

  /** The "due today" panel: the first five tasks, in store order, whose due date is
      `today` (the page takes `today` from the clock; here it is a parameter). */
  function TodayTasks(tasks: seq<Task>, today: string): (r: seq<Task>)
    ensures |r| <= TodayLimit
    ensures var due := Filter(tasks, DueOn(today));
      |r| == (if |due| < TodayLimit then |due| else TodayLimit) && r == due[..|r|]
    ensures forall i :: 0 <= i < |r| ==> r[i].dueDate == today
    ensures IsSubsequence(r, tasks)
  {
    var due := Filter(tasks, DueOn(today));
    var r := due[..if |due| < TodayLimit then |due| else TodayLimit];
    PrefixIsSubsequence(due, |r|);
    FilterIsSubsequence(tasks, DueOn(today));
    SubsequenceTransitive(r, due, tasks);
    r
  }

  /** When at most five tasks are due, the panel lists each of them as often as the store does. */
  lemma TodayTasksComplete(tasks: seq<Task>, today: string)
    requires |Filter(tasks, DueOn(today))| <= TodayLimit
    ensures forall t: Task :: t.dueDate == today ==> multiset(TodayTasks(tasks, today))[t] == multiset(tasks)[t]
  {
    var due := Filter(tasks, DueOn(today));
    assert TodayTasks(tasks, today) == due;
    forall t: Task | t.dueDate == today {
      FilterMultiset(tasks, DueOn(today), t);
    }
  }

  // ---------------------------------------------------------------------------
  // Dashboard counters
  // ---------------------------------------------------------------------------

  /** `r` is the nearest integer to 100 * completed / total, halves rounding up. */
  predicate RoundsHalfUp(completed: nat, total: nat, r: int)
  {
    total * (2 * r - 1) <= 200 * completed < total * (2 * r + 1)
  }

  /** `Math.round(completed / total * 100)` for `total > 0`, 0 otherwise, computed
      exactly in integers. */
  function CompletionRate(completed: nat, total: nat): (r: nat)
    requires completed <= total
    ensures r <= 100
    ensures total == 0 ==> r == 0
    ensures total > 0 ==> RoundsHalfUp(completed, total, r)
  {
    if total == 0 then 0
    else
      var r := (200 * completed + total) / (2 * total);
      RateBounds(completed, total, r);
      r
  }

  /** The integer quotient used for the rate rounds half up and stays within 0..100. */
  lemma RateBounds(completed: nat, total: nat, r: nat)
    requires completed <= total && total > 0
    requires r == (200 * completed + total) / (2 * total)
    ensures r <= 100 && RoundsHalfUp(completed, total, r)
  {
    var n := 200 * completed + total;
    DivBounds(n, 2 * total);
    var m := total * r;
    assert 2 * total * r == 2 * m;
    assert 2 * total * (r + 1) == 2 * m + 2 * total;
    assert total * (2 * r - 1) == 2 * m - total;
    assert total * (2 * r + 1) == 2 * m + total;
    if r > 100 {
      MulMonotone(101, r, total);
    }
  }

  /** Integer division brackets its dividend. */
  lemma DivBounds(a: nat, b: nat)
    requires b > 0
    ensures b * (a / b) <= a < b * (a / b + 1)
  {
  }

  /** Multiplying by a non-negative factor preserves order. */
  lemma MulMonotone(a: int, b: int, c: nat)
    requires a <= b
    ensures c * a <= c * b
  {
    assert c * b - c * a == c * (b - a);
  }

  /** At most one integer rounds a given fraction half up. */
  lemma RoundingUnique(completed: nat, total: nat, x: int, y: int)
    requires total > 0 && x < y
    requires RoundsHalfUp(completed, total, x)
    ensures !RoundsHalfUp(completed, total, y)
  {
    MulMonotone(2 * x + 1, 2 * y - 1, total);
  }

  /** The rounding relation pins the rate down: no other integer satisfies it. */
  lemma CompletionRateUnique(completed: nat, total: nat, x: int)
    requires completed <= total && total > 0
    requires RoundsHalfUp(completed, total, x)
    ensures x == CompletionRate(completed, total)
  {
    var r := CompletionRate(completed, total);
    if x < r {
      RoundingUnique(completed, total, x, r);
    } else if r < x {
      RoundingUnique(completed, total, r, x);
    }
  }

  /** The dashboard counters. */
  datatype Stats = Stats(total: nat, completed: nat, rate: nat)

  /** Total and completed counts and the completion percentage of the dashboard. */
  function DashboardStats(tasks: seq<Task>): (r: Stats)
    ensures r.total == |tasks| && r.completed == |CompletedTasks(tasks)|
    ensures r.completed <= r.total
    ensures r.completed + |Filter(tasks, Not(IsCompleted))| == r.total
    ensures r.rate <= 100
    ensures r.total == 0 ==> r.rate == 0
    ensures r.total > 0 ==> RoundsHalfUp(r.completed, r.total, r.rate)
  {
    FilterPartition(tasks, IsCompleted);
    var done := |Filter(tasks, IsCompleted)|;
    Stats(|tasks|, done, CompletionRate(done, |tasks|))
  }

  /** A store with every task completed shows 100%, one with none completed shows 0%. */
  lemma RateExtremes(tasks: seq<Task>)
    ensures |tasks| > 0 && DashboardStats(tasks).completed == |tasks| ==> DashboardStats(tasks).rate == 100
    ensures DashboardStats(tasks).completed == 0 ==> DashboardStats(tasks).rate == 0
  {
    var s := DashboardStats(tasks);
    if |tasks| > 0 && s.completed == |tasks| {
      CompletionRateUnique(s.completed, s.total, 100);
    }
    if s.completed == 0 && s.total > 0 {
      CompletionRateUnique(s.completed, s.total, 0);
    }
  }

  /** Replacing one task changes the completed count by the change in that task's flag. */
  lemma {:induction false} CompletedCountUpdate(tasks: seq<Task>, k: nat, t: Task)
    requires k < |tasks|
    ensures |CompletedTasks(tasks[k := t])| + (if tasks[k].completed then 1 else 0)
         == |CompletedTasks(tasks)| + (if t.completed then 1 else 0)
  {
    var p := IsCompleted;
    var before, after := tasks[..k], tasks[k + 1..];
    assert tasks == before + [tasks[k]] + after;
    assert tasks[k := t] == before + [t] + after;
    FilterConcat(before + [tasks[k]], after, p);
    FilterConcat(before, [tasks[k]], p);
    FilterConcat(before + [t], after, p);
    FilterConcat(before, [t], p);
  }

  /** Completing a task through a toggle raises the completed count by one; un-completing
      lowers it by one; toggling an absent id leaves it. */
  lemma ToggleCompletedCount(tasks: seq<Task>, id: int)
    ensures var r := ToggleComplete(tasks, id);
      |CompletedTasks(r.tasks)| == |CompletedTasks(tasks)|
        + (if r.nowCompleted == Some(true) then 1 else 0)
        - (if r.nowCompleted == Some(false) then 1 else 0)
  {
    var r := ToggleComplete(tasks, id);
    match FindIndex(tasks, id)
    case None =>
    case Some(k) =>
      assert r.tasks == tasks[k := r.tasks[k]];
      CompletedCountUpdate(tasks, k, r.tasks[k]);
  }

  // ---------------------------------------------------------------------------
  // Priority badge
  // ---------------------------------------------------------------------------

  /** Red, yellow and green circles for the known priorities, a white circle otherwise. */
  function PriorityEmoji(priority: string): (r: string)
    ensures priority == "high" ==> r == "\U{1F534}"
    ensures priority == "medium" ==> r == "\U{1F7E1}"
    ensures priority == "low" ==> r == "\U{1F7E2}"
    ensures r == "\U{26AA}" <==> priority !in ["high", "medium", "low"]
  {
    if priority == "high" then "\U{1F534}"
    else if priority == "medium" then "\U{1F7E1}"
    else if priority == "low" then "\U{1F7E2}"
    else "\U{26AA}"
  }
}
