/** The page's global state as one value, and every intent the page handles as a pure
    transition on it. Task intents are not gated on a login (the page only reaches them
    from the dashboard, but the handlers themselves do not check `currentUser`). */
module Session {
  import opened Outcomes
  import opened Seqs
  import Tasks
  import Views
  import Credentials

  /** Current user ("" when logged out), the task list, the completion streak and the
      credential table. */
  datatype State = State(currentUser: string, tasks: seq<Tasks.Task>, streak: nat, users: Credentials.Users)

  /** The state after an intent and the refusal it reported, if any. */
  datatype Step = Step(state: State, error: Option<Credentials.AuthError>)

  /** Completions not yet paid for by the streak: `streak` minus the completed count. */
  function Unpaid(s: State): int
  {
    |Views.CompletedTasks(s.tasks)| - s.streak
  }

  /** The state when the page has loaded: nobody logged in, the sample tasks, streak 0,
      and the credential table as loaded from storage. The sample ids are unique when the
      clock did not step back during loading. */
  function Start(users: Credentials.Users, c: Tasks.LoadClock): (s: State)
    ensures s.currentUser == "" && s.streak == 0 && s.users == users
    ensures s.tasks == Tasks.SampleTasks(c)
    ensures Tasks.Monotone(c) ==> Tasks.UniqueIds(s.tasks)
    ensures Unpaid(s) == 1
  {
    var s := State("", Tasks.SampleTasks(c), 0, users);
    SampleDashboard(c);
    Tasks.SampleIdsUnique(c);
    s
  }

  /** Dashboard counters of the sample data: three tasks, one completed, 33%. */
  lemma SampleDashboard(c: Tasks.LoadClock)
    ensures Views.DashboardStats(Tasks.SampleTasks(c)) == Views.Stats(3, 1, 33)
  {
    var ts := Tasks.SampleTasks(c);
    var p := Views.IsCompleted;
    var tail := ts[1..];
    assert tail == [ts[1], ts[2]];
    assert tail[1..] == [ts[2]];
    assert Filter([ts[2]], p) == [ts[2]] + Filter([ts[2]][1..], p);
    assert Filter(tail, p) == Filter(tail[1..], p);
    assert Filter(ts, p) == Filter(tail, p);
    Views.CompletionRateUnique(1, 3, 33);
  }

  /** On 2025-10-30 the "due today" panel of the sample data shows exactly the first task. */
  lemma SampleDueToday(c: Tasks.LoadClock)
    ensures var ts := Tasks.SampleTasks(c);
      Views.TodayTasks(ts, "2025-10-30") == [ts[0]]
  {
    var ts := Tasks.SampleTasks(c);
    var p := Views.DueOn("2025-10-30");
    var tail := ts[1..];
    assert tail == [ts[1], ts[2]];
    assert tail[1..] == [ts[2]];
    assert Filter([ts[2]], p) == Filter([ts[2]][1..], p);
    assert Filter(tail, p) == Filter(tail[1..], p);
    assert Filter(ts, p) == [ts[0]] + Filter(tail, p);
  }

  /** Registration; a refusal leaves the state untouched, success changes only the table. */
  function HandleRegister(s: State, name: string, password: string, confirm: string): (r: Step)
    ensures r.error.None? <==> Credentials.Register(s.users, name, password, confirm).Ok?
    ensures r.error.Some? ==> r.state == s && r.error == Some(Credentials.Register(s.users, name, password, confirm).error)
    ensures r.error.None? ==> r.state == s.(users := Credentials.Register(s.users, name, password, confirm).value)
  {
    match Credentials.Register(s.users, name, password, confirm)
    case Ok(users) => Step(s.(users := users), None)
    case Err(e) => Step(s, Some(e))
  }

  /** Login; success sets only the current user, a refusal changes nothing. Neither
      reloads the tasks nor resets the streak. */
  function HandleLogin(s: State, name: string, password: string): (r: Step)
    ensures r.error.None? ==> r.state == s.(currentUser := name)
    ensures r.error.Some? ==> r.state == s
    ensures r.state.users == s.users && r.state.tasks == s.tasks && r.state.streak == s.streak
    ensures name == "" || password == "" ==> r.error == Some(Credentials.EmptyInput)
    ensures name != "" && password != "" && |s.users| == 0 ==> r.error.None?
    ensures name != "" && password != "" && |s.users| > 0 ==>
              (r.error.None? <==> name in s.users && s.users[name] == password)
  {
    match Credentials.Login(s.users, name, password)
    case Ok(user) => Step(s.(currentUser := user), None)
    case Err(e) => Step(s, Some(e))
  }

  /** Logout clears the current user and nothing else. */
  function HandleLogout(s: State): (r: State)
    ensures r.currentUser == ""
    ensures r.tasks == s.tasks && r.streak == s.streak && r.users == s.users
  {
    s.(currentUser := "")
  }

  /** Password change of the current user. */
  function HandlePasswordChange(s: State, newPassword: string, confirm: string): (r: Step)
    ensures r.error.None? <==> newPassword != "" && newPassword == confirm
    ensures r.error.Some? ==> r.state == s
    ensures r.state.currentUser == s.currentUser && r.state.tasks == s.tasks && r.state.streak == s.streak
    ensures r.error.None? && !Credentials.Registered(s.users, s.currentUser) ==> r.state == s
    ensures r.error.None? && Credentials.Registered(s.users, s.currentUser) ==>
              r.state.users == s.users[s.currentUser := newPassword]
  {
    match Credentials.ChangePassword(s.users, s.currentUser, newPassword, confirm)
    case Ok(users) => Step(s.(users := users), None)
    case Err(e) => Step(s, Some(e))
  }

  /** Adding a task appends it; nothing else changes. */
  function HandleAddTask(s: State, id: int, text: string, priority: string, category: string,
                         dueDate: string, createdAt: string): (r: State)
    ensures |r.tasks| == |s.tasks| + 1 && r.tasks[..|s.tasks|] == s.tasks
    ensures r.tasks[|s.tasks|] == Tasks.Task(id, text, priority, category, dueDate, false, createdAt)
    ensures r.currentUser == s.currentUser && r.streak == s.streak && r.users == s.users
  {
    s.(tasks := Tasks.AddTask(s.tasks, id, text, priority, category, dueDate, createdAt))
  }

  /** Toggling a task; the streak grows by one exactly when the first task carrying the
      id was open and so becomes completed. */
  function ToggleTaskComplete(s: State, id: int): (r: State)
    ensures r.streak == s.streak + (if exists k :: Tasks.IsFirstWithId(s.tasks, id, k) && !s.tasks[k].completed then 1 else 0)
    ensures !Tasks.HasTask(s.tasks, id) ==> r == s
    ensures r.currentUser == s.currentUser && r.users == s.users
    ensures r.tasks == Tasks.ToggleComplete(s.tasks, id).tasks
  {
    var t := Tasks.ToggleComplete(s.tasks, id);
    s.(tasks := t.tasks, streak := if t.nowCompleted == Some(true) then s.streak + 1 else s.streak)
  }

  /** Deleting removes every task carrying the id; streak, user and table stay. */
  function DeleteTask(s: State, id: int): (r: State)
    ensures r.tasks == Tasks.DeleteTask(s.tasks, id)
    ensures !Tasks.HasTask(s.tasks, id) ==> r == s
    ensures r.currentUser == s.currentUser && r.streak == s.streak && r.users == s.users
  {
    s.(tasks := Tasks.DeleteTask(s.tasks, id))
  }

  /** The intents the page reacts to. */
  datatype Intent =
    | Register(name: string, password: string, confirm: string)
    | Login(name: string, password: string)
    | Logout
    | ChangePassword(newPassword: string, confirm: string)
    | Add(id: int, text: string, priority: string, category: string, dueDate: string, createdAt: string)
    | Toggle(id: int)
    | Delete(id: int)

  /** Dispatches one intent. Only the authentication intents can be refused, and a
      refusal changes nothing; each part of the state is changed only by the intents
      that own it; the streak never drops. */
  function Handle(s: State, i: Intent): (r: Step)
    ensures r.error.Some? ==> r.state == s && (i.Register? || i.Login? || i.ChangePassword?)
    ensures r.state.streak >= s.streak
    ensures r.state.streak != s.streak ==> i.Toggle?
    ensures r.state.tasks != s.tasks ==> i.Add? || i.Toggle? || i.Delete?
    ensures r.state.users != s.users ==> i.Register? || i.ChangePassword?
    ensures r.state.currentUser != s.currentUser ==> i.Login? || i.Logout?
  {
    match i
    case Register(n, p, c) => HandleRegister(s, n, p, c)
    case Login(n, p) => HandleLogin(s, n, p)
    case Logout => Step(HandleLogout(s), None)
    case ChangePassword(p, c) => HandlePasswordChange(s, p, c)
    case Add(id, text, pr, cat, due, at) => Step(HandleAddTask(s, id, text, pr, cat, due, at), None)
    case Toggle(id) => Step(ToggleTaskComplete(s, id), None)
    case Delete(id) => Step(DeleteTask(s, id), None)
  }

  /** Handles a sequence of intents in order. */
  function Run(s: State, intents: seq<Intent>): State
    decreases |intents|
  {
    if intents == [] then s else Run(Handle(s, intents[0]).state, intents[1..])
  }

  /** One intent: the streak never drops, a refusal leaves the state untouched, and only
      registration and password change touch the credential table. */
  lemma HandleInvariants(s: State, i: Intent)
    ensures Handle(s, i).state.streak >= s.streak
    ensures Handle(s, i).error.Some? ==> Handle(s, i).state == s
    ensures !i.Register? && !i.ChangePassword? ==> Handle(s, i).state.users == s.users
  {
  }

  /** One intent never raises the completed count by more than it raises the streak. */
  lemma HandleKeepsUnpaid(s: State, i: Intent)
    ensures Unpaid(Handle(s, i).state) <= Unpaid(s)
  {
    match i
    case Toggle(id) =>
      Views.ToggleCompletedCount(s.tasks, id);
    case Delete(id) =>
      var p := Views.IsCompleted;
      var d := Tasks.DeleteTask(s.tasks, id);
      assert Filter(d, p) == Filter(s.tasks, And(Tasks.KeepOther(id), p)) by {
        FilterFilter(s.tasks, Tasks.KeepOther(id), p);
      }
      FilterFilter(s.tasks, p, Tasks.KeepOther(id));
      FilterCongruent(s.tasks, And(Tasks.KeepOther(id), p), And(p, Tasks.KeepOther(id)));
    case Add(id, text, pr, cat, due, at) =>
      var t := Tasks.Task(id, text, pr, cat, due, false, at);
      assert Tasks.AddTask(s.tasks, id, text, pr, cat, due, at) == s.tasks + [t];
      FilterConcat(s.tasks, [t], Views.IsCompleted);
    case _ =>
  }

  /** Over any run of intents from page load the streak stays at least the number of
      completed tasks minus the one sample task that starts completed. */
  lemma {:induction false} RunKeepsUnpaid(s: State, intents: seq<Intent>)
    ensures Unpaid(Run(s, intents)) <= Unpaid(s)
    ensures Run(s, intents).streak >= s.streak
    decreases |intents|
  {
    if intents != [] {
      HandleKeepsUnpaid(s, intents[0]);
      HandleInvariants(s, intents[0]);
      RunKeepsUnpaid(Handle(s, intents[0]).state, intents[1..]);
    }
  }

  /** From page load, every completed task beyond the pre-completed sample was counted. */
  lemma StreakCoversCompletions(users: Credentials.Users, c: Tasks.LoadClock, intents: seq<Intent>)
    ensures var s := Run(Start(users, c), intents);
      |Views.CompletedTasks(s.tasks)| <= s.streak + 1
  {
    RunKeepsUnpaid(Start(users, c), intents);
  }

  /** Toggling a present id twice restores the tasks and still adds one to the streak
      (one of the two toggles completes the task). */
  lemma ToggleTwice(s: State, id: int)
    requires Tasks.HasTask(s.tasks, id)
    ensures var r := ToggleTaskComplete(ToggleTaskComplete(s, id), id);
      r.tasks == s.tasks && r.streak == s.streak + 1
  {
    var k := Tasks.FindIndex(s.tasks, id).value;
    var once := ToggleTaskComplete(s, id);
    Tasks.ToggleKeepsIds(s.tasks, id);
    assert Tasks.IsFirstWithId(once.tasks, id, k);
    Tasks.ToggleTwiceRestores(s.tasks, id);
  }

  /** Complete, un-complete, complete again: the streak rises by two. */
  lemma CompleteUncompleteComplete(s: State, id: int, k: nat)
    requires Tasks.IsFirstWithId(s.tasks, id, k) && !s.tasks[k].completed
    ensures var r := ToggleTaskComplete(ToggleTaskComplete(ToggleTaskComplete(s, id), id), id);
      r.streak == s.streak + 2 && r.tasks[k].completed
  {
    var s1 := ToggleTaskComplete(s, id);
    Tasks.ToggleKeepsIds(s.tasks, id);
    assert Tasks.IsFirstWithId(s1.tasks, id, k);
    ToggleTwice(s1, id);
  }

  /** Logging out and back in with the same credentials returns to the same state:
      tasks and streak survive the session. */
  lemma LogoutLoginRoundTrip(s: State, name: string, password: string)
    requires HandleLogin(s, name, password).error.None?
    ensures var s1 := HandleLogin(s, name, password).state;
      HandleLogin(HandleLogout(s1), name, password) == Step(s1, None)
  {
  }
}
