# Simple to-do app: task store and session, modelled in Dafny

This project models the state logic of the browser to-do tracker in
`simple-todo-app/style.js`, with the page's form reads and markup writes taken out.
What the page reads from form fields arrives here as parameters. What it writes into
the page comes back as a returned value.

- **Task list** (`Tasks`): the three sample tasks loaded at start-up, adding a task,
  toggling a task's `completed` flag, and deleting by id. Ids come from a millisecond
  clock in the page, so they are not assumed unique. A toggle affects the first task
  with the id (`find`). A delete removes every task with the id (`filter`).
- **Derived views** (`Views`): the searchable and filterable task list, the completed
  list, the "due today" panel (at most five tasks), the dashboard counters with the
  completion percentage, and the priority badge.
- **Credential table** (`Credentials`): register, login, and password change against a
  username-to-password map. "Present" follows the page's truthiness test: a key mapped
  to `""` counts as absent.
- **Session** (`Session`): the page's global variables `currentUser`, `tasks`,
  `streak` and `registeredUsers` as one `State` value. Every handler is a pure
  transition on it, and a dispatcher runs sequences of intents.
- `Seqs` holds `Filter` (the model of `Array.prototype.filter`) and its facts: it
  keeps order, it keeps multiplicity, and it composes. `Outcomes` holds `Option` and
  `Result`.

Clock readings are parameters: each `Date.now()` and ISO creation stamp the page takes
at start-up, the id and stamp of a new task, and today's date.

Behaviour of `style.js` that the model keeps:

- `handleLogout` clears only `currentUser`, and `handleLogin` neither reloads the tasks
  nor resets the streak. `Session.LogoutLoginRoundTrip` shows that tasks and streak
  survive a logout and a login.
- `toggleTaskComplete` calls `incrementStreak` whenever a task becomes completed and
  never decrements. Toggling the same task twice therefore raises the streak by one
  (`Session.ToggleTwice`).
- Ids are `Date.now()` plus a small offset, and nothing checks them for uniqueness.
  `Tasks.AddKeepsUnique` shows that adding keeps ids unique exactly when they were unique
  and the new id is unused. `Tasks.SampleIdsClash` shows that a clock stepping back one
  millisecond during `loadSampleData` gives two sample tasks the same id.
- `handleRegister` refuses a name only when its stored password is truthy. A name
  registered with `""` can be registered again (`Credentials.EmptyPasswordDoesNotReserve`).
- `handlePasswordChange` never asks for the old password. It reports success even when
  the current user has no entry, and in that case the table is left unchanged.

## Model

| member | source | states |
|---|---|---|
| `Seqs.Filter` | simple-todo-app/style.js:341-351 | `filter` keeps only selected elements, each drawn from the input, and never lengthens the list |
| `Tasks.SampleTasks` | simple-todo-app/style.js:39-68 | the start-up list has three tasks with the listed texts, priorities, categories, due dates and flags; the i-th id is the i-th `Date.now()` reading plus i, and the i-th stamp is the i-th `toISOString()` reading |
| `Tasks.SampleIdsUnique` | simple-todo-app/style.js:42-60 | the sample ids are unique exactly when no two of the three offset readings coincide, and always when the clock readings do not decrease |
| `Tasks.SampleIdsClash` | simple-todo-app/style.js:42-51 | readings T and T-1 give the first two sample tasks the same id |
| `Tasks.FindIndex` | simple-todo-app/style.js:270 | `find` yields a position exactly when some task has the id, and that position is the first such task |
| `Tasks.AddTask` | simple-todo-app/style.js:249-259 | adding appends exactly one task with the given fields and `completed = false`; earlier tasks stay; a new id is then found at the end |
| `Tasks.ToggleComplete` | simple-todo-app/style.js:269-277 | only the first task with the id changes, and only its `completed` flag flips; the new value is reported; an absent id changes nothing |
| `Tasks.DeleteTask` | simple-todo-app/style.js:284-285 | no task with the id remains; the result is an order-preserving subsequence; every other task keeps its multiplicity; an absent id leaves the list identical |
| `Tasks.ToggleKeepsIds` | simple-todo-app/style.js:272 | a toggle keeps the length and every task's id at every position |
| `Tasks.ToggleTwiceRestores` | simple-todo-app/style.js:269-272 | toggling the same id twice restores the list |
| `Tasks.LaterDuplicateUntouched` | simple-todo-app/style.js:270-272 | a later task that repeats the id is not touched by a toggle |
| `Tasks.AddThenDelete` | simple-todo-app/style.js:249-285 | deleting a task just added under an unused id gives back the original list |
| `Tasks.AddKeepsUnique` | simple-todo-app/style.js:250-259 | after adding, ids are unique exactly when they were unique before and the new id was unused |
| `Tasks.SubsequenceKeepsUnique` | simple-todo-app/style.js:285 | any order-preserving subsequence of a list with unique ids has unique ids |
| `Tasks.MutationsKeepUnique` | simple-todo-app/style.js:269-285 | delete and toggle keep ids unique |
| `Tasks.DeleteRemovesDuplicates` | simple-todo-app/style.js:285 | two tasks sharing an id are both removed by one delete |
| `Views.Lower` | simple-todo-app/style.js:336 | lowering keeps the length, maps each character through ASCII lowering, and leaves no upper-case ASCII letter |
| `Views.Contains` | simple-todo-app/style.js:342 | `includes` holds exactly when the needle occurs at some position of the text; the empty needle occurs everywhere |
| `Views.LowerIdempotent` | simple-todo-app/style.js:336 | lowering a lowered string changes nothing |
| `Views.SearchStage` | simple-todo-app/style.js:340-344 | skipping the search for an empty term selects the same tasks as running it |
| `Views.CategoryStage` | simple-todo-app/style.js:346-348 | the category stage guarded by "all" is one filter by "category is all or equal" |
| `Views.PriorityStage` | simple-todo-app/style.js:350-352 | the priority stage guarded by "all" is one filter by "priority is all or equal" |
| `Views.FilteredTasks` | simple-todo-app/style.js:333-355 | the staged filters select exactly the tasks the reference predicate accepts (text contains the lowered search term; category and priority match unless "all"); the result is an order-preserving subsequence, every entry is selected, and every selected task appears as often as in the store |
| `Views.StagesAreReference` | simple-todo-app/style.js:340-352 | the three guarded stages in a row equal one filter by the reference selection |
| `Views.FilteredIdentity` | simple-todo-app/style.js:340-354 | search "", category "all" and priority "all" give the full list in its order |
| `Views.SearchIgnoresCase` | simple-todo-app/style.js:336-343 | a search text and its lowered form give the same list |
| `Views.CompletedTasks` | simple-todo-app/style.js:384 | the completed list holds only completed tasks, in store order, each as often as in the store |
| `Views.TodayTasks` | simple-todo-app/style.js:439-440 | the panel has at most five tasks, all due `today`, in store order; it is the first min(5, number due) of the tasks due `today` |
| `Views.TodayTasksComplete` | simple-todo-app/style.js:440 | when at most five tasks are due, every due task appears as often as in the store |
| `Views.CompletionRate` | simple-todo-app/style.js:422 | the rate is 0 with no tasks; otherwise it is the nearest integer to 100·completed/total with halves rounded up; it always lies in 0..100 |
| `Views.RateBounds` | simple-todo-app/style.js:422 | the integer quotient used for the rate lies in 0..100 and rounds half up |
| `Views.CompletionRateUnique` | simple-todo-app/style.js:422 | exactly one integer satisfies the half-up rounding relation |
| `Views.DashboardStats` | simple-todo-app/style.js:420-422 | total is the list length; completed is the completed-list length and at most total; completed plus open equals total; the rate follows the rounding relation |
| `Views.RateExtremes` | simple-todo-app/style.js:422 | all tasks completed gives 100; none completed gives 0 |
| `Views.CompletedCountUpdate` | simple-todo-app/style.js:421 | replacing one task changes the completed count by the change in that task's flag |
| `Views.ToggleCompletedCount` | simple-todo-app/style.js:269-272 | a toggle that completes a task adds one to the completed count; one that un-completes it subtracts one; an absent id leaves the count |
| `Views.PriorityEmoji` | simple-todo-app/style.js:361-364 | high, medium and low map to red, yellow and green circles; the white circle is returned exactly for every other priority (own keys only; see Left out) |
| `Credentials.Registered` | simple-todo-app/style.js:125 | the presence test (also made at lines 155 and 196) holds exactly when the JavaScript lookup of the name yields a truthy value: neither `undefined` nor "" |
| `Credentials.Register` | simple-todo-app/style.js:120-130 | a password mismatch is refused first; then a present name is refused; only then is the name added with its password and every other entry kept |
| `Credentials.Login` | simple-todo-app/style.js:146-161 | an empty name or password is refused; with an empty table any other pair succeeds; otherwise it succeeds exactly when the stored password equals the given one |
| `Credentials.ChangePassword` | simple-todo-app/style.js:185-199 | empty fields are refused, then a mismatch; on success only the current user's existing entry is overwritten; an absent current user leaves the table unchanged but still succeeds |
| `Credentials.RegisterThenLogin` | simple-todo-app/style.js:130-156 | a name just registered with a non-empty password logs in with it |
| `Credentials.RegisterTwiceFails` | simple-todo-app/style.js:125-130 | registering a name again after it stored a non-empty password is refused as taken |
| `Credentials.EmptyPasswordDoesNotReserve` | simple-todo-app/style.js:125-130 | a name registered with "" can be registered again |
| `Credentials.ChangeThenLogin` | simple-todo-app/style.js:196-197 | after a change, the new password logs in and any other password is refused |
| `Credentials.BootstrapLogin` | simple-todo-app/style.js:152-153 | with an empty table, "alice"/"x" logs in as alice |
| `Credentials.WrongPasswordRefused` | simple-todo-app/style.js:155-159 | with table bob→pw1, bob/wrong is refused as invalid |
| `Session.Start` | simple-todo-app/style.js:2-6 | at page load nobody is logged in, the streak is 0, the tasks are the sample (with unique ids when the clock did not step back), and one completed task is not yet counted by the streak |
| `Session.SampleDashboard` | simple-todo-app/style.js:420-422 | the sample data shows 3 tasks, 1 completed, 33% |
| `Session.SampleDueToday` | simple-todo-app/style.js:439-440 | on 2025-10-30 the sample panel shows exactly the first task |
| `Session.HandleRegister` | simple-todo-app/style.js:114-132 | a refused registration leaves the whole state unchanged; a successful one changes only the credential table |
| `Session.HandleLogin` | simple-todo-app/style.js:140-161 | success sets only `currentUser`; failure changes nothing; tasks, streak and table are never touched |
| `Session.HandleLogout` | simple-todo-app/style.js:173-174 | logout clears `currentUser` and keeps tasks, streak and table |
| `Session.HandlePasswordChange` | simple-todo-app/style.js:181-201 | succeeds exactly for equal non-empty fields; only the table can change, and only the current user's existing entry |
| `Session.HandleAddTask` | simple-todo-app/style.js:241-259 | appends the new open task and changes nothing else |
| `Session.ToggleTaskComplete` | simple-todo-app/style.js:269-277 | the streak rises by exactly one when the first task with the id was open, and otherwise stays; an absent id changes nothing |
| `Session.DeleteTask` | simple-todo-app/style.js:284-285 | deletion changes only the task list; an absent id changes nothing |
| `Session.Handle` | simple-todo-app/style.js:71-99 | only register, login and password change can be refused, and a refusal changes nothing; the streak never drops and only a toggle changes it; only add, toggle and delete change the tasks; only register and password change touch the table; only login and logout change the current user |
| `Session.HandleInvariants` | simple-todo-app/style.js:120-199 | no intent lowers the streak; a refused intent leaves the state unchanged; only register and password change touch the table |
| `Session.HandleKeepsUnpaid` | simple-todo-app/style.js:269-285 | no intent raises the completed count by more than it raises the streak |
| `Session.RunKeepsUnpaid` | simple-todo-app/style.js:269-285 | over any run of intents the streak never drops and the completed count never outgrows it |
| `Session.StreakCoversCompletions` | simple-todo-app/style.js:473-474 | from page load, completed tasks never exceed streak + 1 (the one sample task that starts completed) |
| `Session.ToggleTwice` | simple-todo-app/style.js:269-277 | toggling a present id twice restores the tasks and adds one to the streak |
| `Session.CompleteUncompleteComplete` | simple-todo-app/style.js:272-276 | complete, un-complete, complete adds two to the streak and leaves the task completed |
| `Session.LogoutLoginRoundTrip` | simple-todo-app/style.js:173-174 | after a successful login, logging out and logging in again gives the same state |

## Left out

- Rendering: `renderTasks`, the markup of `renderCompletedTasks` and `updateTodayTasks`, `switchView`, and the screen toggles. These only write markup.
- `showNotification` and its timer. Its messages are modelled as the `AuthError` values. Task intents never report an error.
- `localStorage` reads and writes. The credential table is an in-memory map. The initial map is a parameter of `Session.Start`. Saving has no observable effect in the model.
- Drag and drop. It moves page nodes only and never reorders the `tasks` array.
- `formatDate`, `updateCurrentDate`, `initializeParticles`, `showRandomTip`, `showAISuggestions` and `editTask`. These use dates, locales, floating point or randomness, and only write to the page.
- Clock values (`Date.now()`, `toISOString()`, today's date) are parameters.
- Views.Lower: lowers ASCII letters only. JavaScript's `toLowerCase` also lowers other Unicode letters.
- Views.PriorityEmoji: the page looks the priority up in an object literal, so an inherited key such as "constructor" or "toString" returns the inherited property instead of the white circle. The model treats the table as holding only its three own keys.
- Credentials.Registered: the table is a plain finite map. Keys inherited from the JavaScript object prototype (such as "constructor") are not modelled as truthy.
- Views.CompletionRate: computes exact half-up rounding in integers. The page rounds the floating-point value of `completed / total * 100`. That value can land just below a .5 boundary (for example 29/200), so the page may round down where this model rounds up.
- Views.TodayTasks: compares due dates as strings with a `today` parameter. The page takes `today` from the UTC part of `toISOString()`.
- Category icons (`categories[...]` lookups in the markup) are not modelled. They matter only for rendering.
