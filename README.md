# NetArchitect bookkeeping, modelled in Dafny

NetArchitect is a Streamlit tutoring app for network engineering students. It
has three modules:

- **diagnosis** (`s1`): the student submits a hypothesis and a device configuration and gets an analysis;
- **task** (`s3`): a practice task is generated for a topic, with a reference solution on demand;
- **inquiry**: a Socratic dialogue about a concept.

This project models the bookkeeping under the user interface and the
language-model calls. That bookkeeping exists twice, almost line for line: in
`streamlit_app.py` and in its hardened variant `test.py`.

- **Records** (`records.dfy`): the record `{title, content, solution}` and the
  generation title `[HH:MM] topic`. It also has the sidebar's caption, which
  cuts titles at ten characters, and the sidebar's index map, which lists the
  history newest first.
- **History** (`history.dfy`): the list operations of one module's history, as
  pure functions:
  - appending with the ten-entry cap;
  - `pop(real_index)` and the active-index update that goes with it;
  - what the main area shows for a given active index, including the case that
    raises.
- **Store** (`store.dfy`): the SQLite layer as a `Database` class.
  - It holds a user map and a row sequence.
  - `created_at` is an insertion counter.
  - `hash_password` is an uninterpreted function fixed for the database.
  - The pure functions `NewestFirst`, `RecentRows`, `LoadModule` and `Remaining`
    specify load and delete.
- **Config** (`config.dfy`): the startup check of the API key and the base URL.
  The URL must end in `/v1` once trailing slashes are stripped.
- **SessionState** (`session.dfy`): the session state as classes.
  - One `Pane` per module holds its history list, its nullable active index and
    its scratch text.
  - One `Session` holds the three panes, the login, the delete-mode flag and the
    menu it is scoped to, the weekly progress counter with its per-task scored
    latch, and the task module's answer switch and solution cache.
  - Each button press is one method call.
  - The text the language model streams back and the clock reading are
    parameters.
- **Scenarios** (`scenarios.dfy`): whole flows through the store and the
  session.

The proofs bring out three behaviours of the source.

- **Delete does not shift the active index.** Deleting a history entry *below*
  the viewed one leaves the active index unchanged. The index then names the
  following record, or it lies past the end, and the next render raises
  (`History.DeleteBelowActiveShiftsView`,
  `History.DeleteFirstWhileViewingLastCrashes`).
- **Eviction after login drops the newest record.** A load returns the newest
  rows first, but a generation appends at the end and the cap drops index 0. So
  with ten stored rows, the first generation after login evicts the newest
  loaded record (`SessionState.EvictionAfterLoginDropsNewest`).
- **Solutions stay in the session.** Task solutions are never written to the
  store (`Scenarios.TaskSolutionScenario`). The answer switch survives a
  sidebar selection, so the cached solution of the current task can be written
  into an unsolved history entry (`Scenarios.StaleSolutionScenario`).

## Model

| member | source | states |
|---|---|---|
| `Records.GenerationTitle` | streamlit_app.py:610-611 | the title is `[` + timestamp + `] ` + topic: its prefix, its length and that it ends with the topic |
| `Records.DisplayTitle` | streamlit_app.py:341 | a title of at most ten characters is shown unchanged; a longer one is shown as its first ten characters followed by `..`; never more than twelve characters |
| `Records.RealIndex` | streamlit_app.py:336-338 | sidebar position `i` of a list of length `n` maps to an index below `n` with `index + i == n - 1` |
| `Records.SidebarBijection` | streamlit_app.py:385-387 | the position/index map is its own inverse and injective, and the last-appended entry is listed first |
| `Records.SidebarItems` | test.py:415-417 | the sidebar loop yields one button per entry; the button at position `i` acts on index `len-1-i` and shows that entry's cut title |
| `History.AppendCapped` | streamlit_app.py:614-628 | the new record ends the list; below ten entries it is a plain append, and otherwise the entry at index 0 is dropped |
| `History.CapKeepsNewest` | streamlit_app.py:704-721 | from at most ten entries, any run of generations leaves exactly the ten newest of old and new entries in order, so never more than ten |
| `History.RemoveAt` | streamlit_app.py:348 | `pop(k)` removes exactly the element at `k` and keeps the others in their order; as multisets, result plus the removed record is the input |
| `History.ActiveAfterDelete` | streamlit_app.py:361-362 | the active index becomes None only when it equalled the deleted index, and is otherwise unchanged |
| `History.ScreenOf` | streamlit_app.py:633-663 | the main area raises exactly when the active index is past the end; it shows the active record when valid, the live text when no index is active and the text is non-empty, and the welcome text when no index is active and the text is empty |
| `History.DeleteAtOrAboveActiveKeepsView` | streamlit_app.py:397-413 | deleting at or above the viewed entry keeps the index valid and, above it, shows the same record |
| `History.DeleteBelowActiveShiftsView` | streamlit_app.py:443-458 | deleting below the viewed entry leaves the index unchanged; it then shows the next record, or raises when the viewed record was the last |
| `History.DeleteFirstWhileViewingLastCrashes` | streamlit_app.py:635 | three entries, the last viewed, the first deleted: the next render raises |
| `Store.RecentRows` | streamlit_app.py:85 | `LIMIT 10`: the first `min(10, matching)` rows of the newest-first list |
| `Store.LoadModule` | streamlit_app.py:84-99 | one module's load: at most ten records, the `i`-th made from the `i`-th newest row of that user and module |
| `Store.NewestFirst` | streamlit_app.py:84-86 | exactly the rows of that user and module, no others |
| `Store.ToRecord` | streamlit_app.py:93 | title and content carried over; a NULL task solution reads as empty; diagnosis and inquiry records carry none |
| `Store.ToRecords` | streamlit_app.py:87 | the comprehension maps each row, in order |
| `Store.Remaining` | streamlit_app.py:355-357 | the rows left are exactly those not matching user, module and title, and no others |
| `Store.NewestFirstIsDescending` | test.py:143 | with insertion-ordered rows, the filtered rows come out strictly newest first |
| `Store.LoadModuleSpec` | streamlit_app.py:77-102 | a load returns `min(10, matching)` records, each from a row of that user and module, strictly newest first |
| `Store.LoadOmitsOnlyOlder` | streamlit_app.py:91 | a matching row the limit leaves out is older than every row returned |
| `Store.LoadAfterSave` | streamlit_app.py:105-113 | a saved row heads the next load of its module; with ten rows already returned, the oldest of them drops out |
| `Store.SaveThenLoad` | test.py:163-170 | round trip: the saved title and content come back first, and a row saved without a solution reads back with an empty one |
| `Store.SaveLeavesOtherLists` | test.py:136-160 | a save changes no other user's or module's load |
| `Store.RemainingAscending` | test.py:426-428 | deleting keeps the remaining rows in insertion order |
| `Store.RemainingLeavesOtherLists` | test.py:463-465 | a delete changes no other user's or module's rows |
| `Store.NewestFirstAfterDelete` | streamlit_app.py:405-407 | after a delete by title, the user's newest-first rows of that module are the earlier ones minus that title, in the same order |
| `Store.LoadAfterDelete` | test.py:497-499 | after a delete no loaded record of that module has the deleted title, and every other row that was among the ten newest is still loaded |
| `Store.DeleteMissingTitle` | streamlit_app.py:450-452 | a delete that matches no row leaves the table unchanged |
| `Store.Database.constructor` | streamlit_app.py:14-40 | `init_db` on a fresh database file: both tables start empty, and the first user id is 1 |
| `Store.Database.Register` | streamlit_app.py:52-63 | a taken name fails with "用户名已存在" and changes nothing; otherwise exactly one user is added with the next id and the password's hash, with "注册成功！请登录" |
| `Store.Database.Authenticate` | streamlit_app.py:66-74 | an id is returned iff the name exists and the stored hash equals the password's hash; it is that user's id and never 0 |
| `Store.Database.SaveConversation` | streamlit_app.py:105-113 | exactly one row is appended, stamped with the current counter |
| `Store.Database.LoadUserConversations` | test.py:136-160 | the three lists are the three module loads, each at most ten long |
| `Store.Database.DeleteByTitle` | streamlit_app.py:352-359 | the rows become exactly the remaining rows; users unchanged |
| `Config.EndsWith` | test.py:294 | `endswith`: the string is something followed by the suffix |
| `Config.Present` | test.py:288-293 | `not x` fails for a missing setting and for an empty one, and for nothing else |
| `Config.AcceptsBaseUrl` | test.py:294 | the URL rule: accepted exactly when the URL is some prefix, then `/v1`, then any number of slashes |
| `Config.StripTrailingSlashes` | test.py:294 | `rstrip("/")`: a prefix that does not end in a slash, with only slashes after it |
| `Config.CheckConfig` | test.py:288-296 | the key is checked first, then the URL's presence, then its format; accepted iff all three pass |
| `Config.StripSlashesAfter` | utils/ai_engine.py:15-18 | any number of trailing slashes after a non-slash end is stripped and nothing more |
| `Config.AcceptsVersionedUrl` | test.py:294 | every URL of the form `prefix/v1` followed by slashes is accepted |
| `Config.AcceptedUrlShape` | test.py:294 | every URL is its stripped form followed by slashes, and the stripped form ends in `/v1` exactly when the URL is a prefix, `/v1` and slashes |
| `Config.AcceptedExamples` | test.py:295 | `https://api.deepseek.com/v1` is accepted with and without a trailing slash |
| `Config.RejectedExamples` | test.py:294 | `.../v2` and a bare host are rejected |
| `SessionState.Score` | streamlit_app.py:775-778 | scoring sets the latch; it increments only when unscored and below ten; it never passes ten |
| `SessionState.ScoreIdempotent` | test.py:718-721 | scoring twice is scoring once |
| `SessionState.ProgressCountsTasksOnce` | streamlit_app.py:689-690 | over any sequence of new tasks and answer presses, the counter rises by at most one per task, never falls, and stays within ten |
| `SessionState.Pane.constructor` | test.py:38-65 | a module starts with an empty list, no active index and empty scratch text |
| `SessionState.Pane.View` | test.py:605-630 | the render of a module's main area: raises iff the index is past the end, else the active record, the live text, or the welcome text |
| `SessionState.Pane.RecordGeneration` | streamlit_app.py:818-847 | scratch becomes the text; the list becomes the capped append of the record; the active index is None; the view is the live text |
| `SessionState.Pane.Select` | streamlit_app.py:367-369 | only the active index changes, and the view is that entry |
| `SessionState.Pane.DeleteAt` | streamlit_app.py:346-363 | the list becomes `RemoveAt` at `k`; the active index becomes `ActiveAfterDelete`; the popped record is returned |
| `SessionState.Pane.ClearView` | streamlit_app.py:329-332 | active None and empty scratch, list untouched, the welcome view |
| `SessionState.WithSolution` | streamlit_app.py:789-791 | exactly the one entry's solution is replaced |
| `SessionState.EvictionAfterLoginDropsNewest` | streamlit_app.py:517-528 | with at least ten stored rows, the loaded list starts with the newest row, the next capped append drops it, and every other stored row is older |
| `SessionState.Session.DeleteButtonsShown` | test.py:420 | delete buttons replace view buttons for a module iff delete mode is on and scoped to that module's menu |
| `SessionState.Session.ShowAnswerOffered` | test.py:709-711 | the answer button is offered iff there is a current task text or the viewed history entry has a solution |
| `SessionState.Session.constructor` | test.py:20-71 | logged out, all lists empty, all indices None, counter 0, latch and delete mode off, empty cache and answer switch off |
| `SessionState.Session.Login` | test.py:328-341 | succeeds iff the credentials match; the user's id and name are set and the three lists are the three module loads; a failure changes nothing |
| `SessionState.Session.Logout` | test.py:369-375 | user, name and the three lists are cleared; the counter, delete mode, indices and scratch texts stay |
| `SessionState.Session.ToggleDeleteMode` | test.py:399-402 | the flag flips and is scoped to the current menu; no other module shows delete buttons |
| `SessionState.Session.NewConversation` | test.py:443-449 | active None and empty scratch for that module; in the task module the cache is emptied and the answer hidden too |
| `SessionState.Session.SelectEntry` | test.py:471-474 | the button at sidebar position `i` views the entry at `len-1-i` |
| `SessionState.Session.DeleteEntry` | test.py:457-470 | the entry behind position `i` is popped, the active index updated, and the store rows become the remaining rows for that user, module and title |
| `SessionState.Session.GenerateDiagnosis` | test.py:573-603 | no hypothesis or no configuration warns and changes nothing; otherwise the response is shown, recorded with the cap and saved without a solution |
| `SessionState.Session.GenerateTask` | test.py:650-675 | with a focus, the switch, latch and cache are reset and the task is shown, recorded and saved without a solution; without one nothing changes |
| `SessionState.Session.StartInquiry` | test.py:756-782 | with a concept, the answer is shown, recorded and saved; without one nothing changes |
| `SessionState.Session.ViewTaskEntry` | test.py:678-688 | the render raises iff the index is past the end; a viewed entry with a solution switches the answer on and loads the cache |
| `SessionState.Session.PressShowAnswer` | test.py:714-722 | the switch goes on, the counter and latch follow `Score`, and the page reruns iff the task was unscored |
| `SessionState.Session.RevealSolution` | test.py:725-746 | a cached solution is reused, otherwise the generated one is cached; it goes into the viewed entry, or the newest entry when none is viewed and the cache was empty |
| `Scenarios.RegistrationScenario` | test.py:113-133 | the same name registered twice: the second is refused with "用户名已存在", the first user has id 1, and only the right password logs in |
| `Scenarios.LoggedInSession` | test.py:328-341 | a fresh store with one user and a session logged into it: id 1, everything empty |
| `Scenarios.TaskSolutionScenario` | streamlit_app.py:764-807 | the answer pressed twice scores once; a solved entry viewed again reuses its solution; the stored rows carry no solution |
| `Scenarios.StaleSolutionScenario` | test.py:725-734 | after solving the current task, viewing an unsolved older entry writes the current task's solution into it |

## Left out

- The Streamlit rendering, widgets, HTML/CSS and the `st.rerun`/`st.stop` control flow. Each interaction is one method call; a render is `Pane.View` or `Session.ViewTaskEntry`.
- `utils/ai_engine.py` beyond its base-URL rule. Its prompts, streaming and client setup are calls into a service; the streamed text is a parameter.
- `utils/db_helper.py`, SQLite connections, commit and close. These are I/O only. The inquiry delete opening `'netarchitect.db'` at streamlit_app.py:447 is a path quirk, and the model deletes from the same store.
- `created_at` is an insertion counter. The real `CURRENT_TIMESTAMP` has one-second granularity, so rows saved in the same second come back in an unspecified order.
- SHA-256 (FIPS 180-4) inside `hash_password` is not modelled. It is the uninterpreted `Database.hash`, so `Scenarios.RegistrationScenario` requires that two passwords hash apart.
- `datetime.now()` formatting is not modelled. The timestamp is a parameter of the generation methods.
- Store.Database.constructor models a first start on a fresh database file. `init_db` runs `CREATE TABLE IF NOT EXISTS` on every start and keeps the rows of an existing file; the model's `Database` is created once and lives across sessions instead.
- The floating-point progress percentage `min(count/10, 1.0)` is display only.
- Image loading, the `debug_save` log, the registration-form visibility flag, and the `level` field of task records are left out. None of them is read back by the bookkeeping.
- Records.DisplayTitle: the caption is stated as an implication from the title's length, not as an equivalence. A twelve-character title ending in `..` shows unchanged too.
- SessionState.Session.Login requires that nobody is logged in. The login form is only rendered then.
- SessionState.Session.Logout requires a logged-in session. The button is only rendered then.
- SessionState.Session.GenerateDiagnosis, GenerateTask and StartInquiry require a logged-in session. Both variants stop rendering before the modules when nobody is logged in.
- SessionState.Session.SelectEntry and DeleteEntry require that the view or delete button is the one rendered for the current delete-mode state.
- SessionState.Session.PressShowAnswer requires that the answer button is rendered (streamlit_app.py:764-766).
- SessionState.Session.RevealSolution requires that the task's active index is valid. Otherwise the same render already raised at streamlit_app.py:730.
- The logged-out sidebar of `streamlit_app.py` (rendered before the login gate) is not modelled separately. A logged-out session has empty lists (`Session.Valid`), so it offers no history button.
- The menu radio itself is not modelled. `ToggleDeleteMode` takes the current menu as a parameter.
