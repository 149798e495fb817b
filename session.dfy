/** The per-session state of the tutoring app and the button presses that
    change it.  Each of the three modules (diagnosis `s1`, task `s3`,
    inquiry) has a `Pane`: its history list, its nullable active index and
    its scratch text.  The `Session` holds the three panes and the global
    state around them: login, the delete-mode toggle, the weekly progress
    counter with its per-task latch, and the task module's solution cache.
    Each method is one button press or one render step; the text the
    language model streams back and the clock reading are parameters. */
module SessionState {
  import opened Records
  import opened History
  import opened Store

  // ---------------------------------------------------------------------
  // The weekly progress counter

  /** Tasks a week that fill the progress bar; the counter stops there. */
  const WeeklyGoal: nat := 10

  /** The counter and the "current task already scored" latch. */
  datatype Progress = Progress(count: nat, scored: bool)

  /** "Show answer" on the current task: the counter goes up by one unless
      the task was already scored or the goal is reached, and the task is
      marked scored either way. */
  function Score(p: Progress): (q: Progress)
    ensures q.scored
    ensures p.scored ==> q == p
    ensures !p.scored && p.count < WeeklyGoal ==> q.count == p.count + 1
    ensures !p.scored && p.count >= WeeklyGoal ==> q.count == p.count
    ensures p.count <= WeeklyGoal ==> q.count <= WeeklyGoal
  {
    if p.scored then p
    else Progress(if p.count < WeeklyGoal then p.count + 1 else p.count, true)
  }

  /** Pressing "show answer" again on the same task changes nothing. */
  lemma ScoreIdempotent(p: Progress)
    ensures Score(Score(p)) == Score(p)
  {
  }

  /** The events of the task module that touch the counter. */
  datatype TaskEvent = NewTask | ShowAnswer

  function Step(p: Progress, e: TaskEvent): Progress
  {
    match e
    case NewTask => p.(scored := false)
    case ShowAnswer => Score(p)
  }

  function Replay(p: Progress, events: seq<TaskEvent>): Progress
    decreases |events|
  {
    if events == [] then p else Replay(Step(p, events[0]), events[1..])
  }

  function CountNewTasks(events: seq<TaskEvent>): (n: nat)
    ensures n <= |events|
    decreases |events|
  {
    if events == [] then 0
    else (if events[0] == NewTask then 1 else 0) + CountNewTasks(events[1..])
  }

  /** No double counting: over any run of events the counter grows by at
      most one per generated task (plus one for a task unscored at the
      start), and it never passes the weekly goal. */
  lemma {:induction false} ProgressCountsTasksOnce(p: Progress, events: seq<TaskEvent>)
    ensures Replay(p, events).count <= p.count + CountNewTasks(events) + (if p.scored then 0 else 1)
    ensures p.count <= WeeklyGoal ==> Replay(p, events).count <= WeeklyGoal
    ensures Replay(p, events).count >= p.count
    decreases |events|
  {
    if events != [] {
      var q := Step(p, events[0]);
      ProgressCountsTasksOnce(q, events[1..]);
    }
  }

  // ---------------------------------------------------------------------
  // One module's history

  /** One module's part of the session: `<m>_chat_history_list`,
      `<m>_active_history_index`, and its scratch text
      (`s1_diagnosis_history`, `s3_task_text`, `deep_inquiry_history`). */
  class Pane {
    var entries: seq<Record>
    var active: Option<nat>
    var scratch: string

    constructor ()
      ensures entries == [] && active == None && scratch == ""
    {
      entries := [];
      active := None;
      scratch := "";
    }

    /** What the module's main area shows on a render without a new
        generation. */
    function View(): (v: Screen)
      reads this
      ensures v == Crash <==> !ActiveValid(entries, active)
      ensures active.Some? && active.value < |entries| ==> v == ShowsHistory(entries[active.value])
      ensures active.None? && scratch != "" ==> v == ShowsLive(scratch)
      ensures active.None? && scratch == "" ==> v == Welcome
    {
      ScreenOf(entries, active, scratch)
    }

    /** A successful generation: the text becomes the scratch text, the new
        record is appended, the oldest is popped beyond ten, and the view
        returns to the live text. */
    method RecordGeneration(title: string, text: string)
      modifies this
      ensures scratch == text && active == None
      ensures entries == AppendCapped(old(entries), Record(title, text, ""))
      ensures |old(entries)| <= MaxHistory ==> |entries| <= MaxHistory
      ensures View() == (if text == "" then Welcome else ShowsLive(text))
    {
      scratch := text;
      entries := entries + [Record(title, text, "")];
      if |entries| > MaxHistory {
        entries := entries[1..];
      }
      active := None;
    }

    /** A history button: view the entry at `k`. */
    method Select(k: nat)
      requires k < |entries|
      modifies this
      ensures entries == old(entries) && scratch == old(scratch)
      ensures active == Some(k)
      ensures View() == ShowsHistory(entries[k])
    {
      active := Some(k);
    }

    /** A delete button: `pop(k)`, then the active index is cleared if it
        was exactly `k` and otherwise left as it was. */
    method DeleteAt(k: nat) returns (deleted: Record)
      requires k < |entries|
      modifies this
      ensures deleted == old(entries)[k]
      ensures entries == RemoveAt(old(entries), k)
      ensures active == ActiveAfterDelete(old(active), k)
      ensures scratch == old(scratch)
    {
      deleted := entries[k];
      entries := entries[..k] + entries[k + 1..];
      if active == Some(k) {
        active := None;
      }
    }

    /** "New conversation" in the diagnosis and inquiry modules, and the part
        of it the task module shares. */
    method ClearView()
      modifies this
      ensures entries == old(entries)
      ensures active == None && scratch == ""
      ensures View() == Welcome
    {
      active := None;
      scratch := "";
    }
  }

  /** The record with its solution replaced. */
  function WithSolution(entries: seq<Record>, k: nat, solution: string): (r: seq<Record>)
    requires k < |entries|
    ensures |r| == |entries|
    ensures r[k] == Record(entries[k].title, entries[k].content, solution)
    ensures forall j :: 0 <= j < |entries| && j != k ==> r[j] == entries[j]
  {
    entries[k := entries[k].(solution := solution)]
  }

  /** After login a module's list is loaded newest first, while a new
      generation is appended at the end and the cap drops index 0.  So with
      ten or more stored rows the first generation after login evicts the
      newest stored record, not the oldest: every other stored row of that
      user and module is older than the one dropped. */
  lemma EvictionAfterLoginDropsNewest(rows: seq<Conversation>, user: nat, m: ModuleId, rec: Record)
    requires Ascending(rows)
    requires |NewestFirst(rows, user, m)| >= MaxHistory
    ensures var loaded := LoadModule(rows, user, m);
            var newest := NewestFirst(rows, user, m)[0];
            && |loaded| == MaxHistory
            && loaded[0] == ToRecord(m, newest)
            && AppendCapped(loaded, rec) == loaded[1..] + [rec]
            && (forall c :: c in rows && Owns(c, user, m) && c != newest ==> c.createdAt < newest.createdAt)
  {
    var all := NewestFirst(rows, user, m);
    LoadModuleSpec(rows, user, m);
    assert RecentRows(rows, user, m)[0] == all[0];
    forall c | c in rows && Owns(c, user, m) && c != all[0]
      ensures c.createdAt < all[0].createdAt
    {
      var j :| 0 <= j < |all| && all[j] == c;
      assert j != 0;
    }
  }

  /** The outcome of pressing the diagnosis submit button. */
  datatype DiagnosisOutcome = MissingThought | MissingCode | Diagnosed

  // ---------------------------------------------------------------------
  // The session

  class Session {
    const s1: Pane
    const s3: Pane
    const inquiry: Pane
    var userId: Option<nat>
    var username: Option<string>
    var progress: nat
    var currentTaskScored: bool
    var solutionText: string
    var showAnswer: bool
    var deleteMode: bool
    var deleteMenu: Option<ModuleId>

    /** The three panes are distinct, every history holds at most ten
        entries, the counter is within the weekly goal, and a session with
        nobody logged in has empty histories.  The active
        indices are NOT part of the invariant: deleting below the active
        entry and logging out can both leave one out of range. */
    ghost predicate Valid()
      reads this, s1, s3, inquiry
    {
      && s1 != s3 && s1 != inquiry && s3 != inquiry
      && |s1.entries| <= MaxHistory && |s3.entries| <= MaxHistory && |inquiry.entries| <= MaxHistory
      && progress <= WeeklyGoal
      && (userId.None? ==> s1.entries == [] && s3.entries == [] && inquiry.entries == [])
    }

    function PaneOf(m: ModuleId): Pane
    {
      match m
      case Diagnosis => s1
      case Task => s3
      case Inquiry => inquiry
    }

    /** Delete buttons, instead of view buttons, are shown for module `m`. */
    function DeleteButtonsShown(m: ModuleId): (b: bool)
      reads this
      ensures b ==> deleteMode
      ensures b <==> deleteMode && deleteMenu == Some(m)
    {
      deleteMode && deleteMenu == Some(m)
    }

    /** The "show answer" button is shown: there is a current task, or the
        viewed history entry has a solution. */
    function ShowAnswerOffered(): (b: bool)
      reads this, s3
      ensures b <==> s3.scratch != "" || (s3.View().ShowsHistory? && s3.View().record.solution != "")
    {
      s3.scratch != "" ||
      (s3.active.Some? && s3.active.value < |s3.entries| && s3.entries[s3.active.value].solution != "")
    }

    /** The explicit initial session state: not logged in, all lists empty,
        no entry viewed, counter 0, nothing scored, delete mode off. */
    constructor ()
      ensures Valid()
      ensures fresh(s1) && fresh(s3) && fresh(inquiry)
      ensures userId == None && username == None
      ensures progress == 0 && !currentTaskScored
      ensures !deleteMode && deleteMenu == None
      ensures solutionText == "" && !showAnswer
      ensures s1.entries == [] && s3.entries == [] && inquiry.entries == []
      ensures s1.active == None && s3.active == None && inquiry.active == None
      ensures s1.scratch == "" && s3.scratch == "" && inquiry.scratch == ""
    {
      s1 := new Pane();
      s3 := new Pane();
      inquiry := new Pane();
      userId := None;
      username := None;
      progress := 0;
      currentTaskScored := false;
      solutionText := "";
      showAnswer := false;
      deleteMode := false;
      deleteMenu := None;
    }

    /** The login form: on success the user's three lists are loaded from the
        store (newest first); on failure nothing changes. */
    method Login(db: Database, name: string, password: string) returns (ok: bool)
      requires Valid() && db.Valid()
      requires userId.None?
      modifies this, s1, s3, inquiry
      ensures Valid()
      ensures ok <==> name in db.users && db.users[name].passwordHash == db.hash(password)
      ensures ok ==> userId == Some(db.users[name].id) && username == Some(name)
      ensures ok ==> s1.entries == LoadModule(db.rows, db.users[name].id, Diagnosis)
      ensures ok ==> s3.entries == LoadModule(db.rows, db.users[name].id, Task)
      ensures ok ==> inquiry.entries == LoadModule(db.rows, db.users[name].id, Inquiry)
      ensures !ok ==> userId == None && username == old(username)
      ensures !ok ==>
        s1.entries == old(s1.entries) && s3.entries == old(s3.entries) &&
        inquiry.entries == old(inquiry.entries)
      ensures s1.active == old(s1.active) && s3.active == old(s3.active) && inquiry.active == old(inquiry.active)
      ensures s1.scratch == old(s1.scratch) && s3.scratch == old(s3.scratch) &&
              inquiry.scratch == old(inquiry.scratch)
      ensures progress == old(progress) && currentTaskScored == old(currentTaskScored)
      ensures deleteMode == old(deleteMode) && deleteMenu == old(deleteMenu)
      ensures solutionText == old(solutionText) && showAnswer == old(showAnswer)
    {
      var uid := db.Authenticate(name, password);
      ok := uid.Some?;
      if ok {
        userId := uid;
        username := Some(name);
        var l1, l3, li := db.LoadUserConversations(uid.value);
        s1.entries := l1;
        s3.entries := l3;
        inquiry.entries := li;
      }
    }

    /** The logout button: forgets the user and the three lists (they come
        back empty on the next run); the counter, the delete-mode state, the
        active indices and the scratch texts stay. */
    method Logout()
      requires Valid() && userId.Some?
      modifies this, s1, s3, inquiry
      ensures Valid()
      ensures userId == None && username == None
      ensures s1.entries == [] && s3.entries == [] && inquiry.entries == []
      ensures s1.active == old(s1.active) && s3.active == old(s3.active) && inquiry.active == old(inquiry.active)
      ensures s1.scratch == old(s1.scratch) && s3.scratch == old(s3.scratch) &&
              inquiry.scratch == old(inquiry.scratch)
      ensures progress == old(progress) && currentTaskScored == old(currentTaskScored)
      ensures deleteMode == old(deleteMode) && deleteMenu == old(deleteMenu)
      ensures solutionText == old(solutionText) && showAnswer == old(showAnswer)
    {
      userId := None;
      username := None;
      s1.entries := [];
      s3.entries := [];
      inquiry.entries := [];
    }

    /** The delete-mode button: flips the mode and scopes it to the menu it
        was pressed in. */
    method ToggleDeleteMode(menu: ModuleId)
      requires Valid()
      modifies this
      ensures Valid()
      ensures deleteMode == !old(deleteMode) && deleteMenu == Some(menu)
      ensures DeleteButtonsShown(menu) == !old(deleteMode)
      ensures forall m :: m != menu ==> !DeleteButtonsShown(m)
      ensures userId == old(userId) && username == old(username)
      ensures progress == old(progress) && currentTaskScored == old(currentTaskScored)
      ensures solutionText == old(solutionText) && showAnswer == old(showAnswer)
    {
      deleteMode := !deleteMode;
      deleteMenu := Some(menu);
    }

    /** "New conversation": back to the live view with an empty screen; the
        task module also drops its task text and cached solution and hides
        the answer. */
    method NewConversation(m: ModuleId)
      requires Valid()
      modifies PaneOf(m), this
      ensures Valid()
      ensures PaneOf(m).active == None && PaneOf(m).scratch == ""
      ensures PaneOf(m).entries == old(PaneOf(m).entries)
      ensures m == Task ==> solutionText == "" && !showAnswer
      ensures m != Task ==> solutionText == old(solutionText) && showAnswer == old(showAnswer)
      ensures userId == old(userId) && username == old(username)
      ensures progress == old(progress) && currentTaskScored == old(currentTaskScored)
      ensures deleteMode == old(deleteMode) && deleteMenu == old(deleteMenu)
    {
      PaneOf(m).ClearView();
      if m == Task {
        solutionText := "";
        showAnswer := false;
      }
    }

    /** A history button outside delete mode: the button at sidebar position
        `i` views the entry `RealIndex` maps it to. */
    method SelectEntry(m: ModuleId, i: nat)
      requires Valid()
      requires i < |PaneOf(m).entries| && !DeleteButtonsShown(m)
      modifies PaneOf(m)
      ensures Valid()
      ensures PaneOf(m).active == Some(|PaneOf(m).entries| - 1 - i)
      ensures PaneOf(m).entries == old(PaneOf(m).entries) && PaneOf(m).scratch == old(PaneOf(m).scratch)
      ensures PaneOf(m).View() == ShowsHistory(PaneOf(m).entries[|PaneOf(m).entries| - 1 - i])
    {
      var p := PaneOf(m);
      p.Select(RealIndex(|p.entries|, i));
    }

    /** A history button in delete mode: pops the entry behind sidebar
        position `i` from the session list and deletes every stored row of
        this user and module with the same title. */
    method DeleteEntry(db: Database, m: ModuleId, i: nat) returns (deleted: Record)
      requires Valid() && db.Valid()
      requires i < |PaneOf(m).entries| && DeleteButtonsShown(m)
      modifies PaneOf(m), db
      ensures Valid() && db.Valid()
      ensures var k := |old(PaneOf(m).entries)| - 1 - i;
              deleted == old(PaneOf(m).entries)[k] &&
              PaneOf(m).entries == RemoveAt(old(PaneOf(m).entries), k) &&
              PaneOf(m).active == ActiveAfterDelete(old(PaneOf(m).active), k)
      ensures PaneOf(m).scratch == old(PaneOf(m).scratch)
      ensures userId.Some? && db.rows == Remaining(old(db.rows), userId.value, m, deleted.title)
      ensures db.users == old(db.users) && db.nextUserId == old(db.nextUserId) && db.clock == old(db.clock)
    {
      var p := PaneOf(m);
      var k := RealIndex(|p.entries|, i);
      deleted := p.DeleteAt(k);
      if userId.Some? {
        db.DeleteByTitle(userId.value, m, deleted.title);
      }
    }

    /** The diagnosis submit button: both the student's hypothesis and the
        configuration are required; on success the response is shown,
        recorded and saved. */
    method GenerateDiagnosis(db: Database, topic: string, thought: string, code: string,
                             timestamp: string, response: string) returns (outcome: DiagnosisOutcome)
      requires Valid() && db.Valid() && userId.Some?
      modifies s1, db
      ensures Valid() && db.Valid()
      ensures outcome == MissingThought <==> thought == ""
      ensures outcome == MissingCode <==> thought != "" && code == ""
      ensures outcome != Diagnosed ==>
        s1.entries == old(s1.entries) && s1.active == old(s1.active) &&
        s1.scratch == old(s1.scratch) && db.rows == old(db.rows)
      ensures outcome == Diagnosed ==>
        var title := GenerationTitle(timestamp, topic);
        && s1.scratch == response && s1.active == None
        && s1.entries == AppendCapped(old(s1.entries), Record(title, response, ""))
        && db.rows == old(db.rows) +
             [Conversation(userId.value, Diagnosis, title, response, None, old(db.clock))]
      ensures db.users == old(db.users) && db.nextUserId == old(db.nextUserId)
      ensures db.clock == old(db.clock) + (if outcome == Diagnosed then 1 else 0)
    {
      if thought == "" {
        outcome := MissingThought;
      } else if code == "" {
        outcome := MissingCode;
      } else {
        var title := GenerationTitle(timestamp, topic);
        db.SaveConversation(userId.value, Diagnosis, title, response, None);
        s1.RecordGeneration(title, response);
        outcome := Diagnosed;
      }
    }

    /** The task generate button (with a non-empty focus): a new task resets
        the answer switch, the scoring latch and the cached solution; the
        task is recorded and saved without a solution. */
    method GenerateTask(db: Database, focus: string, timestamp: string, response: string)
      returns (generated: bool)
      requires Valid() && db.Valid() && userId.Some?
      modifies this, s3, db
      ensures Valid() && db.Valid()
      ensures generated <==> focus != ""
      ensures !generated ==>
        s3.entries == old(s3.entries) && s3.active == old(s3.active) &&
        s3.scratch == old(s3.scratch) && db.rows == old(db.rows) &&
        currentTaskScored == old(currentTaskScored) &&
        solutionText == old(solutionText) && showAnswer == old(showAnswer)
      ensures generated ==>
        var title := GenerationTitle(timestamp, focus);
        && !showAnswer && !currentTaskScored && solutionText == ""
        && s3.scratch == response && s3.active == None
        && s3.entries == AppendCapped(old(s3.entries), Record(title, response, ""))
        && db.rows == old(db.rows) +
             [Conversation(userId.value, Task, title, response, None, old(db.clock))]
      ensures progress == old(progress) && userId == old(userId) && username == old(username)
      ensures deleteMode == old(deleteMode) && deleteMenu == old(deleteMenu)
      ensures db.users == old(db.users) && db.nextUserId == old(db.nextUserId)
      ensures db.clock == old(db.clock) + (if generated then 1 else 0)
    {
      generated := focus != "";
      if generated {
        showAnswer := false;
        currentTaskScored := false;
        solutionText := "";
        var title := GenerationTitle(timestamp, focus);
        db.SaveConversation(userId.value, Task, title, response, None);
        s3.RecordGeneration(title, response);
      }
    }

    /** The inquiry button: with a concept the answer is shown, recorded and
        saved; without one an error is shown and nothing changes. */
    method StartInquiry(db: Database, concept: string, timestamp: string, response: string)
      returns (generated: bool)
      requires Valid() && db.Valid() && userId.Some?
      modifies inquiry, db
      ensures Valid() && db.Valid()
      ensures generated <==> concept != ""
      ensures !generated ==>
        inquiry.entries == old(inquiry.entries) && inquiry.active == old(inquiry.active) &&
        inquiry.scratch == old(inquiry.scratch) && db.rows == old(db.rows)
      ensures generated ==>
        var title := GenerationTitle(timestamp, concept);
        && inquiry.scratch == response && inquiry.active == None
        && inquiry.entries == AppendCapped(old(inquiry.entries), Record(title, response, ""))
        && db.rows == old(db.rows) +
             [Conversation(userId.value, Inquiry, title, response, None, old(db.clock))]
      ensures db.users == old(db.users) && db.nextUserId == old(db.nextUserId)
      ensures db.clock == old(db.clock) + (if generated then 1 else 0)
    {
      generated := concept != "";
      if generated {
        var title := GenerationTitle(timestamp, concept);
        db.SaveConversation(userId.value, Inquiry, title, response, None);
        inquiry.RecordGeneration(title, response);
      }
    }

    /** The task module's render of a viewed history entry: an active index
        past the end raises; an entry with a solution switches the answer on
        and loads its solution into the cache. */
    method ViewTaskEntry() returns (crashed: bool)
      requires Valid()
      modifies this
      ensures Valid()
      ensures crashed <==> !ActiveValid(s3.entries, s3.active)
      ensures var a := s3.active;
              if !crashed && a.Some? && s3.entries[a.value].solution != "" then
                showAnswer && solutionText == s3.entries[a.value].solution
              else
                showAnswer == old(showAnswer) && solutionText == old(solutionText)
      ensures progress == old(progress) && currentTaskScored == old(currentTaskScored)
      ensures userId == old(userId) && username == old(username)
      ensures deleteMode == old(deleteMode) && deleteMenu == old(deleteMenu)
    {
      crashed := false;
      match s3.active {
        case None =>
        case Some(a) =>
          if a >= |s3.entries| {
            crashed := true;
          } else if s3.entries[a].solution != "" {
            showAnswer := true;
            solutionText := s3.entries[a].solution;
          }
      }
    }

    /** The "show answer" button: switches the answer on and scores the
        current task at most once. */
    method PressShowAnswer() returns (rerun: bool)
      requires Valid()
      requires ShowAnswerOffered()
      modifies this
      ensures Valid()
      ensures showAnswer
      ensures Progress(progress, currentTaskScored) == Score(old(Progress(progress, currentTaskScored)))
      ensures rerun == !old(currentTaskScored)
      ensures solutionText == old(solutionText)
      ensures userId == old(userId) && username == old(username)
      ensures deleteMode == old(deleteMode) && deleteMenu == old(deleteMenu)
    {
      showAnswer := true;
      rerun := false;
      if !currentTaskScored {
        if progress < WeeklyGoal {
          progress := progress + 1;
        }
        currentTaskScored := true;
        rerun := true;
      }
    }

    /** The answer area while the answer is switched on: a cached solution is
        reused (no request to the model) and written into the viewed entry;
        otherwise `generated`, the model's solution, is cached and written
        into the viewed entry, or into the newest entry when none is viewed.
        The solution is never written to the store. */
    method RevealSolution(generated: string)
      requires Valid()
      requires ShowAnswerOffered() && ActiveValid(s3.entries, s3.active)
      modifies this, s3
      ensures Valid()
      ensures !old(showAnswer) ==> solutionText == old(solutionText) && s3.entries == old(s3.entries)
      ensures old(showAnswer) && old(solutionText) != "" ==> solutionText == old(solutionText)
      ensures old(showAnswer) && old(solutionText) == "" ==> solutionText == generated
      ensures old(showAnswer) && s3.active.Some? && s3.active.value < |old(s3.entries)| ==>
        s3.entries == WithSolution(old(s3.entries), s3.active.value, solutionText)
      ensures old(showAnswer) && s3.active.None? && old(solutionText) == "" && |old(s3.entries)| > 0 ==>
        s3.entries == WithSolution(old(s3.entries), |old(s3.entries)| - 1, solutionText)
      ensures old(showAnswer) && s3.active.None? && (old(solutionText) != "" || old(s3.entries) == []) ==>
        s3.entries == old(s3.entries)
      ensures s3.active == old(s3.active) && s3.scratch == old(s3.scratch)
      ensures showAnswer == old(showAnswer)
      ensures progress == old(progress) && currentTaskScored == old(currentTaskScored)
      ensures userId == old(userId) && username == old(username)
      ensures deleteMode == old(deleteMode) && deleteMenu == old(deleteMenu)
    {
      if showAnswer {
        if solutionText != "" {
          if s3.active.Some? {
            s3.entries := WithSolution(s3.entries, s3.active.value, solutionText);
          }
        } else {
          solutionText := generated;
          if s3.active.Some? {
            s3.entries := WithSolution(s3.entries, s3.active.value, solutionText);
          } else if |s3.entries| > 0 {
            s3.entries := WithSolution(s3.entries, |s3.entries| - 1, solutionText);
          }
        }
      }
    }
  }
}
