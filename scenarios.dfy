/** Whole flows through the store and the session, each proved for every
    value of its parameters. */
module Scenarios {
  import opened Records
  import opened History
  import opened Store
  import opened SessionState

  /** Registering a name twice: the second attempt is refused with the
      "name exists" message; the first user gets id 1 and only the right
      password logs in. */
  method RegistrationScenario(hash: string -> string) returns (first: bool, second: bool, message: string,
                                                              goodLogin: Option<nat>, badLogin: Option<nat>)
    requires hash("wrong") != hash("pw1")
    ensures first && !second && message == "用户名已存在"
    ensures goodLogin == Some(1) && badLogin == None
  {
    var db := new Database(hash);
    var m1;
    first, m1 := db.Register("alice", "pw1");
    second, message := db.Register("alice", "pw2");
    goodLogin := db.Authenticate("alice", "pw1");
    badLogin := db.Authenticate("alice", "wrong");
  }

  /** A fresh store with one registered user, and a fresh session that user
      has logged into: everything empty, progress 0. */
  method LoggedInSession(hash: string -> string) returns (db: Database, s: Session)
    ensures fresh(db) && fresh(s) && fresh(s.s1) && fresh(s.s3) && fresh(s.inquiry)
    ensures db.Valid() && s.Valid() && s.userId == Some(1)
    ensures db.rows == []
    ensures s.s1.entries == [] && s.s3.entries == [] && s.inquiry.entries == []
    ensures s.s3.active == None && s.s3.scratch == ""
    ensures s.progress == 0 && !s.currentTaskScored && !s.showAnswer && s.solutionText == ""
    ensures !s.deleteMode
  {
    db := new Database(hash);
    var registered, message := db.Register("alice", "pw");
    s := new Session();
    var ok := s.Login(db, "alice", "pw");
    assert NewestFirst([], 1, Diagnosis) == [] && NewestFirst([], 1, Task) == [] && NewestFirst([], 1, Inquiry) == [];
  }

  /** One task, the answer shown twice, then a second task, then the first
      task viewed again from the sidebar: the counter rises once, the solution
      is written into the task's entry, viewing the entry again loads that
      solution so no new one is requested, and no solution reaches the
      store. */
  method TaskSolutionScenario(hash: string -> string, task1: string, task2: string, solution: string,
                              unused: string)
    returns (progress: nat, cached: string, viewed: Record, storedSolutions: seq<Option<string>>)
    requires task1 != "" && task2 != "" && solution != ""
    ensures progress == 1
    ensures cached == solution
    ensures viewed.content == task1 && viewed.solution == solution
    ensures storedSolutions == [None, None]
  {
    var db, s := LoggedInSession(hash);
    var ok := s.GenerateTask(db, "OSPF", "09:00", task1);
    assert s.s3.entries == [Record(GenerationTitle("09:00", "OSPF"), task1, "")];
    var rerun := s.PressShowAnswer();
    rerun := s.PressShowAnswer();
    s.RevealSolution(solution);
    assert s.s3.entries[0].solution == solution;

    ok := s.GenerateTask(db, "BGP", "09:05", task2);
    assert |s.s3.entries| == 2 && s.s3.entries[0].solution == solution;
    s.SelectEntry(Task, 1);
    var crashed := s.ViewTaskEntry();
    s.RevealSolution(unused);
    progress := s.progress;
    cached := s.solutionText;
    viewed := s.s3.entries[0];
    storedSolutions := [db.rows[0].solution, db.rows[1].solution];
  }

  /** The answer switch survives a sidebar selection: solve the second of two
      tasks, then view the first, unsolved one.  The current task's text keeps
      the answer button offered, the switch is still on, and the cached
      solution of the second task is written into the first task's entry. */
  method StaleSolutionScenario(hash: string -> string, task1: string, task2: string, solution2: string)
    returns (viewed: Record)
    requires task1 != "" && task2 != "" && solution2 != ""
    ensures viewed.content == task1 && viewed.solution == solution2
  {
    var db, s := LoggedInSession(hash);
    var ok := s.GenerateTask(db, "OSPF", "09:00", task1);
    ok := s.GenerateTask(db, "BGP", "09:05", task2);
    assert s.s3.entries[0].content == task1 && s.s3.entries[1].content == task2;
    var rerun := s.PressShowAnswer();
    s.RevealSolution(solution2);
    assert s.s3.entries[0].content == task1 && s.s3.entries[1].solution == solution2;
    s.SelectEntry(Task, 1);
    var crashed := s.ViewTaskEntry();
    s.RevealSolution(solution2 + "!");
    viewed := s.s3.entries[0];
  }
}
