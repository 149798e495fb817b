/** The SQLite layer: the `users` table behind registration and login, and
    the `conversations` table that every generation is saved to, read back at
    login and deleted from by title.  The database is one object whose tables
    are sequences; `created_at` is an insertion counter. */
module Store {
  import opened Records

  /** A row of `users` minus its name, which keys the map holding it. */
  datatype UserRow = UserRow(id: nat, passwordHash: string)

  /** A row of `conversations`.  `solution` is NULL unless a solution is
      passed to `save_conversation`. */
  datatype Conversation = Conversation(
    userId: nat, moduleId: ModuleId, title: string, content: string,
    solution: Option<string>, createdAt: nat)

  predicate Owns(c: Conversation, user: nat, m: ModuleId)
  {
    c.userId == user && c.moduleId == m
  }

  /** Rows in insertion order have strictly increasing `created_at`. */
  ghost predicate Ascending(rows: seq<Conversation>)
  {
    forall i, j :: 0 <= i < j < |rows| ==> rows[i].createdAt < rows[j].createdAt
  }

  /** Strictly newest first. */
  ghost predicate Descending(rows: seq<Conversation>)
  {
    forall i, j :: 0 <= i < j < |rows| ==> rows[i].createdAt > rows[j].createdAt
  }

  /** `WHERE user_id = ? AND module = ? ORDER BY created_at DESC`, over a
      table kept in insertion order: the user's rows of the module, most
      recently inserted first. */
  function NewestFirst(rows: seq<Conversation>, user: nat, m: ModuleId): (r: seq<Conversation>)
    ensures |r| <= |rows|
    ensures forall c :: c in r ==> c in rows && Owns(c, user, m)
    ensures forall c :: c in rows && Owns(c, user, m) ==> c in r
    decreases |rows|
  {
    if rows == [] then []
    else
      var last := rows[|rows| - 1];
      var older := NewestFirst(rows[..|rows| - 1], user, m);
      assert rows == rows[..|rows| - 1] + [last];
      if Owns(last, user, m) then [last] + older else older
  }

  /** `... LIMIT 10`: the first ten of the newest-first rows, or all of them
      when there are fewer. */
  function RecentRows(rows: seq<Conversation>, user: nat, m: ModuleId): (r: seq<Conversation>)
    ensures var all := NewestFirst(rows, user, m);
            |r| == (if |all| <= MaxHistory then |all| else MaxHistory) && r == all[..|r|]
  {
    var all := NewestFirst(rows, user, m);
    if |all| <= MaxHistory then all else all[..MaxHistory]
  }

  /** The dict a row becomes: only the task module selects `solution`, and a
      NULL solution becomes the empty string. */
  function ToRecord(m: ModuleId, c: Conversation): (r: Record)
    ensures r.title == c.title && r.content == c.content
    ensures m != Task ==> r.solution == ""
    ensures m == Task && c.solution.Some? ==> r.solution == c.solution.value
    ensures m == Task && c.solution.None? ==> r.solution == ""
  {
    var solution := if m == Task then match c.solution case Some(s) => s case None => "" else "";
    Record(c.title, c.content, solution)
  }

  function ToRecords(m: ModuleId, cs: seq<Conversation>): (rs: seq<Record>)
    ensures |rs| == |cs|
    ensures forall i :: 0 <= i < |cs| ==> rs[i] == ToRecord(m, cs[i])
  {
    seq(|cs|, i requires 0 <= i < |cs| => ToRecord(m, cs[i]))
  }

  /** What `load_user_conversations` returns for one module: at most ten
      records, the `i`-th made from the `i`-th newest row of that user and
      module. */
  function LoadModule(rows: seq<Conversation>, user: nat, m: ModuleId): (r: seq<Record>)
    ensures |r| <= MaxHistory && |r| == |RecentRows(rows, user, m)|
    ensures forall i :: 0 <= i < |r| ==> r[i] == ToRecord(m, NewestFirst(rows, user, m)[i])
  {
    ToRecords(m, RecentRows(rows, user, m))
  }

  /** The rows `DELETE ... WHERE user_id = ? AND module = ? AND title = ?`
      leaves, in their order. */
  function Remaining(rows: seq<Conversation>, user: nat, m: ModuleId, title: string): (r: seq<Conversation>)
    ensures |r| <= |rows|
    ensures forall c :: c in r ==> c in rows && !(Owns(c, user, m) && c.title == title)
    ensures forall c :: c in rows && !(Owns(c, user, m) && c.title == title) ==> c in r
    decreases |rows|
  {
    if rows == [] then []
    else
      var last := rows[|rows| - 1];
      var kept := Remaining(rows[..|rows| - 1], user, m, title);
      assert rows == rows[..|rows| - 1] + [last];
      if Owns(last, user, m) && last.title == title then kept else kept + [last]
  }

  // ---------------------------------------------------------------------
  // Properties of the queries

  /** Every row of an ascending table is older than the rows after it. */
  lemma OlderThanLast(rows: seq<Conversation>, c: Conversation)
    requires Ascending(rows) && |rows| > 0
    requires c in rows[..|rows| - 1]
    ensures c.createdAt < rows[|rows| - 1].createdAt
  {
    var i :| 0 <= i < |rows| - 1 && rows[..|rows| - 1][i] == c;
    assert rows[i] == c;
  }

  /** The rows a module's list is read from are strictly newest first. */
  lemma {:induction false} NewestFirstIsDescending(rows: seq<Conversation>, user: nat, m: ModuleId)
    requires Ascending(rows)
    ensures Descending(NewestFirst(rows, user, m))
    decreases |rows|
  {
    if rows != [] {
      var front := rows[..|rows| - 1];
      var last := rows[|rows| - 1];
      NewestFirstIsDescending(front, user, m);
      var older := NewestFirst(front, user, m);
      if Owns(last, user, m) {
        var r := [last] + older;
        forall i, j | 0 <= i < j < |r| ensures r[i].createdAt > r[j].createdAt {
          assert r[j] == older[j - 1];
          if i == 0 {
            assert older[j - 1] in older;
            assert older[j - 1] in front;
            OlderThanLast(rows, older[j - 1]);
          } else {
            assert r[i] == older[i - 1];
            assert older[i - 1].createdAt > older[j - 1].createdAt;
          }
        }
      }
    }
  }

  /** `load_user_conversations`, one module: at most ten records, each made
      from one of the user's rows of that module, newest first. */
  lemma LoadModuleSpec(rows: seq<Conversation>, user: nat, m: ModuleId)
    requires Ascending(rows)
    ensures var recent := RecentRows(rows, user, m);
            var all := NewestFirst(rows, user, m);
            |LoadModule(rows, user, m)| == |recent| &&
            |recent| == (if |all| <= MaxHistory then |all| else MaxHistory) &&
            (forall i :: 0 <= i < |recent| ==>
              recent[i] in rows && Owns(recent[i], user, m) &&
              LoadModule(rows, user, m)[i] == ToRecord(m, recent[i])) &&
            Descending(recent)
  {
    var all := NewestFirst(rows, user, m);
    var recent := RecentRows(rows, user, m);
    NewestFirstIsDescending(rows, user, m);
    forall i | 0 <= i < |recent| ensures recent[i] in rows && Owns(recent[i], user, m) {
      assert recent[i] == all[i];
      assert all[i] in all;
    }
  }

  /** A row of the user's module that a load leaves out is older than every
      row it returns: the limit keeps the newest. */
  lemma LoadOmitsOnlyOlder(rows: seq<Conversation>, user: nat, m: ModuleId, c: Conversation)
    requires Ascending(rows)
    requires c in rows && Owns(c, user, m) && c !in RecentRows(rows, user, m)
    ensures forall i :: 0 <= i < |RecentRows(rows, user, m)| ==>
      c.createdAt < RecentRows(rows, user, m)[i].createdAt
  {
    var all := NewestFirst(rows, user, m);
    var recent := RecentRows(rows, user, m);
    NewestFirstIsDescending(rows, user, m);
    var j :| 0 <= j < |all| && all[j] == c;
    assert j >= |recent|;
    forall i | 0 <= i < |recent| ensures c.createdAt < recent[i].createdAt {
      assert recent[i] == all[i];
    }
  }

  /** Saving a row puts it at the head of its module's list, and with ten
      rows already stored it pushes the oldest of them out of what a load
      returns (the row itself stays in the table). */
  lemma LoadAfterSave(rows: seq<Conversation>, row: Conversation)
    ensures var after := RecentRows(rows + [row], row.userId, row.moduleId);
            var before := RecentRows(rows, row.userId, row.moduleId);
            |after| > 0 && after[0] == row &&
            (|before| < MaxHistory ==> after == [row] + before) &&
            (|before| == MaxHistory ==> after == [row] + before[..MaxHistory - 1])
  {
    var u, m := row.userId, row.moduleId;
    assert (rows + [row])[..|rows|] == rows;
    assert NewestFirst(rows + [row], u, m) == [row] + NewestFirst(rows, u, m);
  }

  /** Round trip: what is saved is what the next load of that user and module
      returns first; a row saved without a solution reads back with an empty
      one. */
  lemma SaveThenLoad(rows: seq<Conversation>, row: Conversation)
    ensures var loaded := LoadModule(rows + [row], row.userId, row.moduleId);
            |loaded| > 0 &&
            loaded[0].title == row.title && loaded[0].content == row.content &&
            (row.moduleId == Task && row.solution.Some? ==> loaded[0].solution == row.solution.value) &&
            (row.solution.None? ==> loaded[0].solution == "")
  {
    LoadAfterSave(rows, row);
  }

  /** Saving a row leaves every other user's and module's list unchanged. */
  lemma SaveLeavesOtherLists(rows: seq<Conversation>, row: Conversation, user: nat, m: ModuleId)
    requires !Owns(row, user, m)
    ensures LoadModule(rows + [row], user, m) == LoadModule(rows, user, m)
  {
    assert (rows + [row])[..|rows|] == rows;
    assert NewestFirst(rows + [row], user, m) == NewestFirst(rows, user, m);
  }

  /** Deleting by title keeps the table in insertion order. */
  lemma {:induction false} RemainingAscending(rows: seq<Conversation>, user: nat, m: ModuleId, title: string)
    requires Ascending(rows)
    ensures Ascending(Remaining(rows, user, m, title))
    decreases |rows|
  {
    if rows != [] {
      var front := rows[..|rows| - 1];
      var last := rows[|rows| - 1];
      RemainingAscending(front, user, m, title);
      var kept := Remaining(front, user, m, title);
      if !(Owns(last, user, m) && last.title == title) {
        var r := kept + [last];
        forall i, j | 0 <= i < j < |r| ensures r[i].createdAt < r[j].createdAt {
          if j == |r| - 1 {
            assert r[i] in kept;
            OlderThanLast(rows, r[i]);
          } else {
            assert r[i] == kept[i] && r[j] == kept[j];
          }
        }
      }
    }
  }

  /** Deleting by title touches no other user's or module's list. */
  lemma {:induction false} RemainingLeavesOtherLists(rows: seq<Conversation>, user: nat, m: ModuleId, title: string,
                                                     user': nat, m': ModuleId)
    requires user' != user || m' != m
    ensures NewestFirst(Remaining(rows, user, m, title), user', m') == NewestFirst(rows, user', m')
    decreases |rows|
  {
    if rows != [] {
      var front := rows[..|rows| - 1];
      var last := rows[|rows| - 1];
      RemainingLeavesOtherLists(front, user, m, title, user', m');
      var kept := Remaining(front, user, m, title);
      if !(Owns(last, user, m) && last.title == title) {
        assert (kept + [last])[..|kept|] == kept;
      }
    }
  }

  /** A newest-first list with the rows of one title dropped, in order. */
  function DropTitle(cs: seq<Conversation>, title: string): seq<Conversation>
    decreases |cs|
  {
    if cs == [] then []
    else (if cs[0].title == title then [] else [cs[0]]) + DropTitle(cs[1..], title)
  }

  /** The user's newest-first rows of a module after a delete by title are
      the ones before it, minus that title, in the same order. */
  lemma {:induction false} NewestFirstAfterDelete(rows: seq<Conversation>, user: nat, m: ModuleId, title: string)
    ensures NewestFirst(Remaining(rows, user, m, title), user, m) == DropTitle(NewestFirst(rows, user, m), title)
    decreases |rows|
  {
    if rows != [] {
      var front := rows[..|rows| - 1];
      var last := rows[|rows| - 1];
      var kept := Remaining(front, user, m, title);
      NewestFirstAfterDelete(front, user, m, title);
      if !(Owns(last, user, m) && last.title == title) {
        assert (kept + [last])[..|kept|] == kept;
        if Owns(last, user, m) {
          assert ([last] + NewestFirst(front, user, m))[1..] == NewestFirst(front, user, m);
        }
      } else {
        assert ([last] + NewestFirst(front, user, m))[1..] == NewestFirst(front, user, m);
      }
    }
  }

  /** Dropping rows never moves a kept row further back. */
  lemma {:induction false} DropTitleKeepsPosition(cs: seq<Conversation>, title: string, i: nat)
    requires i < |cs| && cs[i].title != title
    ensures exists j :: 0 <= j <= i && j < |DropTitle(cs, title)| && DropTitle(cs, title)[j] == cs[i]
    decreases |cs|
  {
    var d := DropTitle(cs, title);
    if i == 0 {
      assert d[0] == cs[0];
    } else {
      DropTitleKeepsPosition(cs[1..], title, i - 1);
      var j' :| 0 <= j' <= i - 1 && j' < |DropTitle(cs[1..], title)| && DropTitle(cs[1..], title)[j'] == cs[1..][i - 1];
      if cs[0].title == title {
        assert d[j'] == cs[i];
      } else {
        assert d[j' + 1] == cs[i];
      }
    }
  }

  /** After deleting by title, no record of that title is loaded for that
      user and module, and every other row of theirs is still loaded if it was
      among the ten newest. */
  lemma LoadAfterDelete(rows: seq<Conversation>, user: nat, m: ModuleId, title: string)
    ensures forall r :: r in LoadModule(Remaining(rows, user, m, title), user, m) ==> r.title != title
    ensures forall c :: c in RecentRows(rows, user, m) && c.title != title ==>
      c in RecentRows(Remaining(rows, user, m, title), user, m)
  {
    var rest := Remaining(rows, user, m, title);
    var recent := RecentRows(rest, user, m);
    forall r | r in LoadModule(rest, user, m) ensures r.title != title {
      var i :| 0 <= i < |recent| && LoadModule(rest, user, m)[i] == r;
      var all := NewestFirst(rest, user, m);
      assert recent[i] == all[i];
      assert all[i] in all;
    }
    NewestFirstAfterDelete(rows, user, m, title);
    var before := NewestFirst(rows, user, m);
    forall c | c in RecentRows(rows, user, m) && c.title != title ensures c in recent {
      var i :| 0 <= i < |RecentRows(rows, user, m)| && RecentRows(rows, user, m)[i] == c;
      DropTitleKeepsPosition(before, title, i);
      var j :| 0 <= j <= i && j < |DropTitle(before, title)| && DropTitle(before, title)[j] == c;
      assert recent[j] == c;
    }
  }

  /** Deleting a title nobody used removes nothing. */
  lemma {:induction false} DeleteMissingTitle(rows: seq<Conversation>, user: nat, m: ModuleId, title: string)
    requires forall c :: c in rows ==> !(Owns(c, user, m) && c.title == title)
    ensures Remaining(rows, user, m, title) == rows
    decreases |rows|
  {
    if rows != [] {
      var front := rows[..|rows| - 1];
      var last := rows[|rows| - 1];
      assert rows == front + [last];
      forall c | c in front ensures !(Owns(c, user, m) && c.title == title) {
        assert c in rows;
      }
      DeleteMissingTitle(front, user, m, title);
      assert last in rows;
      assert Remaining(rows, user, m, title) == Remaining(front, user, m, title) + [last];
    }
  }

  /** The database.  `hash` stands for `hash_password` (SHA-256 as hex),
      treated as an uninterpreted function fixed for the database's
      lifetime. */
  class Database {
    const hash: string -> string
    var users: map<string, UserRow>
    var nextUserId: nat
    var rows: seq<Conversation>
    var clock: nat

    ghost predicate Valid()
      reads this
    {
      && 1 <= nextUserId
      && (forall name :: name in users ==> 1 <= users[name].id < nextUserId)
      && Ascending(rows)
      && (forall i :: 0 <= i < |rows| ==> rows[i].createdAt < clock)
    }

    /** `init_db`: both tables empty. */
    constructor (hash: string -> string)
      ensures Valid()
      ensures this.hash == hash && users == map[] && rows == []
      ensures nextUserId == 1 && clock == 0
    {
      this.hash := hash;
      users := map[];
      nextUserId := 1;
      rows := [];
      clock := 0;
    }

    /** `register_user`: the UNIQUE constraint on `username` turns a second
        registration of a name into an error; otherwise exactly one user is
        added, with the next AUTOINCREMENT id. */
    method Register(username: string, password: string) returns (ok: bool, message: string)
      requires Valid()
      modifies this
      ensures Valid()
      ensures rows == old(rows) && clock == old(clock)
      ensures ok <==> username !in old(users)
      ensures !ok ==> message == "用户名已存在" && users == old(users)
      ensures ok ==> message == "注册成功！请登录"
      ensures ok ==> users == old(users)[username := UserRow(old(nextUserId), hash(password))]
      ensures nextUserId == (if ok then old(nextUserId) + 1 else old(nextUserId))
    {
      if username in users {
        ok, message := false, "用户名已存在";
      } else {
        users := users[username := UserRow(nextUserId, hash(password))];
        nextUserId := nextUserId + 1;
        ok, message := true, "注册成功！请登录";
      }
    }

    /** `authenticate_user`: the user's id exactly when a row has that name
        and the hash of that password; ids start at 1, so a found id is
        never falsy. */
    method Authenticate(username: string, password: string) returns (id: Option<nat>)
      requires Valid()
      ensures id.Some? <==> username in users && users[username].passwordHash == hash(password)
      ensures id.Some? ==> id.value == users[username].id && id.value >= 1
    {
      if username in users && users[username].passwordHash == hash(password) {
        id := Some(users[username].id);
      } else {
        id := None;
      }
    }

    /** `save_conversation`: always inserts one new row, stamped newer than
        every row already there. */
    method SaveConversation(user: nat, m: ModuleId, title: string, content: string, solution: Option<string>)
      requires Valid()
      modifies this
      ensures Valid()
      ensures users == old(users) && nextUserId == old(nextUserId) && clock == old(clock) + 1
      ensures rows == old(rows) + [Conversation(user, m, title, content, solution, old(clock))]
    {
      rows := rows + [Conversation(user, m, title, content, solution, clock)];
      clock := clock + 1;
    }

    /** `load_user_conversations`: the diagnosis, task and inquiry lists. */
    method LoadUserConversations(user: nat) returns (s1: seq<Record>, s3: seq<Record>, inquiry: seq<Record>)
      requires Valid()
      ensures s1 == LoadModule(rows, user, Diagnosis)
      ensures s3 == LoadModule(rows, user, Task)
      ensures inquiry == LoadModule(rows, user, Inquiry)
      ensures |s1| <= MaxHistory && |s3| <= MaxHistory && |inquiry| <= MaxHistory
    {
      LoadModuleSpec(rows, user, Diagnosis);
      LoadModuleSpec(rows, user, Task);
      LoadModuleSpec(rows, user, Inquiry);
      s1 := LoadModule(rows, user, Diagnosis);
      s3 := LoadModule(rows, user, Task);
      inquiry := LoadModule(rows, user, Inquiry);
    }

    /** The delete statement the sidebar issues: every row of that user,
        module and title goes, however many there are. */
    method DeleteByTitle(user: nat, m: ModuleId, title: string)
      requires Valid()
      modifies this
      ensures Valid()
      ensures users == old(users) && nextUserId == old(nextUserId) && clock == old(clock)
      ensures rows == Remaining(old(rows), user, m, title)
    {
      RemainingAscending(rows, user, m, title);
      rows := Remaining(rows, user, m, title);
    }
  }
}
