/**
 * The SQLite store behind `DatabaseService` (src/db/database.ts), with the table
 * constraints of src/db/schemaInit.ts as the invariant `Valid()`: AUTOINCREMENT ids,
 * UNIQUE emails, the status CHECK and the owner foreign key. Rows are kept in rowid
 * order; CURRENT_TIMESTAMP is the store's own clock, which every write moves forward.
 * Where SQLite would throw on a constraint, the operation returns `Fail`.
 */
module Database {
  import opened Types

  datatype DbError = UniqueViolation | CheckViolation | ForeignKeyViolation

  datatype Result<T> = Ok(value: T) | Fail(error: DbError)

  /** The optional fields of an update; None is `undefined`. The status is the raw text sent. */
  datatype TaskUpdates = TaskUpdates(title: Option<string>, description: Option<string>, status: Option<string>)

  predicate SuppliesAny(u: TaskUpdates) {
    u.title.Some? || u.description.Some? || u.status.Some?
  }

  /** One `column = ?` entry of the SET list that updateTask builds. */
  datatype Assignment = SetTitle(title: string) | SetDescription(description: string) | SetStatus(status: string) | TouchUpdatedAt

  // ------------------------------------------------------------------
  // The SELECT, UPDATE and DELETE statements, as functions of a table
  // ------------------------------------------------------------------

  /** `WHERE id = ? AND user_id = ?`. */
  predicate Matches(t: Task, taskId: int, userId: int) {
    t.id == taskId && t.userId == userId
  }

  predicate HasRow(tasks: seq<Task>, taskId: int, userId: int) {
    exists i :: 0 <= i < |tasks| && Matches(tasks[i], taskId, userId)
  }

  /** `SELECT * FROM users WHERE email = ?`: the first such row. */
  function FindUserByEmail(users: seq<User>, email: string): (r: Option<User>)
    ensures r.Some? ==> r.value in users && r.value.email == email
    ensures r.None? <==> forall i :: 0 <= i < |users| ==> users[i].email != email
  {
    if users == [] then None
    else if users[0].email == email then Some(users[0])
    else FindUserByEmail(users[1..], email)
  }

  /** `SELECT * FROM users WHERE id = ?`: the first such row. */
  function FindUserById(users: seq<User>, id: int): (r: Option<User>)
    ensures r.Some? ==> r.value in users && r.value.id == id
    ensures r.None? <==> forall i :: 0 <= i < |users| ==> users[i].id != id
  {
    if users == [] then None
    else if users[0].id == id then Some(users[0])
    else FindUserById(users[1..], id)
  }

  /** `SELECT * FROM tasks WHERE id = ? AND user_id = ?`: never a row of another owner. */
  function FindTask(tasks: seq<Task>, taskId: int, userId: int): (r: Option<Task>)
    ensures r.Some? ==> r.value in tasks && r.value.id == taskId && r.value.userId == userId
    ensures r.None? <==> !HasRow(tasks, taskId, userId)
  {
    if tasks == [] then None
    else if Matches(tasks[0], taskId, userId) then Some(tasks[0])
    else
      var r := FindTask(tasks[1..], taskId, userId);
      assert HasRow(tasks, taskId, userId) ==> tasks[0] == tasks[0] && HasRow(tasks[1..], taskId, userId) by {
        if HasRow(tasks, taskId, userId) {
          var i :| 0 <= i < |tasks| && Matches(tasks[i], taskId, userId);
          assert tasks[1..][i - 1] == tasks[i];
        }
      }
      r
  }

  /** Rows in rowid order have increasing ids and increasing creation times. */
  predicate Chronological(tasks: seq<Task>) {
    forall i, j :: 0 <= i < j < |tasks| ==> tasks[i].id < tasks[j].id && tasks[i].createdAt < tasks[j].createdAt
  }

  /**
   * `SELECT * FROM tasks WHERE user_id = ? ORDER BY created_at DESC`: exactly the owner's
   * rows, newest first.
   */
  function OwnedNewestFirst(tasks: seq<Task>, userId: int): (r: seq<Task>)
    requires Chronological(tasks)
    ensures forall t :: t in r <==> t in tasks && t.userId == userId
    ensures forall i, j :: 0 <= i < j < |r| ==> r[i].createdAt > r[j].createdAt
  {
    if tasks == [] then []
    else
      var newer := OwnedNewestFirst(tasks[1..], userId);
      assert forall t :: t in tasks[1..] ==> t.createdAt > tasks[0].createdAt by {
        forall t | t in tasks[1..] ensures t.createdAt > tasks[0].createdAt {
          var k :| 0 <= k < |tasks[1..]| && tasks[1..][k] == t;
          assert tasks[k + 1] == t;
        }
      }
      if tasks[0].userId == userId then newer + [tasks[0]] else newer
  }

  /** `DELETE FROM tasks WHERE id = ? AND user_id = ?`: the other rows, in their order. */
  function DeleteWhere(tasks: seq<Task>, taskId: int, userId: int): (r: seq<Task>)
    ensures forall t :: t in r <==> t in tasks && !Matches(t, taskId, userId)
  {
    if tasks == [] then []
    else
      var rest := DeleteWhere(tasks[1..], taskId, userId);
      if Matches(tasks[0], taskId, userId) then rest else [tasks[0]] + rest
  }

  lemma HasRowCons(tasks: seq<Task>, taskId: int, userId: int)
    requires tasks != []
    ensures HasRow(tasks, taskId, userId) <==> Matches(tasks[0], taskId, userId) || HasRow(tasks[1..], taskId, userId)
  {
    if HasRow(tasks, taskId, userId) && !Matches(tasks[0], taskId, userId) {
      var i :| 0 <= i < |tasks| && Matches(tasks[i], taskId, userId);
      assert tasks[1..][i - 1] == tasks[i];
    }
    if HasRow(tasks[1..], taskId, userId) {
      var i :| 0 <= i < |tasks[1..]| && Matches(tasks[1..][i], taskId, userId);
      assert tasks[i + 1] == tasks[1..][i];
    }
  }

  /** `result.changes > 0` exactly when a row matched both the id and the owner. */
  lemma {:induction false} DeleteShrinksIff(tasks: seq<Task>, taskId: int, userId: int)
    ensures |DeleteWhere(tasks, taskId, userId)| <= |tasks|
    ensures |DeleteWhere(tasks, taskId, userId)| < |tasks| <==> HasRow(tasks, taskId, userId)
  {
    if tasks != [] {
      DeleteShrinksIff(tasks[1..], taskId, userId);
      HasRowCons(tasks, taskId, userId);
    }
  }

  /** With ids unique (rowid order), a delete that removes anything removes exactly one row. */
  lemma {:induction false} DeleteRemovesOneRow(tasks: seq<Task>, taskId: int, userId: int)
    requires Chronological(tasks)
    ensures |DeleteWhere(tasks, taskId, userId)| == if HasRow(tasks, taskId, userId) then |tasks| - 1 else |tasks|
  {
    if tasks != [] {
      DeleteRemovesOneRow(tasks[1..], taskId, userId);
      HasRowCons(tasks, taskId, userId);
      if Matches(tasks[0], taskId, userId) {
        forall i | 0 <= i < |tasks[1..]| ensures !Matches(tasks[1..][i], taskId, userId) {
          assert tasks[1..][i] == tasks[i + 1];
        }
      }
    }
  }

  /** A delete that matches nothing leaves the table as it was. */
  lemma {:induction false} DeleteNothing(tasks: seq<Task>, taskId: int, userId: int)
    requires !HasRow(tasks, taskId, userId)
    ensures DeleteWhere(tasks, taskId, userId) == tasks
  {
    if tasks != [] {
      HasRowCons(tasks, taskId, userId);
      DeleteNothing(tasks[1..], taskId, userId);
      assert [tasks[0]] + tasks[1..] == tasks;
    }
  }

  /** Every row after the first is newer than it. */
  lemma ChronologicalHead(tasks: seq<Task>)
    requires Chronological(tasks) && tasks != []
    ensures forall t :: t in tasks[1..] ==> tasks[0].id < t.id && tasks[0].createdAt < t.createdAt
  {
    forall t | t in tasks[1..] ensures tasks[0].id < t.id && tasks[0].createdAt < t.createdAt {
      var k :| 0 <= k < |tasks[1..]| && tasks[1..][k] == t;
      assert tasks[k + 1] == t;
    }
  }

  lemma ChronologicalCons(h: Task, rest: seq<Task>)
    requires Chronological(rest)
    requires forall t :: t in rest ==> h.id < t.id && h.createdAt < t.createdAt
    ensures Chronological([h] + rest)
  {
    var r := [h] + rest;
    forall i, j | 0 <= i < j < |r| ensures r[i].id < r[j].id && r[i].createdAt < r[j].createdAt {
      assert r[j] == rest[j - 1];
      if i > 0 {
        assert r[i] == rest[i - 1];
      }
    }
  }

  /** Deleting keeps the remaining rows in rowid order. */
  lemma {:induction false} DeleteKeepsOrder(tasks: seq<Task>, taskId: int, userId: int)
    requires Chronological(tasks)
    ensures Chronological(DeleteWhere(tasks, taskId, userId))
  {
    if tasks != [] {
      assert Chronological(tasks[1..]);
      DeleteKeepsOrder(tasks[1..], taskId, userId);
      ChronologicalHead(tasks);
      if !Matches(tasks[0], taskId, userId) {
        ChronologicalCons(tasks[0], DeleteWhere(tasks[1..], taskId, userId));
      }
    }
  }

  /** One assignment of the SET list applied to a row; `now` is CURRENT_TIMESTAMP. */
  function Assign(t: Task, a: Assignment, now: nat): Task {
    match a
    case SetTitle(title) => t.(title := title)
    case SetDescription(description) => t.(description := Some(description))
    case SetStatus(status) => t.(status := status)
    case TouchUpdatedAt => t.(updatedAt := now)
  }

  function AssignAll(t: Task, fields: seq<Assignment>, now: nat): Task
    decreases |fields|
  {
    if fields == [] then t else AssignAll(Assign(t, fields[0], now), fields[1..], now)
  }

  lemma {:induction false} AssignAllConcat(t: Task, first: seq<Assignment>, second: seq<Assignment>, now: nat)
    ensures AssignAll(t, first + second, now) == AssignAll(AssignAll(t, first, now), second, now)
    decreases |first|
  {
    if first != [] {
      assert (first + second)[0] == first[0];
      assert (first + second)[1..] == first[1..] + second;
      AssignAllConcat(Assign(t, first[0], now), first[1..], second, now);
    } else {
      assert first + second == second;
    }
  }

  /** The SET list for the supplied fields, in the order updateTask pushes them. */
  function SetList(u: TaskUpdates): seq<Assignment> {
    (if u.title.Some? then [SetTitle(u.title.value)] else [])
    + (if u.description.Some? then [SetDescription(u.description.value)] else [])
    + (if u.status.Some? then [SetStatus(u.status.value)] else [])
  }

  /**
   * The partial update as a record: every supplied field replaced, every other field kept,
   * and `updated_at` moved to `now`.
   */
  function Patched(t: Task, u: TaskUpdates, now: nat): Task {
    Task(t.id, t.userId,
         if u.title.Some? then u.title.value else t.title,
         if u.description.Some? then u.description else t.description,
         if u.status.Some? then u.status.value else t.status,
         t.createdAt, now)
  }

  /** `UPDATE tasks SET <fields> WHERE id = ? AND user_id = ?`. */
  function UpdateWhere(tasks: seq<Task>, taskId: int, userId: int, fields: seq<Assignment>, now: nat): (r: seq<Task>)
    ensures |r| == |tasks|
    ensures forall i :: 0 <= i < |tasks| && !Matches(tasks[i], taskId, userId) ==> r[i] == tasks[i]
  {
    seq(|tasks|, i requires 0 <= i < |tasks| =>
      if Matches(tasks[i], taskId, userId) then AssignAll(tasks[i], fields, now) else tasks[i])
  }

  /** Running the SET list that updateTask builds is exactly the partial update. */
  lemma SetListPatches(t: Task, u: TaskUpdates, now: nat)
    ensures AssignAll(t, SetList(u) + [TouchUpdatedAt], now) == Patched(t, u, now)
  {
    var titles := if u.title.Some? then [SetTitle(u.title.value)] else [];
    var descriptions := if u.description.Some? then [SetDescription(u.description.value)] else [];
    var statuses := if u.status.Some? then [SetStatus(u.status.value)] else [];
    assert SetList(u) + [TouchUpdatedAt] == titles + (descriptions + (statuses + [TouchUpdatedAt]));
    AssignAllConcat(t, titles, descriptions + (statuses + [TouchUpdatedAt]), now);
    var t1 := AssignAll(t, titles, now);
    AssignAllConcat(t1, descriptions, statuses + [TouchUpdatedAt], now);
    var t2 := AssignAll(t1, descriptions, now);
    AssignAllConcat(t2, statuses, [TouchUpdatedAt], now);
    var t3 := AssignAll(t2, statuses, now);
    assert AssignAll(t3, [TouchUpdatedAt], now) == t3.(updatedAt := now);
  }

  /** With the SET list updateTask builds, the UPDATE patches the matched rows and no others. */
  lemma UpdatePatches(tasks: seq<Task>, taskId: int, userId: int, u: TaskUpdates, now: nat)
    ensures var r := UpdateWhere(tasks, taskId, userId, SetList(u) + [TouchUpdatedAt], now);
      |r| == |tasks| &&
      forall i :: 0 <= i < |tasks| ==>
        r[i] == if Matches(tasks[i], taskId, userId) then Patched(tasks[i], u, now) else tasks[i]
  {
    forall i | 0 <= i < |tasks| && Matches(tasks[i], taskId, userId) {
      SetListPatches(tasks[i], u, now);
    }
  }

  // ------------------------------------------------------------------
  // The table constraints
  // ------------------------------------------------------------------

  /** The foreign key `tasks.user_id REFERENCES users(id)`. */
  predicate HasUser(users: seq<User>, userId: int) {
    exists u :: u in users && u.id == userId
  }

  /** Every user row has an id the counter has handed out, and a past creation time. */
  predicate UsersOk(users: seq<User>, nextUserId: int, clock: nat) {
    forall u :: u in users ==> 1 <= u.id < nextUserId && u.createdAt <= clock
  }

  /** Ids grow in rowid order, and the UNIQUE index on email. */
  predicate UsersDistinct(users: seq<User>) {
    forall i, j :: 0 <= i < j < |users| ==> users[i].id < users[j].id && users[i].email != users[j].email
  }

  /** The per-row constraints of `tasks`: id handed out, status CHECK, owner exists, times. */
  predicate TaskRowOk(t: Task, users: seq<User>, nextTaskId: int, clock: nat) {
    1 <= t.id < nextTaskId
    && IsTaskStatus(t.status)
    && HasUser(users, t.userId)
    && t.createdAt <= t.updatedAt <= clock
  }

  predicate TasksOk(tasks: seq<Task>, users: seq<User>, nextTaskId: int, clock: nat) {
    forall t :: t in tasks ==> TaskRowOk(t, users, nextTaskId, clock)
  }

  /** The constraints survive more users, larger counters and a later clock. */
  lemma TasksOkGrow(tasks: seq<Task>, users: seq<User>, users': seq<User>, n: int, n': int, c: nat, c': nat)
    requires TasksOk(tasks, users, n, c)
    requires forall u :: u in users ==> u in users'
    requires n <= n' && c <= c'
    ensures TasksOk(tasks, users', n', c')
  {
    forall t | t in tasks ensures TaskRowOk(t, users', n', c') {
      assert TaskRowOk(t, users, n, c);
      var u :| u in users && u.id == t.userId;
      assert u in users';
    }
  }

  /** A registration keeps the users table valid: the new id is fresh and the email unused. */
  lemma AppendUserOk(users: seq<User>, nextUserId: int, clock: nat, email: string, passwordHash: string)
    requires UsersOk(users, nextUserId, clock) && UsersDistinct(users)
    requires 1 <= nextUserId && FindUserByEmail(users, email).None?
    ensures var users' := users + [User(nextUserId, email, passwordHash, clock + 1)];
      UsersOk(users', nextUserId + 1, clock + 1) && UsersDistinct(users')
      && !HasUser(users, nextUserId)
  {
    var users' := users + [User(nextUserId, email, passwordHash, clock + 1)];
    forall i, j | 0 <= i < j < |users'| ensures users'[i].id < users'[j].id && users'[i].email != users'[j].email {
      if j == |users| {
        assert users'[i] == users[i] && users[i] in users;
      }
    }
  }

  /** Appending a row newer than every row keeps rowid order. */
  lemma ChronologicalSnoc(tasks: seq<Task>, row: Task)
    requires Chronological(tasks)
    requires forall t :: t in tasks ==> t.id < row.id && t.createdAt < row.createdAt
    ensures Chronological(tasks + [row])
  {
    var r := tasks + [row];
    forall i, j | 0 <= i < j < |r| ensures r[i].id < r[j].id && r[i].createdAt < r[j].createdAt {
      assert r[i] == tasks[i] && tasks[i] in tasks;
    }
  }

  /** The row just inserted is the one `getTaskById(lastInsertRowid, userId)` reads back. */
  lemma ReadBackInserted(tasks: seq<Task>, row: Task)
    requires forall t :: t in tasks ==> t.id != row.id
    ensures FindTask(tasks + [row], row.id, row.userId) == Some(row)
  {
    var r := tasks + [row];
    assert Matches(r[|r| - 1], row.id, row.userId);
  }

  /** An insert with the next id, a known owner and the current time keeps the tasks table valid. */
  lemma InsertTaskOk(tasks: seq<Task>, users: seq<User>, n: int, clock: nat, row: Task)
    requires TasksOk(tasks, users, n, clock) && Chronological(tasks)
    requires 1 <= n && row.id == n && row.status == "todo" && HasUser(users, row.userId)
    requires row.createdAt == row.updatedAt == clock + 1
    ensures TasksOk(tasks + [row], users, n + 1, clock + 1) && Chronological(tasks + [row])
    ensures FindTask(tasks + [row], row.id, row.userId) == Some(row)
  {
    TasksOkGrow(tasks, users, users, n, n + 1, clock, clock + 1);
    forall t | t in tasks ensures t.id < row.id && t.createdAt < row.createdAt {
      assert TaskRowOk(t, users, n, clock);
    }
    assert IsTaskStatus(row.status) && TaskRowOk(row, users, n + 1, clock + 1);
    ChronologicalSnoc(tasks, row);
    ReadBackInserted(tasks, row);
  }

  /** A partial update with an allowed status keeps every constraint of the tasks table. */
  lemma UpdateKeepsConstraints(tasks: seq<Task>, users: seq<User>, n: int, clock: nat,
                               taskId: int, userId: int, u: TaskUpdates, now: nat)
    requires TasksOk(tasks, users, n, clock) && Chronological(tasks) && clock <= now
    requires u.status.Some? && HasRow(tasks, taskId, userId) ==> IsTaskStatus(u.status.value)
    ensures var r := UpdateWhere(tasks, taskId, userId, SetList(u) + [TouchUpdatedAt], now);
      TasksOk(r, users, n, now) && Chronological(r)
  {
    var r := UpdateWhere(tasks, taskId, userId, SetList(u) + [TouchUpdatedAt], now);
    UpdatePatches(tasks, taskId, userId, u, now);
    assert forall i :: 0 <= i < |r| ==> r[i].id == tasks[i].id && r[i].createdAt == tasks[i].createdAt;
    forall t | t in r ensures TaskRowOk(t, users, n, now) {
      var i :| 0 <= i < |r| && r[i] == t;
      assert tasks[i] in tasks && TaskRowOk(tasks[i], users, n, clock);
    }
  }

  // ------------------------------------------------------------------
  // The store
  // ------------------------------------------------------------------

  class DatabaseService {
    var users: seq<User>
    var tasks: seq<Task>
    /** The AUTOINCREMENT counters: the id the next insert receives. */
    var nextUserId: int
    var nextTaskId: int
    /** CURRENT_TIMESTAMP: the time of the latest write. */
    var clock: nat

    /** The constraints the schema declares, and the facts AUTOINCREMENT and the clock give. */
    ghost predicate Valid()
      reads this
    {
      1 <= nextUserId && 1 <= nextTaskId
      && UsersOk(users, nextUserId, clock) && UsersDistinct(users)
      && TasksOk(tasks, users, nextTaskId, clock) && Chronological(tasks)
    }

    constructor ()
      ensures Valid() && users == [] && tasks == []
    {
      users, tasks := [], [];
      nextUserId, nextTaskId := 1, 1;
      clock := 0;
    }

    // ==================== USER OPERATIONS ====================

    /** `INSERT INTO users (email, password_hash)`: refused by the UNIQUE index on a taken email. */
    method CreateUser(email: string, passwordHash: string) returns (r: Result<int>)
      requires Valid()
      modifies this
      ensures Valid()
      ensures r.Fail? <==> FindUserByEmail(old(users), email).Some?
      ensures r.Fail? ==> r.error == UniqueViolation && users == old(users) && nextUserId == old(nextUserId)
      ensures r.Ok? ==> r.value == old(nextUserId) && nextUserId == r.value + 1
      ensures r.Ok? ==> users == old(users) + [User(r.value, email, passwordHash, clock)]
      ensures r.Ok? ==> !HasUser(old(users), r.value)
      ensures tasks == old(tasks) && nextTaskId == old(nextTaskId) && clock == old(clock) + 1
    {
      if FindUserByEmail(users, email).Some? {
        clock := clock + 1;
        TasksOkGrow(tasks, users, users, nextTaskId, nextTaskId, clock - 1, clock);
        return Fail(UniqueViolation);
      }
      AppendUserOk(users, nextUserId, clock, email, passwordHash);
      var id := nextUserId;
      var users' := users + [User(id, email, passwordHash, clock + 1)];
      TasksOkGrow(tasks, users, users', nextTaskId, nextTaskId, clock, clock + 1);
      clock := clock + 1;
      users := users';
      nextUserId := nextUserId + 1;
      r := Ok(id);
    }

    /** The store's queries read the tables; their contracts are those of the lookups they apply. */
    function GetUserByEmail(email: string): Option<User>
      reads this
    {
      FindUserByEmail(users, email)
    }

    function GetUserById(id: int): Option<User>
      reads this
    {
      FindUserById(users, id)
    }

    // ==================== TASK OPERATIONS ====================

    function GetAllTasksForUser(userId: int): seq<Task>
      reads this
      requires Valid()
    {
      OwnedNewestFirst(tasks, userId)
    }

    function GetTaskById(taskId: int, userId: int): Option<Task>
      reads this
    {
      FindTask(tasks, taskId, userId)
    }

    /**
     * `INSERT INTO tasks (user_id, title, description, status) VALUES (?, ?, ?, 'todo')`
     * with `description || null`, then the row read back. The foreign key refuses an owner
     * that is not a user.
     */
    method CreateTask(userId: int, title: string, description: Option<string>) returns (r: Result<Task>)
      requires Valid()
      modifies this
      ensures Valid()
      ensures r.Fail? <==> !HasUser(old(users), userId)
      ensures r.Fail? ==> r.error == ForeignKeyViolation && tasks == old(tasks) && nextTaskId == old(nextTaskId)
      ensures r.Ok? ==> r.value == Task(old(nextTaskId), userId, title,
                                        if description == Some("") then None else description,
                                        "todo", clock, clock)
      ensures r.Ok? ==> tasks == old(tasks) + [r.value] && nextTaskId == old(nextTaskId) + 1
      ensures users == old(users) && nextUserId == old(nextUserId) && clock == old(clock) + 1
    {
      if FindUserById(users, userId).None? {
        TasksOkGrow(tasks, users, users, nextTaskId, nextTaskId, clock, clock + 1);
        clock := clock + 1;
        return Fail(ForeignKeyViolation);
      }
      var stored := if description == Some("") then None else description;
      var id := nextTaskId;
      var row := Task(id, userId, title, stored, "todo", clock + 1, clock + 1);
      InsertTaskOk(tasks, users, nextTaskId, clock, row);
      clock := clock + 1;
      tasks := tasks + [row];
      nextTaskId := nextTaskId + 1;
      var readBack := GetTaskById(id, userId);
      r := Ok(readBack.value);
    }

    /**
     * `updateTask`: builds the SET list from the supplied fields; with none it only reads
     * the row back. Otherwise it runs the UPDATE (the status CHECK refuses a bad status
     * on the matched row) and reads the row back.
     */
    method UpdateTask(taskId: int, userId: int, updates: TaskUpdates) returns (r: Result<Option<Task>>)
      requires Valid()
      modifies this
      ensures Valid()
      ensures r.Fail? <==> SuppliesAny(updates) && HasRow(old(tasks), taskId, userId)
                           && updates.status.Some? && !IsTaskStatus(updates.status.value)
      ensures r.Fail? ==> r.error == CheckViolation && tasks == old(tasks)
      ensures r.Ok? ==> |tasks| == |old(tasks)|
      ensures r.Ok? ==> forall i :: 0 <= i < |tasks| ==>
                tasks[i] == if SuppliesAny(updates) && Matches(old(tasks)[i], taskId, userId)
                            then Patched(old(tasks)[i], updates, clock) else old(tasks)[i]
      ensures r.Ok? ==> r.value == FindTask(tasks, taskId, userId)
      ensures clock == old(clock) + (if SuppliesAny(updates) then 1 else 0)
      ensures users == old(users) && nextUserId == old(nextUserId) && nextTaskId == old(nextTaskId)
    {
      var fields: seq<Assignment> := [];
      if updates.title.Some? {
        fields := fields + [SetTitle(updates.title.value)];
      }
      if updates.description.Some? {
        fields := fields + [SetDescription(updates.description.value)];
      }
      if updates.status.Some? {
        fields := fields + [SetStatus(updates.status.value)];
      }
      assert fields == SetList(updates);

      if |fields| == 0 {
        return Ok(GetTaskById(taskId, userId));
      }

      fields := fields + [TouchUpdatedAt];
      TasksOkGrow(tasks, users, users, nextTaskId, nextTaskId, clock, clock + 1);
      clock := clock + 1;

      var current := GetTaskById(taskId, userId);
      if current.Some? {
        SetListPatches(current.value, updates, clock);
        assert TaskRowOk(current.value, users, nextTaskId, clock);
        if !IsTaskStatus(AssignAll(current.value, fields, clock).status) {
          return Fail(CheckViolation);
        }
      }
      UpdatePatches(tasks, taskId, userId, updates, clock);
      UpdateKeepsConstraints(tasks, users, nextTaskId, clock, taskId, userId, updates, clock);
      tasks := UpdateWhere(tasks, taskId, userId, fields, clock);
      r := Ok(GetTaskById(taskId, userId));
    }

    /** `DELETE FROM tasks WHERE id = ? AND user_id = ?`, reporting `changes > 0`. */
    method DeleteTask(taskId: int, userId: int) returns (deleted: bool)
      requires Valid()
      modifies this
      ensures Valid()
      ensures deleted <==> HasRow(old(tasks), taskId, userId)
      ensures tasks == DeleteWhere(old(tasks), taskId, userId)
      ensures users == old(users) && nextUserId == old(nextUserId) && nextTaskId == old(nextTaskId)
      ensures clock == old(clock) + 1
    {
      TasksOkGrow(tasks, users, users, nextTaskId, nextTaskId, clock, clock + 1);
      clock := clock + 1;
      DeleteShrinksIff(tasks, taskId, userId);
      DeleteKeepsOrder(tasks, taskId, userId);
      var before := |tasks|;
      tasks := DeleteWhere(tasks, taskId, userId);
      var changes := before - |tasks|;
      deleted := changes > 0;
    }
  }
}
