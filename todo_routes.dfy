/**
 * The task routes of src/routes/todoRoutes.ts. Each handler receives the store and the
 * user id that the bearer-token middleware attached; no handler takes a user id from the
 * request itself. A task of another user is answered exactly like a missing one.
 */
module TodoRoutes {
  import opened Types
  import opened Http
  import opened Validation
  import opened Database
  import AuthMiddleware

  /** The JSON bodies, with `undefined` as None. `:id` arrives already through `parseInt`. */
  datatype CreateTaskRequest = CreateTaskRequest(title: Option<string>, description: Option<string>)
  datatype UpdateTaskRequest = UpdateTaskRequest(title: Option<string>, description: Option<string>, status: Option<string>)

  const TitleRequired: string := "Task title is required"
  const InvalidTaskId: string := "Invalid task ID"
  const InvalidStatus: string := "Invalid status. Must be: todo, doing, or done"
  const TaskNotFound: string := "Task not found"
  const TaskDeleted: string := "Task deleted successfully"
  const CreateFailed: string := "Failed to create task"
  const UpdateFailed: string := "Failed to update task"

  /** `validStatuses`, in the order the handler lists them. */
  const ValidStatuses: seq<string> := ["todo", "doing", "done"]

  /** POST's `!title || title.trim().length === 0`. */
  predicate MissingTitle(title: Option<string>) {
    title.None? || title.value == "" || Trim(title.value) == []
  }

  /** PUT's `updates.status && !validStatuses.includes(updates.status)`: the empty string gets through. */
  predicate RejectedStatus(status: Option<string>) {
    status.Some? && status.value != "" && status.value !in ValidStatuses
  }

  /** The description POST stores: sanitised when truthy, and NULL when that leaves nothing. */
  function StoredDescription(description: Option<string>): Option<string> {
    if description.None? || description.value == "" then None
    else if SanitizeTaskDescription(description.value) == "" then None
    else Some(SanitizeTaskDescription(description.value))
  }

  /** `sanitizedUpdates`: each supplied field, title and description sanitised, status as sent. */
  function Sanitized(req: UpdateTaskRequest): TaskUpdates {
    TaskUpdates(
      if req.title.Some? then Some(SanitizeTaskTitle(req.title.value)) else None,
      if req.description.Some? then Some(SanitizeTaskDescription(req.description.value)) else None,
      req.status)
  }

  /** The list check agrees with the store's CHECK constraint, apart from the empty string. */
  lemma RejectedStatusIff(status: Option<string>)
    ensures RejectedStatus(status) <==> status.Some? && status.value != "" && !IsTaskStatus(status.value)
  {
    if status.Some? {
      var s := status.value;
      assert s in ValidStatuses <==> s == "todo" || s == "doing" || s == "done";
    }
  }

  /** GET /api/todos: exactly the caller's tasks, newest first. */
  method GetTasks(db: DatabaseService, userId: int) returns (res: Response)
    requires db.Valid()
    ensures res.status == 200 && res.body.TasksBody?
    ensures forall t :: t in res.body.tasks <==> t in db.tasks && t.userId == userId
    ensures forall i, j :: 0 <= i < j < |res.body.tasks| ==> res.body.tasks[i].createdAt > res.body.tasks[j].createdAt
  {
    var tasks := db.GetAllTasksForUser(userId);
    res := Response(200, TasksBody(tasks));
  }

  /**
   * POST /api/todos: a missing or blank title is a 400 before the store is touched;
   * otherwise the sanitised task is inserted as the caller's, with status 'todo', and
   * returned with 201. (An owner the users table does not have fails the foreign key: 500.)
   */
  method CreateTask(db: DatabaseService, userId: int, req: CreateTaskRequest) returns (res: Response)
    requires db.Valid()
    modifies db
    ensures db.Valid()
    ensures MissingTitle(req.title) ==> res == Error(400, TitleRequired) && unchanged(db)
    ensures !MissingTitle(req.title) && !HasUser(old(db.users), userId) ==>
              res == Error(500, CreateFailed) && db.tasks == old(db.tasks)
    ensures !MissingTitle(req.title) && HasUser(old(db.users), userId) ==>
              res.status == 201 && res.body.TaskBody? && res.body.task.Some?
              && var t := res.body.task.value;
                 db.tasks == old(db.tasks) + [t]
                 && t.userId == userId && t.status == "todo"
                 && t.title == SanitizeTaskTitle(req.title.value)
                 && 0 < |t.title| <= MaxTitleLength
                 && t.description == StoredDescription(req.description)
    ensures db.users == old(db.users)
  {
    if req.title.None? || req.title.value == "" || |Trim(req.title.value)| == 0 {
      return Error(400, TitleRequired);
    }
    var title := req.title.value;
    var sanitizedTitle := SanitizeTaskTitle(title);
    var sanitizedDescription := if req.description.Some? && req.description.value != ""
                                then Some(SanitizeTaskDescription(req.description.value))
                                else None;
    var created := db.CreateTask(userId, sanitizedTitle, sanitizedDescription);
    match created {
      case Fail(_) =>
        res := Error(500, CreateFailed);
      case Ok(task) =>
        res := Response(201, TaskBody(Some(task)));
    }
  }

  /**
   * PUT /api/todos/:id, checked in the order of the source: a non-numeric id (400), a
   * status outside the list (400), a task that is missing or not the caller's (404), and
   * only then the partial update of the supplied, sanitised fields (200). An empty status
   * slips past the list check and is refused by the store's CHECK constraint (500).
   */
  method UpdateTask(db: DatabaseService, userId: int, taskId: Option<int>, req: UpdateTaskRequest)
    returns (res: Response)
    requires db.Valid()
    modifies db
    ensures db.Valid()
    ensures taskId.None? ==> res == Error(400, InvalidTaskId) && unchanged(db)
    ensures taskId.Some? && RejectedStatus(req.status) ==> res == Error(400, InvalidStatus) && unchanged(db)
    ensures taskId.Some? && !RejectedStatus(req.status) && !HasRow(old(db.tasks), taskId.value, userId) ==>
              res == Error(404, TaskNotFound) && unchanged(db)
    ensures taskId.Some? && !RejectedStatus(req.status) && HasRow(old(db.tasks), taskId.value, userId) ==>
              if req.status == Some("") then
                res == Error(500, UpdateFailed) && db.tasks == old(db.tasks)
              else
                res.status == 200 && res.body.TaskBody?
                && res.body.task == FindTask(db.tasks, taskId.value, userId) && res.body.task.Some?
                && |db.tasks| == |old(db.tasks)|
                && forall i :: 0 <= i < |db.tasks| ==>
                     db.tasks[i] == if SuppliesAny(Sanitized(req)) && Matches(old(db.tasks)[i], taskId.value, userId)
                                    then Patched(old(db.tasks)[i], Sanitized(req), db.clock)
                                    else old(db.tasks)[i]
    ensures |db.tasks| == |old(db.tasks)|
    ensures forall i :: 0 <= i < |db.tasks| && old(db.tasks)[i].userId != userId ==> db.tasks[i] == old(db.tasks)[i]
    ensures db.users == old(db.users)
  {
    if taskId.None? {
      return Error(400, InvalidTaskId);
    }
    var id := taskId.value;

    if req.status.Some? && req.status.value != "" && req.status.value !in ValidStatuses {
      return Error(400, InvalidStatus);
    }

    var existing := db.GetTaskById(id, userId);
    if existing.None? {
      return Error(404, TaskNotFound);
    }

    var sanitizedUpdates := TaskUpdates(None, None, None);
    if req.title.Some? {
      sanitizedUpdates := sanitizedUpdates.(title := Some(SanitizeTaskTitle(req.title.value)));
    }
    if req.description.Some? {
      sanitizedUpdates := sanitizedUpdates.(description := Some(SanitizeTaskDescription(req.description.value)));
    }
    if req.status.Some? {
      sanitizedUpdates := sanitizedUpdates.(status := req.status);
    }
    assert sanitizedUpdates == Sanitized(req);
    RejectedStatusIff(req.status);
    res := ApplyUpdate(db, userId, id, sanitizedUpdates);
  }

  /** The last step of PUT: the owned task exists, so the answer is its updated row (or the CHECK's 500). */
  method ApplyUpdate(db: DatabaseService, userId: int, id: int, updates: TaskUpdates) returns (res: Response)
    requires db.Valid() && HasRow(db.tasks, id, userId)
    requires updates.status.Some? && updates.status.value != "" ==> IsTaskStatus(updates.status.value)
    modifies db
    ensures db.Valid()
    ensures updates.status == Some("") ==> res == Error(500, UpdateFailed) && db.tasks == old(db.tasks)
    ensures updates.status != Some("") ==>
              res.status == 200 && res.body.TaskBody?
              && res.body.task == FindTask(db.tasks, id, userId) && res.body.task.Some?
              && |db.tasks| == |old(db.tasks)|
              && forall i :: 0 <= i < |db.tasks| ==>
                   db.tasks[i] == if SuppliesAny(updates) && Matches(old(db.tasks)[i], id, userId)
                                  then Patched(old(db.tasks)[i], updates, db.clock)
                                  else old(db.tasks)[i]
    ensures db.users == old(db.users)
  {
    ghost var before := db.tasks;
    ghost var i :| 0 <= i < |before| && Matches(before[i], id, userId);
    var updated := db.UpdateTask(id, userId, updates);
    match updated {
      case Fail(_) =>
        res := Error(500, UpdateFailed);
      case Ok(task) =>
        assert Matches(db.tasks[i], id, userId);
        res := Response(200, TaskBody(task));
    }
  }

  /**
   * DELETE /api/todos/:id: a non-numeric id is a 400; otherwise only a row with this id
   * that the caller owns is removed (200), and anything else is a 404 with the table as it was.
   */
  method DeleteTask(db: DatabaseService, userId: int, taskId: Option<int>) returns (res: Response)
    requires db.Valid()
    modifies db
    ensures db.Valid()
    ensures taskId.None? ==> res == Error(400, InvalidTaskId) && unchanged(db)
    ensures taskId.Some? && !HasRow(old(db.tasks), taskId.value, userId) ==>
              res == Error(404, TaskNotFound) && db.tasks == old(db.tasks)
    ensures taskId.Some? && HasRow(old(db.tasks), taskId.value, userId) ==>
              res == Response(200, MessageBody(TaskDeleted))
              && |db.tasks| == |old(db.tasks)| - 1
              && forall t :: t in db.tasks <==> t in old(db.tasks) && !Matches(t, taskId.value, userId)
    ensures forall t :: t in old(db.tasks) && t.userId != userId ==> t in db.tasks
    ensures forall t :: t in db.tasks ==> t in old(db.tasks)
    ensures db.users == old(db.users)
  {
    if taskId.None? {
      return Error(400, InvalidTaskId);
    }
    var id := taskId.value;
    DeleteRemovesOneRow(db.tasks, id, userId);
    if !HasRow(db.tasks, id, userId) {
      DeleteNothing(db.tasks, id, userId);
    }
    var deleted := db.DeleteTask(id, userId);
    if !deleted {
      return Error(404, TaskNotFound);
    }
    res := Response(200, MessageBody(TaskDeleted));
  }

  /** A request to the task router, after `parseInt` of the `:id` segment. */
  datatype TodoRequest =
    | ListTasks
    | PostTask(create: CreateTaskRequest)
    | PutTask(putId: Option<int>, update: UpdateTaskRequest)
    | DeleteById(deleteId: Option<int>)

  /** The user id `authMiddleware` attaches to the request, or None when it answers 401 itself. */
  function TokenUser(authorization: Option<string>, verify: string -> Option<JwtPayload>): (u: Option<int>)
    ensures u.None? <==> AuthMiddleware.Authenticate(authorization, verify).Unauthorized?
    ensures u.Some? ==> authorization.Some? && AuthMiddleware.BearerPrefix <= authorization.value
                        && var payload := verify(authorization.value[|AuthMiddleware.BearerPrefix|..]);
                           payload.Some? && payload.value.userId == u.value
  {
    match AuthMiddleware.Authenticate(authorization, verify)
    case Unauthorized(_) => None
    case Authenticated(user) => Some(user.userId)
  }

  /**
   * `router.use(authMiddleware)` in front of the four handlers: without a verified token
   * nothing runs and the store is untouched; with one, the handler acts for the token's
   * user and touches no row of anyone else, nor any other row of that user.
   */
  method Route(db: DatabaseService, authorization: Option<string>,
               verify: string -> Option<JwtPayload>, req: TodoRequest) returns (res: Response)
    requires db.Valid()
    modifies db
    ensures db.Valid()
    ensures TokenUser(authorization, verify).None? ==>
              res == AuthMiddleware.Authenticate(authorization, verify).response && res.status == 401
              && unchanged(db)
    ensures TokenUser(authorization, verify).Some? && req.ListTasks? ==>
              var u := TokenUser(authorization, verify).value;
              unchanged(db) && res.status == 200 && res.body.TasksBody?
              && (forall t :: t in res.body.tasks <==> t in db.tasks && t.userId == u)
              && forall i, j :: 0 <= i < j < |res.body.tasks| ==> res.body.tasks[i].createdAt > res.body.tasks[j].createdAt
    ensures TokenUser(authorization, verify).Some? && req.PostTask? ==>
              var u := TokenUser(authorization, verify).value;
              db.tasks == old(db.tasks)
              || (|db.tasks| == |old(db.tasks)| + 1 && db.tasks[..|old(db.tasks)|] == old(db.tasks)
                  && db.tasks[|old(db.tasks)|].userId == u)
    ensures TokenUser(authorization, verify).Some? && req.PostTask?
            && !MissingTitle(req.create.title) && HasUser(old(db.users), TokenUser(authorization, verify).value) ==>
              var u := TokenUser(authorization, verify).value;
              res.status == 201 && |db.tasks| == |old(db.tasks)| + 1
              && var t := db.tasks[|old(db.tasks)|];
                 t.userId == u && t.status == "todo" && t.title == SanitizeTaskTitle(req.create.title.value)
                 && res.body == TaskBody(Some(t))
    ensures TokenUser(authorization, verify).Some? && req.PutTask? ==>
              var u := TokenUser(authorization, verify).value;
              |db.tasks| == |old(db.tasks)|
              && (forall i :: 0 <= i < |db.tasks| && old(db.tasks)[i].userId != u ==> db.tasks[i] == old(db.tasks)[i])
              && (req.putId.Some? ==>
                    forall i :: 0 <= i < |db.tasks| && !Matches(old(db.tasks)[i], req.putId.value, u) ==>
                      db.tasks[i] == old(db.tasks)[i])
    ensures TokenUser(authorization, verify).Some? && req.DeleteById? ==>
              var u := TokenUser(authorization, verify).value;
              (forall t :: t in db.tasks ==> t in old(db.tasks))
              && (forall t :: t in old(db.tasks) && t.userId != u ==> t in db.tasks)
              && (req.deleteId.Some? ==>
                    forall t :: t in old(db.tasks) && !Matches(t, req.deleteId.value, u) ==> t in db.tasks)
    ensures db.users == old(db.users)
  {
    var outcome := AuthMiddleware.Authenticate(authorization, verify);
    match outcome {
      case Unauthorized(response) =>
        res := response;
      case Authenticated(user) =>
        match req {
          case ListTasks => res := GetTasks(db, user.userId);
          case PostTask(create) => res := CreateTask(db, user.userId, create);
          case PutTask(id, update) => res := UpdateTask(db, user.userId, id, update);
          case DeleteById(id) => res := DeleteTask(db, user.userId, id);
        }
    }
  }
}
