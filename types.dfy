/** Rows and payloads shared by the store, the middleware and the route handlers. */
module Types {

  datatype Option<+T> = None | Some(value: T)

  /** The three lanes a task can be in; the `tasks.status` column holds one of these strings. */
  const TaskStatuses: set<string> := {"todo", "doing", "done"}

  predicate IsTaskStatus(s: string) {
    s in TaskStatuses
  }

  /** A row of the `users` table. `createdAt` is the store's clock at insertion. */
  datatype User = User(id: int, email: string, passwordHash: string, createdAt: nat)

  /**
   * A row of the `tasks` table. `description` is SQL NULL when None; `status` is the raw
   * column text, which the table's CHECK constraint keeps inside TaskStatuses.
   */
  datatype Task = Task(
    id: int,
    userId: int,
    title: string,
    description: Option<string>,
    status: string,
    createdAt: nat,
    updatedAt: nat)

  /** The identity carried inside a bearer token. */
  datatype JwtPayload = JwtPayload(userId: int, email: string)
}

/** The (status code, JSON body) pairs the handlers and middleware answer with. */
module Http {
  import opened Types

  datatype Body =
    | ErrorBody(error: string)
    | TasksBody(tasks: seq<Task>)
    | TaskBody(task: Option<Task>)
    | MessageBody(message: string)
    | RegisteredBody(message: string, userId: int)
    | LoginBody(message: string, token: string, user: JwtPayload)

  datatype Response = Response(status: int, body: Body)

  /** The `res.status(status).json({ error: message })` shape used by every failure. */
  function Error(status: int, message: string): Response {
    Response(status, ErrorBody(message))
  }
}
