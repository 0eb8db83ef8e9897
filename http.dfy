/**
  What a handler does with an Express request: send one JSON response
  (status, optional cookie change, body), call `next()`, or call
  `next(error)` so that the error handler answers.
*/
module Http {
  import opened Wrappers
  import opened Errors
  import opened Models
  import opened Jwt

  /** The task fields of a JSON request body; `None` is a field that is absent (`undefined`). */
  datatype TaskBody = TaskBody(title: Option<string>, description: Option<string>, status: Option<string>)

  /** The query string of `GET /api/tasks`. */
  datatype TaskQuery = TaskQuery(page: Option<string>, limit: Option<string>, status: Option<string>, search: Option<string>)

  datatype FieldError = FieldError(field: string, message: string)

  datatype Pagination = Pagination(page: int, limit: int, total: nat, totalPages: int)

  /** A task as responses show it: string id, decrypted description, status name. */
  datatype TaskView = TaskView(id: string, title: string, description: string, status: string, createdAt: int)

  /** The payload beside `success` and `message` in a JSON body. */
  datatype Data =
    | NoData
    | TaskData(task: TaskView)
    | TaskList(tasks: seq<TaskView>, pagination: Pagination)
    | UserData(user: PublicUser)
    | FieldErrors(errors: seq<FieldError>)

  datatype Cookie =
    | NoCookie
    | SetCookie(name: string, value: string, options: CookieOptions)
    | ClearCookie(name: string, options: CookieOptions)

  datatype Response = Response(status: nat, cookie: Cookie, success: bool, message: Option<string>, data: Data)

  datatype Outcome =
    | Respond(response: Response)
    | Next
    | NextError(error: Error)

  /** `res.status(status).json({ success: false, message })`. */
  function Failure(status: nat, message: string): Response {
    Response(status, NoCookie, false, Some(message), NoData)
  }

  /**
    One request/response exchange as middleware sees it: the request's
    `token` cookie and `user`, the responses written so far and the number
    of calls to `next()`.
  */
  class Exchange {
    const token: Option<string>
    var user: Option<PublicUser>
    var sent: seq<Response>
    var nextCalls: nat

    constructor (token: Option<string>)
      ensures this.token == token && user == None && sent == [] && nextCalls == 0
    {
      this.token := token;
      user := None;
      sent := [];
      nextCalls := 0;
    }

    /** `res.status(..).json(..)`. */
    method Send(r: Response)
      modifies this
      ensures sent == old(sent) + [r]
      ensures user == old(user) && nextCalls == old(nextCalls)
    {
      sent := sent + [r];
    }

    /** `next()`. */
    method CallNext()
      modifies this
      ensures nextCalls == old(nextCalls) + 1
      ensures user == old(user) && sent == old(sent)
    {
      nextCalls := nextCalls + 1;
    }
  }
}
