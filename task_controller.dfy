/**
  The task handlers (backend/src/controllers/taskController.js), each for a
  caller the authentication gate has admitted. The caller is given by the
  ObjectId that `req.user.id` names: the gate sets that string from a stored
  user's id, so Mongoose always casts it back to that id.

  The description is stored as an encryption envelope and shown decrypted;
  the IV of a new envelope, the id of a new task and the creation time are
  inputs. Errors that reach `next(error)` are answered by the error handler.
*/
module TaskController {
  import opened Wrappers
  import opened Errors
  import opened Config
  import opened Bytes
  import opened Text
  import opened Models
  import opened Encryption
  import opened TaskStore
  import opened TaskListing
  import opened Http

  const TaskNotFound := "Task not found"

  // ---------------------------------------------------------------- documents

  /**
    Mongoose's validation of the paths it checks: a required (non-empty)
    title and a status from the enum; the failing paths are reported in one
    error, in schema order. `None` is a path that is not checked (one that an
    update leaves unmodified).
  */
  function CheckPaths(title: Option<string>, status: Option<string>): (r: Option<Error>)
    ensures r.None? <==> (title.None? || title.value != "") && (status.None? || ParseStatus(status.value).Some?)
  {
    var titleFails := title.Some? && title.value == "";
    var statusFails := status.Some? && ParseStatus(status.value).None?;
    var titleMessage := "title: Path `title` is required.";
    var statusMessage := if status.Some? then "status: `" + status.value + "` is not a valid enum value for path `status`." else "";
    if titleFails && statusFails then Some(SchemaError("Task validation failed: " + titleMessage + ", " + statusMessage))
    else if titleFails then Some(SchemaError("Task validation failed: title: Path `title` is required."))
    else if statusFails then Some(SchemaError("Task validation failed: " + statusMessage))
    else None
  }

  /** `encryptText(description)` for a body field that may be absent: `undefined` makes the cipher throw. */
  function EncryptField(plainText: Option<string>, iv: seq<byte>, env: Env, c: Cipher): (r: Result<string, Error>)
    requires |iv| == IV_LENGTH
    ensures plainText.Some? ==> r == EncryptText(plainText.value, iv, env, c)
    ensures plainText.None? ==> r.Err?
  {
    match plainText
    case Some(p) => EncryptText(p, iv, env, c)
    case None =>
      match GetKey(env)
      case Err(e) => Err(e)
      case Ok(_) => Err(TypeError(UndefinedData))
  }

  /**
    The document `createTask` asks `Task.create` to store, or the error
    thrown before anything is stored: the description is encrypted first,
    the title is trimmed by the schema, and a falsy status becomes "Pending".
  */
  function NewTask(caller: ObjectId, body: TaskBody, env: Env, now: int, iv: seq<byte>, newId: ObjectId, c: Cipher)
    : (r: Result<Task, Error>)
    requires |iv| == IV_LENGTH
    ensures r.Ok? ==> r.value.id == newId && r.value.userId == caller && r.value.createdAt == now
    ensures r.Ok? ==> r.value.title != "" && body.title.Some? && r.value.title == Trim(body.title.value)
    ensures r.Ok? ==> Storable(r.value)
    ensures r.Ok? && Truthy(body.status) ==> ParseStatus(body.status.value) == Some(r.value.status)
    ensures r.Ok? && !Truthy(body.status) ==> r.value.status == Pending
  {
    match EncryptField(body.description, iv, env, c)
    case Err(e) => Err(e)
    case Ok(envelope) =>
      var title := if body.title.Some? then Trim(body.title.value) else "";
      var status := if Truthy(body.status) then body.status.value else "Pending";
      match CheckPaths(Some(title), Some(status))
      case Some(e) => Err(e)
      case None => Ok(Task(newId, title, envelope, ParseStatus(status).value, caller, now))
  }

  /** A task as the responses show it, with its description decrypted. */
  function View(t: Task, env: Env, c: Cipher): (r: Result<TaskView, Error>)
    ensures r.Err? <==> DecryptText(Some(t.description), env, c).Err?
    ensures r.Err? ==> r.error.ConfigError? || r.error.CipherError? || r.error.TypeError?
    ensures r.Ok? ==> r.value == TaskView(IdString(t.id), t.title, DecryptText(Some(t.description), env, c).value,
                                          StatusName(t.status), t.createdAt)
  {
    match DecryptText(Some(t.description), env, c)
    case Err(e) => Err(e)
    case Ok(description) => Ok(TaskView(IdString(t.id), t.title, description, StatusName(t.status), t.createdAt))
  }

  /** `tasks.map(...)` with `decryptText`: the first task that cannot be decrypted makes the whole list fail. */
  function ViewAll(ts: seq<Task>, env: Env, c: Cipher): (r: Result<seq<TaskView>, Error>)
    ensures r.Ok? <==> forall i :: 0 <= i < |ts| ==> View(ts[i], env, c).Ok?
    ensures r.Err? ==> r.error.ConfigError? || r.error.CipherError? || r.error.TypeError?
    ensures r.Ok? ==> |r.value| == |ts| && forall i :: 0 <= i < |ts| ==> r.value[i] == View(ts[i], env, c).value
  {
    if ts == [] then Ok([])
    else
      var head := View(ts[0], env, c);
      var tail := ViewAll(ts[1..], env, c);
      assert forall i :: 1 <= i < |ts| ==> ts[i] == ts[1..][i - 1];
      if head.Err? then Err(head.error)
      else if tail.Err? then Err(tail.error)
      else Ok([head.value] + tail.value)
  }

  /** A successful answer carrying one task, or the decryption error in its place. */
  function Shown(status: nat, message: Option<string>, t: Task, env: Env, c: Cipher): (o: Outcome)
    ensures o.NextError? <==> View(t, env, c).Err?
    ensures o.Respond? ==> o.response == Response(status, NoCookie, true, message, TaskData(View(t, env, c).value))
  {
    match View(t, env, c)
    case Err(e) => NextError(e)
    case Ok(v) => Respond(Response(status, NoCookie, true, message, TaskData(v)))
  }

  // ---------------------------------------------------------------- createTask

  /**
    `createTask`: stores exactly one new task of the caller, or nothing if
    encryption, schema validation or the insert fails; the answer shows the
    stored task with its description decrypted again.
  */
  method CreateTask(store: TaskCollection, caller: ObjectId, body: TaskBody, env: Env, now: int,
                    iv: seq<byte>, newId: ObjectId, c: Cipher) returns (o: Outcome)
    requires store.Valid() && |iv| == IV_LENGTH
    modifies store
    ensures store.Valid()
    ensures match NewTask(caller, body, env, now, iv, newId, c)
      case Err(e) => o == NextError(e) && store.tasks == old(store.tasks)
      case Ok(t) =>
        if HasId(old(store.tasks), newId) then o == NextError(DuplicateKey) && store.tasks == old(store.tasks)
        else store.tasks == old(store.tasks) + [t] && o == Shown(201, Some("Task created successfully"), t, env, c)
  {
    var encrypted := EncryptField(body.description, iv, env, c);
    if encrypted.Err? {
      return NextError(encrypted.error);
    }
    var title := if body.title.Some? then Trim(body.title.value) else "";
    var status := if Truthy(body.status) then body.status.value else "Pending";
    var invalid := CheckPaths(Some(title), Some(status));
    if invalid.Some? {
      return NextError(invalid.value);
    }
    var task := Task(newId, title, encrypted.value, ParseStatus(status).value, caller, now);
    var created := store.Insert(task);
    if !created {
      return NextError(DuplicateKey);
    }
    o := Shown(201, Some("Task created successfully"), task, env, c);
  }

  /**
    With a working cipher and key, creating a task with a non-blank title
    and a valid or absent status succeeds: the stored description is an
    envelope, and the answer gives back the submitted description, the
    trimmed title and the status ("Pending" when none was given).
  */
  lemma CreateRoundTrip(caller: ObjectId, title: string, description: string, status: Option<string>,
                        env: Env, now: int, iv: seq<byte>, newId: ObjectId, c: Cipher)
    requires |iv| == IV_LENGTH && Inverts(c) && Padded(c) && GetKey(env).Ok?
    requires Trim(title) != ""
    requires !Truthy(status) || status.value in StatusNames
    ensures var r := NewTask(caller, TaskBody(Some(title), Some(description), status), env, now, iv, newId, c);
      r.Ok? && WellFormedEnvelope(r.value.description) &&
      Shown(201, Some("Task created successfully"), r.value, env, c) ==
        Respond(Response(201, NoCookie, true, Some("Task created successfully"),
          TaskData(TaskView(IdString(newId), Trim(title), description,
                            if Truthy(status) then status.value else "Pending", now))))
  {
    EncryptFailsOnlyOnKey(description, iv, env, c);
    EnvelopeShape(description, iv, env, c);
    DecryptEncrypt(description, iv, env, c);
    var envelope := EncryptText(description, iv, env, c).value;
    var st := if Truthy(status) then status.value else "Pending";
    assert EncryptField(Some(description), iv, env, c) == Ok(envelope);
    assert CheckPaths(Some(Trim(title)), Some(st)) == None;
    var t := Task(newId, Trim(title), envelope, ParseStatus(st).value, caller, now);
    assert NewTask(caller, TaskBody(Some(title), Some(description), status), env, now, iv, newId, c) == Ok(t);
    assert StatusName(t.status) == st;
    assert View(t, env, c) == Ok(TaskView(IdString(newId), Trim(title), description, st, now));
  }

  /** A falsy status (absent or empty) is stored as "Pending". */
  lemma CreateDefaultsToPending(caller: ObjectId, body: TaskBody, env: Env, now: int, iv: seq<byte>, newId: ObjectId, c: Cipher)
    requires |iv| == IV_LENGTH && !Truthy(body.status)
    requires NewTask(caller, body, env, now, iv, newId, c).Ok?
    ensures NewTask(caller, body, env, now, iv, newId, c).value.status == Pending
  {
  }

  // ---------------------------------------------------------------- getTasks

  /**
    `getTasks`: one page of the caller's tasks, newest first, with the page
    number and limit read from the query, the number of matching tasks and
    the number of pages. A negative skip makes MongoDB refuse the query.
  */
  function GetTasks(ts: seq<Task>, caller: ObjectId, q: TaskQuery, titleMatches: (string, string) -> bool,
                    env: Env, c: Cipher): (o: Outcome)
    ensures o.Respond? ==> o.response.status == 200 && o.response.data.TaskList?
    ensures o == NextError(BadSkip) <==> Skip(NumberOr(q.page, DEFAULT_PAGE), NumberOr(q.limit, DEFAULT_LIMIT)) < 0
  {
    var page := NumberOr(q.page, DEFAULT_PAGE);
    var limit := NumberOr(q.limit, DEFAULT_LIMIT);
    var skip := Skip(page, limit);
    if skip < 0 then NextError(BadSkip)
    else
      var total := |Select(ts, caller, q.status, q.search, titleMatches)|;
      match ViewAll(PageOf(ts, caller, q.status, q.search, skip, limit, titleMatches), env, c)
      case Err(e) => NextError(e)
      case Ok(views) =>
        Respond(Response(200, NoCookie, true, None, TaskList(views, Pagination(page, limit, total, CeilDiv(total, limit)))))
  }

  /**
    A listing answer shows exactly the page `PageOf` selects, decrypted: at
    most `limit` of the caller's tasks, each passing the status and search
    filters, newest first; it reports the number of the caller's matching
    tasks and the page count.
  */
  lemma GetTasksShowsPage(ts: seq<Task>, caller: ObjectId, q: TaskQuery, titleMatches: (string, string) -> bool,
                          env: Env, c: Cipher)
    requires GetTasks(ts, caller, q, titleMatches, env, c).Respond?
    ensures var page, limit := NumberOr(q.page, DEFAULT_PAGE), NumberOr(q.limit, DEFAULT_LIMIT);
      var listed := PageOf(ts, caller, q.status, q.search, Skip(page, limit), limit, titleMatches);
      var data := GetTasks(ts, caller, q, titleMatches, env, c).response.data;
      Skip(page, limit) >= 0 &&
      |data.tasks| == |listed| <= Abs(limit) &&
      (forall i :: 0 <= i < |listed| ==> data.tasks[i] == View(listed[i], env, c).value) &&
      (forall i :: 0 <= i < |listed| ==>
        listed[i] in ts && listed[i].userId == caller &&
        (Truthy(q.status) ==> StatusName(listed[i].status) == q.status.value) &&
        (Truthy(q.search) ==> titleMatches(q.search.value, listed[i].title))) &&
      NewestFirst(listed) &&
      data.pagination == Pagination(page, limit, |Select(ts, caller, q.status, q.search, titleMatches)|,
                                    CeilDiv(|Select(ts, caller, q.status, q.search, titleMatches)|, limit))
  {
    var page, limit := NumberOr(q.page, DEFAULT_PAGE), NumberOr(q.limit, DEFAULT_LIMIT);
    PageOfSound(ts, caller, q.status, q.search, Skip(page, limit), limit, titleMatches);
  }

  /** With validated paging values the listing never fails on the skip. */
  lemma ValidatedListingHasNoBadSkip(ts: seq<Task>, caller: ObjectId, q: TaskQuery, titleMatches: (string, string) -> bool,
                                     env: Env, c: Cipher)
    requires q.page.None? || (IsIntString(q.page.value) && IntValue(q.page.value) >= 1)
    requires q.limit.None? || (IsIntString(q.limit.value) && IntValue(q.limit.value) >= 1)
    ensures GetTasks(ts, caller, q, titleMatches, env, c) != NextError(BadSkip)
  {
    ValidatedPaging(q.page, q.limit);
  }

  // ---------------------------------------------------------------- getTaskById

  /** `getTaskById`: the caller's task with that id, or 404 when the caller has none. */
  function GetTaskById(ts: seq<Task>, caller: ObjectId, id: string, env: Env, c: Cipher): (o: Outcome)
    ensures CastObjectId(id).None? ==> o == NextError(CastError)
    ensures CastObjectId(id).Some? && FindOwned(ts, CastObjectId(id).value, caller).None? ==>
      o == Respond(Failure(404, TaskNotFound))
  {
    match CastObjectId(id)
    case None => NextError(CastError)
    case Some(oid) =>
      match FindOwned(ts, oid, caller)
      case None => Respond(Failure(404, TaskNotFound))
      case Some(k) => Shown(200, None, ts[k], env, c)
  }

  /**
    A task is shown only to its owner: another user asking for it by its id
    gets the same 404 as for an id that does not exist.
  */
  lemma OthersTasksHidden(ts: seq<Task>, caller: ObjectId, t: Task, env: Env, c: Cipher)
    requires DistinctIds(ts) && t in ts && t.userId != caller && ValidObjectId(t.id)
    ensures GetTaskById(ts, caller, IdString(t.id), env, c) == Respond(Failure(404, TaskNotFound))
  {
    CastIdString(t.id);
    var k :| 0 <= k < |ts| && ts[k] == t;
    if FindOwned(ts, t.id, caller).Some? {
      FindOwnedUnique(ts, t.id, caller);
    }
  }

  /** The owner asking for a task by its id gets that task. */
  lemma OwnTaskShown(ts: seq<Task>, t: Task, env: Env, c: Cipher)
    requires DistinctIds(ts) && t in ts && ValidObjectId(t.id)
    ensures GetTaskById(ts, t.userId, IdString(t.id), env, c) == Shown(200, None, t, env, c)
  {
    CastIdString(t.id);
    var k :| 0 <= k < |ts| && ts[k] == t;
    FindOwnedUnique(ts, t.id, t.userId);
  }

  // ---------------------------------------------------------------- updateTask

  /**
    The record `updateTask` saves: each field given in the body is set (the
    title trimmed by the schema, the description re-encrypted). `save()`
    validates the title whether or not it was given, and a given status; a
    stored status is always in the enum.
  */
  function Revised(t: Task, body: TaskBody, env: Env, iv: seq<byte>, c: Cipher): (r: Result<Task, Error>)
    requires |iv| == IV_LENGTH
    ensures r.Ok? ==> r.value.id == t.id && r.value.userId == t.userId && r.value.createdAt == t.createdAt
    ensures r.Ok? ==> r.value.title != ""
    ensures r.Ok? && (body.description.Some? || t.description != "") ==> Storable(r.value)
  {
    var title := if body.title.Some? then Trim(body.title.value) else t.title;
    var description := if body.description.Some? then EncryptText(body.description.value, iv, env, c) else Ok(t.description);
    if description.Err? then Err(description.error)
    else
      match CheckPaths(Some(title), body.status)
      case Some(e) => Err(e)
      case None =>
        var status := if body.status.Some? then ParseStatus(body.status.value).value else t.status;
        Ok(t.(title := title, description := description.value, status := status))
  }

  /**
    `updateTask`: fetches the caller's task, sets the given fields one by
    one and saves it in place; a miss answers 404 and changes nothing, and
    so does any error before the save.
  */
  method UpdateTask(store: TaskCollection, caller: ObjectId, id: string, body: TaskBody, env: Env,
                    iv: seq<byte>, c: Cipher) returns (o: Outcome)
    requires store.Valid() && |iv| == IV_LENGTH
    modifies store
    ensures store.Valid()
    ensures CastObjectId(id).None? ==> o == NextError(CastError) && store.tasks == old(store.tasks)
    ensures CastObjectId(id).Some? ==>
      match FindOwned(old(store.tasks), CastObjectId(id).value, caller)
      case None => o == Respond(Failure(404, TaskNotFound)) && store.tasks == old(store.tasks)
      case Some(k) =>
        match Revised(old(store.tasks)[k], body, env, iv, c)
        case Err(e) => o == NextError(e) && store.tasks == old(store.tasks)
        case Ok(t) => store.tasks == old(store.tasks)[k := t] && o == Shown(200, Some("Task updated successfully"), t, env, c)
  {
    var oid := CastObjectId(id);
    if oid.None? {
      return NextError(CastError);
    }
    var found := FindOwned(store.tasks, oid.value, caller);
    if found.None? {
      return Respond(Failure(404, TaskNotFound));
    }
    var k := found.value;
    var task := store.tasks[k];
    if body.title.Some? {
      task := task.(title := Trim(body.title.value));
    }
    if body.description.Some? {
      var encrypted := EncryptText(body.description.value, iv, env, c);
      if encrypted.Err? {
        return NextError(encrypted.error);
      }
      task := task.(description := encrypted.value);
    }
    var invalid := CheckPaths(Some(task.title), body.status);
    if invalid.Some? {
      return NextError(invalid.value);
    }
    if body.status.Some? {
      task := task.(status := ParseStatus(body.status.value).value);
    }
    store.Save(k, task);
    o := Shown(200, Some("Task updated successfully"), task, env, c);
  }

  /**
    An update changes only the fields the body gives: a given title is
    stored trimmed, a given status as the status it names, a given
    description as an envelope that decrypts back to it; absent fields, the
    owner and the creation time keep their values.
  */
  lemma UpdateChangesOnlyGivenFields(t: Task, body: TaskBody, env: Env, iv: seq<byte>, c: Cipher)
    requires |iv| == IV_LENGTH && Inverts(c) && Padded(c)
    requires Revised(t, body, env, iv, c).Ok?
    ensures var u := Revised(t, body, env, iv, c).value;
      u.id == t.id && u.userId == t.userId && u.createdAt == t.createdAt &&
      u.title == (if body.title.Some? then Trim(body.title.value) else t.title) &&
      u.status == (if body.status.Some? then ParseStatus(body.status.value).value else t.status) &&
      (body.description.None? ==> u.description == t.description) &&
      (body.description.Some? ==> DecryptText(Some(u.description), env, c) == Ok(body.description.value))
  {
    if body.description.Some? {
      DecryptEncrypt(body.description.value, iv, env, c);
    }
  }

  /**
    An update with no fields at all saves the task as it was; only a task
    whose title is empty, which the store never holds, fails validation.
  */
  lemma EmptyUpdateKeepsTask(t: Task, env: Env, iv: seq<byte>, c: Cipher)
    requires |iv| == IV_LENGTH
    ensures t.title != "" ==> Revised(t, TaskBody(None, None, None), env, iv, c) == Ok(t)
    ensures t.title == "" ==>
      Revised(t, TaskBody(None, None, None), env, iv, c) == Err(SchemaError("Task validation failed: title: Path `title` is required."))
  {
    if t.title != "" {
      assert CheckPaths(Some(t.title), None).None?;
      assert t.(title := t.title, description := t.description, status := t.status) == t;
    }
  }

  // ---------------------------------------------------------------- deleteTask

  /**
    `deleteTask`: removes the caller's task with that id and nothing else; a
    miss answers 404 and changes nothing.
  */
  method DeleteTask(store: TaskCollection, caller: ObjectId, id: string) returns (o: Outcome)
    requires store.Valid()
    modifies store
    ensures store.Valid()
    ensures CastObjectId(id).None? ==> o == NextError(CastError) && store.tasks == old(store.tasks)
    ensures CastObjectId(id).Some? ==>
      match FindOwned(old(store.tasks), CastObjectId(id).value, caller)
      case None => o == Respond(Failure(404, TaskNotFound)) && store.tasks == old(store.tasks)
      case Some(k) =>
        o == Respond(Response(200, NoCookie, true, Some("Task deleted successfully"), NoData)) &&
        store.tasks == old(store.tasks)[..k] + old(store.tasks)[k + 1..]
  {
    var oid := CastObjectId(id);
    if oid.None? {
      return NextError(CastError);
    }
    var deleted := store.FindOneAndDelete(oid.value, caller);
    if deleted.None? {
      return Respond(Failure(404, TaskNotFound));
    }
    o := Respond(Response(200, NoCookie, true, Some("Task deleted successfully"), NoData));
  }

  /**
    Deleting the task at position `k` removes exactly that one document:
    every other task stays, and no task with its id is left.
  */
  lemma DeleteRemovesExactlyOne(ts: seq<Task>, k: nat)
    requires DistinctIds(ts) && k < |ts|
    ensures multiset(ts[..k] + ts[k + 1..]) + multiset{ts[k]} == multiset(ts)
    ensures !HasId(ts[..k] + ts[k + 1..], ts[k].id)
    ensures forall i :: 0 <= i < |ts| && i != k ==> ts[i] in ts[..k] + ts[k + 1..]
  {
    assert ts == ts[..k] + [ts[k]] + ts[k + 1..];
    var r := ts[..k] + ts[k + 1..];
    forall i | 0 <= i < |r| ensures r[i].id != ts[k].id {
      if i < k { assert r[i] == ts[i]; } else { assert r[i] == ts[i + 1]; }
    }
    forall i | 0 <= i < |ts| && i != k ensures ts[i] in r {
      if i < k { assert r[i] == ts[i]; } else { assert r[i - 1] == ts[i]; }
    }
  }
}
