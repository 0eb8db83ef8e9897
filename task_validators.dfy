/**
  The validation chains of the task routes
  (backend/src/validators/taskValidators.js), as express-validator runs
  them: the chains of a route in order, each reporting every check that
  fails (none of them stops at its first failure), with the trimming
  sanitizers writing the trimmed value back into the request.
*/
module TaskValidators {
  import opened Wrappers
  import opened Errors
  import opened Config
  import opened Bytes
  import opened Text
  import opened Models
  import opened Encryption
  import opened Http
  import opened TaskListing
  import opened TaskController
  import opened ValidateRequest

  /** The errors the chains found and the request as the sanitizers left it. */
  datatype Checked<T> = Checked(errors: seq<ValidationError>, sanitized: T)

  const StatusChoices := "Status must be one of: Pending, In Progress, Completed"

  /** `isIn(allowedStatuses)`. */
  predicate IsAllowedStatus(s: string) {
    s in StatusNames
  }

  /** validator.js `isInt(s, { min: 1 })`: an optionally signed run of digits whose value is at least 1. */
  predicate IsPositiveInt(s: string) {
    IsIntString(s) && IntValue(s) >= 1
  }

  /** validator.js `isHexadecimal`: `/^(0x|0h)?[0-9a-fA-F]+$/i`. */
  predicate IsHexadecimal(s: string) {
    var digits := if |s| >= 2 && s[0] == '0' && s[1] in "xXhH" then s[2..] else s;
    digits != [] && AllHex(digits)
  }

  /** validator.js `isMongoId`: hexadecimal and 24 characters long. */
  predicate IsMongoId(s: string) {
    IsHexadecimal(s) && |s| == 24
  }

  function Trimmed(v: Option<string>): Option<string> {
    if v.None? then None else Some(Trim(v.value))
  }

  /** `check(...).trim().notEmpty().withMessage(msg)` on a required field. */
  function RequiredText(field: string, v: Option<string>, msg: string): (r: seq<ValidationError>)
    ensures r == [] <==> v.Some? && Trim(v.value) != ""
    ensures forall i :: 0 <= i < |r| ==> r[i].location == Body
  {
    if v.None? || Trim(v.value) == "" then [ValidationError(Body, field, msg)] else []
  }

  /** `check(...).optional().trim().notEmpty().withMessage(msg)`. */
  function OptionalText(field: string, v: Option<string>, msg: string): (r: seq<ValidationError>)
    ensures r == [] <==> v.None? || Trim(v.value) != ""
    ensures forall i :: 0 <= i < |r| ==> r[i].location == Body
  {
    if v.Some? && Trim(v.value) == "" then [ValidationError(Body, field, msg)] else []
  }

  /** `body("status").optional().isIn(allowedStatuses)`. */
  function OptionalStatus(v: Option<string>): (r: seq<ValidationError>)
    ensures r == [] <==> v.None? || IsAllowedStatus(v.value)
    ensures forall i :: 0 <= i < |r| ==> r[i].location == Body
  {
    if v.Some? && !IsAllowedStatus(v.value) then [ValidationError(Body, "status", "Invalid status value")] else []
  }

  /** `param("id").isMongoId()`. */
  function TaskIdErrors(id: string): (r: seq<ValidationError>)
    ensures r == [] <==> IsMongoId(id)
    ensures forall i :: 0 <= i < |r| ==> r[i].location == Params
  {
    if IsMongoId(id) then [] else [ValidationError(Params, "id", "Invalid task id")]
  }

  // ---------------------------------------------------------------- the four rule sets

  /** `createTaskValidation`. */
  function ValidateCreate(b: TaskBody): (r: Checked<TaskBody>)
    ensures r.errors == [] <==>
      b.title.Some? && Trim(b.title.value) != "" &&
      b.description.Some? && Trim(b.description.value) != "" &&
      (b.status.None? || IsAllowedStatus(b.status.value))
    ensures forall i :: 0 <= i < |r.errors| ==> r.errors[i].location == Body
    ensures r.sanitized == TaskBody(Trimmed(b.title), Trimmed(b.description), b.status)
  {
    Checked(RequiredText("title", b.title, "Title is required") +
            RequiredText("description", b.description, "Description is required") +
            OptionalStatus(b.status),
            TaskBody(Trimmed(b.title), Trimmed(b.description), b.status))
  }

  /** The body chains of `updateTaskValidation`. */
  function UpdateBodyErrors(b: TaskBody): (r: seq<ValidationError>)
    ensures r == [] <==>
      (b.title.None? || Trim(b.title.value) != "") &&
      (b.description.None? || Trim(b.description.value) != "") &&
      (b.status.None? || IsAllowedStatus(b.status.value))
    ensures forall i :: 0 <= i < |r| ==> r[i].location == Body
  {
    var title := OptionalText("title", b.title, "Title cannot be empty");
    var description := OptionalText("description", b.description, "Description cannot be empty");
    var status := OptionalStatus(b.status);
    BodyErrorsConcat(title, description, status);
    title + description + status
  }

  /** Errors from body chains, run one after another, are still body errors and none is lost. */
  lemma BodyErrorsConcat(a: seq<ValidationError>, b: seq<ValidationError>, c: seq<ValidationError>)
    requires forall i :: 0 <= i < |a| ==> a[i].location == Body
    requires forall i :: 0 <= i < |b| ==> b[i].location == Body
    requires forall i :: 0 <= i < |c| ==> c[i].location == Body
    ensures forall i :: 0 <= i < |a + b + c| ==> (a + b + c)[i].location == Body
    ensures a + b + c == [] <==> a == [] && b == [] && c == []
  {
    assert |a + b + c| == |a| + |b| + |c|;
  }

  /** `updateTaskValidation`. */
  function ValidateUpdate(id: string, b: TaskBody): (r: Checked<TaskBody>)
    ensures r.errors == [] <==>
      IsMongoId(id) &&
      (b.title.None? || Trim(b.title.value) != "") &&
      (b.description.None? || Trim(b.description.value) != "") &&
      (b.status.None? || IsAllowedStatus(b.status.value))
    ensures r.sanitized == TaskBody(Trimmed(b.title), Trimmed(b.description), b.status)
  {
    Checked(TaskIdErrors(id) + UpdateBodyErrors(b), TaskBody(Trimmed(b.title), Trimmed(b.description), b.status))
  }

  /**
    `query(field).optional().notEmpty().withMessage(empty).isInt({ min: 1 }).withMessage(notInt)`:
    an empty value fails both checks.
  */
  function PositiveIntQuery(field: string, v: Option<string>, empty: string, notInt: string): (r: seq<ValidationError>)
    ensures r == [] <==> v.None? || IsPositiveInt(v.value)
  {
    if v.None? then []
    else
      (if v.value == "" then [ValidationError(Query, field, empty)] else []) +
      (if !IsPositiveInt(v.value) then [ValidationError(Query, field, notInt)] else [])
  }

  /** `getTasksQueryValidation`. */
  function ValidateQuery(q: TaskQuery): (r: Checked<TaskQuery>)
    ensures r.errors == [] <==>
      (q.page.None? || IsPositiveInt(q.page.value)) &&
      (q.limit.None? || IsPositiveInt(q.limit.value)) &&
      (q.status.None? || IsAllowedStatus(q.status.value))
    ensures forall i :: 0 <= i < |r.errors| ==> r.errors[i].location == Query
    ensures r.sanitized == TaskQuery(q.page, q.limit, q.status, Trimmed(q.search))
  {
    var statusErrors :=
      if q.status.None? then []
      else
        (if q.status.value == "" then [ValidationError(Query, "status", "Status cannot be empty")] else []) +
        (if !IsAllowedStatus(q.status.value) then [ValidationError(Query, "status", StatusChoices)] else []);
    Checked(PositiveIntQuery("page", q.page, "Page cannot be empty", "Page must be a positive integer") +
            PositiveIntQuery("limit", q.limit, "Limit cannot be empty", "Limit must be a positive integer") +
            statusErrors,
            TaskQuery(q.page, q.limit, q.status, Trimmed(q.search)))
  }

  /** `taskIdParamValidation`. */
  function ValidateTaskId(id: string): (r: seq<ValidationError>)
    ensures r == [] <==> IsMongoId(id)
    ensures forall i :: 0 <= i < |r| ==> r[i].location == Params
  {
    TaskIdErrors(id)
  }

  // ---------------------------------------------------------------- properties

  /** Every failed query check gets the terse answer, never the detailed list. */
  lemma QueryFailuresAreTerse(q: TaskQuery)
    requires ValidateQuery(q).errors != []
    ensures Validate(ValidateQuery(q).errors) == Respond(Failure(400, InvalidQuery))
  {
    assert ValidateQuery(q).errors[0].location == Query;
  }

  /** The update rules check only the path and the body, never the query string. */
  lemma UpdateErrorsOutsideQuery(id: string, b: TaskBody)
    ensures !HasQueryError(ValidateUpdate(id, b).errors)
  {
    var a, f := TaskIdErrors(id), UpdateBodyErrors(b);
    assert ValidateUpdate(id, b).errors == a + f;
    NoQueryErrorIn(a, f);
  }

  lemma NoQueryErrorIn(a: seq<ValidationError>, f: seq<ValidationError>)
    requires forall i :: 0 <= i < |a| ==> a[i].location == Params
    requires forall i :: 0 <= i < |f| ==> f[i].location == Body
    ensures !HasQueryError(a + f)
  {
    forall i | 0 <= i < |a + f| ensures (a + f)[i].location != Query {
      if i < |a| {
        assert (a + f)[i] == a[i];
      } else {
        assert (a + f)[i] == f[i - |a|];
      }
    }
  }

  /** Failed body and id checks get the detailed list, one entry per failed check in chain order. */
  lemma BodyFailuresAreDetailed(id: string, b: TaskBody)
    requires ValidateUpdate(id, b).errors != []
    ensures Validate(ValidateUpdate(id, b).errors) ==
      Respond(Response(400, NoCookie, false, Some(ValidationFailed), FieldErrors(FieldErrorsOf(ValidateUpdate(id, b).errors))))
  {
    UpdateErrorsOutsideQuery(id, b);
  }

  /** An empty page number fails both of its checks, so it is reported twice. */
  lemma EmptyPageReportedTwice(q: TaskQuery)
    requires q.page == Some("")
    ensures |ValidateQuery(q).errors| >= 2
    ensures ValidateQuery(q).errors[..2] ==
      [ValidationError(Query, "page", "Page cannot be empty"), ValidationError(Query, "page", "Page must be a positive integer")]
  {
  }

  /**
    A query that passes validation cannot make the listing fail on its
    skip: the page and limit are read as the positive integers written.
  */
  lemma ValidQueryPages(q: TaskQuery)
    requires ValidateQuery(q).errors == []
    ensures var s := ValidateQuery(q).sanitized;
      NumberOr(s.page, DEFAULT_PAGE) >= 1 && NumberOr(s.limit, DEFAULT_LIMIT) >= 1 &&
      Skip(NumberOr(s.page, DEFAULT_PAGE), NumberOr(s.limit, DEFAULT_LIMIT)) >= 0
  {
    ValidatedPaging(q.page, q.limit);
  }

  /**
    A body that passes `createTaskValidation`, once sanitized, is stored by
    `createTask` whenever the key is configured and the cipher works: the
    schema never refuses what the validators accepted.
  */
  lemma ValidCreateIsStored(b: TaskBody, caller: ObjectId, env: Env, now: int, iv: seq<byte>, newId: ObjectId, c: Cipher)
    requires |iv| == IV_LENGTH && GetKey(env).Ok?
    requires ValidateCreate(b).errors == []
    ensures NewTask(caller, ValidateCreate(b).sanitized, env, now, iv, newId, c).Ok?
  {
    var s := ValidateCreate(b).sanitized;
    TrimIdempotent(b.title.value);
    EncryptFailsOnlyOnKey(s.description.value, iv, env, c);
    assert EncryptField(s.description, iv, env, c).Ok?;
    var title := Trim(s.title.value);
    var status := if Truthy(s.status) then s.status.value else "Pending";
    assert title != "";
    assert ParseStatus(status).Some?;
    assert CheckPaths(Some(title), Some(status)).None?;
  }

  /** Every id string Mongoose can cast passes `isMongoId`. */
  lemma CastableIdsAreMongoIds(s: string)
    requires CastObjectId(s).Some?
    ensures IsMongoId(s)
  {
    assert IsHexDigit(s[1]);
    assert !(s[1] in "xXhH");
    assert AllHex(s[2..]) by {
      forall i | 0 <= i < |s[2..]| ensures IsHexDigit(s[2..][i]) {
        assert s[2..][i] == s[i + 2];
      }
    }
  }

  /**
    The converse fails: `isMongoId` accepts a `0x`-prefixed string of 22 hex
    digits, which Mongoose cannot cast, so such an id passes validation and
    the handler fails with a cast error (500) instead of a 400.
  */
  lemma PrefixedIdPassesButDoesNotCast()
    ensures var id := "0x" + "0123456789abcdef012345";
      IsMongoId(id) && CastObjectId(id).None? && ValidateTaskId(id) == []
  {
    var id := "0x" + "0123456789abcdef012345";
    assert id[1] == 'x' && !IsHexDigit(id[1]);
    assert id[2..] == "0123456789abcdef012345";
  }
}
