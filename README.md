# Secure Task Manager backend: a Dafny model

This project models the request-handling core of the Secure Task Manager
backend, an Express and MongoDB service. Each user keeps a private list of
tasks there, and task descriptions are stored encrypted. The model covers:

- **Field encryption** (`Encryption`). The 32-byte key check, the envelope
  `hex(iv) ":" hex(ciphertext)` that `encryptText` writes, and the lenient
  parsing in `decryptText`. Node's UTF-8 and hex buffers are written out in
  `Bytes`. JavaScript's `trim`, `split` and `parseInt` are in `Text`.
- **Session tokens and cookies** (`Jwt`). The missing-secret guards, the
  24-hour token lifetime and the cookie policy.
- **The authentication gate** (`AuthMiddleware`). It reads the `token`
  cookie. It then either answers 401 or attaches `{id, email, name}` to the
  request and calls `next()`.
- **Register, login, logout and the current user** (`AuthController`). These
  work over an in-memory user collection (`UserStore`).
- **The task handlers** (`TaskController`, with the listing logic in
  `TaskListing`). They work over an in-memory task collection (`TaskStore`),
  and every lookup is scoped to the caller.
- **Request validation** (`TaskValidators`, `ValidateRequest`). The
  express-validator rule chains, and the mapping from their errors to
  `next()` or a 400 answer.

The collections (`TaskStore.TaskCollection`, `UserStore.UserCollection`) and
the request exchange (`Http.Exchange`) are classes whose methods change them
in place: `Insert`, `Save`, `FindOneAndDelete`, `Send` and `CallNext`. The
handlers that change state (`TaskController.CreateTask`, `UpdateTask`,
`DeleteTask`, `AuthController.Register` and `AuthMiddleware.Authenticate`) are
methods that take those objects as parameters. Each method's `ensures` is
written in terms of a specification function: `NewTask`, `Revised`,
`FindOwned`, `Decide` and `Session`. The lemmas state what the source promises about those functions.
Decisions that only compute a value are functions.

Libraries the code calls are parameters, not axioms:

- a `Cipher` stands for AES-256-CBC;
- a `Signer` stands for `jsonwebtoken`;
- a `Hasher` stands for bcrypt.

The ghost predicates `Inverts`, `Padded`, `Sound` and `Verifies` state what
those libraries guarantee. Only the lemmas that need a guarantee require it.

Randomness, the clock and newly generated ids are inputs:

- the IV and the bcrypt salt;
- `now`, in seconds;
- new ObjectIds.

An outcome `NextError(e)` stands for `next(error)`, that is, an answer from
the error handler.

## Model

| member | source | states |
|---|---|---|
| `Bytes.Utf8LengthIsAscii` | backend/src/utils/encryption.js:12-13 | `Buffer.from(secret, "utf8")` has exactly one byte per character if and only if the secret is ASCII, and then the bytes are the character codes |
| `Bytes.Utf8Append` | backend/src/utils/encryption.js:12 | UTF-8 encoding distributes over concatenation |
| `Bytes.HexEncode` | backend/src/utils/encryption.js:26 | `toString("hex")` writes exactly two lower-case hex digits per byte |
| `Bytes.HexDecode` | backend/src/utils/encryption.js:36 | `Buffer.from(s, "hex")` yields at most half as many bytes as characters |
| `Bytes.HexRoundTrip` | backend/src/utils/encryption.js:26-36 | decoding the hex that was written gives back the same bytes |
| `Bytes.HexDecodeAllHex` | backend/src/utils/encryption.js:36 | a string of hex digits of even length decodes to exactly half its length |
| `Text.TrimSpec` | backend/src/validators/taskValidators.js:6-7 | after `trim` neither end is white space, and nothing is left exactly when the input was all white space |
| `Text.TrimIdempotent` | backend/src/models/Task.js:5-9 | trimming an already trimmed title (validator, then schema) changes nothing |
| `Text.Split` | backend/src/utils/encryption.js:31 | `split(":")` yields at least one field and no field contains a colon |
| `Text.SplitJoin` | backend/src/utils/encryption.js:31 | joining the fields of `split(":")` with colons restores the string |
| `Text.ParseIntOfIntString` | backend/src/controllers/taskController.js:34-35 | on every string `isInt` accepts, `parseInt` reads the whole string, giving exactly the value written |
| `Text.DecimalString` | backend/src/utils/encryption.js:39 | the decimal form of a length, as Node writes it into the odd-length error message: non-empty digits whose value is the number |
| `Encryption.GetKey` | backend/src/utils/encryption.js:6-17 | an absent or empty secret is refused as not configured; a secret whose UTF-8 encoding is not 32 bytes is refused for its length; otherwise the key is exactly those 32 bytes |
| `Encryption.AsciiSecretKey` | backend/src/utils/encryption.js:12-14 | for an ASCII secret the key is accepted if and only if the secret has 32 characters |
| `Encryption.NonAsciiSecretOf32CharsRefused` | backend/src/utils/encryption.js:13-14 | a 32-character secret that contains a two-byte character is refused, although the message asks for 32 characters |
| `Encryption.EncryptFailsOnlyOnKey` | backend/src/utils/encryption.js:19-27 | encryption fails exactly when `getKey` throws, and then with the same error |
| `Encryption.EncryptText` | backend/src/utils/encryption.js:19-27 | fails exactly when `getKey` throws, with its error; otherwise the envelope is the IV's 32 hex digits, one colon, and a ciphertext field with no further colon |
| `Encryption.EnvelopeShape` | backend/src/utils/encryption.js:4-27 | an envelope is 32 hex digits (the 16-byte IV), one colon, then one or more hex digits, and its first 32 characters decode to the IV |
| `Encryption.EnvelopeFields` | backend/src/utils/encryption.js:26-31 | splitting a well-formed envelope at colons gives exactly the IV field and the ciphertext field |
| `Encryption.DecryptText` | backend/src/utils/encryption.js:29-42 | `decryptText` throws only a configuration error, a cipher error, or the TypeError `decipher.update` raises for a ciphertext field of odd length |
| `Encryption.DecryptFields` | backend/src/utils/encryption.js:36-41 | the checks run in the source's order: the key error first, then "Invalid initialization vector" for an IV that does not decode to 16 bytes, then the TypeError for an odd-length ciphertext; a result is what the cipher decrypts from the decoded IV and ciphertext |
| `Encryption.DecryptEncrypt` | backend/src/utils/encryption.js:19-42 | under the same configuration, decrypting what `encryptText` wrote gives back the plaintext, for every plaintext, given a cipher whose decryption inverts its encryption |
| `Encryption.DecryptEmpty` | backend/src/utils/encryption.js:30 | an absent or empty value decrypts to the empty string |
| `Encryption.DecryptWithoutColon` | backend/src/utils/encryption.js:31-35 | a value with no colon is returned unchanged |
| `Encryption.DecryptEmptyField` | backend/src/utils/encryption.js:31-35 | a value whose first or second colon-separated field is empty is returned unchanged |
| `Encryption.DecryptIgnoresThirdField` | backend/src/utils/encryption.js:31 | anything after a second colon has no effect on decryption |
| `Encryption.ShortFirstFieldThrows` | backend/src/utils/encryption.js:31-38 | plain text with a colon whose first field is shorter than 32 characters is not passed through: it throws "Invalid initialization vector" |
| `Encryption.ColonPlainTextThrows` | backend/src/utils/encryption.js:31-38 | the legacy description "note: buy milk" makes `decryptText` throw instead of returning it |
| `Encryption.OddCiphertextThrows` | backend/src/utils/encryption.js:36-39 | once the key and a 16-byte IV are accepted, a ciphertext field of odd length throws the TypeError that names its length, before anything is decrypted |
| `Encryption.ExtendedEnvelopeThrows` | backend/src/utils/encryption.js:26-39 | an envelope with one more hex digit appended throws that TypeError instead of decrypting |
| `Jwt.IssuedClaims` | backend/src/utils/jwt.js:3-11 | a token's claims carry the user id, and it expires 86400 seconds after it is issued |
| `Jwt.GenerateToken` | backend/src/utils/jwt.js:5-12 | signing fails exactly when the secret is absent or empty, with "JWT_SECRET is not configured" |
| `Jwt.VerifyToken` | backend/src/utils/jwt.js:14-19 | verification fails without a secret; a verified token has not yet expired |
| `Jwt.IssuedTokenVerifies` | backend/src/utils/jwt.js:5-19 | a token issued for a user verifies to that user while less than 24 hours have passed, and is refused as expired from then on |
| `Jwt.GetCookieOptions` | backend/src/utils/jwt.js:21-29 | the cookie is always HTTP-only with a max age of 86,400,000 ms (the token lifetime); it is secure exactly in production, and secure exactly when same-site is "none"; otherwise same-site is "lax" |
| `Models.CastObjectId` | backend/src/controllers/taskController.js:83 | a string casts if and only if it is 24 hex digits (either case), and then it names a 12-byte ObjectId |
| `Models.CastIdString` | backend/src/middleware/auth.js:24 | casting an id's string form gives back the id |
| `Models.Public` | backend/src/middleware/auth.js:24-25 | `req.user` carries the user's email and name and the 24-digit string form of the id, which casts back to that id |
| `Models.ParseStatus` | backend/src/models/Task.js:14-18 | a status string is accepted if and only if it is one of the enum's names, and then it is stored under that name |
| `Models.StatusNamesRoundTrip` | backend/src/validators/taskValidators.js:3 | the allowed statuses are exactly "Pending", "In Progress" and "Completed", and each one names itself |
| `TaskStore.FindOwned` | backend/src/controllers/taskController.js:83 | the lookup finds a task with both that id and that owner, and finds none exactly when no task has both |
| `TaskStore.FindOwnedUnique` | backend/src/controllers/taskController.js:83 | with unique ids, the task found is the only one with that id |
| `TaskStore.RemovePreservesDistinct` | backend/src/controllers/taskController.js:152-155 | removing a document keeps the `_id`s unique |
| `TaskStore.TaskCollection.Insert` | backend/src/controllers/taskController.js:9-14 | `Task.create` appends the task exactly when its id is new, and otherwise leaves the collection unchanged; every stored task keeps a non-empty title and description |
| `TaskStore.TaskCollection.Save` | backend/src/controllers/taskController.js:131 | `save()` replaces only the document it was fetched as |
| `TaskStore.TaskCollection.FindOneAndDelete` | backend/src/controllers/taskController.js:152-155 | removes exactly the matching document and returns it; without a match nothing changes |
| `UserStore.FindByEmail` | backend/src/controllers/authController.js:11 | finds a user with that email, and finds none exactly when no user has it |
| `UserStore.FindById` | backend/src/middleware/auth.js:15 | finds the user with that id, and finds none exactly when no user has it |
| `UserStore.FindByIdOfMember` | backend/src/middleware/auth.js:15 | with unique ids, looking up a stored user's id finds that user |
| `UserStore.FindByEmailAfterInsert` | backend/src/controllers/authController.js:21-50 | a user registered under a new email is what a later lookup by that email finds |
| `UserStore.UserCollection.Insert` | backend/src/controllers/authController.js:21-25 | `User.create` appends the user exactly when the id is new |
| `Http.Exchange.Send` | backend/src/middleware/auth.js:8-11 | writing a response appends it and leaves `req.user` and the `next()` count alone |
| `Http.Exchange.CallNext` | backend/src/middleware/auth.js:25 | `next()` is counted and sends nothing |
| `AuthMiddleware.Authenticate` | backend/src/middleware/auth.js:4-32 | the gate either sends exactly one 401, without calling `next` or touching `req.user`, or sets `req.user` to the stored user's public fields and calls `next` once; the user store is only read |
| `AuthMiddleware.Decide` | backend/src/middleware/auth.js:4-32 | a request is admitted exactly when a token is present, verifies, names a castable id and that id has a stored user; the admitted user is the public form of a stored user; the only refusals are "Authentication token missing", "Invalid or expired authentication token" and "Invalid authentication token" |
| `AuthMiddleware.MissingTokenRejected` | backend/src/middleware/auth.js:6-12 | with no token cookie the answer is 401 "Authentication token missing" |
| `AuthMiddleware.UnverifiedTokenRejected` | backend/src/middleware/auth.js:14-31 | a token that fails verification gets 401 "Invalid or expired authentication token" |
| `AuthMiddleware.NoSecretNoEntry` | backend/src/middleware/auth.js:14-31 | with no signing secret configured, every request is refused |
| `AuthMiddleware.UnknownUserRejected` | backend/src/middleware/auth.js:15-22 | a verified token for an id that no user has gets 401 "Invalid authentication token" |
| `AuthMiddleware.AdmittedUserIsStored` | backend/src/middleware/auth.js:15-25 | an admitted user is a stored user, exposed as `{id, email, name}` only, and named by the verified token |
| `AuthMiddleware.IssuedTokenAdmits` | backend/src/middleware/auth.js:4-32 | a token issued for a stored user gets that user through the gate for 24 hours, and is refused after that |
| `AuthController.NewUser` | backend/src/controllers/authController.js:19-25 | the stored password is the bcrypt hash of the password, made with 10 salt rounds |
| `AuthController.Session` | backend/src/controllers/authController.js:27-39 | a session answer sets cookie `token` with `getCookieOptions` and returns the user's `{id, name, email}`; it fails exactly when no signing secret is configured |
| `AuthController.Register` | backend/src/controllers/authController.js:7-44 | a taken email gets 400 "Email is already registered" and stores nothing; otherwise exactly one user is stored, with the hashed password, before the token is signed; then 201 with the session cookie |
| `AuthController.Login` | backend/src/controllers/authController.js:46-83 | an unknown email gets 400 "Invalid email or password"; a 200 opens a session for a stored user with that email whose hash matches the password |
| `AuthController.Logout` | backend/src/controllers/authController.js:85-101 | logout answers 200 "Logged out successfully" and clears cookie `token` with options HTTP-only, same-site "strict", secure exactly in production, and no max age |
| `AuthController.GetCurrentUser` | backend/src/controllers/authController.js:103-120 | 401 "Not authenticated" without `req.user`; otherwise 200 with `req.user` unchanged |
| `AuthController.LoginFailuresAlike` | backend/src/controllers/authController.js:50-64 | an unknown email and a wrong password get the identical 400 answer |
| `AuthController.RegisterThenLogin` | backend/src/controllers/authController.js:19-78 | whoever has just registered can log in with the same credentials and gets a session for the new account |
| `AuthController.SessionTokenVerifies` | backend/src/controllers/authController.js:66-69 | the cookie set at login holds a token that verifies to the user's id for a day |
| `AuthController.LogoutClearsSessionCookie` | backend/src/controllers/authController.js:87-92 | the cleared cookie has the session cookie's `secure` and HTTP-only flags and no max age; its same-site is "strict", unlike the session cookie's |
| `TaskListing.NumberOr` | backend/src/controllers/taskController.js:34-35 | `parseInt(q, 10)`, or the default `d` when that is falsy, is never 0, and is the default when the value is absent |
| `TaskListing.ValidatedNumber` | backend/src/controllers/taskController.js:34-35 | a validated page or limit is read as the positive integer written |
| `TaskListing.SkipNonNegative` | backend/src/controllers/taskController.js:36 | the skip is never negative for a page and limit of at least 1 |
| `TaskListing.Skip` | backend/src/controllers/taskController.js:36 | page 1 skips nothing; for page and limit of at least 1 the skip is non-negative and the page ends at task `page*limit` |
| `TaskListing.ValidatedPaging` | backend/src/controllers/taskController.js:34-36 | for validated values the page and limit are the integers given (or the defaults), and `skip = (page-1)*limit >= 0` |
| `TaskListing.PagingDefaults` | backend/src/controllers/taskController.js:34-36 | absent, unparseable or zero values give page 1, limit 10 and skip 0 |
| `TaskListing.CeilDiv` | backend/src/controllers/taskController.js:72 | `Math.ceil(total / limit)` is never positive for a negative limit |
| `TaskListing.CeilDivBounds` | backend/src/controllers/taskController.js:72 | `totalPages*limit >= total`; `(totalPages-1)*limit < total` when there are tasks; `totalPages == 0` when there are none |
| `TaskListing.Select` | backend/src/controllers/taskController.js:39-50 | every task found is a stored task that matches the owner, status and search filter |
| `TaskListing.SelectComplete` | backend/src/controllers/taskController.js:39-50 | a task is found if and only if it is stored and matches the filter |
| `TaskListing.InsertByDate` | backend/src/controllers/taskController.js:51 | inserting into a newest-first list keeps it newest first and adds exactly that task |
| `TaskListing.SortNewestFirst` | backend/src/controllers/taskController.js:51 | `sort({ createdAt: -1 })` gives a newest-first permutation of the tasks found |
| `TaskListing.Window` | backend/src/controllers/taskController.js:52-53 | `skip(skip).limit(limit)` gives at most the absolute value of `limit` tasks, taken in order from position `skip` |
| `TaskListing.WindowNewestFirst` | backend/src/controllers/taskController.js:51-53 | a page of a newest-first list is newest first |
| `TaskListing.PageOfSound` | backend/src/controllers/taskController.js:39-55 | every listed task is a stored task of the caller that passes the status and search filters; there are at most `limit` of them, newest first |
| `TaskListing.PageOf` | backend/src/controllers/taskController.js:50-53 | the page is newest first and holds as many tasks as the absolute value of `limit` while enough remain after the skip, the rest otherwise, none past the end |
| `TaskController.CheckPaths` | backend/src/models/Task.js:5-18 | schema validation passes exactly when a checked title is non-empty and a checked status is in the enum |
| `TaskController.EncryptField` | backend/src/controllers/taskController.js:7 | a given description is encrypted as `encryptText` does; an absent one throws |
| `TaskController.NewTask` | backend/src/controllers/taskController.js:6-14 | a created task has the new id, the caller as owner, the creation time and the trimmed, non-empty title; its status is the given one, or "Pending" when none is given |
| `TaskController.View` | backend/src/controllers/taskController.js:19-25 | a task is shown with its string id, its title, its decrypted description, its status name and its creation time; it fails exactly when decryption throws |
| `TaskController.ViewAll` | backend/src/controllers/taskController.js:57-63 | the list shows every task in order, and fails if any task's description cannot be decrypted |
| `TaskController.Shown` | backend/src/controllers/taskController.js:16-26 | a one-task answer carries the shown task, or the decryption error instead |
| `TaskController.CreateTask` | backend/src/controllers/taskController.js:4-30 | stores exactly one task of the caller and answers 201 with it, or stores nothing when encryption, schema validation or the insert fails |
| `TaskController.CreateRoundTrip` | backend/src/controllers/taskController.js:6-25 | with a working cipher and key, the stored description is an envelope, and the answer gives back the submitted description, the trimmed title and the status ("Pending" by default) |
| `TaskController.CreateDefaultsToPending` | backend/src/controllers/taskController.js:12 | a falsy status is stored as "Pending" |
| `TaskController.GetTasks` | backend/src/controllers/taskController.js:32-78 | a successful listing is a 200 task list; it fails on the skip exactly when the skip is negative |
| `TaskController.GetTasksShowsPage` | backend/src/controllers/taskController.js:32-78 | the answer shows the selected page decrypted: at most `limit` stored tasks of the caller, each with the requested status and matching the search, newest first, with page, limit, the number of matching tasks and the page count |
| `TaskController.ValidatedListingHasNoBadSkip` | backend/src/controllers/taskController.js:34-36 | with validated paging values the listing never fails on a negative skip |
| `TaskController.GetTaskById` | backend/src/controllers/taskController.js:80-105 | an id that cannot be cast fails; an id the caller owns no task under gets 404 "Task not found" |
| `TaskController.OthersTasksHidden` | backend/src/controllers/taskController.js:83-90 | another user asking for a task by its id gets the same 404 as for an id that does not exist |
| `TaskController.OwnTaskShown` | backend/src/controllers/taskController.js:83-101 | the owner asking for a task by its id is shown that task |
| `TaskController.Revised` | backend/src/controllers/taskController.js:121-131 | an update never changes the id, the owner or the creation time; `save()` succeeds only with a non-empty title, given or stored, and the saved document is storable |
| `TaskController.UpdateTask` | backend/src/controllers/taskController.js:107-147 | a miss gets 404 and changes nothing; otherwise only the caller's task is replaced by its revision and the answer shows it; an error before the save changes nothing |
| `TaskController.UpdateChangesOnlyGivenFields` | backend/src/controllers/taskController.js:121-131 | only the given fields change: the title is trimmed, the status is the one named, and the description is re-encrypted so that it decrypts to the text given; absent fields, the owner and the creation time keep their values |
| `TaskController.EmptyUpdateKeepsTask` | backend/src/controllers/taskController.js:121-131 | an update that gives no fields saves the task unchanged; only a task with an empty title, which the store never holds, fails with "Path `title` is required" |
| `TaskController.DeleteTask` | backend/src/controllers/taskController.js:149-171 | a miss gets 404 "Task not found" and changes nothing; otherwise exactly the caller's task with that id is removed, and the answer is 200 "Task deleted successfully" |
| `TaskController.DeleteRemovesExactlyOne` | backend/src/controllers/taskController.js:152-155 | deletion removes one document: every other task stays, and no task with that id is left |
| `ValidateRequest.HasQueryError` | backend/src/middleware/validateRequest.js:7 | true exactly when some error comes from the query string |
| `ValidateRequest.FieldErrorsOf` | backend/src/middleware/validateRequest.js:20-23 | one `{field, message}` per error, in the same order |
| `ValidateRequest.Validate` | backend/src/middleware/validateRequest.js:3-27 | no errors calls `next` and sends nothing; any query error gets 400 "Invalid query parameters" with no list; otherwise 400 "Validation failed" lists every error; never both |
| `ValidateRequest.QueryErrorDominates` | backend/src/middleware/validateRequest.js:7-14 | one query error anywhere decides the answer, whatever the other errors are |
| `ValidateRequest.FieldErrorsConcat` | backend/src/middleware/validateRequest.js:20-23 | the detailed list keeps the errors' order across groups |
| `TaskValidators.RequiredText` | backend/src/validators/taskValidators.js:6-7 | a required field passes exactly when it is present and non-empty after trimming |
| `TaskValidators.OptionalText` | backend/src/validators/taskValidators.js:16-21 | an optional field passes exactly when it is absent or non-empty after trimming |
| `TaskValidators.OptionalStatus` | backend/src/validators/taskValidators.js:8-25 | a status passes exactly when it is absent or one of the allowed names |
| `TaskValidators.TaskIdErrors` | backend/src/validators/taskValidators.js:55 | an id passes exactly when it is a Mongo id |
| `TaskValidators.ValidateCreate` | backend/src/validators/taskValidators.js:5-12 | create passes exactly when the title and description are non-empty after trimming and the status is absent or allowed; the title and description are trimmed |
| `TaskValidators.UpdateBodyErrors` | backend/src/validators/taskValidators.js:16-25 | the body chains of update pass exactly when each given title and description is non-empty after trimming and each given status is allowed |
| `TaskValidators.ValidateUpdate` | backend/src/validators/taskValidators.js:14-26 | update passes exactly when the id is a Mongo id and every given field is acceptable |
| `TaskValidators.PositiveIntQuery` | backend/src/validators/taskValidators.js:29-40 | a page or limit passes exactly when it is absent or an integer of at least 1 |
| `TaskValidators.ValidateQuery` | backend/src/validators/taskValidators.js:28-52 | the query passes exactly when page and limit are absent or positive integers and status is absent or allowed; every error is a query error; the search is trimmed |
| `TaskValidators.ValidateTaskId` | backend/src/validators/taskValidators.js:54-56 | the id rule passes exactly for Mongo ids, and reports path errors only |
| `TaskValidators.QueryFailuresAreTerse` | backend/src/validators/taskValidators.js:28-52 | every failed listing query gets the terse 400, never the detailed list |
| `TaskValidators.UpdateErrorsOutsideQuery` | backend/src/validators/taskValidators.js:14-26 | the update rules report no query errors |
| `TaskValidators.BodyFailuresAreDetailed` | backend/src/validators/taskValidators.js:14-26 | a failed update gets the detailed 400, one entry per failed check in chain order |
| `TaskValidators.EmptyPageReportedTwice` | backend/src/validators/taskValidators.js:29-34 | an empty page fails both of its checks, since the chain does not stop at its first failure |
| `TaskValidators.ValidQueryPages` | backend/src/validators/taskValidators.js:28-40 | a query that passes validation gives page and limit of at least 1 and a non-negative skip |
| `TaskValidators.ValidCreateIsStored` | backend/src/validators/taskValidators.js:5-12 | a body that passes create validation, once sanitized, is accepted by the schema, so it is stored whenever the key is configured |
| `TaskValidators.CastableIdsAreMongoIds` | backend/src/validators/taskValidators.js:55 | every id Mongoose can cast passes `isMongoId` |
| `TaskValidators.PrefixedIdPassesButDoesNotCast` | backend/src/validators/taskValidators.js:55 | `"0x"` followed by 22 hex digits passes `isMongoId` but cannot be cast, so the handler fails with a cast error instead of a 400 |

## Left out

- Cryptography is not modelled. AES-256-CBC, PKCS#7 padding and
  `crypto.randomBytes` are parameters: the `Cipher` and the IV.
- Library internals are not modelled. Signing and verifying inside
  `jsonwebtoken` and bcrypt's hashing and comparison are parameters: the
  `Signer` and the `Hasher`. With an abstract signer the model cannot show
  that a token signed with a different secret is refused.
- MongoDB and Mongoose are in-memory sequences. The connection in
  `backend/src/config/db.js` is not modelled. `$regex` search with the `"i"`
  option is an opaque `titleMatches` predicate, because regular-expression
  semantics are not visible here.
- `backend/src/models/User.js` is not part of this model. Its schema,
  validation, email normalisation and any unique index on email are
  unknown. A user is only the four fields the controllers read.
- `async`/`await` and `Promise.all` are not modelled. Each handler runs as
  one sequential step, so interleaving of concurrent requests is left out.
  That includes two registrations of one email racing between `findOne`
  and `create`.
- Express wiring is left out: routing, CORS, helmet, cookie parsing,
  logging, the frontend, and the error handler's 500 answer (`NextError`
  stands for `next(error)`). The model assumes that the authentication gate
  runs before every task route (backend/src/routes/taskRoutes.js:21).
- The validators are assumed to run before each handler. The handlers take
  the caller as the ObjectId behind `req.user.id`, which the gate always
  sets from a stored user's id.
- Request fields are modelled as strings or absent. Arrays, numbers and
  objects in a JSON body or a repeated query parameter are left out, and so
  is the "Search must be a string" check that only such values can fail.
- JavaScript numbers are unbounded integers in the model. Floating-point
  precision of very large `page` or `limit` values is not captured.
  `createdAt` is an integer timestamp.
- Strings are sequences of Unicode scalar values, so lone UTF-16 surrogates
  are not represented.
- `Text.ParseInt`: `parseInt` skipping leading white space is not
  modelled, because validated values never have any.
- `Encryption.DecryptText`: every failure of `decipher.final` is reported as
  "bad decrypt". Node reports a ciphertext that is not a whole number of
  blocks as "wrong final block length". The odd-length check counts
  characters, while Node counts UTF-16 code units, so the two differ for a
  ciphertext field that holds a character outside the Basic Multilingual
  Plane.
- `TaskController.Revised`: `save()` also checks that a stored `description`
  is non-empty. The model does not repeat that check, because every stored
  task has a non-empty description (`TaskStore.TaskCollection.Valid`), and
  an update with a new description has passed the non-empty validator.
- `TaskListing.SortNewestFirst`: tasks created at the same instant keep
  their insertion order. MongoDB leaves their order unspecified.
- `TaskValidators.ValidateCreate` and `TaskValidators.ValidateUpdate`: an
  absent field stays absent after the trimming sanitizer. express-validator
  may write an empty string there instead, but the request is refused in
  either case.
- `ValidateRequest.FieldErrorsOf`: the field name is the error's `param`,
  as express-validator 6 reports it. Version 7 renames it `path`, which
  would leave `field` undefined.
- `Models.CastObjectId`: only the 24-hex-digit string form of an ObjectId
  is modelled. The 12-character raw form that Mongoose also casts is left
  out.
