/**
  The records the core stores and returns: tasks (backend/src/models/Task.js),
  users (their model file is not part of this model; only the fields the core
  reads are kept) and MongoDB ObjectIds with the string casts Mongoose applies.
*/
module Models {
  import opened Wrappers
  import opened Bytes

  /** A MongoDB ObjectId: 12 bytes, written as 24 lower-case hex digits. */
  type ObjectId = seq<byte>

  predicate ValidObjectId(id: ObjectId) {
    |id| == 12
  }

  /** `id.toString()`. */
  function IdString(id: ObjectId): (s: string)
    ensures |s| == 2 * |id|
  {
    HexEncode(id)
  }

  /**
    The cast Mongoose applies to a string used where an ObjectId is expected:
    24 hex digits in either case; anything else is a cast error (`None`).
  */
  function CastObjectId(s: string): (r: Option<ObjectId>)
    ensures r.Some? <==> |s| == 24 && AllHex(s)
    ensures r.Some? ==> ValidObjectId(r.value)
  {
    if |s| == 24 && AllHex(s) then
      HexDecodeAllHex(s);
      Some(HexDecode(s))
    else None
  }

  /** Casting the string form of an ObjectId gives back that ObjectId. */
  lemma CastIdString(id: ObjectId)
    requires ValidObjectId(id)
    ensures CastObjectId(IdString(id)) == Some(id)
  {
    HexRoundTrip(id);
  }

  // ---------------------------------------------------------------- tasks

  datatype Status = Pending | InProgress | Completed

  function StatusName(s: Status): string {
    match s
    case Pending => "Pending"
    case InProgress => "In Progress"
    case Completed => "Completed"
  }

  /** The `enum` of the schema's `status` path, in declaration order. */
  const StatusNames: seq<string> := ["Pending", "In Progress", "Completed"]

  /** Mongoose's enum check: the status a string names, if any. */
  function ParseStatus(s: string): (r: Option<Status>)
    ensures r.Some? <==> s in StatusNames
    ensures r.Some? ==> StatusName(r.value) == s
  {
    if s == "Pending" then Some(Pending)
    else if s == "In Progress" then Some(InProgress)
    else if s == "Completed" then Some(Completed)
    else None
  }

  /** Every status is stored under its own name, and the names are exactly the enum. */
  lemma StatusNamesRoundTrip(st: Status)
    ensures ParseStatus(StatusName(st)) == Some(st)
    ensures StatusName(st) in StatusNames
  {
  }

  /**
    A stored task; `description` holds the encrypted envelope, `createdAt`
    the creation time Mongoose's timestamps option sets.
  */
  datatype Task = Task(
    id: ObjectId,
    title: string,
    description: string,
    status: Status,
    userId: ObjectId,
    createdAt: int)

  // ---------------------------------------------------------------- users

  /** A stored user; `password` holds the bcrypt hash. */
  datatype User = User(id: ObjectId, name: string, email: string, password: string)

  /** What requests and responses carry about a user: never the password hash. */
  datatype PublicUser = PublicUser(id: string, email: string, name: string)

  /** `{ id: user._id.toString(), email: user.email, name: user.name }`. */
  function Public(u: User): (p: PublicUser)
    ensures p.email == u.email && p.name == u.name
    ensures ValidObjectId(u.id) ==> |p.id| == 24 && CastObjectId(p.id) == Some(u.id)
  {
    assert ValidObjectId(u.id) ==> CastObjectId(IdString(u.id)) == Some(u.id) by {
      if ValidObjectId(u.id) {
        CastIdString(u.id);
      }
    }
    PublicUser(IdString(u.id), u.email, u.name)
  }
}
