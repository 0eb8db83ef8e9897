/**
  The two MongoDB collections the controllers use, as in-memory objects.
  A collection keeps its documents in insertion order; MongoDB's unique
  index on `_id` is the invariant `Valid()`.
*/
module TaskStore {
  import opened Wrappers
  import opened Models

  predicate DistinctIds(ts: seq<Task>) {
    forall i, j :: 0 <= i < j < |ts| ==> ts[i].id != ts[j].id
  }

  /** `findOne({ _id: id, userId: owner })`: the position of the task with that id and owner. */
  function FindOwned(ts: seq<Task>, id: ObjectId, owner: ObjectId): (r: Option<nat>)
    ensures r.Some? ==> r.value < |ts| && ts[r.value].id == id && ts[r.value].userId == owner
    ensures r.None? <==> forall i :: 0 <= i < |ts| ==> !(ts[i].id == id && ts[i].userId == owner)
  {
    if ts == [] then None
    else if ts[0].id == id && ts[0].userId == owner then Some(0)
    else match FindOwned(ts[1..], id, owner)
      case None => None
      case Some(k) => Some(k + 1)
  }

  /** Whether some task has this id, whoever owns it. */
  predicate HasId(ts: seq<Task>, id: ObjectId) {
    exists i :: 0 <= i < |ts| && ts[i].id == id
  }

  /** With distinct ids, the task `FindOwned` finds is the only one with that id. */
  lemma FindOwnedUnique(ts: seq<Task>, id: ObjectId, owner: ObjectId)
    requires DistinctIds(ts) && FindOwned(ts, id, owner).Some?
    ensures forall i :: 0 <= i < |ts| && i != FindOwned(ts, id, owner).value ==> ts[i].id != id
  {
  }

  /** Removing one document keeps the ids distinct. */
  lemma RemovePreservesDistinct(ts: seq<Task>, k: nat)
    requires DistinctIds(ts) && k < |ts|
    ensures DistinctIds(ts[..k] + ts[k + 1..])
  {
    var r := ts[..k] + ts[k + 1..];
    forall i, j | 0 <= i < j < |r| ensures r[i].id != r[j].id {
      var i', j' := if i < k then i else i + 1, if j < k then j else j + 1;
      assert r[i] == ts[i'] && r[j] == ts[j'];
    }
  }

  /** The schema's required string paths: a stored task has a non-empty title and description. */
  predicate Storable(t: Task) {
    t.title != "" && t.description != ""
  }

  class TaskCollection {
    var tasks: seq<Task>

    ghost predicate Valid()
      reads this
    {
      DistinctIds(tasks) && forall i :: 0 <= i < |tasks| ==> Storable(tasks[i])
    }

    constructor ()
      ensures Valid() && tasks == []
    {
      tasks := [];
    }

    /** `Task.create`: inserts a new document; a taken `_id` is refused (duplicate key). */
    method Insert(t: Task) returns (ok: bool)
      requires Valid() && Storable(t)
      modifies this
      ensures Valid()
      ensures ok <==> !HasId(old(tasks), t.id)
      ensures tasks == if ok then old(tasks) + [t] else old(tasks)
    {
      ok := forall i | 0 <= i < |tasks| :: tasks[i].id != t.id;
      if ok {
        tasks := tasks + [t];
      }
    }

    /** `task.save()` on a fetched document: replaces the document with the same `_id`. */
    method Save(k: nat, t: Task)
      requires Valid() && k < |tasks| && tasks[k].id == t.id && Storable(t)
      modifies this
      ensures Valid()
      ensures tasks == old(tasks)[k := t]
    {
      tasks := tasks[k := t];
    }

    /** `findOneAndDelete({ _id: id, userId: owner })`: removes and returns the match, if any. */
    method FindOneAndDelete(id: ObjectId, owner: ObjectId) returns (r: Option<Task>)
      requires Valid()
      modifies this
      ensures Valid()
      ensures match FindOwned(old(tasks), id, owner)
        case None => r == None && tasks == old(tasks)
        case Some(k) => r == Some(old(tasks)[k]) && tasks == old(tasks)[..k] + old(tasks)[k + 1..]
    {
      var found := FindOwned(tasks, id, owner);
      if found.None? {
        r := None;
      } else {
        var k := found.value;
        r := Some(tasks[k]);
        RemovePreservesDistinct(tasks, k);
        tasks := tasks[..k] + tasks[k + 1..];
      }
    }
  }
}

module UserStore {
  import opened Wrappers
  import opened Models

  predicate DistinctIds(us: seq<User>) {
    forall i, j :: 0 <= i < j < |us| ==> us[i].id != us[j].id
  }

  /** `User.findOne({ email })`: the first user with that email. */
  function FindByEmail(us: seq<User>, email: string): (r: Option<User>)
    ensures r.Some? ==> r.value in us && r.value.email == email
    ensures r.None? <==> forall i :: 0 <= i < |us| ==> us[i].email != email
  {
    if us == [] then None
    else if us[0].email == email then Some(us[0])
    else FindByEmail(us[1..], email)
  }

  /** `User.findById(id)`: the user with that id. */
  function FindById(us: seq<User>, id: ObjectId): (r: Option<User>)
    ensures r.Some? ==> r.value in us && r.value.id == id
    ensures r.None? <==> forall i :: 0 <= i < |us| ==> us[i].id != id
  {
    if us == [] then None
    else if us[0].id == id then Some(us[0])
    else FindById(us[1..], id)
  }

  /** With distinct ids, looking up a stored user's id finds that user. */
  lemma {:induction false} FindByIdOfMember(us: seq<User>, u: User)
    requires DistinctIds(us) && u in us
    ensures FindById(us, u.id) == Some(u)
  {
    if us[0] != u {
      assert us[0].id != u.id by {
        var k :| 0 <= k < |us| && us[k] == u;
        assert k > 0;
      }
      assert u in us[1..];
      FindByIdOfMember(us[1..], u);
    }
  }

  /** A new user whose email is not yet taken is what a lookup by that email finds afterwards. */
  lemma {:induction false} FindByEmailAfterInsert(us: seq<User>, u: User)
    requires FindByEmail(us, u.email).None?
    ensures FindByEmail(us + [u], u.email) == Some(u)
  {
    if us != [] {
      assert (us + [u])[1..] == us[1..] + [u];
      FindByEmailAfterInsert(us[1..], u);
    } else {
      assert us + [u] == [u];
    }
  }

  class UserCollection {
    var users: seq<User>

    ghost predicate Valid()
      reads this
    {
      DistinctIds(users)
    }

    constructor ()
      ensures Valid() && users == []
    {
      users := [];
    }

    /** `User.create`: inserts a new document; a taken `_id` is refused (duplicate key). */
    method Insert(u: User) returns (ok: bool)
      requires Valid()
      modifies this
      ensures Valid()
      ensures ok <==> FindById(old(users), u.id).None?
      ensures users == if ok then old(users) + [u] else old(users)
    {
      ok := FindById(users, u.id).None?;
      if ok {
        users := users + [u];
      }
    }
  }
}
