/** The `users` collection: `POST /users`, `PUT /users`, `GET /users/:email`,
    `PATCH /users/admin/:id` and the `verifyAdmin` gate. */
module Users {
  import opened Common

  const AdminRole := "admin"

  /** A stored user document; `None` is a field that is absent or null. */
  datatype User = User(id: Id, email: Option<string>, name: Option<string>, role: Option<string>,
                       updatedAt: Option<nat>)

  /** The fields of a request body: `Some` for a field the body supplies. */
  datatype UserBody = UserBody(email: Option<string>, name: Option<string>, role: Option<string>)

  function EmailOf(u: User): Option<string> { u.email }
  function IdOf(u: User): Id { u.id }

  /** No two users share an email; an absent email counts as one value, because the
      lookup `{ email: undefined }` is sent as `{ email: null }`, which matches it. */
  predicate EmailsUnique(users: seq<User>)
  {
    KeysDistinct(users, EmailOf)
  }

  /** What every user operation keeps: distinct ids below the id counter, distinct emails. */
  predicate StoreValid(users: seq<User>, nextId: Id)
  {
    && KeysDistinct(users, IdOf)
    && EmailsUnique(users)
    && forall u :: u in users ==> u.id < nextId
  }

  predicate HasEmail(users: seq<User>, email: Option<string>)
  {
    exists u :: u in users && u.email == email
  }

  /** `findOne({ email })`: the position of the first user with that email. */
  function FindByEmail(users: seq<User>, email: Option<string>): (r: Option<nat>)
    ensures r.Some? <==> HasEmail(users, email)
    ensures r.Some? ==> r.value < |users| && users[r.value].email == email
  {
    var r := FirstWhere(users, (u: User) => u.email == email);
    assert r.None? ==> forall u :: u in users ==> u.email != email by {
      if r.None? {
        forall u | u in users ensures u.email != email {
          var k :| 0 <= k < |users| && users[k] == u;
        }
      }
    }
    r
  }

  // ---------------------------------------------------------------------------
  // POST /users

  /** The document `insertOne(user)` stores for a body. */
  function Inserted(body: UserBody, id: Id): User
  {
    User(id, body.email, body.name, body.role, None)
  }

  /** `POST /users`: insert the body unless a user with its email already exists. */
  function Create(users: seq<User>, body: UserBody, id: Id): (r: seq<User>)
    ensures HasEmail(users, body.email) ==> r == users
    ensures !HasEmail(users, body.email) ==> r == users + [Inserted(body, id)]
  {
    if FindByEmail(users, body.email).Some? then users else users + [Inserted(body, id)]
  }

  /** Appending a user whose email and id are new keeps the store valid. */
  lemma {:induction false} AppendKeepsValid(users: seq<User>, nextId: Id, u: User)
    requires StoreValid(users, nextId)
    requires !HasEmail(users, u.email) && u.id == nextId
    ensures StoreValid(users + [u], nextId + 1)
  {
    var r := users + [u];
    forall i, j | 0 <= i < j < |r| ensures r[i].email != r[j].email && r[i].id != r[j].id {
      if j == |users| {
        assert r[i] in users;
      }
    }
  }

  /** `POST /users` never creates a second user with an existing email: it leaves the
      store as it was exactly when the email is taken, and otherwise appends one user. */
  lemma {:induction false} CreateKeepsValid(users: seq<User>, nextId: Id, body: UserBody)
    requires StoreValid(users, nextId)
    ensures StoreValid(Create(users, body, nextId), nextId + 1)
    ensures Create(users, body, nextId) == users <==> HasEmail(users, body.email)
    ensures |Create(users, body, nextId)| <= |users| + 1
  {
    if !HasEmail(users, body.email) {
      AppendKeepsValid(users, nextId, Inserted(body, nextId));
      assert |users + [Inserted(body, nextId)]| != |users|;
    }
  }

  // ---------------------------------------------------------------------------
  // PUT /users (upsert by email)

  /** `$set: { ...user, updatedAt }` on a stored user. */
  function Merge(u: User, body: UserBody, now: nat): (r: User)
    ensures r.id == u.id && r.updatedAt == Some(now)
    ensures body.email.Some? ==> r.email == body.email
    ensures body.email.None? ==> r.email == u.email
    ensures body.name.Some? ==> r.name == body.name
    ensures body.name.None? ==> r.name == u.name
    ensures body.role.Some? ==> r.role == body.role
    ensures body.role.None? ==> r.role == u.role
  {
    User(u.id, Override(body.email, u.email), Override(body.name, u.name), Override(body.role, u.role),
         Some(now))
  }

  /** The document an upsert inserts: the filter's email plus the `$set` fields. */
  function Upserted(body: UserBody, now: nat, id: Id): User
  {
    User(id, body.email, body.name, body.role, Some(now))
  }

  /** `PUT /users`: merge into the user with the body's email, or insert one. */
  function Upsert(users: seq<User>, body: UserBody, now: nat, id: Id): (r: seq<User>)
    ensures !HasEmail(users, body.email) ==> r == users + [Upserted(body, now, id)]
    ensures HasEmail(users, body.email) ==>
              exists i :: 0 <= i < |users| && users[i].email == body.email
                       && r == users[i := Merge(users[i], body, now)]
  {
    match FindByEmail(users, body.email)
    case None => users + [Upserted(body, now, id)]
    case Some(i) => users[i := Merge(users[i], body, now)]
  }

  /** `PUT /users` keeps emails unique, and afterwards the user found by that email
      carries every field the body supplied and the new timestamp. */
  lemma {:induction false} UpsertKeepsValid(users: seq<User>, nextId: Id, body: UserBody, now: nat)
    requires StoreValid(users, nextId)
    ensures StoreValid(Upsert(users, body, now, nextId), nextId + 1)
    ensures var r := Upsert(users, body, now, nextId);
            var found := FindByEmail(r, body.email);
            && found.Some?
            && r[found.value].updatedAt == Some(now)
            && (body.name.Some? ==> r[found.value].name == body.name)
            && (body.role.Some? ==> r[found.value].role == body.role)
    ensures HasEmail(users, body.email) ==>
            var r := Upsert(users, body, now, nextId);
            |r| == |users| &&
            forall k :: 0 <= k < |users| ==>
              r[k] == if users[k].email == body.email then Merge(users[k], body, now) else users[k]
  {
    var r := Upsert(users, body, now, nextId);
    match FindByEmail(users, body.email)
    case None =>
      AppendKeepsValid(users, nextId, Upserted(body, now, nextId));
      assert r[|users|] in r;
      FirstWhereKeyUnique(r, EmailOf, body.email, |users|);
    case Some(i) =>
      assert r == users[i := Merge(users[i], body, now)];
      forall a, b | 0 <= a < b < |r| ensures r[a].email != r[b].email && r[a].id != r[b].id {
        assert r[a].email == users[a].email && r[b].email == users[b].email;
      }
      forall u | u in r ensures u.id < nextId + 1 {
        var k :| 0 <= k < |r| && r[k] == u;
        assert users[k] in users;
      }
      FirstWhereKeyUnique(r, EmailOf, body.email, i);
      forall k | 0 <= k < |users| && users[k].email == body.email ensures k == i {
        assert EmailOf(users[k]) == EmailOf(users[i]);
      }
  }

  // ---------------------------------------------------------------------------
  // PATCH /users/admin/:id

  function MakeAdmin(u: User): User
  {
    u.(role := Some(AdminRole))
  }

  /** `updateOne({ _id: id }, { $set: { role: "admin" } })`: only `role` changes, and
      only on a user with that id. */
  function Promote(users: seq<User>, id: Id): (r: seq<User>)
    ensures |r| == |users|
    ensures forall k :: 0 <= k < |users| ==>
              r[k] == users[k] || (users[k].id == id && r[k] == users[k].(role := Some(AdminRole)))
  {
    UpdateByKey(users, IdOf, id, MakeAdmin)
  }

  /** Promotion sets `role = "admin"` on the user with that id and changes nothing
      else; ids and emails stay unique. */
  lemma {:induction false} PromoteOnlyTouchesRole(users: seq<User>, nextId: Id, id: Id)
    requires StoreValid(users, nextId)
    ensures StoreValid(Promote(users, id), nextId)
    ensures forall k :: 0 <= k < |users| ==>
              Promote(users, id)[k] == if users[k].id == id then users[k].(role := Some(AdminRole)) else users[k]
  {
    var r := Promote(users, id);
    UpdateByKeyExact(users, IdOf, id, MakeAdmin, EmailOf);
    UpdateByKeyExact(users, IdOf, id, MakeAdmin, IdOf);
    forall u | u in r ensures u.id < nextId {
      var k :| 0 <= k < |r| && r[k] == u;
      assert users[k] in users;
    }
  }

  // ---------------------------------------------------------------------------
  // verifyAdmin

  datatype Gate = Pass | NoEmailHeader | NotAdmin

  predicate IsAdmin(u: User)
  {
    u.role == Some(AdminRole)
  }

  /** `verifyAdmin`: 403 without a non-empty `email` header, 403 unless the stored user
      with that email has role `"admin"`, otherwise the protected handler runs. */
  function AdminGate(users: seq<User>, header: Option<string>): (g: Gate)
    ensures g == NoEmailHeader <==> !Truthy(header)
    ensures g == Pass ==> exists u :: u in users && u.email == header && IsAdmin(u)
  {
    if !Truthy(header) then NoEmailHeader
    else match FindByEmail(users, header)
      case None => NotAdmin
      case Some(i) => if IsAdmin(users[i]) then Pass else NotAdmin
  }

  /** With emails unique the gate is exact: it passes if and only if the header names
      a stored admin. */
  lemma {:induction false} AdminGateExact(users: seq<User>, header: Option<string>)
    requires EmailsUnique(users)
    ensures AdminGate(users, header) == Pass
        <==> Truthy(header) && exists u :: u in users && u.email == header && IsAdmin(u)
  {
    if Truthy(header) && exists u :: u in users && u.email == header && IsAdmin(u) {
      var u :| u in users && u.email == header && IsAdmin(u);
      var k :| 0 <= k < |users| && users[k] == u;
      FirstWhereKeyUnique(users, EmailOf, header, k);
    }
  }
}
