/** The JSON API routes: health and version probes, the development test
    user, the user listing and the echo endpoint. */
module Api {
  import opened Wrappers
  import opened Web
  import opened Accounts

  const TestUsername := "testuser"
  const TestEmail := "test@example.com"
  const TestPassword := "password123"

  /** `health`: a fixed document, whatever the store holds. */
  function Health(): (r: ApiResponse)
    ensures r.status == 200
    ensures Field(r.body, "status") == Some(Str("healthy"))
    ensures Field(r.body, "message") == Some(Str("Flask Starter Pack API is running"))
    ensures r.body.Obj? && |r.body.fields| == 2
  {
    var fields := [("status", Str("healthy")), ("message", Str("Flask Starter Pack API is running"))];
    assert fields[0].0 == "status" && fields[1].0 == "message";
    ApiResponse(200, Obj(fields))
  }

  /** `version`: a fixed document, whatever the store holds. */
  function Version(): (r: ApiResponse)
    ensures r.status == 200
    ensures Field(r.body, "version") == Some(Str("1.0.0"))
    ensures Field(r.body, "name") == Some(Str("Flask Starter Pack API"))
    ensures r.body.Obj? && |r.body.fields| == 2
  {
    var fields := [("version", Str("1.0.0")), ("name", Str("Flask Starter Pack API"))];
    assert fields[0].0 == "version" && fields[1].0 == "name";
    ApiResponse(200, Obj(fields))
  }

  /** `echo`: the submitted JSON comes back untouched under `data`. */
  function Echo(data: Json): (r: ApiResponse)
    ensures r.status == 200
    ensures Field(r.body, "message") == Some(Str("Echo successful"))
    ensures Field(r.body, "data") == Some(data)
    ensures r.body.Obj? && |r.body.fields| == 2
  {
    var fields := [("message", Str("Echo successful")), ("data", data)];
    assert fields[0].0 == "message" && fields[1].0 == "data";
    ApiResponse(200, Obj(fields))
  }

  /** The public fields of a user: the password hash is never among them. */
  function PublicFields(u: User): (r: Json)
    ensures Field(r, "id") == Some(Num(u.id))
    ensures Field(r, "username") == Some(Str(u.username))
    ensures Field(r, "email") == Some(Str(u.email))
    ensures Field(r, "is_active") == Some(Bool(u.isActive))
    ensures r.Obj? && |r.fields| == 4
  {
    var fields := [("id", Num(u.id)), ("username", Str(u.username)), ("email", Str(u.email)), ("is_active", Bool(u.isActive))];
    assert fields[0].0 == "id" && fields[1].0 == "username" && fields[2].0 == "email" && fields[3].0 == "is_active";
    Obj(fields)
  }

  /** The list comprehension of `list_users`: one entry per stored user, in
      store order. */
  function Listing(users: seq<User>): (r: seq<Json>)
    ensures |r| == |users|
    ensures forall i :: 0 <= i < |users| ==> r[i] == PublicFields(users[i])
  {
    if users == [] then [] else [PublicFields(users[0])] + Listing(users[1..])
  }

  /** `list_users`, given every stored record (`User.query.all()`). */
  function ListUsers(users: seq<User>): (r: ApiResponse)
    ensures r.status == 200
    ensures Field(r.body, "users") == Some(Arr(Listing(users)))
    ensures r.body.Obj? && |r.body.fields| == 1
  {
    ApiResponse(200, Obj([("users", Arr(Listing(users)))]))
  }

  /** The summary of a created user in the `create_test_user` answer: its
      id, username and email, and nothing else (never the password hash). */
  function Summary(u: User): (r: Json)
    ensures Field(r, "id") == Some(Num(u.id))
    ensures Field(r, "username") == Some(Str(u.username))
    ensures Field(r, "email") == Some(Str(u.email))
    ensures r.Obj? && |r.fields| == 3
  {
    var fields := [("id", Num(u.id)), ("username", Str(u.username)), ("email", Str(u.email))];
    assert fields[0].0 == "id" && fields[1].0 == "username" && fields[2].0 == "email";
    Obj(fields)
  }

  /** The conflict answer of `create_test_user`. */
  function TestUserExists(): (r: ApiResponse)
    ensures r.status == 400
    ensures Field(r.body, "status") == Some(Str("error"))
    ensures Field(r.body, "message") == Some(Str("Test user already exists"))
    ensures r.body.Obj? && |r.body.fields| == 2
  {
    var fields := [("status", Str("error")), ("message", Str("Test user already exists"))];
    assert fields[0].0 == "status" && fields[1].0 == "message";
    ApiResponse(400, Obj(fields))
  }

  /** The success answer of `create_test_user`, echoing the new record. */
  function TestUserCreated(u: User): (r: ApiResponse)
    ensures r.status == 200
    ensures Field(r.body, "status") == Some(Str("success"))
    ensures Field(r.body, "message") == Some(Str("Test user created successfully"))
    ensures Field(r.body, "user") == Some(Summary(u))
    ensures r.body.Obj? && |r.body.fields| == 3
  {
    var summary := Summary(u);
    var fields := [("status", Str("success")),
                   ("message", Str("Test user created successfully")),
                   ("user", summary)];
    assert DistinctKeys(fields);
    assert fields[0].0 == "status" && fields[1].0 == "message" && fields[2].0 == "user";
    ApiResponse(200, Obj(fields))
  }

  /** The fixed development account, given the id the store assigns. */
  function TestUser(id: nat, h: Hasher): User
  {
    User(id, TestUsername, TestEmail, h.hash(TestPassword), true)
  }

  /** `create_test_user`: inserts the fixed development account unless a
      user named `testuser` exists. Only the username is looked up. */
  method CreateTestUser(store: Store, h: Hasher) returns (resp: ApiResponse)
    requires store.Valid()
    modifies store
    ensures store.Valid()
    ensures old(HasUsername(store.users, TestUsername)) ==>
      resp == TestUserExists() && unchanged(store)
    ensures !old(HasUsername(store.users, TestUsername)) ==>
      store.users == old(store.users) + [TestUser(old(store.nextId), h)] &&
      store.nextId == old(store.nextId) + 1 &&
      resp == TestUserCreated(TestUser(old(store.nextId), h))
  {
    if FindByUsername(store.users, TestUsername).Some? {
      return TestUserExists();
    }
    var user := store.Add(TestUsername, TestEmail, h.hash(TestPassword));
    resp := TestUserCreated(user);
  }

  /** Two calls in a row: the second always conflicts, and afterwards
      exactly one `testuser` is stored. */
  method CreateTestUserTwice(store: Store, h: Hasher) returns (first: ApiResponse, second: ApiResponse)
    requires store.Valid()
    modifies store
    ensures store.Valid()
    ensures first.status == 200 <==> !old(HasUsername(store.users, TestUsername))
    ensures second.status == 400
    ensures CountUsername(store.users, TestUsername) == 1
  {
    first := CreateTestUser(store, h);
    assert HasUsername(store.users, TestUsername) by {
      if first.status == 200 {
        assert store.users[|store.users| - 1].username == TestUsername;
      }
    }
    second := CreateTestUser(store, h);
    CountUsernameUnique(store.users, TestUsername);
  }

  /** The test account's email is never looked up: a store that already
      holds `test@example.com` under another username ends up with that
      email twice. */
  lemma TestUserMayDuplicateEmail(users: seq<User>, id: nat, h: Hasher)
    requires HasEmail(users, TestEmail) && !HasUsername(users, TestUsername)
    ensures !UniqueEmails(users + [TestUser(id, h)])
  {
    var s := users + [TestUser(id, h)];
    var i :| 0 <= i < |users| && users[i].email == TestEmail;
    assert s[i].email == s[|users|].email;
  }
}
