/** The user records, the abstract password hasher, the lookups the handlers
    run against the store, and the store itself (the `users` table behind
    the ORM session). */
module Accounts {
  import opened Wrappers

  /** The stored form of a password: whatever the hash library produces. */
  type Digest = string

  /** The password hash library, left uninterpreted: `hash` stands for
      `set_password` (salt included) and `check` for `check_password`. */
  datatype Hasher = Hasher(hash: string -> Digest, check: (Digest, string) -> bool)

  /** What the handlers rely on: a password checks against its own hash.
      Nothing is assumed about wrong passwords or collisions. */
  ghost predicate Sound(h: Hasher) {
    forall password :: h.check(h.hash(password), password)
  }

  datatype User = User(id: nat, username: string, email: string, passwordHash: Digest, isActive: bool)

  ghost predicate HasUsername(users: seq<User>, name: string) {
    exists i :: 0 <= i < |users| && users[i].username == name
  }

  ghost predicate HasEmail(users: seq<User>, email: string) {
    exists i :: 0 <= i < |users| && users[i].email == email
  }

  ghost predicate UniqueUsernames(users: seq<User>) {
    forall i, j :: 0 <= i < j < |users| ==> users[i].username != users[j].username
  }

  ghost predicate UniqueEmails(users: seq<User>) {
    forall i, j :: 0 <= i < j < |users| ==> users[i].email != users[j].email
  }

  /** Ids are positive, increase in insertion order and stay below `next`,
      the id the store hands out next. */
  ghost predicate IdsBelow(users: seq<User>, next: nat) {
    0 < next &&
    (forall i :: 0 <= i < |users| ==> 0 < users[i].id < next) &&
    (forall i, j :: 0 <= i < j < |users| ==> users[i].id < users[j].id)
  }

  /** `User.query.filter_by(username=name).first()`: the first stored user
      with that username, in store order. */
  function FindByUsername(users: seq<User>, name: string): (r: Option<User>)
    ensures r.None? <==> !HasUsername(users, name)
    ensures r.Some? ==> exists i :: 0 <= i < |users| && users[i] == r.value && r.value.username == name &&
                                    forall j :: 0 <= j < i ==> users[j].username != name
  {
    if users == [] then None
    else if users[0].username == name then Some(users[0])
    else
      var r := FindByUsername(users[1..], name);
      assert forall i :: 0 < i < |users| ==> users[i] == users[1..][i - 1];
      r
  }

  /** `User.query.filter_by(email=email).first()`. */
  function FindByEmail(users: seq<User>, email: string): (r: Option<User>)
    ensures r.None? <==> !HasEmail(users, email)
    ensures r.Some? ==> exists i :: 0 <= i < |users| && users[i] == r.value && r.value.email == email &&
                                    forall j :: 0 <= j < i ==> users[j].email != email
  {
    if users == [] then None
    else if users[0].email == email then Some(users[0])
    else
      var r := FindByEmail(users[1..], email);
      assert forall i :: 0 < i < |users| ==> users[i] == users[1..][i - 1];
      r
  }

  /** Under unique usernames the lookup finds the one user with that name. */
  lemma FindByUsernameUnique(users: seq<User>, name: string, k: nat)
    requires UniqueUsernames(users)
    requires k < |users| && users[k].username == name
    ensures FindByUsername(users, name) == Some(users[k])
  {
  }

  /** Number of stored users with the given username. */
  function CountUsername(users: seq<User>, name: string): nat {
    if users == [] then 0
    else (if users[0].username == name then 1 else 0) + CountUsername(users[1..], name)
  }

  /** With unique usernames a name is stored once or not at all. */
  lemma {:induction false} CountUsernameUnique(users: seq<User>, name: string)
    requires UniqueUsernames(users)
    ensures CountUsername(users, name) == if HasUsername(users, name) then 1 else 0
  {
    if users != [] {
      var rest := users[1..];
      assert UniqueUsernames(rest) by {
        forall i, j | 0 <= i < j < |rest| ensures rest[i].username != rest[j].username {
          assert rest[i] == users[i + 1] && rest[j] == users[j + 1];
        }
      }
      CountUsernameUnique(rest, name);
      if users[0].username == name {
        assert !HasUsername(rest, name) by {
          forall i | 0 <= i < |rest| ensures rest[i].username != name {
            assert rest[i] == users[i + 1];
          }
        }
      } else {
        assert HasUsername(users, name) <==> HasUsername(rest, name) by {
          if HasUsername(users, name) {
            var i :| 0 <= i < |users| && users[i].username == name;
            assert rest[i - 1] == users[i];
          }
          if HasUsername(rest, name) {
            var i :| 0 <= i < |rest| && rest[i].username == name;
            assert users[i + 1] == rest[i];
          }
        }
      }
    }
  }

  /** Appending a user whose name is new keeps usernames unique. */
  lemma AppendKeepsUsernamesUnique(users: seq<User>, u: User)
    requires UniqueUsernames(users) && !HasUsername(users, u.username)
    ensures UniqueUsernames(users + [u])
  {
  }

  /** Appending a user whose email is new keeps emails unique. */
  lemma AppendKeepsEmailsUnique(users: seq<User>, u: User)
    requires UniqueEmails(users) && !HasEmail(users, u.email)
    ensures UniqueEmails(users + [u])
  {
  }

  /** The users table. Records are only ever appended: no handler updates or
      deletes one. */
  class Store {
    var users: seq<User>
    var nextId: nat

    ghost predicate Valid()
      reads this
    {
      UniqueUsernames(users) && IdsBelow(users, nextId)
    }

    /** An empty table; the first id handed out is 1. */
    constructor ()
      ensures Valid() && users == [] && nextId == 1
    {
      users := [];
      nextId := 1;
    }

    /** `db.session.add(user)` followed by `db.session.commit()`: the store
        assigns the next id and appends the record, active by default. The
        username must be new (every caller checks the username first). */
    method Add(username: string, email: string, passwordHash: Digest) returns (u: User)
      requires Valid() && !HasUsername(users, username)
      modifies this
      ensures Valid()
      ensures u == User(old(nextId), username, email, passwordHash, true)
      ensures users == old(users) + [u] && nextId == old(nextId) + 1
    {
      u := User(nextId, username, email, passwordHash, true);
      AppendKeepsUsernamesUnique(users, u);
      users := users + [u];
      nextId := nextId + 1;
    }
  }
}
