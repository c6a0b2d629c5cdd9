/**
 * The user table: the User record, the queries the use cases make of it, the
 * invariants the registration use case keeps, and the repository that stores
 * the records.
 */
module Users {
  import opened Wrappers

  const ADMIN: string := "ADMIN"
  const MEMBER: string := "MEMBER"

  /** The closed role enumeration: the only values that may be persisted. */
  predicate IsRole(role: string) {
    role == ADMIN || role == MEMBER
  }

  datatype User = User(id: string, name: string, email: string, password_hash: string, role: string)

  /** No two stored users share an email (emails compare case-sensitively). */
  ghost predicate EmailsUnique(users: seq<User>) {
    forall i, j :: 0 <= i < j < |users| ==> users[i].email != users[j].email
  }

  /** Every stored role is ADMIN or MEMBER. */
  ghost predicate RolesValid(users: seq<User>) {
    forall i :: 0 <= i < |users| ==> IsRole(users[i].role)
  }

  /** Every stored user has a non-empty id that no other stored user has. */
  ghost predicate IdsUnique(users: seq<User>) {
    && (forall i :: 0 <= i < |users| ==> users[i].id != "")
    && (forall i, j :: 0 <= i < j < |users| ==> users[i].id != users[j].id)
  }

  /** The invariant of the table as the registration use case maintains it. */
  ghost predicate Consistent(users: seq<User>) {
    EmailsUnique(users) && RolesValid(users) && IdsUnique(users)
  }

  /** findByEmail: a stored user with exactly this email, if there is one. */
  function Lookup(users: seq<User>, email: string): (r: Option<User>)
    ensures r.Some? ==> r.value in users && r.value.email == email
    ensures r.None? <==> forall i :: 0 <= i < |users| ==> users[i].email != email
  {
    if users == [] then None
    else if users[0].email == email then Some(users[0])
    else Lookup(users[1..], email)
  }

  /** With unique emails, the lookup finds the one user holding the email. */
  lemma LookupFindsHolder(users: seq<User>, i: nat)
    requires EmailsUnique(users)
    requires i < |users|
    ensures Lookup(users, users[i].email) == Some(users[i])
  {
  }

  /** Appending a user whose email is not yet stored makes it the lookup's answer for that email. */
  lemma {:induction false} LookupAfterAppend(users: seq<User>, u: User)
    requires forall i :: 0 <= i < |users| ==> users[i].email != u.email
    ensures Lookup(users + [u], u.email) == Some(u)
  {
    if users != [] {
      assert (users + [u])[1..] == users[1..] + [u];
      LookupAfterAppend(users[1..], u);
    }
  }

  /**
   * The repository's id generator, made deterministic: a string longer than
   * every stored id, hence different from all of them.
   */
  function FreshId(users: seq<User>): (id: string)
    ensures id != ""
    ensures forall i :: 0 <= i < |users| ==> |users[i].id| < |id|
  {
    if users == [] then "u"
    else
      var rest := FreshId(users[1..]);
      if |users[0].id| < |rest| then rest else users[0].id + "u"
  }

  /** The record `create` inserts: the given fields and a freshly generated id. */
  function NewUser(users: seq<User>, name: string, email: string, password_hash: string, role: string): (u: User)
    ensures u.id != ""
    ensures forall i :: 0 <= i < |users| ==> users[i].id != u.id
  {
    User(FreshId(users), name, email, password_hash, role)
  }

  /**
   * The users repository: an in-memory table of user records. It generates
   * ids on `Create` and answers `FindByEmail`; it enforces no other rule.
   */
  class UsersRepository {
    var users: seq<User>

    constructor ()
      ensures users == []
    {
      users := [];
    }

    method FindByEmail(email: string) returns (r: Option<User>)
      ensures r.Some? ==> r.value in users && r.value.email == email
      ensures r.None? <==> forall i :: 0 <= i < |users| ==> users[i].email != email
      ensures r == Lookup(users, email)
    {
      r := Lookup(users, email);
    }

    method Create(name: string, email: string, password_hash: string, role: string) returns (u: User)
      modifies this
      ensures u == NewUser(old(users), name, email, password_hash, role)
      ensures users == old(users) + [u]
    {
      u := NewUser(users, name, email, password_hash, role);
      users := users + [u];
    }
  }
}
