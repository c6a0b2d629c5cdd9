/**
 * The authenticate use case over the same user table: look the email up, then
 * verify the password against the stored digest. It reads the table and never
 * changes it.
 */
module Authentication {
  import opened Wrappers
  import opened Users
  import opened Credentials
  import opened Registration

  /** The single error for both an unknown email and a wrong password. */
  datatype AuthenticateError = InvalidCredentialError

  function Authenticate(users: seq<User>, hasher: Hasher, email: string, password: string): (r: Result<User, AuthenticateError>)
    ensures r.Success? ==> r.value in users && r.value.email == email && hasher.verify(password, r.value.password_hash)
    ensures (forall i :: 0 <= i < |users| ==> users[i].email != email) ==> r == Failure(InvalidCredentialError)
  {
    match Lookup(users, email)
    case None => Failure(InvalidCredentialError)
    case Some(user) =>
      if hasher.verify(password, user.password_hash) then Success(user) else Failure(InvalidCredentialError)
  }

  /**
   * Against a stored digest of `p`, in a table with unique emails, the
   * password `q` authenticates as that user exactly when `q` is `p`;
   * otherwise the result is InvalidCredentialError.
   */
  lemma AuthenticateAgainstStoredDigest(users: seq<User>, hasher: Hasher, i: nat, p: string, q: string)
    requires Sound(hasher) && EmailsUnique(users)
    requires i < |users| && users[i].password_hash == hasher.hash(p)
    ensures Authenticate(users, hasher, users[i].email, q) ==
      (if q == p then Success(users[i]) else Failure(InvalidCredentialError))
  {
  }

  /** An unknown email and a wrong password get one and the same failure: the caller cannot tell them apart. */
  lemma UnknownEmailLikeWrongPassword(users: seq<User>, hasher: Hasher, unknown: string, i: nat, p: string, q: string)
    requires Sound(hasher) && EmailsUnique(users)
    requires forall j :: 0 <= j < |users| ==> users[j].email != unknown
    requires i < |users| && users[i].password_hash == hasher.hash(p) && q != p
    ensures Authenticate(users, hasher, unknown, q) == Authenticate(users, hasher, users[i].email, q)
    ensures Authenticate(users, hasher, unknown, q) == Failure(InvalidCredentialError)
  {
  }

  /** The user returned from a consistent table carries a non-empty id that names only that user. */
  lemma AuthenticatedUserHasId(users: seq<User>, hasher: Hasher, email: string, password: string)
    requires Consistent(users)
    requires Authenticate(users, hasher, email, password).Success?
    ensures var u := Authenticate(users, hasher, email, password).value;
      u.id != "" && forall j :: 0 <= j < |users| && users[j].id == u.id ==> users[j] == u
  {
  }

  /**
   * Round trip: after a successful registration, authenticating with the same
   * email and password returns the registered record, and any other password
   * is refused.
   */
  lemma RegisterThenAuthenticate(users: seq<User>, hasher: Hasher, req: RegisterRequest, q: string)
    requires Sound(hasher)
    requires Register(users, hasher, req).outcome.Success?
    ensures var r := Register(users, hasher, req);
      && Authenticate(r.users, hasher, req.email, req.password) == Success(r.outcome.value)
      && (q != req.password ==> Authenticate(r.users, hasher, req.email, q) == Failure(InvalidCredentialError))
  {
    var r := Register(users, hasher, req);
    LookupAfterAppend(users, r.outcome.value);
  }

  /** The repository of the tests, holding John Doe with the digest of "123456". */
  function JohnDoeTable(hasher: Hasher): (users: seq<User>) {
    [NewUser([], "jhon doe", "jhondoe@example.com", hasher.hash("123456"), MEMBER)]
  }

  /** "should be able to authenticate": the right password returns the stored user, whose id is a string. */
  lemma ShouldAuthenticate(hasher: Hasher)
    requires Sound(hasher)
    ensures var r := Authenticate(JohnDoeTable(hasher), hasher, "jhondoe@example.com", "123456");
      r == Success(JohnDoeTable(hasher)[0]) && r.value.id != ""
  {
  }

  /** "should not be able to authenticate with wrong email". */
  lemma ShouldRejectWrongEmail(hasher: Hasher)
    ensures Authenticate([], hasher, "jhondoe1@example.com", "123456") == Failure(InvalidCredentialError)
  {
  }

  /** "should not be able to authenticate with wrong password". */
  lemma ShouldRejectWrongPassword(hasher: Hasher)
    requires Sound(hasher)
    ensures Authenticate(JohnDoeTable(hasher), hasher, "jhondoe@example.com", "123123") == Failure(InvalidCredentialError)
  {
  }
}
