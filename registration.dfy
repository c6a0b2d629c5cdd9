/**
 * The register use case: hash the password, refuse an email that is already
 * stored, refuse a role outside {ADMIN, MEMBER}, otherwise insert one record.
 */
module Registration {
  import opened Wrappers
  import opened Users
  import opened Credentials

  /** The use case's input. `role` is optional and may be any string. */
  datatype RegisterRequest = RegisterRequest(name: string, email: string, password: string, role: Option<string>)

  datatype RegisterError = UserAlreadyExistsError | UserMemberError

  /** What one call returns, together with the table it leaves behind. */
  datatype RegisterResult = RegisterResult(outcome: Result<User, RegisterError>, users: seq<User>)

  /** The role test of the use case: an absent role fails it like any other value. */
  predicate RoleAccepted(role: Option<string>) {
    role.Some? && IsRole(role.value)
  }

  /**
   * One call of the use case on the table `users`, in the order the code runs:
   * hash, duplicate check, role check, insert.
   */
  function Register(users: seq<User>, hasher: Hasher, req: RegisterRequest): (r: RegisterResult)
  {
    var password_hash := hasher.hash(req.password);
    if Lookup(users, req.email).Some? then
      RegisterResult(Failure(UserAlreadyExistsError), users)
    else if !RoleAccepted(req.role) then
      RegisterResult(Failure(UserMemberError), users)
    else
      var user := NewUser(users, req.name, req.email, password_hash, req.role.value);
      RegisterResult(Success(user), users + [user])
  }

  /** An email already stored is refused with UserAlreadyExistsError, whatever the other fields, and the table is unchanged. */
  lemma DuplicateEmailRejected(users: seq<User>, hasher: Hasher, req: RegisterRequest, i: nat)
    requires i < |users| && users[i].email == req.email
    ensures Register(users, hasher, req) == RegisterResult(Failure(UserAlreadyExistsError), users)
  {
  }

  /** A fresh email with an absent or unknown role is refused with UserMemberError and nothing is stored. */
  lemma InvalidRoleRejected(users: seq<User>, hasher: Hasher, req: RegisterRequest)
    requires forall i :: 0 <= i < |users| ==> users[i].email != req.email
    requires req.role.None? || !IsRole(req.role.value)
    ensures Register(users, hasher, req) == RegisterResult(Failure(UserMemberError), users)
  {
  }

  /** The use case refuses a request without a role, even on an empty table. */
  lemma NoRoleRejected(hasher: Hasher, name: string, email: string, password: string)
    ensures Register([], hasher, RegisterRequest(name, email, password, None)).outcome == Failure(UserMemberError)
  {
  }

  /**
   * Which calls succeed: exactly those with a fresh email and a valid role.
   * A success appends exactly one record holding the request's name, email
   * and role, the digest of the password and an id no stored user has, and
   * returns that record; every call that fails leaves the table as it was.
   */
  lemma RegisterOutcome(users: seq<User>, hasher: Hasher, req: RegisterRequest)
    ensures var r := Register(users, hasher, req);
      && (r.outcome.Success? <==>
            (forall i :: 0 <= i < |users| ==> users[i].email != req.email) && RoleAccepted(req.role))
      && (r.outcome.Failure? ==> r.users == users)
      && (r.outcome.Success? ==>
            var u := r.outcome.value;
            && r.users == users + [u]
            && u.name == req.name && u.email == req.email && Some(u.role) == req.role
            && u.password_hash == hasher.hash(req.password)
            && u.id != "" && (forall i :: 0 <= i < |users| ==> users[i].id != u.id))
  {
  }

  /** Every call keeps the table's invariant: unique emails, valid roles, unique ids. */
  lemma RegisterPreservesConsistency(users: seq<User>, hasher: Hasher, req: RegisterRequest)
    requires Consistent(users)
    ensures Consistent(Register(users, hasher, req).users)
  {
  }

  /**
   * The same use case with the password hashed only once both checks have
   * passed, as an implementation may reorder it.
   */
  function RegisterHashingLast(users: seq<User>, hasher: Hasher, req: RegisterRequest): (r: RegisterResult)
  {
    if Lookup(users, req.email).Some? then
      RegisterResult(Failure(UserAlreadyExistsError), users)
    else if !RoleAccepted(req.role) then
      RegisterResult(Failure(UserMemberError), users)
    else
      var user := NewUser(users, req.name, req.email, hasher.hash(req.password), req.role.value);
      RegisterResult(Success(user), users + [user])
  }

  /**
   * Hashing before the checks is unobservable: no error result carries the
   * digest. In this pure model the two versions differ only in where the
   * digest is bound, so the lemma holds by construction; what it records is
   * that the code's early hash leaves no trace in any result or table.
   */
  lemma HashOrderUnobservable(users: seq<User>, hasher: Hasher, req: RegisterRequest)
    ensures Register(users, hasher, req) == RegisterHashingLast(users, hasher, req)
  {
  }

  /** A stored digest is never the plaintext password it was made from. */
  lemma StoredDigestIsNotPlaintext(users: seq<User>, hasher: Hasher, req: RegisterRequest)
    requires Sound(hasher)
    requires Register(users, hasher, req).outcome.Success?
    ensures var u := Register(users, hasher, req).outcome.value;
      u.password_hash != req.password && hasher.verify(req.password, u.password_hash)
  {
  }

  /** The use case object: a repository and the hasher it calls. */
  class RegisterUseCase {
    const usersRepository: UsersRepository
    const hasher: Hasher

    constructor (usersRepository: UsersRepository, hasher: Hasher)
      ensures this.usersRepository == usersRepository && this.hasher == hasher
    {
      this.usersRepository := usersRepository;
      this.hasher := hasher;
    }

    method Execute(req: RegisterRequest) returns (outcome: Result<User, RegisterError>)
      modifies usersRepository
      ensures RegisterResult(outcome, usersRepository.users) == Register(old(usersRepository.users), hasher, req)
      ensures outcome.Failure? ==> usersRepository.users == old(usersRepository.users)
      ensures Consistent(old(usersRepository.users)) ==> Consistent(usersRepository.users)
    {
      ghost var before := usersRepository.users;
      if Consistent(before) {
        RegisterPreservesConsistency(before, hasher, req);
      }
      var password_hash := hasher.hash(req.password);
      var userWithSameEmail := usersRepository.FindByEmail(req.email);
      if userWithSameEmail.Some? {
        return Failure(UserAlreadyExistsError);
      }
      if req.role != Some(ADMIN) && req.role != Some(MEMBER) {
        return Failure(UserMemberError);
      }
      var user := usersRepository.Create(req.name, req.email, password_hash, req.role.value);
      return Success(user);
    }
  }
}
