/**
 * The POST /user handler: parse the body against the schema, run the register
 * use case, and turn its outcome into an HTTP reply; errors the handler does
 * not recognise go on to the application's error handler.
 */
module RegisterController {
  import opened Wrappers
  import opened Users
  import opened Credentials
  import opened Registration

  /** One field of the JSON body: missing, a string, or some other JSON value. */
  datatype Field = Absent | Text(value: string) | NotText

  datatype RegisterBody = RegisterBody(name: Field, email: Field, password: Field, role: Field)

  datatype FieldName = Name | Email | Password | Role

  /** The schema violations the parser reports. */
  datatype Issue = InvalidType(field: FieldName) | InvalidEmail | TooSmall(field: FieldName, minimum: nat)

  const MinPasswordLength: nat := 6
  const DefaultRole: string := MEMBER

  /** The length of a string as the parser counts it: in UTF-16 code units. */
  function Utf16Length(s: string): (n: nat)
    ensures |s| <= n <= 2 * |s|
  {
    if s == [] then 0 else (if s[0] as int > 0xFFFF then 2 else 1) + Utf16Length(s[1..])
  }

  /** The schema, field by field: what a body must be for parsing to succeed. */
  ghost predicate Conforms(body: RegisterBody, validEmail: string -> bool) {
    && body.name.Text?
    && body.email.Text? && validEmail(body.email.value)
    && body.password.Text? && Utf16Length(body.password.value) >= MinPasswordLength
    && !body.role.NotText?
  }

  function NameIssues(f: Field): (issues: set<Issue>) {
    if f.Text? then {} else {InvalidType(Name)}
  }

  function EmailIssues(f: Field, validEmail: string -> bool): (issues: set<Issue>) {
    match f
    case Text(e) => if validEmail(e) then {} else {InvalidEmail}
    case _ => {InvalidType(Email)}
  }

  function PasswordIssues(f: Field): (issues: set<Issue>) {
    match f
    case Text(p) => if Utf16Length(p) < MinPasswordLength then {TooSmall(Password, MinPasswordLength)} else {}
    case _ => {InvalidType(Password)}
  }

  /** The role may be left out (it then defaults); only a non-string is an issue. */
  function RoleIssues(f: Field): (issues: set<Issue>) {
    if f.NotText? then {InvalidType(Role)} else {}
  }

  /**
   * Parsing the body: every issue of every field is collected; with none, the
   * request for the use case is built and a missing role becomes MEMBER.
   */
  function ParseRegisterBody(body: RegisterBody, validEmail: string -> bool): (r: Result<RegisterRequest, set<Issue>>)
    ensures r.Success? <==> Conforms(body, validEmail)
    ensures r.Failure? ==> r.error != {}
    ensures r.Success? ==>
      && Text(r.value.name) == body.name && Text(r.value.email) == body.email
      && Text(r.value.password) == body.password
      && r.value.role == Some(if body.role.Absent? then DefaultRole else body.role.value)
  {
    var issues := NameIssues(body.name) + EmailIssues(body.email, validEmail)
      + PasswordIssues(body.password) + RoleIssues(body.role);
    if issues != {} then Failure(issues)
    else Success(RegisterRequest(body.name.value, body.email.value, body.password.value,
                                 Some(if body.role.Absent? then DefaultRole else body.role.value)))
  }

  /** What the use case did, as the handler's try/catch sees it. */
  datatype Thrown = Raised(error: RegisterError) | Unexpected(cause: string)
  datatype UseCaseOutcome = Completed | Threw(thrown: Thrown)

  datatype ReplyBody = NoBody | Message(of: RegisterError) | ValidationIssues(issues: set<Issue>) | InternalServerError
  datatype Reply = Reply(status: nat, body: ReplyBody)

  /** An error that leaves the handler: the parser's, or one it rethrows. */
  datatype AppError = ZodError(issues: set<Issue>) | Rethrown(cause: string)

  /** Either the handler replies itself or an error propagates out of it. */
  datatype Handled = Replied(reply: Reply) | Propagated(error: AppError)

  function OutcomeOf(r: Result<User, RegisterError>): (o: UseCaseOutcome) {
    if r.Success? then Completed else Threw(Raised(r.error))
  }

  /** The handler's catch clauses and its final reply. */
  function RespondTo(o: UseCaseOutcome): (h: Handled)
    ensures h.Replied? <==> !o.Threw? || o.thrown.Raised?
    ensures h.Replied? ==> h.reply.status in {201, 400, 409}
    ensures h == Replied(Reply(201, NoBody)) <==> o == Completed
    ensures h == Replied(Reply(400, Message(UserMemberError))) <==> o == Threw(Raised(UserMemberError))
    ensures h == Replied(Reply(409, Message(UserAlreadyExistsError))) <==> o == Threw(Raised(UserAlreadyExistsError))
    ensures o.Threw? && o.thrown.Unexpected? ==> h == Propagated(Rethrown(o.thrown.cause))
  {
    match o
    case Completed => Replied(Reply(201, NoBody))
    case Threw(Raised(UserMemberError)) => Replied(Reply(400, Message(UserMemberError)))
    case Threw(Raised(UserAlreadyExistsError)) => Replied(Reply(409, Message(UserAlreadyExistsError)))
    case Threw(Unexpected(cause)) => Propagated(Rethrown(cause))
  }

  /** The application's error handler: a schema error is a 400 with its issues, anything else a 500. */
  function ErrorHandler(e: AppError): (reply: Reply)
    ensures reply.status == 400 <==> e.ZodError?
    ensures e.ZodError? ==> reply.body == ValidationIssues(e.issues)
    ensures e.Rethrown? ==> reply == Reply(500, InternalServerError)
  {
    match e
    case ZodError(issues) => Reply(400, ValidationIssues(issues))
    case Rethrown(_) => Reply(500, InternalServerError)
  }

  function Serve(h: Handled): (reply: Reply) {
    match h
    case Replied(reply) => reply
    case Propagated(e) => ErrorHandler(e)
  }

  /** The whole request on the table `users`: the reply sent and the table afterwards. */
  function HandleRegister(users: seq<User>, hasher: Hasher, validEmail: string -> bool, body: RegisterBody): (r: (seq<User>, Reply))
  {
    match ParseRegisterBody(body, validEmail)
    case Failure(issues) => (users, ErrorHandler(ZodError(issues)))
    case Success(req) =>
      var r := Register(users, hasher, req);
      (r.users, Serve(RespondTo(OutcomeOf(r.outcome))))
  }

  /**
   * A body that breaks the schema (a short password, a bad email, a missing
   * name, ...) is answered 400 with the issues before the use case runs, so
   * the table is unchanged.
   */
  lemma MalformedBodyRejected(users: seq<User>, hasher: Hasher, validEmail: string -> bool, body: RegisterBody)
    requires !Conforms(body, validEmail)
    ensures var (after, reply) := HandleRegister(users, hasher, validEmail, body);
      after == users && reply.status == 400 && reply.body.ValidationIssues? && reply.body.issues != {}
  {
  }

  /** A password shorter than six UTF-16 code units is reported as too small. */
  lemma ShortPasswordRejected(users: seq<User>, hasher: Hasher, validEmail: string -> bool, body: RegisterBody)
    requires body.password.Text? && Utf16Length(body.password.value) < MinPasswordLength
    ensures var (after, reply) := HandleRegister(users, hasher, validEmail, body);
      after == users && reply.status == 400 && reply.body.ValidationIssues?
      && TooSmall(Password, MinPasswordLength) in reply.body.issues
  {
  }

  /**
   * With the role left out, a fresh, well-formed body registers a MEMBER and
   * is answered 201 with an empty body.
   */
  lemma OmittedRoleRegistersMember(users: seq<User>, hasher: Hasher, validEmail: string -> bool, body: RegisterBody)
    requires Conforms(body, validEmail) && body.role.Absent?
    requires forall i :: 0 <= i < |users| ==> users[i].email != body.email.value
    ensures var (after, reply) := HandleRegister(users, hasher, validEmail, body);
      && reply == Reply(201, NoBody)
      && |after| == |users| + 1 && after[..|users|] == users
      && after[|users|].role == MEMBER && after[|users|].email == body.email.value
  {
  }

  /**
   * Status and effect of every well-formed request: 201 exactly when one
   * record was appended, 409 for a stored email, 400 with the role error for
   * a fresh email and an unknown role, and 201 with the new record appended
   * for a fresh email and a valid role; nothing is stored on a 4xx.
   */
  lemma RegisterStatus(users: seq<User>, hasher: Hasher, validEmail: string -> bool, body: RegisterBody)
    requires Conforms(body, validEmail)
    ensures var (after, reply) := HandleRegister(users, hasher, validEmail, body);
      var stored := exists i :: 0 <= i < |users| && users[i].email == body.email.value;
      var role := if body.role.Absent? then DefaultRole else body.role.value;
      && reply.status in {201, 400, 409}
      && (reply.status == 201 <==> (|after| == |users| + 1 && after[..|users|] == users))
      && (reply.status != 201 ==> after == users)
      && (stored ==> reply == Reply(409, Message(UserAlreadyExistsError)))
      && (!stored && !IsRole(role) ==> reply == Reply(400, Message(UserMemberError)))
      && (!stored && IsRole(role) ==>
            && reply == Reply(201, NoBody)
            && after == users + [NewUser(users, body.name.value, body.email.value, hasher.hash(body.password.value), role)])
  {
  }

  /** No request served by the handler breaks the table's invariant. */
  lemma HandleRegisterPreservesConsistency(users: seq<User>, hasher: Hasher, validEmail: string -> bool, body: RegisterBody)
    requires Consistent(users)
    ensures Consistent(HandleRegister(users, hasher, validEmail, body).0)
  {
  }

  /** The handler itself: parse, run the use case, answer. */
  method RegisterHandler(useCase: RegisterUseCase, validEmail: string -> bool, body: RegisterBody) returns (reply: Reply)
    modifies useCase.usersRepository
    ensures (useCase.usersRepository.users, reply) ==
      HandleRegister(old(useCase.usersRepository.users), useCase.hasher, validEmail, body)
  {
    var parsed := ParseRegisterBody(body, validEmail);
    if parsed.Failure? {
      return ErrorHandler(ZodError(parsed.error));
    }
    var outcome := useCase.Execute(parsed.value);
    reply := Serve(RespondTo(OutcomeOf(outcome)));
  }
}
