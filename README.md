# Account registry: register and authenticate over the user table

This project models the account registry of a small Node/Fastify session
service. A table of user records is keyed by email. The register use case
hashes the password, refuses an email that is already stored
(`UserAlreadyExistsError`), refuses any role other than `ADMIN` or `MEMBER`
(`UserMemberError`), and otherwise inserts one record with a fresh id. The
`POST /user` handler parses the request body against its schema. The schema
requires a password of at least 6 characters and defaults the role to
`MEMBER`. The handler then maps the use case's outcome to 201, 400 or 409,
and rethrows anything else to the application's error handler, which answers
500. The authenticate use case looks the email up and verifies the password
against the stored digest. An unknown email and a wrong password fail with
the same `InvalidCredentialError`.

Modules, one per component:

- `Wrappers` (wrappers.dfy): `Option` and `Result`.
- `Credentials` (credentials.dfy): the password hasher as an uninterpreted `Hasher` (a `hash` and a `verify` function, passed in), and its axioms `Sound`, which are:
  - `verify(p, hash(p))`;
  - `verify(q, hash(p)) ==> q == p`;
  - `hash(p) != p`.

  A concrete prefix hasher, `Witness`, is proved to satisfy them, so the axioms are consistent.
- `Users` (users.dfy): the `User` record, `Lookup` (findByEmail), the table invariant `Consistent`, the id generator, and the `UsersRepository` class whose `users: seq<User>` field `Create` appends to.
- `Registration` (registration.dfy): the use case as a specification function `Register` over the table, the lemmas about it, and the `RegisterUseCase` class whose `Execute` method changes the repository step by step and is proved equal to `Register`.
- `Authentication` (authentication.dfy): `Authenticate` as a read-only function over the table, with one lemma per test case and the register-then-authenticate round trip.
- `RegisterController` (register_controller.dfy): the schema parse, the outcome-to-status mapping, the application's error handler, the end-to-end `HandleRegister`, and the handler method `RegisterHandler`, which calls `Execute`.

Two points where the code's behaviour is easy to misread:

- The role default. A reader might expect the registration service to default the role to `MEMBER`. In the code only the HTTP handler supplies it (src/http/controllers/users/register.ts:12). The use case itself rejects an absent role (src/use-cases/register.ts:35). So `Registration.NoRoleRejected` proves that the use case called without a role fails with `UserMemberError`. `RegisterController.OmittedRoleRegistersMember` proves that the same request through the handler registers a `MEMBER`.
- The register test. src/use-cases/register.spec.ts:15-21 calls the use case with no role and expects success. That expectation contradicts the code, and no lemma states it.

## Model

| member | source | states |
|---|---|---|
| Credentials.WitnessIsSound | src/use-cases/authenticate.spec.ts:20 | a hasher meeting all three axioms exists: a password verifies against its own digest, a digest of p verifies no other password, and no digest is its plaintext |
| Users.Lookup | src/use-cases/register.ts:29 | findByEmail finds a stored user with exactly that email; it reports none exactly when no stored user has that email |
| Users.LookupFindsHolder | src/use-cases/register.ts:29 | in a table with unique emails, the lookup of a stored user's email returns that user |
| Users.LookupAfterAppend | src/use-cases/register.ts:39-44 | after a record with a new email is inserted, looking that email up returns the new record |
| Users.FreshId | src/use-cases/register.ts:39-44 | the generated id is non-empty and longer than, so different from, every stored id |
| Users.NewUser | src/use-cases/register.ts:39-44 | the record create builds gets a non-empty id that no stored user has |
| Users.UsersRepository.FindByEmail | src/use-cases/register.ts:29 | the repository answers findByEmail from its current table without changing it |
| Users.UsersRepository.Create | src/use-cases/register.ts:39-44 | create appends exactly one record, with the given fields and a fresh id, and returns it |
| Registration.DuplicateEmailRejected | src/use-cases/register.ts:29-33 | a stored email is refused with UserAlreadyExistsError and the table is unchanged, whatever the other fields, so an invalid role as well still gets the duplicate error |
| Registration.InvalidRoleRejected | src/use-cases/register.ts:35-37 | with a fresh email, an absent role or one other than ADMIN or MEMBER is refused with UserMemberError and nothing is stored |
| Registration.NoRoleRejected | src/use-cases/register.ts:35-37 | the use case called without a role fails with UserMemberError even on an empty table |
| Registration.RegisterOutcome | src/use-cases/register.ts:27-48 | a call succeeds if and only if the email is fresh and the role valid; on success one record is appended, with the request's name, email and role, hash(password) and a fresh non-empty id, and it is returned; every failure leaves the table unchanged |
| Registration.RegisterPreservesConsistency | src/use-cases/register.ts:29-44 | every call keeps the table invariant: unique emails, roles in {ADMIN, MEMBER}, unique non-empty ids |
| Registration.HashOrderUnobservable | src/use-cases/register.ts:27-37 | hashing before the checks gives the same results and table as hashing after them, since no error carries the digest; in this pure model that holds by construction |
| Registration.StoredDigestIsNotPlaintext | src/use-cases/register.ts:27-44 | under the hasher axioms, the password_hash a successful registration stores differs from the plaintext password and verifies it |
| Registration.RegisterUseCase.Execute | src/use-cases/register.ts:21-49 | the step-by-step use case (hash, findByEmail, role test, create) returns and leaves behind what Register specifies: the table is unchanged on every error and the invariant is preserved |
| Authentication.Authenticate | src/use-cases/authenticate.spec.ts:16-55 | a success returns a stored user with that email whose digest verifies the password; an email not in the table fails with InvalidCredentialError |
| Authentication.AuthenticateAgainstStoredDigest | src/use-cases/authenticate.spec.ts:16-55 | against a stored digest of p, with unique emails, password q returns that user if q is p, and InvalidCredentialError otherwise |
| Authentication.UnknownEmailLikeWrongPassword | src/use-cases/authenticate.spec.ts:32-55 | an unknown email and a wrong password for a stored email give the identical InvalidCredentialError result |
| Authentication.AuthenticatedUserHasId | src/use-cases/authenticate.spec.ts:29 | the user returned from a consistent table carries a non-empty id that no other stored user has |
| Authentication.RegisterThenAuthenticate | src/use-cases/authenticate.spec.ts:16-29 | after a successful register, authenticating with the same email and password returns the registered record, and any other password is refused |
| Authentication.ShouldAuthenticate | src/use-cases/authenticate.spec.ts:16-30 | John Doe stored with hash("123456") authenticates with "123456" as that record, whose id is a non-empty string |
| Authentication.ShouldRejectWrongEmail | src/use-cases/authenticate.spec.ts:32-39 | an empty table refuses jhondoe1@example.com with InvalidCredentialError |
| Authentication.ShouldRejectWrongPassword | src/use-cases/authenticate.spec.ts:41-55 | John Doe stored with hash("123456") is refused with "123123" with InvalidCredentialError |
| RegisterController.Utf16Length | src/http/controllers/users/register.ts:11 | a string's length in UTF-16 code units lies between its number of characters and twice that |
| RegisterController.ParseRegisterBody | src/http/controllers/users/register.ts:8-15 | parsing succeeds exactly when the body conforms to the schema (name a string, valid email, password of at least 6, role absent or a string); a failure lists at least one issue; a success carries the body's fields and the role MEMBER when it was left out |
| RegisterController.RespondTo | src/http/controllers/users/register.ts:17-38 | completion is 201 with an empty body, UserMemberError is 400 with its message, UserAlreadyExistsError is 409 with its message, and any other error is rethrown instead of answered |
| RegisterController.ErrorHandler | src/app.ts:32-47 | a schema error is answered 400 with its issues; any other error is answered 500 |
| RegisterController.MalformedBodyRejected | src/http/controllers/users/register.ts:8-15 | a body that breaks the schema is answered 400 with its issues before the use case runs; the table is unchanged |
| RegisterController.ShortPasswordRejected | src/http/controllers/users/register.ts:11 | a password shorter than 6 is answered 400 with the too-small issue, and the table is unchanged |
| RegisterController.OmittedRoleRegistersMember | src/http/controllers/users/register.ts:12-25 | a well-formed body with a fresh email and no role is answered 201 and appends one MEMBER record with that email |
| RegisterController.RegisterStatus | src/http/controllers/users/register.ts:17-38 | a well-formed request is answered 201, 400 or 409. It gets 201 exactly when one record is appended, 409 for a stored email, and 400 with the role error for a fresh email with an invalid role. A fresh email with role ADMIN or MEMBER (MEMBER when left out) gets 201 and appends exactly NewUser of the body's name, email, hash(password) and that role. Nothing is stored otherwise |
| RegisterController.HandleRegisterPreservesConsistency | src/http/controllers/users/register.ts:15-25 | no request through the handler breaks the table invariant |
| RegisterController.RegisterHandler | src/http/controllers/users/register.ts:7-39 | the handler method (parse, Execute, reply) answers and leaves behind the table exactly as HandleRegister specifies |

## Left out

- bcrypt: its cost factor, salt and slowness are not modelled. `hash` and `verify` are uninterpreted functions constrained only by `Sound`. So the digest here is a deterministic function of the password, whereas bcrypt salts each digest. `Sound` also rules out collisions, which bcrypt does not: bcrypt uses only the first 72 UTF-8 bytes of a password, so two passwords that agree on those bytes verify against each other's digest. The "any other password is refused" facts (`RegisterThenAuthenticate`, `AuthenticateAgainstStoredDigest`, `UnknownEmailLikeWrongPassword`, `ShouldRejectWrongPassword`) therefore hold for the axioms, not for the library's passwords longer than 72 bytes.
- Id generation: the repository's generator is not part of this model. `FreshId` picks a string longer than every stored id. The lemmas use only that the id is non-empty and differs from every stored id.
- The repository's implementation (Prisma or in memory) is not part of this model. `findByEmail` is a lookup over the stored sequence and `create` appends a record with a fresh id. The model does not include a store that fails: the `Unexpected` outcome covers any such error in `RespondTo`, but no function of the model produces it.
- Email format: the parser's email check is an unseen library regex, so it is a parameter `validEmail`.
- Error messages: the texts of `UserMemberError` and `UserAlreadyExistsError` are not part of this model. A reply body names the error instead of holding its text.
- The JSON body: it is reduced to four fields, each missing, a string or some other value. Unknown keys, which the parser strips, are not modelled. A body that is not a JSON object (no body, `null`, an array, a string) cannot be represented; the code rejects it in the schema parse with a root-level issue and the application's error handler answers 400.
- The authenticate use case's implementation is not part of this model. `Authenticate` follows its tests: lookup, then verify. The authenticate handler, which maps `InvalidCredentialError` to 400 and signs tokens, is left out together with the tokens.
- Access and refresh tokens, JWT signing and verification, the refresh cookie and the refresh handler: these are thin wrappers over framework plugins whose logic is not visible.
- Server setup, CORS, route wiring and logging: framework plumbing and side effects only.
- Concurrency: the requests are asynchronous, and the duplicate check followed by `create` is not atomic. The model is sequential, so the race between two registrations of one email is not captured.
