# Gadget service: request handlers as pure functions

A model of the decision logic of a small Express/Prisma service. The service
manages "gadgets". Each gadget has a status in {Available, Deployed,
Destroyed, Decommissioned}. The model also covers the account routes and the
token-checking middleware. Every handler becomes a pure function from the
request fields and the stored records to a response and the stored records
afterwards.

- `runtime.dfy` (`Runtime`) holds the shared JavaScript and Express
  vocabulary. It has request-body values (`Undefined | Null | Str | Num`),
  the exceptions that can escape a handler, opaque storage errors, and
  responses.
- `numbers.dfy` (`Numbers`) holds decimal digit strings and JavaScript's
  `String(v)`. At 10^21 and above, numbers print with an exponent.
- `utils.dfy` (`Utils`) holds `isNumeric`, the regular expression `^\d+$`
  tested against `String(v)`. It also holds `parseInt` on the values that
  pass that test.
- `gadgets.dfy` (`Gadgets`) holds the five gadget handlers. The storage
  client is a sequence of records in `findMany` order. Its `update` and
  `create` calls are modelled with "record not found", "unique violation"
  and "invalid argument" outcomes.
- `auth.dfy` (`Auth`) holds `/create_user` and `/login` over a map from
  user name to stored digest.
- `middlewares.dfy` (`Middlewares`) holds `authenticateUser`. A run is
  recorded as a trace: the responses it wrote, how often it called `next`,
  and the exception that escaped it, if any.

Timestamps (`new Date()`) come in as a parameter `now`. So do the generated
gadget name, success value and id. The password digest and the token
verifier are also parameters, and so is the token signer.

The code does less than its own comments and messages say in four places.
The model follows the code:

- a failed account creation answers nothing at all, although the route's
  doc comment (`src/routes/auth.js:10-21`) promises a failure response: its
  `catch` throws a ReferenceError (see Findings);
- the middleware's doc comment (`src/middlewares/middlewares.js:5-18`) says
  a missing token is answered with a 401, but the code does not stop after
  that 401;
- the digest function the account routes import is not exported by the
  utilities file;
- PATCH rejects `success` with the message "success must be a number
  between 0-100", but accepts any digit string.

The listing returns every stored gadget; it takes no filter.

## Model

| member | source | states |
|---|---|---|
| `Utils.IsNumericIff` | src/utils/utils.js:17 | isNumeric holds iff the value's string is non-empty and every character is an ASCII digit |
| `Utils.RejectsNonDigit` | src/utils/utils.js:17 | any non-digit character anywhere (sign, point, space, letter) makes the value non-numeric |
| `Utils.RejectsNullishAndEmpty` | src/utils/utils.js:17 | null and undefined become "null" and "undefined" and are rejected; so is the empty string |
| `Utils.RejectsSamples` | src/utils/utils.js:17 | "-1", "1.5" and " 5" are rejected |
| `Utils.IsNumericNumber` | src/utils/utils.js:17 | a JSON number passes iff it is a non-negative integer below 10^21 |
| `Numbers.NumberToStringDigits` | src/utils/utils.js:17 | a number's string is all digits iff the number lies in [0, 10^21) |
| `Utils.ParseIntRoundTrip` | src/routes/routes.js:76-79 | parseInt of the digits of n, or of n itself below 10^21, gives back n |
| `Utils.ParseIntCanonical` | src/routes/routes.js:76-79 | a numeric string without leading zeros is the decimal spelling of its parse |
| `Utils.LeadingZerosAccepted` | src/utils/utils.js:17 | a leading zero keeps a value numeric and does not change its parse |
| `Utils.NoUpperBound` | src/utils/utils.js:17 | "250" and "007" are accepted and parse to 250 and 7; no 0-100 bound |
| `Gadgets.ParseStatusExact` | src/routes/routes.js:57-62 | the status check accepts exactly the four status names, each as itself |
| `Gadgets.ParseStatusRejectsNullish` | src/routes/routes.js:58 | null, undefined and numbers are not a status |
| `Gadgets.Find` | src/routes/routes.js:88-93 | the lookup returns the first position holding the key, or none exists |
| `Gadgets.Update` | src/routes/routes.js:88-93 | update fails with RecordNotFound iff no record has the key; otherwise it rewrites that record alone and returns it |
| `Gadgets.List` | src/routes/routes.js:8-18 | 200 with exactly one entry per stored gadget, in store order, each its id and display string; no status filter; store unchanged |
| `Gadgets.RenderDecodes` | src/routes/routes.js:13-16 | a display string starts with the gadget's name, and its status can be read back from it |
| `Gadgets.Create` | src/routes/routes.js:25-41 | 201 iff the id and name are new: the store gains exactly the generated name and success with status Available; otherwise 500 with the storage error and no change |
| `Gadgets.PatchData` | src/routes/routes.js:70-86 | once validation passed, `data` is defined and holds exactly the supplied fields, success parsed |
| `Gadgets.Patch` | src/routes/routes.js:44-99 | every answer other than 201 leaves the store unchanged |
| `Gadgets.PatchMissingName` | src/routes/routes.js:48-51 | a null or undefined name gives 422 "name field is required", store unchanged |
| `Gadgets.PatchNoFields` | src/routes/routes.js:52-55 | status and success both undefined gives 400, store unchanged |
| `Gadgets.PatchBadStatus` | src/routes/routes.js:57-62 | a supplied status outside the four names, null included, gives 400, store unchanged |
| `Gadgets.PatchBadSuccess` | src/routes/routes.js:63-68 | a supplied success failing isNumeric, null included, gives 400, store unchanged |
| `Gadgets.PatchWritesSupplied` | src/routes/routes.js:70-98 | past validation, the update writes exactly the supplied fields; a failed lookup is a 400 carrying the storage error |
| `Gadgets.PatchSucceedsIff` | src/routes/routes.js:44-98 | 201 iff the name is a stored name and each supplied field is valid; then only that gadget changes |
| `Gadgets.PatchExceedsRange` | src/routes/routes.js:63-79 | success "250" is accepted and stored, leaving the [0, 100] range |
| `Gadgets.PatchBounded` | src/routes/routes.js:63-67 | the bounded handler leaves the store unchanged whenever it does not answer 201 |
| `Gadgets.PatchBoundedKeepsRange` | src/routes/routes.js:63-67 | with the announced bound, success values stay in [0, 100], and the handler agrees with the original on values up to 100 |
| `Gadgets.Delete` | src/routes/routes.js:101-122 | a null or undefined name gives 400; otherwise 201 iff the name is stored; then that gadget becomes Decommissioned and stamped, whatever its status was |
| `Gadgets.FindByUniqueName` | src/routes/routes.js:108-111 | under unique names, a name selects exactly the gadget that has it |
| `Gadgets.DeleteIdempotent` | src/routes/routes.js:108-116 | a second DELETE leaves the store as one DELETE at the later time would |
| `Gadgets.SelfDestruct` | src/routes/routes.js:124-147 | a null or undefined code gives 400; an unknown id gives 500; otherwise the gadget with that id becomes Destroyed and stamped |
| `Gadgets.SelfDestructIgnoresCode` | src/routes/routes.js:127-131 | any two present confirmation codes give the same result |
| `Gadgets.UpdateKeepsKeys` | src/routes/routes.js:88-93 | an update keeps ids and names unique |
| `Gadgets.CreateKeepsUniqueKeys` | src/routes/routes.js:29-35 | create keeps ids and names unique |
| `Gadgets.PatchKeepsUniqueKeys` | src/routes/routes.js:88-93 | PATCH keeps ids and names unique |
| `Gadgets.DeleteKeepsUniqueKeys` | src/routes/routes.js:108-116 | DELETE keeps ids and names unique |
| `Gadgets.SelfDestructKeepsUniqueKeys` | src/routes/routes.js:132-140 | self-destruct keeps ids and names unique |
| `Gadgets.HandlersKeepSuccessInRange` | src/utils/utils.js:11-14 | with a generated success in [0, 100), create, DELETE and self-destruct keep every success in [0, 100] |
| `Auth.CreateUser` | src/routes/auth.js:22-42 | missing fields give 400 "username and password is required"; a 200 adds one user; everything else leaves users unchanged |
| `Auth.CreateUserSucceedsIff` | src/routes/auth.js:24-37 | 200 iff the digest exists, both fields are present and the name is a new string; then exactly one record {name, digest(password)} is added |
| `Auth.CreateUserTakenEscapes` | src/routes/auth.js:38-41 | a taken name throws a ReferenceError out of the catch: no response and no change |
| `Auth.CreateUserUnexportedNeverInserts` | src/routes/auth.js:29 | without an exported digest function, no account is ever created |
| `Auth.CreateUserFixed` | src/routes/auth.js:38-41 | with the name in scope, the handler always answers |
| `Auth.CreateUserFixedAgrees` | src/routes/auth.js:38-41 | the fixed handler equals the original wherever that answers, and otherwise gives 400 "username ... taken" |
| `Auth.Login` | src/routes/auth.js:57-77 | login always answers, with 200 or 404, and never writes users |
| `Auth.LoginSucceedsIff` | src/routes/auth.js:60-69 | 200 with {token: sign(userName)} iff the user exists and the recomputed digest equals the stored one |
| `Auth.LoginWrongPassword` | src/routes/auth.js:70-72 | an existing user with a mismatching digest gets 404 "invalid password" |
| `Auth.LoginUnknownUser` | src/routes/auth.js:60-76 | an unknown or non-string name, or a missing digest function, ends in the catch's 404 |
| `Auth.CreateThenLogin` | src/routes/auth.js:29-69 | an account just created logs in with the same password and gets the token for its name |
| `Middlewares.FirstSpace` | src/middlewares/middlewares.js:27 | returns the first space's position, or there is no space |
| `Middlewares.Split` | src/middlewares/middlewares.js:27 | split(' ') gives space-free fields that join back to the header |
| `Middlewares.SplitJoin` | src/middlewares/middlewares.js:27 | splitting undoes joining space-free fields |
| `Middlewares.TokenOfShape` | src/middlewares/middlewares.js:27 | the token is the second field: none without a space, the text between the first and the second space otherwise |
| `Middlewares.TokenOfSamples` | src/middlewares/middlewares.js:27 | "Bearer" and "" have no token, "Bearer  x" has "", "Bearer abc" has "abc" |
| `Middlewares.Authenticate` | src/middlewares/middlewares.js:19-38 | at most one response is written, always the 401, and next is called at most once; an escaping exception always follows a written 401 and no next; with no header next is never called |
| `Middlewares.MissingHeader` | src/middlewares/middlewares.js:20-27 | no header: one 401, then a TypeError escapes; next is never called |
| `Middlewares.EmptyHeaderFallsThrough` | src/middlewares/middlewares.js:21-37 | empty header: a 401, then the verifier decides on an undefined token; accepting would also call next |
| `Middlewares.FalsyHeaderRejected` | src/middlewares/middlewares.js:20-37 | a falsy header always gets exactly one 401; next is skipped iff the header is absent or the verifier rejects an undefined token |
| `Middlewares.AcceptedToken` | src/middlewares/middlewares.js:28-31 | an accepted token calls next once and writes nothing |
| `Middlewares.RejectedToken` | src/middlewares/middlewares.js:32-37 | a rejected token gets exactly one 401 {status: fail, message: Unauthorized!} and no next |
| `Middlewares.SubjectNotAttached` | src/middlewares/middlewares.js:29-30 | verifiers accepting the same tokens give the same run: the decoded subject is unused |
| `Middlewares.AuthenticateFixed` | src/middlewares/middlewares.js:21-26 | with an early return, each run has exactly one outcome, either one 401 or one next, and nothing escapes |
| `Middlewares.AuthenticateFixedAgrees` | src/middlewares/middlewares.js:19-38 | the fixed middleware calls next iff the header is non-empty and its token verifies; on non-empty headers it equals the original |

## Left out

- Server start-up, JSON body parsing and `listen` are not modelled. The server mounts the gadget routes without the middleware and does not mount the account routes, so no composed auth-then-gadget pipeline is modelled.
- Storage failures other than record-not-found, unique violation and invalid argument are left out, for example a lost connection. So the listing's 500 branch is not modelled: reading the in-memory store cannot fail.
- The storage schema is not part of this model. Ids are taken as the strings route parameters carry. A new gadget's timestamp is taken as null. Column widths are not modelled.
- JSON booleans, fractional numbers, arrays and objects in request bodies are not modelled. With the four modelled kinds, the loose `==` against a status word reduces to string identity.
- `Middlewares.FalsyHeaderRejected`: does not promise "no next" for an empty header. The token verifier is a parameter, and nothing in it says that verifying an undefined token throws. The `jsonwebtoken` library throws there, but it is not part of this model. So `next` stays possible after the 401 when the verifier accepts an undefined token.
- `Utils.ParseInt`: computes the exact value of the digit string. It does not model the rounding to a double above 2^53.
- `Numbers.ExponentForm`: uses the integer's exact digits as the mantissa. That is JavaScript's spelling only when those digits are the shortest round-trip form. Only the presence of the `e` matters to the model.
- The digest algorithm, `jwt.sign` and `jwt.verify` are parameters. Their algorithms, the missing-secret failure of `sign`, and token expiry are not modelled.
- The name generator and the random success generator are parameters of `Gadgets.Create`. That the success value lies in [0, 100) is an assumption of `Gadgets.HandlersKeepSuccessInRange`.
- `new Date()` is the parameter `now`. `console.log`, async scheduling and concurrent requests are not modelled.
- What Express does with an exception that escapes a handler or the middleware is not modelled: an error handler, or an unhandled rejection. The model records the escape. The handler run behind `next()` is not modelled either.

## Findings

| source | as written | input that shows it | evidently intended | confidence | as-written member | corrected member |
|---|---|---|---|---|---|---|
| src/routes/routes.js:63-79 | PATCH accepts any digit string as `success`; the rejection message says 0-100 | PATCH `{name: "g", success: "250"}` on a stored gadget "g" | reject parsed values above 100 | medium, not executed | `Gadgets.PatchExceedsRange` | `Gadgets.PatchBoundedKeepsRange` |
| src/routes/auth.js:38-41 | the `catch` reads `userName`, declared with `const` inside the `try`; a ReferenceError escapes and nothing is answered | `/create_user` with a name already stored | answer 400 "username <name> taken" | high, not executed | `Auth.CreateUserTakenEscapes` | `Auth.CreateUserFixedAgrees` |
| src/middlewares/middlewares.js:21-27 | after the 401 for a missing header the function does not return; `undefined.split` throws | a request with no `Authorization` header | return right after the 401 | high, not executed | `Middlewares.MissingHeader` | `Middlewares.AuthenticateFixedAgrees` |
| src/routes/auth.js:2 | `generateHash` is imported, but the utilities file does not export it, so every call throws | `/create_user` `{userName: "alice", password: "pw"}` | store the digest and later log in with it | high, not executed | `Auth.CreateUserUnexportedNeverInserts` | `Auth.CreateThenLogin` |
