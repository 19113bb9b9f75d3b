/**
 The account routes `/create_user` and `/login` over the stored users, a
 map from user name to stored password digest (the map's keys are the
 storage schema's unique names). The password digest and the token signer
 are parameters: their algorithms are not part of this model.
 */
module Auth {
  import opened Runtime
  import opened Numbers

  /** The password digest the account routes import. The utilities file
      does not export one, so as shipped the imported binding is `undefined`
      and calling it throws a TypeError; `Exported` stands for a build that
      provides a digest function. */
  datatype Hasher = Unexported | Exported(digest: JsValue -> string)

  type Users = map<string, string>

  /** A response body of the account routes. */
  datatype Body =
    | Failure(message: string)  // {success: false, message}
    | Success(message: string)  // {success: true, message}
    | TokenBody(token: string)  // {token}

  datatype Handled = Handled(reply: Reply<Body>, users: Users)

  const CredentialsRequired := "username and password is required"
  const InvalidPassword := "invalid password"
  const InvalidLogin := "invalind userid or password"

  function Created(name: JsValue): string {
    "user with username " + ToJsString(name) + " created"
  }

  function Taken(name: JsValue): string {
    "username " + ToJsString(name) + " taken"
  }

  // ---------------------------------------------------------------- POST /create_user

  /** The `try` block of `/create_user` after its null check: digest the
      password, then `prisma.user.create`. None when something in it throws:
      the missing digest function, a name that is not a string, or a name
      already taken. */
  function TryCreate(users: Users, hasher: Hasher, userName: JsValue, password: JsValue): (r: Option<Users>)
    ensures r.Some? <==> hasher.Exported? && userName.Str? && userName.s !in users
    ensures r.Some? ==> r.value == users[userName.s := hasher.digest(password)]
  {
    match hasher
    case Unexported => None
    case Exported(digest) =>
      var stored := digest(password);
      if !userName.Str? then None
      else if userName.s in users then None
      else Some(users[userName.s := stored])
  }

  /** `POST /create_user` as written. Its `catch` builds the message from
      `userName`, a constant declared inside the `try` block and so not in
      scope there: the ReferenceError escapes and no response is written. */
  function CreateUser(users: Users, hasher: Hasher, userName: JsValue, password: JsValue): (h: Handled)
    ensures IsNullish(userName) || IsNullish(password) ==>
      h == Handled(Sent(Response(400, Failure(CredentialsRequired))), users)
    ensures h.reply.Sent? && h.reply.response.status == 200 ==> |h.users| == |users| + 1
    ensures !(h.reply.Sent? && h.reply.response.status == 200) ==> h.users == users
  {
    if IsNullish(userName) || IsNullish(password) then
      Handled(Sent(Response(400, Failure(CredentialsRequired))), users)
    else match TryCreate(users, hasher, userName, password)
      case Some(users') => Handled(Sent(Response(200, Success(Created(userName)))), users')
      case None => Handled(Escaped(ReferenceError("userName")), users)
  }

  /** `POST /create_user` with the `catch` able to see the request's user
      name: a failed insert answers 400 "username ... taken". */
  function CreateUserFixed(users: Users, hasher: Hasher, userName: JsValue, password: JsValue): (h: Handled)
    ensures h.reply.Sent?
  {
    if IsNullish(userName) || IsNullish(password) then
      Handled(Sent(Response(400, Failure(CredentialsRequired))), users)
    else match TryCreate(users, hasher, userName, password)
      case Some(users') => Handled(Sent(Response(200, Success(Created(userName)))), users')
      case None => Handled(Sent(Response(400, Failure(Taken(userName)))), users)
  }

  /** A create succeeds exactly when the digest exists, both fields are
      present, the name is a string and not yet taken; then exactly one user
      is added, holding the digest of the password. */
  lemma CreateUserSucceedsIff(users: Users, hasher: Hasher, userName: JsValue, password: JsValue)
    ensures var h := CreateUser(users, hasher, userName, password);
      (h.reply.Sent? && h.reply.response.status == 200) <==>
        hasher.Exported? && userName.Str? && userName.s !in users && !IsNullish(password)
    ensures var h := CreateUser(users, hasher, userName, password);
      h.reply.Sent? && h.reply.response.status == 200 ==>
        && h.users.Keys == users.Keys + {userName.s}
        && h.users[userName.s] == hasher.digest(password)
        && (forall n :: n in users ==> h.users[n] == users[n])
        && h.reply.response.body == Success("user with username " + userName.s + " created")
  {
  }

  /** As written, a taken name makes the handler throw out of its `catch`:
      nothing is answered and nothing is stored. */
  lemma CreateUserTakenEscapes(users: Users, digest: JsValue -> string, name: string, password: JsValue)
    requires name in users && !IsNullish(password)
    ensures CreateUser(users, Exported(digest), Str(name), password) == Handled(Escaped(ReferenceError("userName")), users)
  {
  }

  /** As shipped, with no digest function exported, no account is ever
      created and every request past the null check escapes. */
  lemma CreateUserUnexportedNeverInserts(users: Users, userName: JsValue, password: JsValue)
    ensures CreateUser(users, Unexported, userName, password).users == users
    ensures !IsNullish(userName) && !IsNullish(password) ==>
      CreateUser(users, Unexported, userName, password).reply == Escaped(ReferenceError("userName"))
  {
  }

  /** The fixed handler answers every request, agrees with the original
      wherever the original answers, and reports a taken name as a 400. */
  lemma CreateUserFixedAgrees(users: Users, hasher: Hasher, userName: JsValue, password: JsValue)
    ensures var h := CreateUser(users, hasher, userName, password);
      h.reply.Sent? ==> CreateUserFixed(users, hasher, userName, password) == h
    ensures var h := CreateUser(users, hasher, userName, password);
      h.reply.Escaped? ==>
        CreateUserFixed(users, hasher, userName, password) == Handled(Sent(Response(400, Failure(Taken(userName)))), users)
  {
  }

  // ---------------------------------------------------------------- POST /login

  /** `POST /login`. The storage lookup throws for a name that is not a
      string; calling the missing digest function throws; reading
      `user.password` throws when no user has the name. Every throw lands in
      the `catch`, which answers 404. Login returns no users: it never
      writes to storage. */
  function Login(users: Users, hasher: Hasher, sign: string -> string, userName: JsValue, password: JsValue): (r: Reply<Body>)
    ensures r.Sent?
    ensures r.response.status == 200 || r.response.status == 404
  {
    if !userName.Str? then Sent(Response(404, Failure(InvalidLogin)))
    else
      var user := if userName.s in users then Some(users[userName.s]) else None;
      match hasher
      case Unexported => Sent(Response(404, Failure(InvalidLogin)))
      case Exported(digest) =>
        var passwordHash := digest(password);
        if user.None? then Sent(Response(404, Failure(InvalidLogin)))
        else if passwordHash == user.value then Sent(Response(200, TokenBody(sign(userName.s))))
        else Sent(Response(404, Failure(InvalidPassword)))
  }

  /** Login answers 200 with the signed user name exactly when the user
      exists and the recomputed digest equals the stored one. */
  lemma LoginSucceedsIff(users: Users, hasher: Hasher, sign: string -> string, userName: JsValue, password: JsValue)
    ensures var r := Login(users, hasher, sign, userName, password);
      r.response.status == 200 <==>
        hasher.Exported? && userName.Str? && userName.s in users && hasher.digest(password) == users[userName.s]
    ensures var r := Login(users, hasher, sign, userName, password);
      r.response.status == 200 ==> r.response.body == TokenBody(sign(userName.s))
  {
  }

  /** A stored user with a digest that does not match gets "invalid password". */
  lemma LoginWrongPassword(users: Users, digest: JsValue -> string, sign: string -> string, name: string, password: JsValue)
    requires name in users && digest(password) != users[name]
    ensures Login(users, Exported(digest), sign, Str(name), password) == Sent(Response(404, Failure(InvalidPassword)))
  {
  }

  /** An unknown or non-string user name, or a missing digest function,
      ends in the `catch` and its generic 404. */
  lemma LoginUnknownUser(users: Users, hasher: Hasher, sign: string -> string, userName: JsValue, password: JsValue)
    requires !userName.Str? || userName.s !in users || hasher.Unexported?
    ensures Login(users, hasher, sign, userName, password) == Sent(Response(404, Failure(InvalidLogin)))
  {
  }

  /** With a digest function, an account just created logs in with the same
      password and receives the token signed for its name. */
  lemma {:induction false} CreateThenLogin(users: Users, digest: JsValue -> string, sign: string -> string, name: string, password: JsValue)
    requires name !in users && !IsNullish(password)
    ensures var h := CreateUser(users, Exported(digest), Str(name), password);
      h.reply == Sent(Response(200, Success(Created(Str(name)))))
      && Login(h.users, Exported(digest), sign, Str(name), password) == Sent(Response(200, TokenBody(sign(name))))
  {
    var h := CreateUser(users, Exported(digest), Str(name), password);
    assert h.users == users[name := digest(password)];
    LoginSucceedsIff(h.users, Exported(digest), sign, Str(name), password);
  }
}
