/**
 The authentication middleware `authenticateUser`: it reads the
 `Authorization` header, takes the second space-separated field as the
 token, asks the token verifier about it, and either passes the request on
 (`next()`) or answers 401. A run is recorded as the responses it wrote,
 how often it called `next`, and the exception, if any, that escaped it.
 */
module Middlewares {
  import opened Runtime

  // ---------------------------------------------------------------- String.prototype.split(' ')

  /** The position of the first space. */
  function FirstSpace(s: string): (k: Option<nat>)
    ensures k.Some? ==> k.value < |s| && s[k.value] == ' ' && ' ' !in s[..k.value]
    ensures k.None? ==> ' ' !in s
  {
    if |s| == 0 then None
    else if s[0] == ' ' then Some(0)
    else match FirstSpace(s[1..])
      case None =>
        assert s == [s[0]] + s[1..];
        None
      case Some(j) =>
        assert s[..j + 1] == [s[0]] + s[1..][..j];
        Some(j + 1)
  }

  /** Joins fields with a single space between neighbours. */
  function Join(parts: seq<string>): string
    requires |parts| >= 1
    decreases |parts|
  {
    if |parts| == 1 then parts[0] else parts[0] + " " + Join(parts[1..])
  }

  predicate NoSpaces(parts: seq<string>) {
    forall i :: 0 <= i < |parts| ==> ' ' !in parts[i]
  }

  /** `s.split(' ')`: the fields between single spaces, empty ones included. */
  function Split(s: string): (parts: seq<string>)
    ensures |parts| >= 1 && NoSpaces(parts)
    ensures Join(parts) == s
    decreases |s|
  {
    match FirstSpace(s)
    case None => [s]
    case Some(k) =>
      var rest := Split(s[k + 1..]);
      var parts := [s[..k]] + rest;
      assert parts[1..] == rest;
      assert s == s[..k] + " " + s[k + 1..];
      parts
  }

  /** Splitting undoes joining fields that hold no space: the fields of a
      header are determined by it. */
  lemma {:induction false} SplitJoin(parts: seq<string>)
    requires |parts| >= 1 && NoSpaces(parts)
    ensures Split(Join(parts)) == parts
    decreases |parts|
  {
    var s := Join(parts);
    if |parts| == 1 {
      assert ' ' !in parts[0];
    } else {
      var head := parts[0];
      var tail := Join(parts[1..]);
      assert s == head + " " + tail;
      var k := |head|;
      assert s[k] == ' ';
      assert s[..k] == head;
      assert FirstSpace(s) == Some(k);
      assert s[k + 1..] == tail;
      SplitJoin(parts[1..]);
      assert parts == [head] + parts[1..];
    }
  }

  /** `authHeader.split(' ')[1]`; None is `undefined`. */
  function TokenOf(header: string): Option<string> {
    var parts := Split(header);
    if |parts| > 1 then Some(parts[1]) else None
  }

  /** The token is the text between the first and the second space: a
      header without a space has none, and "scheme token" yields the token. */
  lemma TokenOfShape(scheme: string, token: string, rest: seq<string>)
    requires ' ' !in scheme && ' ' !in token && NoSpaces(rest)
    ensures TokenOf(scheme) == None
    ensures TokenOf(Join([scheme, token] + rest)) == Some(token)
  {
    SplitJoin([scheme]);
    SplitJoin([scheme, token] + rest);
  }

  lemma NoTokenWithoutSpace()
    ensures TokenOf("Bearer") == None && TokenOf("") == None
  {
    TokenOfShape("Bearer", "", []);
    TokenOfShape("", "", []);
  }

  lemma EmptyTokenAfterDoubleSpace()
    ensures TokenOf("Bearer  x") == Some("")
  {
    TokenOfShape("Bearer", "", ["x"]);
    assert Join(["Bearer", "", "x"]) == "Bearer  x";
  }

  lemma TokenAfterSpace()
    ensures TokenOf("Bearer abc") == Some("abc")
  {
    TokenOfShape("Bearer", "abc", []);
    assert Join(["Bearer", "abc"]) == "Bearer abc";
  }

  /** "Bearer" has no token; "Bearer  x" has the empty one; "" has none. */
  lemma TokenOfSamples()
    ensures TokenOf("Bearer") == None
    ensures TokenOf("Bearer  x") == Some("")
    ensures TokenOf("Bearer abc") == Some("abc")
    ensures TokenOf("") == None
  {
    NoTokenWithoutSpace();
    EmptyTokenAfterDoubleSpace();
    TokenAfterSpace();
  }

  // ---------------------------------------------------------------- authenticateUser

  /** `{status: 'fail', message: 'Unauthorized!'}` */
  datatype Body = Body(status: string, message: string)

  const Unauthorized: Response<Body> := Response(401, Body("fail", "Unauthorized!"))

  datatype Trace = Trace(sent: seq<Response<Body>>, nextCalls: nat, fault: Option<Fault>)

  /** `res.status(..).json(..)`: writes the response, or throws when a
      response was already written. */
  function Send(t: Trace, r: Response<Body>): (t': Trace)
    ensures |t.sent| == 0 ==> t' == t.(sent := [r])
    ensures |t.sent| > 0 ==> t' == t.(fault := Some(HeadersAlreadySent))
  {
    if |t.sent| > 0 then t.(fault := Some(HeadersAlreadySent)) else t.(sent := t.sent + [r])
  }

  /** `!authHeader`: the header is absent or empty. */
  predicate IsFalsy(header: Option<string>) {
    header.None? || header.value == ""
  }

  /** The token verifier: the subject it decodes, or None when it throws. */
  type Verifier = Option<string> -> Option<string>

  /** `authenticateUser` as written: after the 401 for a falsy header it does
      not return, but goes on to split the header. */
  function Authenticate(header: Option<string>, verify: Verifier): (t: Trace)
    ensures |t.sent| <= 1 && t.nextCalls <= 1
    ensures t.sent == [] || t.sent == [Unauthorized]
    ensures t.fault.Some? ==> t.sent == [Unauthorized] && t.nextCalls == 0
    ensures header.None? ==> t.nextCalls == 0
  {
    var t0 := Trace([], 0, None);
    var t1 := if IsFalsy(header) then Send(t0, Unauthorized) else t0;
    if header.None? then t1.(fault := Some(TypeError))
    else if verify(TokenOf(header.value)).Some? then t1.(nextCalls := t1.nextCalls + 1)
    else Send(t1, Unauthorized)
  }

  /** An absent header gets its 401, then `undefined.split` throws out of
      the middleware; `next` is never called. */
  lemma MissingHeader(verify: Verifier)
    ensures Authenticate(None, verify) == Trace([Unauthorized], 0, Some(TypeError))
  {
  }

  /** An empty header gets its 401 and then falls through to the verifier
      with an undefined token: if the verifier accepted it, `next` would run
      after the 401; since it rejects, the second 401 throws. */
  lemma EmptyHeaderFallsThrough(verify: Verifier)
    ensures var t := Authenticate(Some(""), verify);
      t.sent == [Unauthorized]
      && t.nextCalls == (if verify(None).Some? then 1 else 0)
      && t.fault == (if verify(None).Some? then None else Some(HeadersAlreadySent))
  {
    TokenOfSamples();
  }

  /** A falsy header is always answered with exactly one 401; `next` is
      still called when the header is empty and the verifier accepts an
      undefined token. */
  lemma FalsyHeaderRejected(header: Option<string>, verify: Verifier)
    requires IsFalsy(header)
    ensures Authenticate(header, verify).sent == [Unauthorized]
    ensures Authenticate(header, verify).nextCalls == 0 <==> header.None? || verify(None).None?
  {
    NoTokenWithoutSpace();
  }

  /** A non-empty header whose token the verifier accepts: `next` is called
      once and nothing is written. */
  lemma AcceptedToken(header: string, verify: Verifier)
    requires header != "" && verify(TokenOf(header)).Some?
    ensures Authenticate(Some(header), verify) == Trace([], 1, None)
  {
  }

  /** A non-empty header whose token the verifier rejects: one 401, the same
      body as for a missing header, and no `next`. */
  lemma RejectedToken(header: string, verify: Verifier)
    requires header != "" && verify(TokenOf(header)).None?
    ensures Authenticate(Some(header), verify) == Trace([Unauthorized], 0, None)
  {
  }

  /** The decoded subject is never attached to the request: two verifiers
      that accept the same tokens give the same run, whatever they decode. */
  lemma SubjectNotAttached(header: Option<string>, v1: Verifier, v2: Verifier)
    requires forall t :: v1(t).Some? <==> v2(t).Some?
    ensures Authenticate(header, v1) == Authenticate(header, v2)
  {
  }

  /** The middleware with the early return its missing-header branch lacks. */
  function AuthenticateFixed(header: Option<string>, verify: Verifier): (t: Trace)
    ensures t.fault.None?
    ensures (t.sent == [Unauthorized] && t.nextCalls == 0) || (t.sent == [] && t.nextCalls == 1)
  {
    if IsFalsy(header) then Trace([Unauthorized], 0, None)
    else if verify(TokenOf(header.value)).Some? then Trace([], 1, None)
    else Trace([Unauthorized], 0, None)
  }

  /** The fixed middleware calls `next` exactly when the header is non-empty
      and its token verifies, and agrees with the original on every
      non-empty header. */
  lemma AuthenticateFixedAgrees(header: Option<string>, verify: Verifier)
    ensures AuthenticateFixed(header, verify).nextCalls == 1 <==>
      !IsFalsy(header) && verify(TokenOf(header.value)).Some?
    ensures !IsFalsy(header) ==> AuthenticateFixed(header, verify) == Authenticate(header, verify)
  {
  }
}
