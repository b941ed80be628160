/**
 The authentication gate run before every note route: it reads the
 `Authorization` header, hands the bearer token to the identity verifier and
 either attaches `{id, email}` to the request and calls the next handler, or
 answers 401 itself.
 */
module Auth {
  import opened Wrappers
  import opened Records
  import opened Text
  import opened Routes

  /** A user as the identity verifier describes it; the gate keeps only `id` and `email`. */
  datatype Identity = Identity(id: Id, email: string, role: string)

  /** What the verifier's `getUser(token)` call came to. */
  datatype Verdict =
    | Answered(user: Option<Identity>, error: Option<string>)  // resolved to `{ data: { user }, error }`
    | Threw                                                   // rejected, e.g. the verifier was unreachable

  /** The verifier is outside the model: any function from token to verdict. */
  type Verifier = string -> Verdict

  /**
   The gate's effect on the request: the response it sent itself (if any), the
   user it attached to the request (if any), and how often it called `next`.
   */
  datatype GateResult = GateResult(response: Option<Response>, requestUser: Option<User>, nextCalls: nat)

  const BearerPrefix := "Bearer "
  const MissingHeader := "Missing or invalid authorization header"
  const InvalidToken := "Invalid or expired token"
  const AuthenticationFailed := "Authentication failed"

  predicate StartsWith(s: string, prefix: string)
  {
    |prefix| <= |s| && s[..|prefix|] == prefix
  }

  /**
   `header.split(' ')[1]`: the second space-separated field, which always exists
   after the prefix. It is whatever follows the prefix up to the next space,
   possibly nothing.
   */
  function Token(header: string): (token: string)
    requires StartsWith(header, BearerPrefix)
    ensures token == TakeUntil(header[|BearerPrefix|..], ' ')
    ensures ' ' !in token
  {
    BearerSplit(header);
    SplitFirstField(header[|BearerPrefix|..], ' ');
    Split(header, ' ')[1]
  }

  lemma BearerSplit(header: string)
    requires StartsWith(header, BearerPrefix)
    ensures Split(header, ' ') == ["Bearer"] + Split(header[|BearerPrefix|..], ' ')
  {
    assert header == "Bearer" + [' '] + header[|BearerPrefix|..];
    SplitAfterWord("Bearer", ' ', header[|BearerPrefix|..]);
  }

  /** The token of `"Bearer " + rest` is `rest` up to its first space. */
  lemma TokenAfterPrefix(rest: string)
    ensures Token(BearerPrefix + rest) == TakeUntil(rest, ' ')
  {
    var header := BearerPrefix + rest;
    assert header[|BearerPrefix|..] == rest;
  }

  /** `"Bearer "` and `"Bearer  x"` (two spaces) both yield the empty token; `"Bearer a b"` yields `"a"`. */
  lemma TokenExamples()
    ensures Token(BearerPrefix) == ""
    ensures Token(BearerPrefix + " x") == ""
    ensures Token(BearerPrefix + "a b") == "a"
  {
    TokenAfterPrefix("");
    assert BearerPrefix + "" == BearerPrefix;
    TokenAfterPrefix(" x");
    TokenAfterPrefix("a b");
    assert TakeUntil("a b", ' ') == ['a'] + TakeUntil(" b", ' ');
  }

  function Reject(message: string): GateResult
  {
    GateResult(Some(Response(401, ErrorJson(message))), None, 0)
  }

  /** The verifier accepted the token: it answered with a user and no error. */
  predicate Accepted(v: Verdict)
  {
    v.Answered? && v.user.Some? && v.error.None?
  }

  /** `authenticate(req, res, next)` for a request whose `Authorization` header is `header`. */
  function Authenticate(header: Option<string>, verify: Verifier): (g: GateResult)
    ensures g.response.Some? ==> g.response.value.status == 401
    ensures g.response.None? <==> g.nextCalls == 1
    ensures g.requestUser.Some? <==> g.nextCalls == 1
    ensures g.nextCalls <= 1
    ensures header.None? || !StartsWith(header.value, BearerPrefix) ==> g == Reject(MissingHeader)
    ensures g.nextCalls == 1 <==>
      header.Some? && StartsWith(header.value, BearerPrefix) && Accepted(verify(Token(header.value)))
    ensures g.nextCalls == 1 ==>
      var u := verify(Token(header.value)).user.value;
      g.requestUser == Some(User(u.id, u.email))
    ensures header.Some? && StartsWith(header.value, BearerPrefix) && verify(Token(header.value)).Threw? ==>
      g == Reject(AuthenticationFailed)
    ensures header.Some? && StartsWith(header.value, BearerPrefix) && verify(Token(header.value)).Answered? ==>
      g.nextCalls == 0 ==> g == Reject(InvalidToken)
  {
    if header.None? || !StartsWith(header.value, BearerPrefix) then
      Reject(MissingHeader)
    else
      match verify(Token(header.value))
      case Threw =>
        Reject(AuthenticationFailed)
      case Answered(user, error) =>
        if error.Some? || user.None? then Reject(InvalidToken)
        else GateResult(None, Some(User(user.value.id, user.value.email)), 1)
  }
}
