/** backend/middleware/auth.js: the bearer token in the Authorization header and
    the two middlewares that resolve it into `req.user`. JWT verification (with
    its secret) is the parameter `verify`: it yields the signed claims or None. */
module AuthMiddleware {
  import opened Js

  /** The payload the auth routes sign: `{ id, email, name }`. */
  datatype Claims = Claims(id: string, email: string, name: string)

  /** `req.user`: never assigned, assigned null, or assigned a payload. */
  datatype UserSlot = Unset | NullUser | Signed(claims: Claims)

  /** What a middleware does with the request: pass it on, or answer it. */
  datatype Outcome = Next | Reject(status: int, error: string)

  const BearerPrefix: string := "Bearer "

  /** getTokenFromHeader: a missing header reads as "". */
  function TokenFromHeader(authorization: Option<string>): (t: Option<string>)
    ensures var header := if authorization.Some? then authorization.value else "";
      && (t.Some? <==> StartsWith(header, BearerPrefix))
      && (t.Some? ==> t.value == Trim(header[|BearerPrefix|..]))
  {
    var header := if authorization.Some? then authorization.value else "";
    if !StartsWith(header, BearerPrefix) then None
    else Some(Trim(header[|BearerPrefix|..]))
  }

  /** A header built from the prefix and a trimmed token gives that token back. */
  lemma BearerRoundTrip(token: string)
    requires IsTrimmed(token)
    ensures TokenFromHeader(Some(BearerPrefix + token)) == Some(token)
  {
    var header := BearerPrefix + token;
    assert header[..|BearerPrefix|] == BearerPrefix;
    assert header[|BearerPrefix|..] == token;
    TrimOfTrimmed(token);
  }

  /** "Bearer " followed only by whitespace gives the empty token, which both
      middlewares treat as no token at all. */
  lemma BlankBearerIsEmpty(rest: string)
    requires AllSpace(rest)
    ensures TokenFromHeader(Some(BearerPrefix + rest)) == Some("")
  {
    var header := BearerPrefix + rest;
    assert header[..|BearerPrefix|] == BearerPrefix;
    assert header[|BearerPrefix|..] == rest;
    TrimEmptyIffBlank(rest);
  }

  /** The prefix is case-sensitive and needs its one space. */
  lemma PrefixIsExact(token: string)
    ensures TokenFromHeader(Some("bearer " + token)) == None
    ensures TokenFromHeader(Some("Bearer" + token)) == None || (|token| > 0 && token[0] == ' ')
    ensures TokenFromHeader(None) == None && TokenFromHeader(Some("")) == None
  {
    var h1 := "bearer " + token;
    if |h1| >= 7 {
      assert h1[..7][0] == 'b';
    }
    var h2 := "Bearer" + token;
    if StartsWith(h2, BearerPrefix) {
      assert h2[..7][6] == ' ';
      assert h2[6] == token[0];
    }
  }

  /** `req.user?.id || null`, the owner recorded by an upload. */
  function OwnerOf(user: UserSlot): (owner: Option<string>)
    ensures owner.Some? <==> user.Signed? && user.claims.id != ""
    ensures owner.Some? ==> owner.value == user.claims.id
  {
    if user.Signed? && user.claims.id != "" then Some(user.claims.id) else None
  }

  /** The request object, as far as the middlewares touch it. */
  class Request {
    const authorization: Option<string>
    var user: UserSlot

    constructor (authorization: Option<string>)
      ensures this.authorization == authorization && user == Unset
    {
      this.authorization := authorization;
      user := Unset;
    }
  }

  /** requireAuth: a missing or empty token and a token that fails verification
      are both answered 401; otherwise `req.user` becomes the payload. */
  method RequireAuth(req: Request, verify: string -> Option<Claims>) returns (o: Outcome)
    modifies req
    ensures var t := TokenFromHeader(req.authorization);
      && (t.None? || t.value == "" ==> o == Reject(401, "Authentication required") && req.user == old(req.user))
      && (t.Some? && t.value != "" && verify(t.value).None? ==>
            o == Reject(401, "Invalid token") && req.user == old(req.user))
      && (t.Some? && t.value != "" && verify(t.value).Some? ==>
            o == Next && req.user == Signed(verify(t.value).value))
  {
    var token := TokenFromHeader(req.authorization);
    if token.None? || token.value == "" {
      return Reject(401, "Authentication required");
    }
    var payload := verify(token.value);
    if payload.None? {
      return Reject(401, "Invalid token");
    }
    req.user := Signed(payload.value);
    o := Next;
  }

  /** optionalAuth: always passes the request on; with no token `req.user` is
      left as it was, with a bad token it becomes null. */
  method OptionalAuth(req: Request, verify: string -> Option<Claims>) returns (o: Outcome)
    modifies req
    ensures o == Next
    ensures var t := TokenFromHeader(req.authorization);
      && (t.None? || t.value == "" ==> req.user == old(req.user))
      && (t.Some? && t.value != "" && verify(t.value).None? ==> req.user == NullUser)
      && (t.Some? && t.value != "" && verify(t.value).Some? ==> req.user == Signed(verify(t.value).value))
  {
    var token := TokenFromHeader(req.authorization);
    if token.None? || token.value == "" {
      return Next;
    }
    var payload := verify(token.value);
    if payload.Some? {
      req.user := Signed(payload.value);
    } else {
      req.user := NullUser;
    }
    o := Next;
  }
}
