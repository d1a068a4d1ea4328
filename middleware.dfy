/** The authentication middleware verifyAccessToken (middlewares/index.js):
    read the bearer token from the Authorization header, verify it, load
    the user it names and hand the request on. JWT verification is a
    parameter: `verify(token)` is None when jwt.verify throws, and otherwise
    the `id` of the decoded payload (None when the payload has none). */
module Middleware {
  import opened Js
  import opened Http
  import opened Models
  import opened Db

  const Bearer: string := "Bearer "

  /** The token of an Authorization header: None when the header is missing,
      empty or does not start with "Bearer " (case-sensitive); otherwise the
      second field of `header.split(" ")`, i.e. everything after the first
      space up to the next one. */
  function BearerToken(header: Option<string>): (r: Option<string>)
    ensures r.Some? <==> header.Some? && StartsWith(header.value, Bearer)
    ensures r.Some? ==> ' ' !in r.value
    ensures r.Some? ==> var rest := header.value[|Bearer|..];
                        r.value == rest[..IndexOf(rest, ' ')]
  {
    if header.None? || header.value == "" || !StartsWith(header.value, Bearer) then None
    else
      var h := header.value;
      assert h[6] == ' ';
      assert IndexOf(h, ' ') == 6 by { IndexOfFirst(h, ' ', 6); }
      SplitSecond(h, ' ');
      Some(Split(h, ' ')[1])
  }

  /** A header built from a token without spaces yields that token back. */
  lemma BearerRoundTrip(token: string)
    requires ' ' !in token
    ensures BearerToken(Some(Bearer + token)) == Some(token)
  {
    var h := Bearer + token;
    assert h[|Bearer|..] == token;
    assert StartsWith(h, Bearer);
    assert forall k | 0 <= k < |token| :: token[k] != ' ';
    assert token[..|token|] == token;
  }

  /** Only the first field after "Bearer " is read: "Bearer a b" yields "a". */
  lemma BearerFirstField(token: string, rest: string)
    requires ' ' !in token
    ensures BearerToken(Some(Bearer + token + " " + rest)) == Some(token)
  {
    var h := Bearer + token + " " + rest;
    var after := h[|Bearer|..];
    assert after == token + " " + rest;
    assert after[|token|] == ' ' && after[..|token|] == token;
    IndexOfFirst(after, ' ', |token|);
    assert StartsWith(h, Bearer);
  }

  /** A second space after "Bearer" yields the empty token: "Bearer  x"
      yields "". */
  lemma BearerDoubleSpace(rest: string)
    ensures BearerToken(Some(Bearer + " " + rest)) == Some("")
  {
    var h := Bearer + " " + rest;
    var after := h[|Bearer|..];
    assert after == " " + rest;
    IndexOfFirst(after, ' ', 0);
    assert StartsWith(h, Bearer);
  }

  /** Any other prefix is refused, including the lower-case "bearer ". */
  lemma LowerCaseSchemeRefused(token: string)
    ensures BearerToken(Some("bearer " + token)).None?
  {
    var h := "bearer " + token;
    assert h[0] != Bearer[0];
  }

  /** The parts of the Express request the middleware touches: `req.user`,
      and how often `next()` has been called. */
  class Request {
    var user: Option<User>
    var nextCalls: nat

    constructor ()
      ensures user.None? && nextCalls == 0
    {
      user, nextCalls := None, 0;
    }
  }

  /** What the middleware did: answered with an error, or passed the request on. */
  datatype Outcome = Answered(code: int, kind: ErrorKind) | Passed

  /** verifyAccessToken. The header check answers 400; a token jwt.verify
      refuses answers 401; a payload without an id answers 401, since
      User.findByPk(undefined) resolves to null without querying; otherwise
      User.findByPk fails with `lookupFails` (500) or finds no user for the
      decoded id (401); otherwise req.user is set to the stored user and
      next() is called exactly once. */
  method VerifyAccessToken(req: Request, db: Store, header: Option<string>,
                           verify: string -> Option<Option<Id>>, lookupFails: bool)
    returns (o: Outcome)
    modifies req
    ensures BearerToken(header).None? ==> o == Answered(400, TokenMissing)
    ensures BearerToken(header).Some? && verify(BearerToken(header).value).None? ==> o == Answered(401, InvalidToken)
    ensures BearerToken(header).Some? && verify(BearerToken(header).value).Some? ==>
              var id := verify(BearerToken(header).value).value;
              if id.None? then o == Answered(401, UserNotFound)
              else if lookupFails then o == Answered(500, InternalError)
              else if id.value !in db.users then o == Answered(401, UserNotFound)
              else o == Passed
    ensures o.Passed? ==> && req.user == Some(db.users[verify(BearerToken(header).value).value.value])
                          && req.nextCalls == old(req.nextCalls) + 1
    ensures o.Answered? ==> req.user == old(req.user) && req.nextCalls == old(req.nextCalls)
  {
    var token := BearerToken(header);
    if token.None? {
      return Answered(400, TokenMissing);
    }
    var decoded := verify(token.value);
    if decoded.None? {
      return Answered(401, InvalidToken);
    }
    var id := decoded.value;
    if id.None? {
      return Answered(401, UserNotFound);
    }
    if lookupFails {
      return Answered(500, InternalError);
    }
    if id.value !in db.users {
      return Answered(401, UserNotFound);
    }
    req.user := Some(db.users[id.value]);
    req.nextCalls := req.nextCalls + 1;
    o := Passed;
  }
}
