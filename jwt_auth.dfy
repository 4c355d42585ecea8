/** Backend/Middleware/JwtAuth.js: `authenticateToken`, the middleware in
    front of protected routes. The token library is abstract: the model
    only knows that verification either yields a payload or fails. */
module JwtAuth {
  import opened Wrappers
  import opened Text

  /** `jwt.sign` and `jwt.verify` under the server's secret. `verify`
      yields `None` for a token with a bad signature or past its expiry;
      the secret and the clock are hidden inside it. */
  datatype Signer<!P> = Signer(sign: P -> string, verify: string -> Option<P>)

  /** Every token the server signs is a non-empty string without spaces
      (a JWT is three base64url parts joined by dots) and verifies to the
      payload it was signed with (within its lifetime). */
  ghost predicate Sound<P(!new)>(jwt: Signer<P>) {
    forall p :: jwt.sign(p) != "" && ' ' !in jwt.sign(p) && jwt.verify(jwt.sign(p)) == Some(p)
  }

  /** A request carrying `Bearer <token>` for a token the server signed
      passes the middleware with the signed payload as `req.user`. */
  lemma BearerTokenAccepted<P(!new)>(jwt: Signer<P>, p: P)
    requires Sound(jwt)
    ensures ExtractToken(Some("Bearer " + jwt.sign(p))) == Some(jwt.sign(p))
    ensures jwt.verify(ExtractToken(Some("Bearer " + jwt.sign(p))).value) == Some(p)
  {
    var t := jwt.sign(p);
    assert "Bearer " + t == "Bearer" + " " + t + "";
    ExtractTokenSecondField("Bearer", t, "");
  }

  /** `authHeader && authHeader.split(' ')[1]`, with `None` for the values
      that `token == null` rejects. The scheme word is never looked at. An
      empty header is falsy, so `&&` yields it unchanged: the empty string,
      which is not `null` and goes on to verification. A token never holds
      a space. */
  function ExtractToken(authorization: Option<string>): (r: Option<string>)
    ensures authorization.None? ==> r.None?
    ensures authorization == Some("") ==> r == Some("")
    ensures r.Some? ==> ' ' !in r.value
  {
    match authorization
    case None => None
    case Some(h) =>
      if h == "" then Some("")
      else
        SplitPieces(h, ' ');
        var r := SecondField(h, ' ');
        assert r.Some? ==> r.value in Split(h, ' ');
        r
  }

  /** A header with no space at all yields no token. */
  lemma ExtractTokenMissing(h: string)
    ensures ExtractToken(Some(h)) == None <==> h != "" && ' ' !in h
  {
    SecondFieldPresent(h, ' ');
  }

  /** The token is the second space-separated field, whatever the first
      one is and whatever follows. */
  lemma ExtractTokenSecondField(scheme: string, token: string, rest: string)
    requires ' ' !in scheme && ' ' !in token
    requires rest == [] || rest[0] == ' '
    ensures ExtractToken(Some(scheme + " " + token + rest)) == Some(token)
  {
    SecondFieldOf(scheme, ' ', token, rest);
  }

  /** "Bearer a b" yields "a"; "Foo t" yields "t"; "abc" yields nothing. */
  lemma ExtractTokenExamples()
    ensures ExtractToken(Some("Bearer a b")) == Some("a")
    ensures ExtractToken(Some("Foo t")) == Some("t")
    ensures ExtractToken(Some("abc")) == None
    ensures ExtractToken(None) == None
  {
    ExtractTokenSecondField("Bearer", "a", " b");
    assert "Bearer a b" == "Bearer" + " " + "a" + " b";
    ExtractTokenSecondField("Foo", "t", "");
    assert "Foo t" == "Foo" + " " + "t" + "";
    ExtractTokenMissing("abc");
  }

  /** The parts of an Express request the middleware reads and writes. */
  class Request<P> {
    const authorization: Option<string>   // req.headers['authorization']
    var user: Option<P>                  // req.user
    var nextCalls: nat                   // how often next() has been called

    constructor (authorization: Option<string>)
      ensures this.authorization == authorization
      ensures user == None && nextCalls == 0
    {
      this.authorization := authorization;
      user := None;
      nextCalls := 0;
    }
  }

  /** `BadRequest`: `sendStatus(400)`. `Denied`: verification failed and
      the request stops there. `Passed`: `next()` was called. */
  datatype AuthOutcome = BadRequest | Denied | Passed

  method AuthenticateToken<P>(req: Request<P>, verify: string -> Option<P>) returns (outcome: AuthOutcome)
    modifies req
    ensures outcome == BadRequest <==> ExtractToken(req.authorization).None?
    ensures outcome == Passed <==>
      ExtractToken(req.authorization).Some? && verify(ExtractToken(req.authorization).value).Some?
    ensures outcome != Passed ==> req.user == old(req.user) && req.nextCalls == old(req.nextCalls)
    ensures outcome == Passed ==>
      && req.user == verify(ExtractToken(req.authorization).value)
      && req.nextCalls == old(req.nextCalls) + 1
  {
    var token := ExtractToken(req.authorization);
    if token.None? {
      return BadRequest;
    }
    var payload := verify(token.value);
    if payload.None? {
      return Denied;
    }
    req.user := payload;
    req.nextCalls := req.nextCalls + 1;
    outcome := Passed;
  }
}
