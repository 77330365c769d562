/** `requireAuth`: the gate in front of the protected routes. The token
    check (`jwt.verify` with the server's secret) is a parameter. */
module AuthMiddleware {
  import opened Wrappers
  import opened JsText
  import opened Http

  const MISSING_HEADER := "Missing or invalid Authorization header"
  const BAD_TOKEN := "Invalid or expired token"
  const BEARER_PREFIX := "Bearer "

  /** The payload a valid token carries. */
  datatype Claims = Claims(userId: string, email: string)

  /** The gate's decision: pass the request on with the claims, or answer. */
  datatype Gate = Pass(claims: Claims) | Deny(status: int, message: string)

  /** The first piece of `s.split(" ")` and, when there is a space, the
      split of what follows the first one. */
  lemma SplitSpacesShape(s: string)
    ensures ' ' !in s ==> SplitSpaces(s) == [s]
    ensures ' ' in s ==>
      var i := FirstIndex(s, ' ');
      SplitSpaces(s) == [s[..i]] + SplitSpaces(s[i + 1..])
  {
  }

  /** The header names the Bearer scheme followed by a non-empty token:
      `t` is the text after "Bearer " up to the next space or the end. */
  predicate BearerHeader(header: string, t: string) {
    && t != []
    && ' ' !in t
    && BEARER_PREFIX + t <= header
    && (|header| == |BEARER_PREFIX| + |t| || header[|BEARER_PREFIX| + |t|] == ' ')
  }

  /** `const [type, token] = authHeader.split(" ")` followed by
      `type !== "Bearer" || !token`: the token, when the header is usable. */
  function BearerToken(header: string): (r: Option<string>)
    ensures r.Some? ==> BearerHeader(header, r.value)
  {
    var fields := SplitSpaces(header);
    SplitSpacesShape(header);
    if fields[0] == "Bearer" && |fields| >= 2 && fields[1] != [] then
      var rest := header[FirstIndex(header, ' ') + 1..];
      SplitSpacesShape(rest);
      Some(fields[1])
    else None
  }

  /** The header is usable exactly when it starts with "Bearer " and the
      next character is not another space. */
  lemma BearerTokenPresentIff(header: string)
    ensures BearerToken(header).Some? <==>
      |header| > |BEARER_PREFIX| && header[..|BEARER_PREFIX|] == BEARER_PREFIX && header[|BEARER_PREFIX|] != ' '
  {
    if |header| > |BEARER_PREFIX| && header[..|BEARER_PREFIX|] == BEARER_PREFIX && header[|BEARER_PREFIX|] != ' ' {
      var rest := header[|BEARER_PREFIX|..];
      assert header == "Bearer" + " " + rest;
      SplitSpacesCons("Bearer", rest);
      SplitSpacesShape(rest);
      if ' ' in rest {
        assert FirstIndex(rest, ' ') > 0;
      }
    }
  }

  /** A token without spaces after "Bearer " is read back exactly, whatever
      follows it after a further space. */
  lemma BearerTokenRoundTrip(t: string, more: string)
    requires t != [] && ' ' !in t
    ensures BearerToken(BEARER_PREFIX + t) == Some(t)
    ensures BearerToken(BEARER_PREFIX + t + " " + more) == Some(t)
  {
    assert BEARER_PREFIX + t == "Bearer" + " " + t;
    SplitSpacesCons("Bearer", t);
    assert BEARER_PREFIX + t + " " + more == "Bearer" + " " + (t + " " + more);
    SplitSpacesCons("Bearer", t + " " + more);
    SplitSpacesCons(t, more);
  }

  /** The token a header carries is unique: `BearerToken` finds the only
      `t` with `BearerHeader(header, t)`. */
  lemma BearerTokenIff(header: string, t: string)
    ensures BearerToken(header) == Some(t) <==> BearerHeader(header, t)
  {
    if BearerHeader(header, t) {
      if |header| == |BEARER_PREFIX| + |t| {
        assert header == BEARER_PREFIX + t;
        BearerTokenRoundTrip(t, "");
      } else {
        var more := header[|BEARER_PREFIX| + |t| + 1..];
        assert header == BEARER_PREFIX + t + " " + more;
        BearerTokenRoundTrip(t, more);
      }
    }
  }

  /** `requireAuth(req, res, next)`: `header` is the Authorization header
      (`None` when absent), `verify` stands for `jwt.verify`. */
  function RequireAuth(header: Option<string>, verify: string -> Option<Claims>): (r: Gate)
    ensures r.Pass? <==> exists t :: BearerHeader(header.GetOr(""), t) && verify(t).Some?
    ensures r.Pass? ==> exists t :: BearerHeader(header.GetOr(""), t) && verify(t) == Some(r.claims)
    ensures r.Deny? ==> r.status == UNAUTHORIZED
    ensures r.Deny? && r.message == MISSING_HEADER <==> !exists t :: BearerHeader(header.GetOr(""), t)
  {
    var h := header.GetOr("");
    match BearerToken(h)
    case None =>
      forall t | BearerHeader(h, t) ensures false {
        BearerTokenIff(h, t);
      }
      Deny(UNAUTHORIZED, MISSING_HEADER)
    case Some(t) =>
      forall u | BearerHeader(h, u) ensures u == t {
        BearerTokenIff(h, u);
      }
      match verify(t)
      case None => Deny(UNAUTHORIZED, BAD_TOKEN)
      case Some(claims) => Pass(claims)
  }

  /** No header, an empty one, another scheme, or a second space where the
      token should start: all refused before any token check. */
  lemma MalformedHeadersRefused(verify: string -> Option<Claims>, t: string)
    ensures RequireAuth(None, verify) == Deny(UNAUTHORIZED, MISSING_HEADER)
    ensures RequireAuth(Some("Bearer"), verify) == Deny(UNAUTHORIZED, MISSING_HEADER)
    ensures RequireAuth(Some("bearer " + t), verify) == Deny(UNAUTHORIZED, MISSING_HEADER)
    ensures RequireAuth(Some("Bearer  " + t), verify) == Deny(UNAUTHORIZED, MISSING_HEADER)
  {
    assert ("bearer " + t)[..7] != BEARER_PREFIX by {
      assert ("bearer " + t)[0] == 'b';
    }
    assert ("Bearer  " + t)[7] == ' ';
  }

  /** A well-formed header passes exactly when its token verifies. */
  lemma BearerHeaderPasses(verify: string -> Option<Claims>, t: string)
    requires t != [] && ' ' !in t
    ensures RequireAuth(Some(BEARER_PREFIX + t), verify) ==
      (match verify(t) case Some(c) => Pass(c) case None => Deny(UNAUTHORIZED, BAD_TOKEN))
  {
    BearerTokenRoundTrip(t, "");
  }
}
