/** The bearer-token guard run before every protected handler: it takes the
    second space-separated field of the Authorization header as the token,
    answers 401 when there is none, 403 when the token does not verify, and
    otherwise records the payload as the request's user and passes the
    request on. */
module AuthMiddleware {
  import opened Seqs
  import opened Services
  import opened Http

  const TokenRequired := "Authentication token required."
  const TokenInvalid := "Token is not valid."

  /** `fields.join(' ')` */
  function Join(fields: seq<string>): string {
    if |fields| == 0 then ""
    else if |fields| == 1 then fields[0]
    else fields[0] + " " + Join(fields[1..])
  }

  /** `s.split(' ')`: the fields between single spaces, empty ones included. */
  function Split(s: string): (fields: seq<string>)
    ensures |fields| >= 1
    ensures forall i :: 0 <= i < |fields| ==> ' ' !in fields[i]
    ensures Join(fields) == s
    ensures |fields| == 1 <==> ' ' !in s
    decreases |s|
  {
    if s == [] then [""]
    else
      var rest := Split(s[1..]);
      assert s == [s[0]] + s[1..];
      if s[0] == ' ' then [""] + rest
      else
        assert Join([[s[0]] + rest[0]] + rest[1..]) == [s[0]] + Join(rest) by {
          if |rest| > 1 {
            var f := [[s[0]] + rest[0]] + rest[1..];
            assert f[1..] == rest[1..];
          }
        }
        [[s[0]] + rest[0]] + rest[1..]
  }

  /** A word without spaces splits to itself. */
  lemma {:induction false} SplitWord(w: string)
    requires ' ' !in w
    ensures Split(w) == [w]
  {}

  /** A leading word without spaces, then a space, splits off as the first field. */
  lemma {:induction false} SplitFirstWord(w: string, rest: string)
    requires ' ' !in w
    ensures Split(w + " " + rest) == [w] + Split(rest)
    decreases |w|
  {
    var s := w + " " + rest;
    if w == [] {
      assert s[0] == ' ' && s[1..] == rest;
    } else {
      assert s[0] == w[0] && s[1..] == w[1..] + " " + rest;
      SplitFirstWord(w[1..], rest);
      assert [w[0]] + w[1..] == w;
    }
  }

  /** `split(' ')` is the only way to cut `s` into space-free fields that
      rejoin to `s`. */
  lemma {:induction false} SplitUnique(fields: seq<string>, s: string)
    requires |fields| >= 1
    requires forall i :: 0 <= i < |fields| ==> ' ' !in fields[i]
    requires Join(fields) == s
    ensures Split(s) == fields
    decreases |fields|
  {
    if |fields| == 1 {
      SplitWord(fields[0]);
    } else {
      var rest := Join(fields[1..]);
      SplitFirstWord(fields[0], rest);
      SplitUnique(fields[1..], rest);
      assert [fields[0]] + fields[1..] == fields;
    }
  }

  /** `authHeader && authHeader.split(' ')[1]`, with `undefined` as None. An
      empty header short-circuits to itself, the token "". */
  function ExtractToken(header: Option<string>): (token: Option<string>)
    ensures header.None? ==> token.None?
    ensures header == Some("") ==> token == Some("")
    ensures header.Some? && header.value != "" ==> (token.None? <==> ' ' !in header.value)
    ensures token.Some? ==> ' ' !in token.value
  {
    match header
    case None => None
    case Some(h) =>
      if h == "" then Some("")
      else
        var fields := Split(h);
        if |fields| >= 2 then Some(fields[1]) else None
  }

  /** The token is the text between the first and the second space whatever
      the first word is: `scheme + " " + t` gives back `t`. */
  lemma BearerRoundTrip(scheme: string, t: string)
    requires ' ' !in scheme && ' ' !in t
    ensures ExtractToken(Some(scheme + " " + t)) == Some(t)
  {
    SplitWord(t);
    SplitFirstWord(scheme, t);
  }

  /** Fields after the second are ignored. */
  lemma ExtraFieldsIgnored(scheme: string, t: string, rest: string)
    requires ' ' !in scheme && ' ' !in t
    ensures ExtractToken(Some(scheme + " " + t + " " + rest)) == Some(t)
  {
    assert scheme + " " + t + " " + rest == scheme + " " + (t + " " + rest);
    SplitFirstWord(t, rest);
    SplitFirstWord(scheme, t + " " + rest);
  }

  /** The scheme word is not checked: "X tok" yields "tok". */
  lemma SchemeNotChecked()
    ensures ExtractToken(Some("X tok")) == Some("tok")
  {
    assert "X tok" == "X" + " " + "tok";
    BearerRoundTrip("X", "tok");
  }

  /** "Bearer " with nothing after the space yields the token "". */
  lemma TrailingSpaceGivesEmptyToken()
    ensures ExtractToken(Some("Bearer ")) == Some("")
  {
    assert "Bearer " == "Bearer" + " " + "";
    BearerRoundTrip("Bearer", "");
  }

  /** The guard's verdict: send a response, or call `next` with the user. */
  datatype Decision = Reject(response: Response) | Proceed(user: Claims)

  /** The guard as a function of the header and `jwt.verify`. */
  function Authenticate(header: Option<string>, verify: string -> Option<Claims>): (d: Decision)
    ensures ExtractToken(header).None? <==> d == Reject(Response(Unauthorized, Message(TokenRequired)))
    ensures d == Reject(Response(Forbidden, Message(TokenInvalid))) <==>
              ExtractToken(header).Some? && verify(ExtractToken(header).value).None?
    ensures d.Proceed? ==> ExtractToken(header).Some? && verify(ExtractToken(header).value) == Some(d.user)
    ensures ExtractToken(header).Some? && verify(ExtractToken(header).value).Some? ==>
              d == Proceed(verify(ExtractToken(header).value).value)
    ensures d.Reject? ==> d.response.status in {Unauthorized, Forbidden}
  {
    match ExtractToken(header)
    case None => Reject(Response(Unauthorized, Message(TokenRequired)))
    case Some(token) =>
      match verify(token)
      case None => Reject(Response(Forbidden, Message(TokenInvalid)))
      case Some(user) => Proceed(user)
  }

  /** A token the server signed, sent as the admin console sends it, lets the
      request through carrying exactly the signed payload. */
  lemma SignedTokenAccepted(c: Crypto, claims: Claims)
    requires TokensSound(c)
    ensures Authenticate(Some("Bearer " + c.sign(claims)), c.verify) == Proceed(claims)
  {
    assert "Bearer " + c.sign(claims) == "Bearer" + " " + c.sign(claims);
    BearerRoundTrip("Bearer", c.sign(claims));
  }

  /** An empty header or a bare "Bearer " is not "missing": the empty token
      reaches verification and is refused with 403, not 401. */
  lemma EmptyTokenForbidden(verify: string -> Option<Claims>)
    requires verify("") == None
    ensures Authenticate(Some(""), verify) == Reject(Response(Forbidden, Message(TokenInvalid)))
    ensures Authenticate(Some("Bearer "), verify) == Reject(Response(Forbidden, Message(TokenInvalid)))
  {
    TrailingSpaceGivesEmptyToken();
  }

  /** The request object as far as the guard touches it. */
  class Request {
    /** `req.headers['authorization']`, None when the header is absent. */
    const authorization: Option<string>
    /** `req.user` */
    var user: Option<Claims>
    /** How many times `next()` has been called for this request. */
    var nextCalls: nat

    constructor (authorization: Option<string>)
      ensures this.authorization == authorization && user == None && nextCalls == 0
    {
      this.authorization := authorization;
      user := None;
      nextCalls := 0;
    }
  }

  /** `authenticateToken(req, res, next)`: on rejection the response is sent
      and nothing else happens; otherwise `req.user` is set to the payload and
      `next` is called once. */
  method AuthenticateToken(req: Request, verify: string -> Option<Claims>) returns (sent: Option<Response>)
    modifies req
    ensures match Authenticate(req.authorization, verify)
            case Reject(response) =>
              sent == Some(response) && req.user == old(req.user) && req.nextCalls == old(req.nextCalls)
            case Proceed(claims) =>
              sent == None && req.user == Some(claims) && req.nextCalls == old(req.nextCalls) + 1
  {
    var token := ExtractToken(req.authorization);
    if token.None? {
      return Some(Response(Unauthorized, Message(TokenRequired)));
    }
    var verified := verify(token.value);
    if verified.None? {
      return Some(Response(Forbidden, Message(TokenInvalid)));
    }
    req.user := verified;
    req.nextCalls := req.nextCalls + 1;
    sent := None;
  }
}
