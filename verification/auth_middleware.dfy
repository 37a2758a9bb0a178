/** authenticateToken: take the token from the Authorization header, check the
    secret, verify the token, look its user up and attach the stored record to
    the request before handing on to the next handler. */
module AuthMiddleware {
  import opened Records
  import opened Crypto

  /** JavaScript `s.split(sep)` for a one-character separator: the pieces
      between separators, at least one, possibly empty. */
  function Split(s: string, sep: char): (parts: seq<string>)
    ensures |parts| >= 1
    ensures forall i :: 0 <= i < |parts| ==> sep !in parts[i]
    decreases |s|
  {
    if s == [] then [""]
    else
      var rest := Split(s[1..], sep);
      if s[0] == sep then [""] + rest
      else [[s[0]] + rest[0]] + rest[1..]
  }

  /** JavaScript `parts.join(sep)`. */
  function Join(parts: seq<string>, sep: char): string
    requires |parts| >= 1
    decreases |parts|
  {
    if |parts| == 1 then parts[0] else parts[0] + [sep] + Join(parts[1..], sep)
  }

  /** Joining the pieces of a split gives back the original text. */
  lemma {:induction false} JoinSplit(s: string, sep: char)
    ensures Join(Split(s, sep), sep) == s
    decreases |s|
  {
    if s != [] {
      JoinSplit(s[1..], sep);
      var rest := Split(s[1..], sep);
      if s[0] != sep {
        if |rest| == 1 {
          assert s == [s[0]] + s[1..];
        } else {
          assert ([s[0]] + rest[0]) + [sep] + Join(rest[1..], sep) == [s[0]] + (rest[0] + [sep] + Join(rest[1..], sep));
          assert s == [s[0]] + s[1..];
        }
      } else {
        assert s == [sep] + s[1..];
      }
    }
  }

  /** Text without the separator splits into itself alone. */
  lemma {:induction false} SplitWhole(s: string, sep: char)
    requires sep !in s
    ensures Split(s, sep) == [s]
    decreases |s|
  {
    if s != [] {
      SplitWhole(s[1..], sep);
      assert s == [s[0]] + s[1..];
    }
  }

  /** Splitting at the first separator: the text before it comes out first. */
  lemma {:induction false} SplitFirst(a: string, sep: char, b: string)
    requires sep !in a
    ensures Split(a + [sep] + b, sep) == [a] + Split(b, sep)
    decreases |a|
  {
    if a == [] {
      assert a + [sep] + b == [sep] + b;
    } else {
      assert (a + [sep] + b)[1..] == a[1..] + [sep] + b;
      SplitFirst(a[1..], sep, b);
      assert a == [a[0]] + a[1..];
    }
  }

  /** Splitting pieces joined with the separator gives back the pieces. */
  lemma {:induction false} SplitJoin(parts: seq<string>, sep: char)
    requires |parts| >= 1
    requires forall i :: 0 <= i < |parts| ==> sep !in parts[i]
    ensures Split(Join(parts, sep), sep) == parts
    decreases |parts|
  {
    if |parts| == 1 {
      SplitWhole(parts[0], sep);
    } else {
      SplitJoin(parts[1..], sep);
      SplitFirst(parts[0], sep, Join(parts[1..], sep));
      assert parts == [parts[0]] + parts[1..];
    }
  }

  /** `authHeader && authHeader.split(' ')[1]`, kept only when truthy: the
      second space-separated field of the header, whatever the first one says. */
  function BearerToken(header: Option<string>): (token: Option<string>)
    ensures token.Some? ==> token.value != "" && ' ' !in token.value
  {
    if header.None? then None
    else
      var parts := Split(header.value, ' ');
      if |parts| >= 2 && parts[1] != "" then Some(parts[1]) else None
  }

  /** The header of RFC 6750 section 2.1, `<scheme> <token>`, yields its token
      (and so does any header whose second field is that token). */
  lemma BearerOfHeader(scheme: string, token: string, rest: seq<string>)
    requires ' ' !in scheme && ' ' !in token && token != ""
    requires forall i :: 0 <= i < |rest| ==> ' ' !in rest[i]
    ensures BearerToken(Some(Join([scheme, token] + rest, ' '))) == Some(token)
  {
    var parts := [scheme, token] + rest;
    forall i | 0 <= i < |parts| ensures ' ' !in parts[i] {
      if i >= 2 {
        assert parts[i] == rest[i - 2];
      }
    }
    SplitJoin(parts, ' ');
    assert Split(Join(parts, ' '), ' ')[1] == token;
  }

  /** Conversely, a token comes only from a header of the form
      `<first> <token>` or `<first> <token> <more>`. */
  lemma BearerIsSecondField(header: string, token: string) returns (first: string, more: string)
    requires BearerToken(Some(header)) == Some(token)
    ensures ' ' !in first && (more == "" || more[0] == ' ')
    ensures header == first + " " + token + more
  {
    var parts := Split(header, ' ');
    JoinSplit(header, ' ');
    first := parts[0];
    var tail := parts[1..];
    assert Join(parts, ' ') == first + [' '] + Join(tail, ' ');
    more := if |tail| == 1 then "" else " " + Join(tail[1..], ' ');
    assert Join(tail, ' ') == token + more;
    calc {
      header;
      first + [' '] + (token + more);
      first + " " + token + more;
    }
  }

  /** A header with no space in it carries no token. */
  lemma NoSpaceNoToken(header: string)
    requires ' ' !in header
    ensures BearerToken(Some(header)) == None
  {
    SplitWhole(header, ' ');
  }

  /** Where the middleware leaves a request: handed on with the user attached
      (`next()` called once), or answered without reaching the handler. */
  datatype AuthOutcome = Next(user: User) | Respond(response: Response)

  const NoToken: Response := Response(401, Message("Access Denied: No token provided."))
  const ConfigError: Response := Response(500, Message("Server configuration error."))
  const InvalidToken: Response := Response(403, Message("Invalid Token."))
  const UserNotFound: Response := Response(404, Message("User not found."))

  /** The middleware's decision. `lookupFails` stands for the user lookup
      throwing, which the catch turns into the same 403 as a bad token. */
  function Authenticate(header: Option<string>, secret: Option<string>, crypto: Primitives,
                        users: map<Id, User>, lookupFails: bool): (r: AuthOutcome)
    ensures BearerToken(header).None? ==> r == Respond(NoToken)
    ensures BearerToken(header).Some? && !Truthy(secret) ==> r == Respond(ConfigError)
    ensures BearerToken(header).Some? && Truthy(secret) ==>
              var claims := crypto.verify(BearerToken(header).value, secret.value);
              && (claims.None? ==> r == Respond(InvalidToken))
              && (claims.Some? && lookupFails ==> r == Respond(InvalidToken))
              && (claims.Some? && !lookupFails && claims.value.userId !in users ==> r == Respond(UserNotFound))
              && (claims.Some? && !lookupFails && claims.value.userId in users ==> r == Next(users[claims.value.userId]))
    ensures r.Next? ==> r.user in users.Values
  {
    match BearerToken(header)
    case None => Respond(NoToken)
    case Some(token) =>
      if !Truthy(secret) then Respond(ConfigError)
      else
        match crypto.verify(token, secret.value)
        case None => Respond(InvalidToken)
        case Some(claims) =>
          if lookupFails then Respond(InvalidToken)
          else if claims.userId !in users then Respond(UserNotFound)
          else Next(users[claims.userId])
  }

  /** A token the login issued, while verify still accepts it, authenticates
      as the user's record as it is stored NOW: a role changed since login is
      the role the handlers see. */
  lemma FreshTokenYieldsStoredUser(crypto: Primitives, secret: string, id: Id, role: string,
                                   users: map<Id, User>)
    requires secret != "" && id in users
    requires crypto.verify(crypto.sign(id, role, secret), secret) == Some(Claims(id, role))
    requires ' ' !in crypto.sign(id, role, secret) && crypto.sign(id, role, secret) != ""
    ensures Authenticate(Some("Bearer " + crypto.sign(id, role, secret)), Some(secret), crypto, users, false)
            == Next(users[id])
  {
    var token := crypto.sign(id, role, secret);
    BearerOfHeader("Bearer", token, []);
    assert Join(["Bearer", token], ' ') == "Bearer " + token;
  }

  /** What `req.user` is, as the handlers read it. */
  class Request {
    const authorization: Option<string>
    var user: Option<User>

    constructor (authorization: Option<string>)
      ensures this.authorization == authorization && user == None
    {
      this.authorization := authorization;
      user := None;
    }
  }

  /** authenticateToken on a request. On success the stored user is attached
      to the request and `next` is called once (reply None); otherwise the
      reply is sent, `next` is not called and the request is left alone. The
      user table is only read. */
  method AuthenticateToken(req: Request, secret: Option<string>, crypto: Primitives,
                           users: map<Id, User>, lookupFails: bool) returns (reply: Option<Response>)
    modifies req
    ensures var r := Authenticate(req.authorization, secret, crypto, users, lookupFails);
            && (r.Next? ==> reply.None? && req.user == Some(r.user))
            && (r.Respond? ==> reply == Some(r.response) && req.user == old(req.user))
  {
    match Authenticate(req.authorization, secret, crypto, users, lookupFails)
    case Respond(response) =>
      reply := Some(response);
    case Next(user) =>
      req.user := Some(user);
      reply := None;
  }
}
