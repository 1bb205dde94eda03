/** The authentication middleware: read the `Authorization` header, strip
    a "Bearer " prefix, verify the token, then either attach the user and
    call `next` or answer 401. `jwt.verify` is a function parameter that
    yields the payload of a valid token and `None` where it would throw. */
module Auth {
  import opened Wrappers
  import opened Text

  const BearerPrefix: string := "Bearer "
  const DevSecret: string := "secret_dev_key"
  const NoToken: string := "No token, authorization denied"
  const InvalidToken: string := "Token is not valid"
  const Unauthorized: int := 401

  /** The user the token was signed for: `{ id, name, email }`. */
  datatype AuthUser = AuthUser(id: string, name: string, email: string)
  /** A decoded payload, `{ user: … }`. */
  datatype Claims = Claims(user: AuthUser)

  /** The token to verify: the header after "Bearer " when it carries that
      prefix, the header unchanged otherwise. */
  function ExtractToken(header: string): (token: string)
    ensures StartsWith(header, BearerPrefix) ==> BearerPrefix + token == header
    ensures !StartsWith(header, BearerPrefix) ==> token == header
  {
    if StartsWith(header, BearerPrefix) then header[|BearerPrefix|..] else header
  }

  /** Prefixing and extracting are inverse. */
  lemma ExtractTokenOfBearer(token: string)
    ensures ExtractToken(BearerPrefix + token) == token
  {
    assert (BearerPrefix + token)[..|BearerPrefix|] == BearerPrefix;
  }

  /** The signing secret: the configured `JWT_SECRET` when it is set and
      non-empty, the development key otherwise. */
  function JwtSecret(env: Option<string>): (secret: string)
    ensures env.Some? && env.value != "" ==> secret == env.value
    ensures env.None? || env.value == "" ==> secret == DevSecret
  {
    if env.Some? && env.value != "" then env.value else DevSecret
  }

  /** How the middleware ends a request. */
  datatype Decision = Deny(status: int, message: string) | Next(user: AuthUser)

  function Decide(header: Option<string>, env: Option<string>, verify: (string, string) -> Option<Claims>): (d: Decision)
    ensures d.Deny? ==> d.status == Unauthorized
    ensures d == Deny(Unauthorized, NoToken) <==> header.None? || header.value == ""
    ensures d == Deny(Unauthorized, InvalidToken) <==>
      header.Some? && header.value != "" && verify(ExtractToken(header.value), JwtSecret(env)).None?
    ensures d.Next? <==>
      header.Some? && header.value != "" && verify(ExtractToken(header.value), JwtSecret(env)).Some?
    ensures d.Next? ==> verify(ExtractToken(header.value), JwtSecret(env)) == Some(Claims(d.user))
  {
    if header.None? || header.value == "" then Deny(Unauthorized, NoToken)
    else
      var decoded := verify(ExtractToken(header.value), JwtSecret(env));
      if decoded.None? then Deny(Unauthorized, InvalidToken) else Next(decoded.value.user)
  }

  /** A token signed with the secret in force passes whether or not the
      client wrote the "Bearer " prefix. */
  lemma BearerPrefixIsOptional(token: string, env: Option<string>, verify: (string, string) -> Option<Claims>)
    requires token != "" && !StartsWith(token, BearerPrefix)
    ensures Decide(Some(BearerPrefix + token), env, verify) == Decide(Some(token), env, verify)
  {
    ExtractTokenOfBearer(token);
  }

  /** The request and response objects the middleware touches. */
  class Exchange {
    var user: Option<AuthUser>
    var status: Option<int>
    var body: Option<string>
    var nextCalled: bool

    /** A request that nothing has answered yet. */
    predicate Pending()
      reads this
    {
      user.None? && status.None? && body.None? && !nextCalled
    }

    constructor ()
      ensures Pending()
    {
      user := None;
      status := None;
      body := None;
      nextCalled := false;
    }

    /** The middleware itself. */
    method Authenticate(header: Option<string>, env: Option<string>, verify: (string, string) -> Option<Claims>)
      requires Pending()
      modifies this
      ensures nextCalled <==> status.None?
      ensures match Decide(header, env, verify)
        case Next(u) => nextCalled && user == Some(u) && status.None? && body.None?
        case Deny(code, message) => !nextCalled && user.None? && status == Some(code) && body == Some(message)
    {
      if header.None? || header.value == "" {
        status := Some(Unauthorized);
        body := Some(NoToken);
        return;
      }
      var tokenString := ExtractToken(header.value);
      var jwtSecret := JwtSecret(env);
      var decoded := verify(tokenString, jwtSecret);
      if decoded.None? {
        status := Some(Unauthorized);
        body := Some(InvalidToken);
        return;
      }
      user := Some(decoded.value.user);
      nextCalled := true;
    }
  }
}
