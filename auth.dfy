/** The shared-passkey login (main.go:97-122) and the header check that
    guards the account listing (main.go:125-129). */
module Auth {
  import opened Wrappers

  /** The reply of the login endpoint: the token with status 200, or an HTTP
      status with its error message. */
  datatype AuthReply = Token(token: string) | AuthError(status: int, error: string)

  /** `passkey` is the bound request body's field, None when the body does not
      bind; `secret` is the configured PASSKEY, empty when it is unset. The
      four outcomes partition the inputs, checked in this order: no or empty
      passkey (400), no secret (500), a match (200, the token is the passkey
      itself), anything else (401). */
  function Authenticate(passkey: Option<string>, secret: string): (r: AuthReply)
    ensures r == AuthError(400, "invalid request") <==> passkey.None?
    ensures r == AuthError(400, "passkey required") <==> passkey == Some("")
    ensures r == AuthError(500, "server configuration error") <==>
      passkey.Some? && passkey.value != "" && secret == ""
    ensures r.Token? <==> passkey == Some(secret) && secret != ""
    ensures r.Token? ==> r.token == secret
    ensures r == AuthError(401, "invalid passkey") <==>
      passkey.Some? && passkey.value != "" && secret != "" && passkey.value != secret
  {
    match passkey
    case None => AuthError(400, "invalid request")
    case Some(p) =>
      if p == "" then AuthError(400, "passkey required")
      else if secret == "" then AuthError(500, "server configuration error")
      else if p == secret then Token(p)
      else AuthError(401, "invalid passkey")
  }

  const BearerPrefix := "Bearer "

  /** The check on the Authorization header: it must be at least seven
      characters long and start with "Bearer ". What follows the prefix is
      never looked at. */
  predicate BearerGate(authorization: string)
  {
    !(authorization == "" || |authorization| < 7 || authorization[..7] != BearerPrefix)
  }

  /** The gate admits exactly the headers made of the prefix and some token. */
  lemma GateIsPrefixOnly(authorization: string)
    ensures BearerGate(authorization) <==>
      |authorization| >= |BearerPrefix| && authorization == BearerPrefix + authorization[|BearerPrefix|..]
  {
    if |authorization| >= 7 && authorization == BearerPrefix + authorization[7..] {
      assert authorization[..7] == BearerPrefix;
    }
  }

  /** Whatever token follows the prefix, including none at all and one that
      is not the passkey, the gate lets the request through. */
  lemma AnyTokenPasses(token: string)
    ensures BearerGate(BearerPrefix + token)
  {
    assert (BearerPrefix + token)[..7] == BearerPrefix;
  }
}
