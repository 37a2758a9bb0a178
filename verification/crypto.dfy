/** The foreign primitives the backend relies on (bcrypt and jsonwebtoken),
    and generateAccessToken built on them. */
module Crypto {
  import opened Records

  /** bcrypt's `hash` and `compare`, and jsonwebtoken's `sign` and `verify`
      (both keyed by the secret). `verify` yields None when the token is
      malformed, carries a bad signature or has expired at the moment of the
      request. */
  datatype Primitives = Primitives(
    hash: string -> string,
    compare: (string, string) -> bool,
    sign: (Id, string, string) -> string,
    verify: (string, string) -> Option<Claims>)

  /** generateAccessToken: fails (the handler's catch turns this into 500)
      when the secret is unset or empty, else signs the id and role. */
  function GenerateAccessToken(crypto: Primitives, secret: Option<string>, userId: Id, role: string): (t: Option<string>)
    ensures t.None? <==> !Truthy(secret)
    ensures t.Some? ==> t.value == crypto.sign(userId, role, secret.value)
  {
    if !Truthy(secret) then None else Some(crypto.sign(userId, role, secret.value))
  }
}
