/** The registration and login handlers. */
module UserController {
  import opened Records
  import opened Database
  import opened Crypto

  /** `role || 'READER'`. */
  function DefaultRole(role: Option<string>): (r: string)
    ensures r != ""
    ensures Truthy(role) ==> r == role.value
    ensures !Truthy(role) ==> r == READER
  {
    if Truthy(role) then role.value else READER
  }

  /** The user as registration returns it: the password field removed. */
  function Public(u: User): PublicUser {
    PublicUser(u.id, u.username, u.email, u.role)
  }

  /** What registration sends back does not depend on the stored password,
      and keeps every other field. */
  lemma PublicHidesPassword(u: User, other: string)
    ensures Public(u) == Public(u.(password := other))
    ensures Public(u).id == u.id && Public(u).username == u.username
    ensures Public(u).email == u.email && Public(u).role == u.role
  {
  }

  /** POST /register: 400 on a missing field, 409 when the username or email
      is taken, else 201 with the new user minus its password. */
  method RegisterUser(db: Store, crypto: Primitives, input: RegisterInput) returns (res: Response)
    requires db.Valid()
    modifies db
    ensures db.Valid()
    ensures db.posts == old(db.posts) && db.comments == old(db.comments)
    ensures res.status == 400 <==> !(Truthy(input.username) && Truthy(input.email) && Truthy(input.password))
    ensures res.status == 400 ==> res == Response(400, Message("All fields are required."))
    ensures res.status == 409 <==>
              && Truthy(input.username) && Truthy(input.email) && Truthy(input.password)
              && Taken(old(db.users), input.username.value, input.email.value)
    ensures res.status == 409 ==> res == Response(409, Message("Username or email already exists."))
    ensures res.status != 201 ==> unchanged(db)
    ensures res.status in {201, 400, 409}
    ensures res.status == 201 ==>
              && res.body.UserResult?
              && var u := User(res.body.user.id, input.username.value, input.email.value,
                               crypto.hash(input.password.value), DefaultRole(input.role));
              && u.id !in old(db.users)
              && db.users == old(db.users)[u.id := u]
              && res.body == UserResult("User registered successfully", Public(u))
  {
    if !Truthy(input.username) || !Truthy(input.email) || !Truthy(input.password) {
      return Response(400, Message("All fields are required."));
    }
    var hashed := crypto.hash(input.password.value);
    var created := db.CreateUser(input.username.value, input.email.value, hashed, DefaultRole(input.role));
    match created
    case Err(_) =>
      res := Response(409, Message("Username or email already exists."));
    case Ok(u) =>
      res := Response(201, UserResult("User registered successfully", Public(u)));
  }

  /** `prisma.user.findUnique({ where: { email } })`. */
  function FindByEmail(users: map<Id, User>, email: string): (r: Option<User>)
    requires UniqueEmails(users)
    ensures r.None? <==> forall id :: id in users ==> users[id].email != email
    ensures r.Some? ==> r.value in users.Values && r.value.email == email
  {
    if exists id :: id in users && users[id].email == email then
      var id :| id in users && users[id].email == email;
      Some(users[id])
    else
      None
  }

  /** The one reply for both an unknown email and a wrong password. */
  const InvalidCredentials: Response := Response(401, Message("Invalid credentials."))

  /** Some stored user has this email and accepts this password. */
  ghost predicate Accepts(users: map<Id, User>, crypto: Primitives, email: string, password: string) {
    exists u :: u in users.Values && u.email == email && crypto.compare(password, u.password)
  }

  /** POST /login. Reads the store and never changes it. */
  function LoginUser(users: map<Id, User>, crypto: Primitives, secret: Option<string>, input: LoginInput): (r: Response)
    requires UniqueEmails(users)
    ensures r.status in {200, 400, 401, 500}
    ensures r.status == 400 <==> !(Truthy(input.email) && Truthy(input.password))
    ensures r.status == 401 <==>
              Truthy(input.email) && Truthy(input.password) && !Accepts(users, crypto, input.email.value, input.password.value)
    ensures r.status == 401 ==> r == InvalidCredentials
    ensures r.status == 500 <==>
              Truthy(input.email) && Truthy(input.password) && Accepts(users, crypto, input.email.value, input.password.value)
              && !Truthy(secret)
    ensures r.status == 200 ==>
              exists u :: u in users.Values && u.email == input.email.value
                       && r.body == TokenResult("Logged in successfully", crypto.sign(u.id, u.role, secret.value))
  {
    if !Truthy(input.email) || !Truthy(input.password) then
      Response(400, Message("Email and password are required."))
    else
      match FindByEmail(users, input.email.value)
      case None => InvalidCredentials
      case Some(u) =>
        if !crypto.compare(input.password.value, u.password) then InvalidCredentials
        else
          match GenerateAccessToken(crypto, secret, u.id, u.role)
          case None => InternalError
          case Some(token) => Response(200, TokenResult("Logged in successfully", token))
  }

  /** Registering and then logging in with the same email and password yields
      a token signed over the new user's id and role, provided the hash
      primitive accepts its own digests and the secret is set. */
  lemma LoginAfterRegister(users: map<Id, User>, crypto: Primitives, secret: Option<string>, u: User, password: string)
    requires UniqueEmails(users[u.id := u])
    requires u.password == crypto.hash(password) && crypto.compare(password, crypto.hash(password))
    requires u.email != "" && password != "" && Truthy(secret)
    ensures LoginUser(users[u.id := u], crypto, secret, LoginInput(Some(u.email), Some(password)))
            == Response(200, TokenResult("Logged in successfully", crypto.sign(u.id, u.role, secret.value)))
  {
    var after := users[u.id := u];
    var found := FindByEmail(after, u.email);
    assert found == Some(u) by {
      assert u.id in after && after[u.id].email == u.email;
      var v := found.value;
      var id :| id in after && after[id] == v;
      assert after[u.id] == u;
    }
  }
}
