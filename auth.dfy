/**
 * The two handlers of auth.py: registering an admin account and logging in. Password
 * hashing and token signing belong to libraries; the hasher is a parameter whose
 * soundness is a hypothesis, and a token is modelled by what it carries: the identity
 * and the expiry instant.
 */
module Auth {
  import opened Wrappers
  import opened Records
  import opened Storage

  const PREFLIGHT_OK := "CORS preflight successful"
  const USERNAME_TAKEN := "Username already exists"
  const ADMIN_REGISTERED := "Admin registered successfully"
  const INVALID_CREDENTIALS := "Invalid credentials"
  /** `timedelta(days=7)`, in seconds. */
  const TOKEN_LIFETIME := 7 * 24 * 60 * 60

  datatype HttpMethod = Options | Post

  /** `generate_password_hash` and `check_password_hash`. */
  datatype PasswordHasher = PasswordHasher(hash: string -> string, check: (string, string) -> bool)

  /** What the library promises: the hash of a password checks against that password. */
  ghost predicate Sound(h: PasswordHasher)
  {
    forall p :: h.check(h.hash(p), p)
  }

  /** What the library promises as well: a hash is never the password itself. */
  ghost predicate Hiding(h: PasswordHasher)
  {
    forall p :: h.hash(p) != p
  }

  datatype LoginReply =
    | LoginMessage(status: int, message: string)
    /** `{"access_token": ...}` with status 200: a token for `identity` that expires at `expires`. */
    | AccessToken(identity: string, expires: int)

  function AdminIds(admins: map<string, Admin>): (r: set<int>)
    ensures forall u :: u in admins ==> admins[u].id in r
  {
    set u | u in admins :: admins[u].id
  }

  /** POST /register (and its CORS preflight) */
  method Register(s: Store, verb: HttpMethod, username: string, password: string, hasher: PasswordHasher)
    returns (reply: Reply)
    requires s.Valid()
    modifies s
    ensures s.Valid()
    ensures verb == Options ==> reply == Message(200, PREFLIGHT_OK) && unchanged(s)
    ensures verb == Post && username in old(s.admins) ==> reply == Message(400, USERNAME_TAKEN) && unchanged(s)
    ensures verb == Post && username !in old(s.admins) ==>
      && reply == Message(201, ADMIN_REGISTERED)
      && s.admins == old(s.admins)[username := Admin(NextId(AdminIds(old(s.admins))), username, hasher.hash(password))]
      && s.categories == old(s.categories) && s.subcategories == old(s.subcategories)
      && s.articles == old(s.articles) && s.uploads == old(s.uploads)
    ensures forall u :: u in old(s.admins) ==> u in s.admins && s.admins[u] == old(s.admins)[u]
    ensures Hiding(hasher) && verb == Post && username !in old(s.admins) ==> s.admins[username].password != password
  {
    if verb == Options {
      return Message(200, PREFLIGHT_OK);
    }
    if username in s.admins {
      return Message(400, USERNAME_TAKEN);
    }
    var hashed := hasher.hash(password);
    var id := FreshId(AdminIds(s.admins));
    s.admins := s.admins[username := Admin(id, username, hashed)];
    reply := Message(201, ADMIN_REGISTERED);
  }

  /** POST /login (and its CORS preflight), at instant `now` in seconds. */
  function Login(admins: map<string, Admin>, verb: HttpMethod, username: string, password: string,
                 hasher: PasswordHasher, now: int): (r: LoginReply)
    ensures verb == Options ==> r == LoginMessage(200, PREFLIGHT_OK)
    ensures verb == Post ==> (r.AccessToken? <==> username in admins && hasher.check(admins[username].password, password))
    ensures r.AccessToken? ==> r.identity == username && r.expires == now + TOKEN_LIFETIME
    ensures verb == Post && !r.AccessToken? ==> r == LoginMessage(401, INVALID_CREDENTIALS)
  {
    if verb == Options then LoginMessage(200, PREFLIGHT_OK)
    else if username !in admins || !hasher.check(admins[username].password, password) then
      LoginMessage(401, INVALID_CREDENTIALS)
    else
      AccessToken(username, now + TOKEN_LIFETIME)
  }

  /** With a sound hasher, the password an admin registered with logs them in. */
  lemma LoginAfterRegister(admins: map<string, Admin>, id: int, username: string, password: string,
                           hasher: PasswordHasher, now: int)
    requires Sound(hasher)
    ensures Login(admins[username := Admin(id, username, hasher.hash(password))], Post, username, password, hasher, now)
            == AccessToken(username, now + TOKEN_LIFETIME)
  {
  }

  /**
   * A refused login is the same reply as a login under a username nobody registered:
   * the reply does not tell an unknown user from a wrong password.
   */
  lemma RefusalHidesUsername(admins: map<string, Admin>, username: string, password: string,
                             hasher: PasswordHasher, now: int)
    requires !Login(admins, Post, username, password, hasher, now).AccessToken?
    ensures Login(admins, Post, username, password, hasher, now)
            == Login(admins - {username}, Post, username, password, hasher, now)
            == LoginMessage(401, INVALID_CREDENTIALS)
  {
  }
}
