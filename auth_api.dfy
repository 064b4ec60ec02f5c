/**
  The authentication endpoints of the Connect+ backend: `POST /auth/register`,
  `POST /auth/login` and the token claims both of them issue.

  The `app_user` table is a map from email to row (the email column is unique, so the
  map key is the row's own email). bcrypt is a pair of functions supplied by a
  `Hasher`; the random salt bcrypt draws and the uuid the database generates are
  parameters. The clock is a parameter too, in seconds since the epoch.
 */
module AuthApi {
  import opened Results
  import Utf8

  type Email = string
  type UserId = string
  type Digest = string
  type Salt = nat

  /** bcrypt accepts at most 72 bytes of input. */
  const MaxPasswordBytes := 72
  /** `RegisterIn.role_code` when the request omits it. */
  const DefaultRole := "employee"
  const Roles: set<string> := {"admin", "employee", "hr"}
  const TokenType := "bearer"

  /** bcrypt as the backend uses it: `hash(password, salt)` and `verify(password, digest)`. */
  datatype Hasher = Hasher(hash: (string, Salt) -> Digest, verify: (string, Digest) -> bool)

  /** What the model relies on from bcrypt: a digest is a non-empty string, and a password
      verifies against every digest made from it. */
  ghost predicate HasherSound(h: Hasher)
  {
    forall p, s :: h.hash(p, s) != "" && h.verify(p, h.hash(p, s))
  }

  /** Process-wide configuration, read once at start-up. `activeByDefault` is the value the
      `is_active` column takes when the register INSERT leaves it out. */
  datatype Config = Config(expiresMin: int, hasher: Hasher, activeByDefault: bool)

  /** The claim set of the JWT; the signature is not modelled. */
  datatype Claims = Claims(sub: UserId, role: string, iat: int, exp: int)

  datatype UserRow = UserRow(
    userId: UserId,
    fullName: string,
    email: Email,
    passwordHash: Option<Digest>,
    roleCode: string,
    isActive: bool)

  type Table = map<Email, UserRow>

  /** The uniqueness of `app_user.email`: each row is filed under its own email. */
  ghost predicate KeyedByEmail(t: Table)
  {
    forall e :: e in t ==> t[e].email == e
  }

  datatype RegisterIn = RegisterIn(fullName: string, email: Email, password: string, roleCode: Option<string>)

  datatype LoginIn = LoginIn(email: Email, password: string)

  datatype AuthOut = AuthOut(
    accessToken: Claims,
    tokenType: string,
    userId: UserId,
    fullName: string,
    email: Email,
    roleCode: string)

  datatype AuthError = InvalidRole | DuplicateEmail | PasswordTooLong | InvalidCredentials | UserDisabled
  {
    /** Client errors all: 409 only for a duplicate email, 403 only for a disabled user,
        401 only for bad credentials, 400 for the two register validation failures. */
    function Status(): (code: int)
      ensures 400 <= code < 500
      ensures code == 409 <==> DuplicateEmail?
      ensures code == 403 <==> UserDisabled?
      ensures code == 401 <==> InvalidCredentials?
      ensures code == 400 <==> InvalidRole? || PasswordTooLong?
    {
      match this
      case InvalidRole => 400
      case DuplicateEmail => 409
      case PasswordTooLong => 400
      case InvalidCredentials => 401
      case UserDisabled => 403
    }

    /** The `detail` of the HTTPException each failure raises. */
    function Detail(): (msg: string)
      ensures |msg| > 0
    {
      match this
      case InvalidRole => "role_code inválida"
      case DuplicateEmail => "Email já cadastrado"
      case PasswordTooLong => "Senha muito longa (máx. 72 bytes)."
      case InvalidCredentials => "Usuário ou senha inválidos"
      case UserDisabled => "Usuário desativado"
    }
  }

  /** Each failure has its own detail message, so a client can tell the two 400 causes
      apart and a disabled account from bad credentials; every 401 cause, being the one
      error InvalidCredentials, carries the same message. */
  lemma DetailIdentifiesError(e1: AuthError, e2: AuthError)
    ensures e1.Detail() == e2.Detail() <==> e1 == e2
    ensures e1.Status() == 401 && e2.Status() == 401 ==> e1.Detail() == e2.Detail()
  {
  }

  /** Python's `int(x)` on a float: truncation toward zero. */
  function Trunc(x: real): (n: int)
    ensures 0.0 <= x ==> n as real <= x < n as real + 1.0
    ensures x < 0.0 ==> n as real - 1.0 < x <= n as real
  {
    if 0.0 <= x then x.Floor else -((-x).Floor)
  }

  /** `make_token`: the claims of a token issued at time `now`, naming the user and role;
      from the epoch on, `iat` is the whole second `now` falls in. */
  function MakeToken(cfg: Config, userId: UserId, roleCode: string, now: real): (t: Claims)
    ensures t.sub == userId && t.role == roleCode
    ensures 0.0 <= now ==> t.iat as real <= now < t.iat as real + 1.0
  {
    Claims(userId, roleCode, Trunc(now), Trunc(now + (60 * cfg.expiresMin) as real))
  }

  /** A token names its subject and role, and lives exactly JWT_EXPIRES_MIN minutes,
      counted in whole seconds. (Before the epoch, truncation toward zero can make the two
      timestamps disagree by a second, so the clock is taken to be past it.) */
  lemma TokenLifetime(cfg: Config, userId: UserId, roleCode: string, now: real)
    requires 0.0 <= now && 0.0 <= now + (60 * cfg.expiresMin) as real
    ensures MakeToken(cfg, userId, roleCode, now).sub == userId
    ensures MakeToken(cfg, userId, roleCode, now).role == roleCode
    ensures MakeToken(cfg, userId, roleCode, now).exp - MakeToken(cfg, userId, roleCode, now).iat
            == 60 * cfg.expiresMin
  {
  }

  /** The role a register request asks for, "employee" when it is left out. */
  function RoleOf(req: RegisterIn): (role: string)
    ensures req.roleCode.None? ==> role == DefaultRole
    ensures req.roleCode.Some? ==> role == req.roleCode.value
  {
    req.roleCode.GetOr(DefaultRole)
  }

  /** The length check of register: the UTF-8 encoding, not the character count, is limited. */
  predicate PasswordFits(password: string)
    ensures PasswordFits(password) <==> Utf8.ByteLength(password) <= MaxPasswordBytes
  {
    |Utf8.Encode(password)| <= MaxPasswordBytes
  }

  /** All three checks of register pass. */
  predicate Admissible(users: Table, req: RegisterIn)
  {
    RoleOf(req) in Roles && req.email !in users && PasswordFits(req.password)
  }

  /** The row register inserts: the request's name, email and role under the new id, with a
      digest of the password that login will accept. */
  function NewRow(cfg: Config, req: RegisterIn, newId: UserId, salt: Salt): (row: UserRow)
    ensures row.userId == newId && row.fullName == req.fullName && row.email == req.email
    ensures row.roleCode == RoleOf(req) && row.isActive == cfg.activeByDefault
    ensures row.passwordHash == Some(cfg.hasher.hash(req.password, salt))
    ensures HasherSound(cfg.hasher) ==>
              HasUsableHash(row) && cfg.hasher.verify(req.password, row.passwordHash.value)
  {
    UserRow(newId, req.fullName, req.email, Some(cfg.hasher.hash(req.password, salt)), RoleOf(req), cfg.activeByDefault)
  }

  /** The response body of both endpoints echoes the row. */
  function Respond(row: UserRow, token: Claims): (out: AuthOut)
    ensures out.accessToken == token && out.tokenType == TokenType
    ensures out.userId == row.userId && out.fullName == row.fullName
    ensures out.email == row.email && out.roleCode == row.roleCode
  {
    AuthOut(token, TokenType, row.userId, row.fullName, row.email, row.roleCode)
  }

  /** Python's `not row.password_hash` is true for NULL and for the empty string. */
  predicate HasUsableHash(row: UserRow)
    ensures HasUsableHash(row) <==> row.passwordHash.Some? && |row.passwordHash.value| > 0
  {
    row.passwordHash.Some? && row.passwordHash.value != ""
  }

  /** Every password of at most 18 characters fits, and none of more than 72 does; in between
      it depends on the characters. */
  lemma PasswordFitsByLength(password: string)
    ensures |password| <= MaxPasswordBytes / 4 ==> PasswordFits(password)
    ensures |password| > MaxPasswordBytes ==> !PasswordFits(password)
    ensures (forall k :: 0 <= k < |password| ==> (password[k] as int) < 0x80) ==>
              (PasswordFits(password) <==> |password| <= MaxPasswordBytes)
  {
    Utf8.ByteLengthBounds(password);
  }

  lemma {:induction false} ByteLengthOfRepeat(c: char, n: nat)
    ensures Utf8.ByteLength(seq(n, _ => c)) == n * Utf8.Width(c)
  {
    if n > 0 {
      assert seq(n, _ => c)[1..] == seq(n - 1, _ => c);
      ByteLengthOfRepeat(c, n - 1);
    }
  }

  /** The limit is on bytes: 37 copies of 'é' (two bytes each) are rejected. */
  lemma BytesNotCharacters()
    ensures var p := seq(37, _ => 'é'); |p| < MaxPasswordBytes && !PasswordFits(p)
  {
    var p := seq(37, _ => 'é');
    ByteLengthOfRepeat('é', 37);
  }

  /** `login`: a lookup by email followed by three ordered checks. */
  function Login(users: Table, cfg: Config, req: LoginIn, now: real): (r: Result<AuthOut, AuthError>)
    ensures req.email !in users ==> r == Failure(InvalidCredentials)
    ensures req.email in users && !HasUsableHash(users[req.email]) ==> r == Failure(InvalidCredentials)
    ensures req.email in users && HasUsableHash(users[req.email]) && !users[req.email].isActive ==>
              r == Failure(UserDisabled)
    ensures req.email in users && HasUsableHash(users[req.email]) && users[req.email].isActive &&
            !cfg.hasher.verify(req.password, users[req.email].passwordHash.value) ==>
              r == Failure(InvalidCredentials)
    ensures r.Success? <==>
              req.email in users && HasUsableHash(users[req.email]) && users[req.email].isActive &&
              cfg.hasher.verify(req.password, users[req.email].passwordHash.value)
    ensures r.Success? ==>
              var row := users[req.email];
              r.value == Respond(row, MakeToken(cfg, row.userId, row.roleCode, now))
    ensures KeyedByEmail(users) && r.Success? ==> r.value.email == req.email
    ensures r.Failure? ==> r.error.Status() in {401, 403}
  {
    if req.email !in users || !HasUsableHash(users[req.email]) then
      Failure(InvalidCredentials)
    else
      var row := users[req.email];
      if !row.isActive then
        Failure(UserDisabled)
      else if !cfg.hasher.verify(req.password, row.passwordHash.value) then
        Failure(InvalidCredentials)
      else
        Success(Respond(row, MakeToken(cfg, row.userId, row.roleCode, now)))
  }

  /** An unknown email and a wrong password produce the same answer. */
  lemma UnknownEmailLooksLikeWrongPassword(users: Table, cfg: Config, unknown: Email, known: Email,
                                           p1: string, p2: string, now: real)
    requires unknown !in users
    requires known in users && HasUsableHash(users[known]) && users[known].isActive
    requires !cfg.hasher.verify(p2, users[known].passwordHash.value)
    ensures Login(users, cfg, LoginIn(unknown, p1), now) == Login(users, cfg, LoginIn(known, p2), now)
  {
  }

  /** Register then login: once the row register inserts is in the table, its own password
      logs in, with the same user id, name, email and role as the register response. */
  lemma LoginAfterRegister(users: Table, cfg: Config, req: RegisterIn, newId: UserId, salt: Salt, later: real)
    requires HasherSound(cfg.hasher) && cfg.activeByDefault
    ensures var row := NewRow(cfg, req, newId, salt);
            Login(users[req.email := row], cfg, LoginIn(req.email, req.password), later)
            == Success(AuthOut(MakeToken(cfg, newId, RoleOf(req), later), TokenType,
                               newId, req.fullName, req.email, RoleOf(req)))
  {
  }

  /** The `app_user` table behind a database session. */
  class UserStore {
    var users: Table
    /** The passwords handed to bcrypt so far, in order. */
    ghost var hasherInputs: seq<string>

    ghost predicate Valid()
      reads this
    {
      KeyedByEmail(users)
    }

    constructor (initial: Table)
      requires KeyedByEmail(initial)
      ensures Valid() && users == initial && hasherInputs == []
    {
      users := initial;
      hasherInputs := [];
    }

    /** `register`: role, then duplicate email, then password length; then hash, insert, issue. */
    method Register(cfg: Config, req: RegisterIn, newId: UserId, salt: Salt, now: real)
      returns (r: Result<AuthOut, AuthError>)
      requires Valid()
      modifies this
      ensures Valid()
      ensures RoleOf(req) !in Roles ==> r == Failure(InvalidRole)
      ensures RoleOf(req) in Roles && req.email in old(users) ==> r == Failure(DuplicateEmail)
      ensures RoleOf(req) in Roles && req.email !in old(users) && !PasswordFits(req.password) ==>
                r == Failure(PasswordTooLong)
      ensures r.Success? <==> Admissible(old(users), req)
      ensures r.Failure? ==> users == old(users) && hasherInputs == old(hasherInputs)
      ensures r.Success? ==>
                var row := NewRow(cfg, req, newId, salt);
                && users == old(users)[req.email := row]
                && hasherInputs == old(hasherInputs) + [req.password]
                && r.value == Respond(row, MakeToken(cfg, newId, RoleOf(req), now))
    {
      if RoleOf(req) !in Roles {
        return Failure(InvalidRole);
      }
      if req.email in users {
        return Failure(DuplicateEmail);
      }
      if !PasswordFits(req.password) {
        return Failure(PasswordTooLong);
      }
      hasherInputs := hasherInputs + [req.password];
      var row := NewRow(cfg, req, newId, salt);
      users := users[req.email := row];
      r := Success(Respond(row, MakeToken(cfg, row.userId, row.roleCode, now)));
    }
  }

  /** The register-then-login scenario a client runs: both succeed, with one user id and one
      role, and only the new email's row was added. */
  method RegisterThenLogin(store: UserStore, cfg: Config, req: RegisterIn, newId: UserId, salt: Salt,
                           now: real, later: real)
    returns (registered: Result<AuthOut, AuthError>, loggedIn: Result<AuthOut, AuthError>)
    requires store.Valid() && HasherSound(cfg.hasher) && cfg.activeByDefault
    requires Admissible(store.users, req)
    modifies store
    ensures store.Valid()
    ensures registered.Success? && loggedIn.Success?
    ensures loggedIn.value.userId == registered.value.userId == newId
    ensures loggedIn.value.roleCode == registered.value.roleCode == RoleOf(req)
    ensures loggedIn.value.fullName == registered.value.fullName && loggedIn.value.email == registered.value.email
    ensures store.users.Keys == old(store.users).Keys + {req.email}
    ensures forall e :: e in old(store.users) ==> store.users[e] == old(store.users)[e]
  {
    registered := store.Register(cfg, req, newId, salt, now);
    LoginAfterRegister(old(store.users), cfg, req, newId, salt, later);
    loggedIn := Login(store.users, cfg, LoginIn(req.email, req.password), later);
  }
}
