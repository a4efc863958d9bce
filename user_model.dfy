/**
 * The account record and its table, with the password and token utilities
 * and the two table operations: registration and login.
 *
 * The database is one sequential in-memory table: a `Directory` object
 * whose `rows` field holds the account records in insertion order, and a
 * query's `.first()` is the first matching record in that order. The bcrypt
 * context is an abstract `Hasher`, the clock a `now` parameter in whole
 * seconds, and the random `uuid4` id and bcrypt salt are parameters.
 */
module UserModel {
  import opened Wrappers
  import opened Uuids
  import opened Jwt
  import opened Schemas

  const SECRET_KEY: string := "your-secret-key"
  const ALGORITHM: string := "HS256"
  const ACCESS_TOKEN_EXPIRE_MINUTES: nat := 30
  /** The default token lifetime, in seconds. */
  const DEFAULT_LIFETIME: nat := ACCESS_TOKEN_EXPIRE_MINUTES * 60
  const DUPLICATE_MESSAGE: string := "Username or email already exists"

  /** One row of the `users` table. */
  datatype Account = Account(
    id: Uuid,
    firstName: Option<string>,
    lastName: Option<string>,
    email: string,
    username: string,
    passwordHash: string,
    isActive: bool,
    isVerified: bool,
    lastLogin: Option<nat>,
    createdAt: nat,
    updatedAt: nat)

  /** The password context: `hash(salt, password)` and `verify(password, hash)`. */
  datatype Hasher = Hasher(hash: (string, string) -> string, verify: (string, string) -> bool)

  /** The one property assumed of the hashing scheme: a password verifies against its own hash. */
  ghost predicate SoundHasher(h: Hasher) {
    forall salt, password :: h.verify(password, h.hash(salt, password))
  }

  /** `User.hash_password`. */
  function HashPassword(h: Hasher, salt: string, password: string): (digest: string)
    ensures SoundHasher(h) ==> h.verify(password, digest)
  {
    h.hash(salt, password)
  }

  /** `user.verify_password(plain)`. */
  function VerifyPassword(h: Hasher, account: Account, plain: string): (ok: bool)
    ensures SoundHasher(h) && (exists salt :: account.passwordHash == h.hash(salt, plain)) ==> ok
  {
    h.verify(plain, account.passwordHash)
  }

  /**
   * `User.create_access_token({"sub": sub}, expires_delta)` at time `now`.
   * A missing or zero delta is falsy in Python and gives the default lifetime.
   */
  function CreateAccessToken(sub: Option<string>, expiresDelta: Option<int>, now: nat): (t: Jwt)
    ensures Untampered(t, SECRET_KEY) && t.alg == ALGORITHM && t.claims.sub == sub
    ensures expiresDelta.None? || expiresDelta == Some(0) ==> t.claims.exp == now + DEFAULT_LIFETIME
    ensures expiresDelta.Some? && expiresDelta.value != 0 ==> t.claims.exp == now + expiresDelta.value
  {
    var lifetime := if expiresDelta.Some? && expiresDelta.value != 0 then expiresDelta.value else DEFAULT_LIFETIME;
    Encode(Claims(sub, now + lifetime), SECRET_KEY, ALGORITHM)
  }

  /**
   * `User.verify_token(token)` at time `now`: the UUID in the subject of a
   * token that decodes, and None for every failure (decoding error, missing
   * or empty subject, subject that is not a UUID).
   */
  function VerifyToken(token: Jwt, now: nat): (r: Option<Uuid>)
    ensures r.Some? <==> Decode(token, SECRET_KEY, [ALGORITHM], now).Some?
                         && token.claims.sub.Some? && token.claims.sub.value != ""
                         && Parse(token.claims.sub.value).Some?
    ensures r.Some? ==> r == Parse(token.claims.sub.value)
  {
    match Decode(token, SECRET_KEY, [ALGORITHM], now)
    case None => None
    case Some(payload) =>
      match payload.sub
      case None => None
      case Some(userId) => if userId == "" then None else Parse(userId)
  }

  /** A token issued for `str(u)` with the default lifetime verifies to u until it expires, and to None from then on. */
  lemma TokenForIdVerifies(u: Uuid, now: nat, t: nat)
    ensures t < now + DEFAULT_LIFETIME ==> VerifyToken(CreateAccessToken(Some(Format(u)), None, now), t) == Some(u)
    ensures t >= now + DEFAULT_LIFETIME ==> VerifyToken(CreateAccessToken(Some(Format(u)), None, now), t) == None
  {
    ParseFormat(u);
  }

  /** A token whose subject is too short to be a UUID (a username, say) never verifies. */
  lemma ShortSubjectRefused(name: string, expiresDelta: Option<int>, now: nat, t: nat)
    requires |name| < 32
    ensures VerifyToken(CreateAccessToken(Some(name), expiresDelta, now), t) == None
  {
  }

  /** Usernames are pairwise distinct, emails are pairwise distinct, and so are ids. */
  ghost predicate UniqueKeys(rows: seq<Account>) {
    forall i, j :: 0 <= i < j < |rows| ==>
      rows[i].id != rows[j].id && rows[i].username != rows[j].username && rows[i].email != rows[j].email
  }

  /** `.first()` of a filtered query: the index of the first record satisfying p. */
  function FirstIndex(rows: seq<Account>, p: Account -> bool): (r: Option<nat>)
    ensures r.Some? ==> r.value < |rows| && p(rows[r.value])
    ensures r.Some? ==> forall j :: 0 <= j < r.value ==> !p(rows[j])
    ensures r.None? ==> forall j :: 0 <= j < |rows| ==> !p(rows[j])
  {
    if rows == [] then None
    else if p(rows[0]) then Some(0)
    else match FirstIndex(rows[1..], p)
      case None => None
      case Some(k) => Some(k + 1)
  }

  predicate MatchesLogin(a: Account, identifier: string) {
    a.username == identifier || a.email == identifier
  }

  /** The login query: username or email equals the identifier. */
  function FindByLogin(rows: seq<Account>, identifier: string): (r: Option<nat>)
    ensures r.Some? ==> r.value < |rows| && MatchesLogin(rows[r.value], identifier)
    ensures r.Some? ==> forall j :: 0 <= j < r.value ==> !MatchesLogin(rows[j], identifier)
    ensures r.None? <==> forall j :: 0 <= j < |rows| ==> !MatchesLogin(rows[j], identifier)
  {
    FirstIndex(rows, a => MatchesLogin(a, identifier))
  }

  predicate Collides(a: Account, userCreate: UserCreate) {
    a.email == userCreate.email || a.username == userCreate.username
  }

  /** The registration query: email or username already taken. */
  function FindConflict(rows: seq<Account>, userCreate: UserCreate): (r: Option<nat>)
    ensures r.Some? ==> r.value < |rows| && Collides(rows[r.value], userCreate)
    ensures r.None? <==> forall j :: 0 <= j < |rows| ==> !Collides(rows[j], userCreate)
  {
    FirstIndex(rows, a => Collides(a, userCreate))
  }

  /** The lookup by id of `get_current_user`: the first row holding the id. */
  function FindById(rows: seq<Account>, id: Uuid): (r: Option<nat>)
    ensures r.Some? ==> r.value < |rows| && rows[r.value].id == id
                        && forall j :: 0 <= j < r.value ==> rows[j].id != id
    ensures r.None? <==> forall j :: 0 <= j < |rows| ==> rows[j].id != id
  {
    FirstIndex(rows, (a: Account) => a.id == id)
  }

  /** The lookup by username of `get_current_user`: the first row holding the name. */
  function FindByUsername(rows: seq<Account>, name: string): (r: Option<nat>)
    ensures r.Some? ==> r.value < |rows| && rows[r.value].username == name
                        && forall j :: 0 <= j < r.value ==> rows[j].username != name
    ensures r.None? <==> forall j :: 0 <= j < |rows| ==> rows[j].username != name
  {
    FirstIndex(rows, (a: Account) => a.username == name)
  }

  /** In a table with distinct ids, looking up a row's id finds that row. */
  lemma FindByIdFinds(rows: seq<Account>, i: nat)
    requires UniqueKeys(rows) && i < |rows|
    ensures FindById(rows, rows[i].id) == Some(i)
  {
  }

  /** `UserResponse.model_validate(user)`: every field of the view is read from the record. */
  function ToView(a: Account): (v: UserResponse)
    ensures v.id == a.id && v.username == a.username && v.email == a.email
    ensures v.firstName == a.firstName && v.lastName == a.lastName
    ensures v.isActive == Some(a.isActive) && v.isVerified == Some(a.isVerified)
    ensures v.createdAt == a.createdAt && v.updatedAt == Some(a.updatedAt)
  {
    MakeUserResponse(a.id, a.username, a.email, Given(a.firstName), Given(a.lastName),
      Given(Some(a.isActive)), Given(Some(a.isVerified)), a.createdAt, Given(Some(a.updatedAt)))
  }

  /** The view never depends on the password hash (nor on the last login time). */
  lemma ViewHidesPasswordHash(a: Account, otherHash: string, otherLogin: Option<nat>)
    ensures ToView(a.(passwordHash := otherHash, lastLogin := otherLogin)) == ToView(a)
  {
  }

  datatype RegisterError =
    | InvalidInput(fields: seq<string>)  // ValueError(str(ValidationError))
    | AlreadyExists(message: string)     // ValueError("Username or email already exists")
    | IdTaken                            // IntegrityError from the primary key at flush
    | MissingAttribute(name: string)     // AttributeError: UserCreate has no such field

  /** Validation and the uniqueness query, the steps before a record is built. */
  function PreInsert(rows: seq<Account>, data: UserData, validator: EmailValidator): (r: Result<UserCreate, RegisterError>)
    ensures r.Ok? <==> ValidateUserCreate(data, validator).Ok?
                       && FindConflict(rows, ValidateUserCreate(data, validator).value).None?
    ensures r.Ok? ==> r.value == ValidateUserCreate(data, validator).value
    ensures ValidateUserCreate(data, validator).Err? ==>
              r == Err(InvalidInput(ValidateUserCreate(data, validator).error))
    ensures ValidateUserCreate(data, validator).Ok? && !r.Ok? ==> r == Err(AlreadyExists(DUPLICATE_MESSAGE))
  {
    match ValidateUserCreate(data, validator)
    case Err(fields) => Err(InvalidInput(fields))
    case Ok(userCreate) =>
      if FindConflict(rows, userCreate).Some? then Err(AlreadyExists(DUPLICATE_MESSAGE)) else Ok(userCreate)
  }

  /**
   * The record a registration builds. `UserCreate` declares no names, so
   * `first_name` and `last_name` are left empty; the column defaults give
   * an active, unverified account that has never logged in.
   */
  function NewAccount(userCreate: UserCreate, h: Hasher, salt: string, id: Uuid, now: nat): (a: Account)
    ensures a.id == id && a.username == userCreate.username && a.email == userCreate.email
    ensures a.firstName.None? && a.lastName.None?
    ensures a.isActive && !a.isVerified && a.lastLogin.None? && a.createdAt == now && a.updatedAt == now
    ensures SoundHasher(h) ==> VerifyPassword(h, a, userCreate.password)
  {
    Account(id, None, None, userCreate.email, userCreate.username,
      HashPassword(h, salt, userCreate.password), true, false, None, now, now)
  }

  /** `User.register` as written: past the uniqueness query it reads `user_create.first_name`, which raises. */
  function RegisterAsWritten(rows: seq<Account>, data: UserData, validator: EmailValidator): (r: Result<Account, RegisterError>)
    ensures r.Err?
    ensures r.error.MissingAttribute? <==> PreInsert(rows, data, validator).Ok?
    ensures PreInsert(rows, data, validator).Err? ==> r == Err(PreInsert(rows, data, validator).error)
  {
    match PreInsert(rows, data, validator)
    case Err(e) => Err(e)
    case Ok(_) => Err(MissingAttribute("first_name"))
  }

  /** `User.register` with the names read as absent: the new record, or why there is none. */
  function RegisterResult(rows: seq<Account>, data: UserData, validator: EmailValidator,
                          h: Hasher, salt: string, newId: Uuid, now: nat): (r: Result<Account, RegisterError>)
    ensures r.Ok? <==> ValidateUserCreate(data, validator).Ok?
                       && !(exists i :: 0 <= i < |rows| && Collides(rows[i], ValidateUserCreate(data, validator).value))
                       && !(exists i :: 0 <= i < |rows| && rows[i].id == newId)
    ensures r.Err? ==> r.error.InvalidInput? || r.error == AlreadyExists(DUPLICATE_MESSAGE) || r.error.IdTaken?
    ensures r.Err? && r.error.InvalidInput? <==> ValidateUserCreate(data, validator).Err?
    ensures r.Err? && r.error.InvalidInput? ==> r.error.fields == ValidateUserCreate(data, validator).error
    ensures r == Err(AlreadyExists(DUPLICATE_MESSAGE)) <==>
              ValidateUserCreate(data, validator).Ok? &&
              exists i :: 0 <= i < |rows| && Collides(rows[i], ValidateUserCreate(data, validator).value)
    ensures r.Err? && r.error.IdTaken? ==> exists i :: 0 <= i < |rows| && rows[i].id == newId
    ensures !(r.Err? && r.error.MissingAttribute?)
    ensures r.Ok? ==>
              r.value.id == newId && r.value.username == data.username.value
              && Some(r.value.email) == validator(data.email.value)
              && r.value.passwordHash == HashPassword(h, salt, data.password.value)
              && r.value.isActive && !r.value.isVerified && r.value.lastLogin.None?
              && r.value.firstName.None? && r.value.lastName.None?
              && r.value.createdAt == now && r.value.updatedAt == now
    ensures r.Ok? ==> forall i :: 0 <= i < |rows| ==>
              rows[i].id != r.value.id && rows[i].username != r.value.username && rows[i].email != r.value.email
  {
    match PreInsert(rows, data, validator)
    case Err(e) => Err(e)
    case Ok(userCreate) =>
      if FindById(rows, newId).Some? then Err(IdTaken) else Ok(NewAccount(userCreate, h, salt, newId, now))
  }

  /** The table after a registration attempt: one record more on success, unchanged otherwise. */
  function TableAfterRegister(rows: seq<Account>, r: Result<Account, RegisterError>): seq<Account> {
    if r.Ok? then rows + [r.value] else rows
  }

  /** Registration keeps usernames, emails and ids pairwise distinct. */
  lemma RegisterKeepsKeysUnique(rows: seq<Account>, data: UserData, validator: EmailValidator,
                                h: Hasher, salt: string, newId: Uuid, now: nat)
    requires UniqueKeys(rows)
    ensures UniqueKeys(TableAfterRegister(rows, RegisterResult(rows, data, validator, h, salt, newId, now)))
  {
  }

  /** Whichever field collides, a taken username or a taken (normalised) email refuses the registration. */
  lemma DuplicateRefused(rows: seq<Account>, data: UserData, validator: EmailValidator,
                         h: Hasher, salt: string, newId: Uuid, now: nat, k: nat)
    requires ValidateUserCreate(data, validator).Ok? && k < |rows|
    requires rows[k].username == data.username.value || Some(rows[k].email) == validator(data.email.value)
    ensures RegisterResult(rows, data, validator, h, salt, newId, now) == Err(AlreadyExists(DUPLICATE_MESSAGE))
  {
    assert Collides(rows[k], ValidateUserCreate(data, validator).value);
  }

  /** The stored hash verifies the registration password. */
  lemma RegisteredPasswordVerifies(rows: seq<Account>, data: UserData, validator: EmailValidator,
                                   h: Hasher, salt: string, newId: Uuid, now: nat)
    requires SoundHasher(h)
    requires RegisterResult(rows, data, validator, h, salt, newId, now).Ok?
    ensures VerifyPassword(h, RegisterResult(rows, data, validator, h, salt, newId, now).value, data.password.value)
  {
  }

  /** Record k is the first whose username or email equals the identifier. */
  predicate FirstLoginMatch(rows: seq<Account>, identifier: string, k: nat) {
    k < |rows| && MatchesLogin(rows[k], identifier)
    && forall j :: 0 <= j < k ==> !MatchesLogin(rows[j], identifier)
  }

  /**
   * The record a login succeeds on: the first record whose username or email
   * equals the identifier, provided the password verifies against it. No
   * record and a wrong password give the same None.
   */
  function LoginMatch(rows: seq<Account>, identifier: string, password: string, h: Hasher): (r: Option<nat>)
    ensures r.Some? ==> FirstLoginMatch(rows, identifier, r.value) && VerifyPassword(h, rows[r.value], password)
    ensures r.None? ==> forall k: nat :: FirstLoginMatch(rows, identifier, k) ==> !VerifyPassword(h, rows[k], password)
  {
    match FindByLogin(rows, identifier)
    case None => None
    case Some(i) => if VerifyPassword(h, rows[i], password) then Some(i) else None
  }

  /** The mutation of a successful login: `last_login` and, by the column's onupdate, `updated_at`. */
  function Stamp(a: Account, now: nat): (b: Account)
    ensures b.lastLogin == Some(now) && b.updatedAt == now
    ensures b.id == a.id && b.username == a.username && b.email == a.email && b.passwordHash == a.passwordHash
    ensures b.firstName == a.firstName && b.lastName == a.lastName
    ensures b.isActive == a.isActive && b.isVerified == a.isVerified && b.createdAt == a.createdAt
  {
    a.(lastLogin := Some(now), updatedAt := now)
  }

  /** The response of a successful login: a bearer token whose subject is the account id, and the view. */
  function TokenFor(a: Account, now: nat): (t: Token)
    ensures t.tokenType == "bearer" && t.user == ToView(a)
    ensures Untampered(t.accessToken, SECRET_KEY) && t.accessToken.alg == ALGORITHM
    ensures t.accessToken.claims == Claims(Some(Format(a.id)), now + DEFAULT_LIFETIME)
  {
    Token(CreateAccessToken(Some(Format(a.id)), None, now), "bearer", ToView(a))
  }

  /** A login mutation keeps every key of every record, so the table invariant too. */
  lemma StampKeepsKeys(rows: seq<Account>, i: nat, now: nat)
    requires i < |rows|
    ensures forall j :: 0 <= j < |rows| ==>
              rows[i := Stamp(rows[i], now)][j].id == rows[j].id
              && rows[i := Stamp(rows[i], now)][j].username == rows[j].username
              && rows[i := Stamp(rows[i], now)][j].email == rows[j].email
    ensures UniqueKeys(rows) ==> UniqueKeys(rows[i := Stamp(rows[i], now)])
  {
  }

  /** The login response has type "bearer" and a token that verifies to the account id until it expires. */
  lemma LoginResponseVerifies(a: Account, now: nat, t: nat)
    ensures TokenFor(a, now).tokenType == "bearer" && TokenFor(a, now).user == ToView(a)
    ensures t < now + DEFAULT_LIFETIME ==> VerifyToken(TokenFor(a, now).accessToken, t) == Some(a.id)
    ensures t >= now + DEFAULT_LIFETIME ==> VerifyToken(TokenFor(a, now).accessToken, t) == None
  {
    TokenForIdVerifies(a.id, now, t);
  }

  /**
   * Registration followed by login with the same password (the register
   * route does this) reaches the new record: by email when no older record
   * has that email as its username, and by username when no older record
   * has that username as its email.
   */
  lemma {:induction false} RegisterThenLogin(rows: seq<Account>, data: UserData, validator: EmailValidator,
                                             h: Hasher, salt: string, newId: Uuid, now: nat)
    requires UniqueKeys(rows) && SoundHasher(h)
    requires RegisterResult(rows, data, validator, h, salt, newId, now).Ok?
    ensures var a := RegisterResult(rows, data, validator, h, salt, newId, now).value;
            (forall i :: 0 <= i < |rows| ==> rows[i].username != a.email) ==>
              LoginMatch(rows + [a], a.email, data.password.value, h) == Some(|rows|)
    ensures var a := RegisterResult(rows, data, validator, h, salt, newId, now).value;
            (forall i :: 0 <= i < |rows| ==> rows[i].email != a.username) ==>
              LoginMatch(rows + [a], a.username, data.password.value, h) == Some(|rows|)
  {
    var a := RegisterResult(rows, data, validator, h, salt, newId, now).value;
    var after := rows + [a];
    if forall i :: 0 <= i < |rows| ==> rows[i].username != a.email {
      assert FirstLoginMatch(after, a.email, |rows|);
      FirstLoginMatchUnique(after, a.email);
    }
    if forall i :: 0 <= i < |rows| ==> rows[i].email != a.username {
      assert FirstLoginMatch(after, a.username, |rows|);
      FirstLoginMatchUnique(after, a.username);
    }
  }

  /** The first login match is the one the login query finds. */
  lemma FirstLoginMatchUnique(rows: seq<Account>, identifier: string)
    ensures forall k: nat :: FirstLoginMatch(rows, identifier, k) ==> FindByLogin(rows, identifier) == Some(k)
  {
  }

  /**
   * The registration scenario: alice registers on an empty table, logs in
   * with her password, fails with a wrong one, and cannot register again.
   * A three-character password is accepted: there is no length rule. As
   * written, the same registration raises on the missing name field.
   */
  lemma AliceScenario(validator: EmailValidator, h: Hasher, salt: string, id: Uuid, otherId: Uuid, now: nat, later: nat)
    requires validator("alice@example.com") == Some("alice@example.com")
    requires SoundHasher(h) && !h.verify("wrong", h.hash(salt, "secret1"))
    ensures var data := UserData(Given("alice"), Given("alice@example.com"), Given("secret1"), Absent, Absent);
            var r := RegisterResult([], data, validator, h, salt, id, now);
            r.Ok? && r.value.isActive && !r.value.isVerified
            && LoginMatch([r.value], "alice", "secret1", h) == Some(0)
            && LoginMatch([r.value], "alice", "wrong", h) == None
            && RegisterResult([r.value], data, validator, h, salt, otherId, later) == Err(AlreadyExists(DUPLICATE_MESSAGE))
            && RegisterResult([], data.(password := Given("abc")), validator, h, salt, id, now).Ok?
            && RegisterAsWritten([], data, validator) == Err(MissingAttribute("first_name"))
  {
    var data := UserData(Given("alice"), Given("alice@example.com"), Given("secret1"), Absent, Absent);
    var a := RegisterResult([], data, validator, h, salt, id, now).value;
    assert Collides([a][0], ValidateUserCreate(data, validator).value);
  }

  /**
   * Uniqueness is checked per column only, so a new username may equal an
   * older account's email, and then both rows match that identifier at
   * login. With the first match taken in insertion order, login reaches the
   * older account and the new one's password is refused.
   */
  lemma UsernameShadowedByEmail(validator: EmailValidator, h: Hasher, alice: Account, salt: string, id: Uuid, now: nat)
    requires alice.username == "alice" && alice.email == "alice@example.com" && alice.id != id
    requires validator("eve@example.com") == Some("eve@example.com")
    requires !h.verify("pw-eve", alice.passwordHash)
    ensures var data := UserData(Given("alice@example.com"), Given("eve@example.com"), Given("pw-eve"), Absent, Absent);
            var r := RegisterResult([alice], data, validator, h, salt, id, now);
            r.Ok? && MatchesLogin(alice, "alice@example.com") && MatchesLogin(r.value, "alice@example.com")
            && LoginMatch([alice, r.value], "alice@example.com", "pw-eve", h) == None
  {
    var data := UserData(Given("alice@example.com"), Given("eve@example.com"), Given("pw-eve"), Absent, Absent);
    var r := RegisterResult([alice], data, validator, h, salt, id, now);
    assert !Collides(alice, ValidateUserCreate(data, validator).value);
    assert FirstLoginMatch([alice, r.value], "alice@example.com", 0);
  }

  /** The account table: its rows and the two operations that change them. */
  class Directory {
    var rows: seq<Account>

    ghost predicate Valid()
      reads this
    {
      UniqueKeys(rows)
    }

    constructor ()
      ensures Valid() && rows == []
    {
      rows := [];
    }

    /** `User.register`, reading the missing name fields as absent. */
    method Register(data: UserData, validator: EmailValidator, h: Hasher, salt: string, newId: Uuid, now: nat)
      returns (r: Result<Account, RegisterError>)
      requires Valid()
      modifies this
      ensures Valid()
      ensures r == RegisterResult(old(rows), data, validator, h, salt, newId, now)
      ensures rows == TableAfterRegister(old(rows), r)
    {
      var validated := ValidateUserCreate(data, validator);
      if validated.Err? {
        return Err(InvalidInput(validated.error));
      }
      var userCreate := validated.value;
      var existing := FindConflict(rows, userCreate);
      if existing.Some? {
        return Err(AlreadyExists(DUPLICATE_MESSAGE));
      }
      var newUser := NewAccount(userCreate, h, salt, newId, now);
      if FindById(rows, newId).Some? {
        return Err(IdTaken);
      }
      RegisterKeepsKeysUnique(rows, data, validator, h, salt, newId, now);
      rows := rows + [newUser];
      r := Ok(newUser);
    }

    /** `User.authenticate`: on success stamps the matched record and returns the login response. */
    method Authenticate(identifier: string, password: string, h: Hasher, now: nat) returns (r: Option<Token>)
      requires Valid()
      modifies this
      ensures Valid()
      ensures r.None? <==> LoginMatch(old(rows), identifier, password, h).None?
      ensures r.None? ==> rows == old(rows)
      ensures r.Some? ==>
                var i := LoginMatch(old(rows), identifier, password, h).value;
                rows == old(rows)[i := Stamp(old(rows)[i], now)] && r.value == TokenFor(rows[i], now)
    {
      var found := FindByLogin(rows, identifier);
      if found.None? || !VerifyPassword(h, rows[found.value], password) {
        return None;
      }
      var i := found.value;
      StampKeepsKeys(rows, i, now);
      rows := rows[i := Stamp(rows[i], now)];
      r := Some(TokenFor(rows[i], now));
    }
  }
}
