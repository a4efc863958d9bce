/**
 * The request-authentication gate: from a bearer token to the caller's
 * account view, or to the HTTP error the gate raises. No state is changed.
 */
module Dependencies {
  import opened Wrappers
  import opened Uuids
  import opened Jwt
  import opened Schemas
  import opened UserModel

  datatype HttpError = HttpError(status: nat, detail: string)

  /** 401, for a token that does not resolve to an account. */
  const CREDENTIALS_EXCEPTION: HttpError := HttpError(401, "Could not validate credentials")
  /** 400, for an account that is not active. */
  const INACTIVE_USER: HttpError := HttpError(400, "Inactive user")

  /** What the gate's `identifier` may hold: a UUID, or a username to look up by name. */
  datatype Identifier = AccountId(id: Uuid) | Username(name: string)

  /** Python truthiness of `identifier`: None and the empty string are false, every UUID is true. */
  predicate Truthy(identifier: Option<Identifier>)
    ensures Truthy(identifier) ==> identifier.Some?
    ensures identifier.Some? && identifier.value.AccountId? ==> Truthy(identifier)
  {
    identifier.Some? && identifier.value != Username("")
  }

  /** The record is the one the identifier names: by id for a UUID, by username otherwise. */
  predicate IdentifiedBy(a: Account, identifier: Identifier) {
    match identifier
    case AccountId(u) => a.id == u
    case Username(name) => a.username == name
  }

  /** The gate once the identifier is known: a falsy identifier or no matching record is the 401. */
  function ResolveIdentifier(rows: seq<Account>, identifier: Option<Identifier>): (r: Result<UserResponse, HttpError>)
    ensures r.Err? ==> r.error == CREDENTIALS_EXCEPTION
    ensures r.Ok? <==> Truthy(identifier) && exists i :: 0 <= i < |rows| && IdentifiedBy(rows[i], identifier.value)
    ensures r.Ok? ==> exists i :: 0 <= i < |rows| && IdentifiedBy(rows[i], identifier.value) && r.value == ToView(rows[i])
  {
    if !Truthy(identifier) then Err(CREDENTIALS_EXCEPTION)
    else
      var found := match identifier.value
        case AccountId(u) => FindById(rows, u)
        case Username(name) => FindByUsername(rows, name);
      match found
      case None => Err(CREDENTIALS_EXCEPTION)
      case Some(i) => Ok(ToView(rows[i]))
  }

  /** The identifier `User.verify_token` hands to the gate. */
  function TokenIdentifier(token: Jwt, now: nat): (r: Option<Identifier>)
    ensures r.None? <==> VerifyToken(token, now).None?
    ensures r.Some? ==> r.value.AccountId? && r.value.id == VerifyToken(token, now).value && Truthy(r)
  {
    match VerifyToken(token, now)
    case None => None
    case Some(u) => Some(AccountId(u))
  }

  /** `get_current_user`: the view of the account whose id the token carries, or the 401. */
  function GetCurrentUser(rows: seq<Account>, token: Jwt, now: nat): (r: Result<UserResponse, HttpError>)
    ensures r.Err? ==> r.error == CREDENTIALS_EXCEPTION
    ensures r.Ok? <==> VerifyToken(token, now).Some?
                       && exists i :: 0 <= i < |rows| && rows[i].id == VerifyToken(token, now).value
    ensures r.Ok? ==> r.value.id == VerifyToken(token, now).value
    ensures r.Ok? ==> exists i :: 0 <= i < |rows| && rows[i].id == VerifyToken(token, now).value
                                  && r.value == ToView(rows[i])
  {
    ResolveIdentifier(rows, TokenIdentifier(token, now))
  }

  /** `get_current_active_user`: an account view whose `is_active` is not true is the 400. */
  function GetCurrentActiveUser(current: UserResponse): (r: Result<UserResponse, HttpError>)
    ensures r.Ok? <==> current.isActive == Some(true)
    ensures r.Ok? ==> r.value == current
    ensures r.Err? ==> r.error == INACTIVE_USER
  {
    if current.isActive != Some(true) then Err(INACTIVE_USER) else Ok(current)
  }

  /** The two gates chained, as the framework resolves the dependency. */
  function CurrentActiveUser(rows: seq<Account>, token: Jwt, now: nat): (r: Result<UserResponse, HttpError>)
    ensures r == Err(CREDENTIALS_EXCEPTION) <==> GetCurrentUser(rows, token, now).Err?
    ensures r == Err(INACTIVE_USER) <==>
              GetCurrentUser(rows, token, now).Ok? && GetCurrentUser(rows, token, now).value.isActive != Some(true)
    ensures r.Ok? <==>
              GetCurrentUser(rows, token, now).Ok? && GetCurrentUser(rows, token, now).value.isActive == Some(true)
    ensures r.Ok? ==> r == GetCurrentUser(rows, token, now)
  {
    match GetCurrentUser(rows, token, now)
    case Err(e) => Err(e)
    case Ok(current) => GetCurrentActiveUser(current)
  }

  /**
   * Since `verify_token` yields only a UUID or None, the gate never looks a
   * user up by name: it behaves exactly as a lookup by id alone.
   */
  lemma UsernameBranchUnreachable(rows: seq<Account>, token: Jwt, now: nat)
    ensures TokenIdentifier(token, now).None? || TokenIdentifier(token, now).value.AccountId?
    ensures GetCurrentUser(rows, token, now) ==
              match VerifyToken(token, now)
              case None => Err(CREDENTIALS_EXCEPTION)
              case Some(u) =>
                match FindById(rows, u)
                case None => Err(CREDENTIALS_EXCEPTION)
                case Some(i) => Ok(ToView(rows[i]))
  {
  }

  /** A valid token for an account that is not in the table gets exactly the answer a garbled token gets. */
  lemma MissingAccountLikeBadToken(rows: seq<Account>, token: Jwt, now: nat, garbage: string)
    requires VerifyToken(token, now).Some?
    requires forall i :: 0 <= i < |rows| ==> rows[i].id != VerifyToken(token, now).value
    ensures GetCurrentUser(rows, token, now) == GetCurrentUser(rows, Malformed(garbage), now)
    ensures CurrentActiveUser(rows, token, now) == Err(CREDENTIALS_EXCEPTION)
  {
  }

  /**
   * After a login stamps record i, the token it returned resolves to that
   * record's view until it expires and to the 401 afterwards; the active
   * gate passes it exactly when the account is active.
   */
  lemma LoginTokenResolves(rows: seq<Account>, i: nat, now: nat, t: nat)
    requires UniqueKeys(rows) && i < |rows|
    ensures var after := rows[i := Stamp(rows[i], now)];
            var token := TokenFor(after[i], now).accessToken;
            (t < now + DEFAULT_LIFETIME ==> GetCurrentUser(after, token, t) == Ok(ToView(after[i])))
            && (t < now + DEFAULT_LIFETIME ==>
                  CurrentActiveUser(after, token, t) == if after[i].isActive then Ok(ToView(after[i])) else Err(INACTIVE_USER))
            && (t >= now + DEFAULT_LIFETIME ==> GetCurrentUser(after, token, t) == Err(CREDENTIALS_EXCEPTION))
  {
    var after := rows[i := Stamp(rows[i], now)];
    StampKeepsKeys(rows, i, now);
    LoginResponseVerifies(after[i], now, t);
    FindByIdFinds(after, i);
  }
}
