/**
 * The request and response records of the account core (the pydantic
 * models of the schemas file). A record built from input takes a field's
 * declared default only when the input has no such key; an explicit `None`
 * for an optional field stays `None`.
 */
module Schemas {
  import opened Wrappers
  import opened Uuids
  import opened Jwt

  /** Whether a key was present in the input a record is built from. */
  datatype Provided<T> = Absent | Given(value: T)

  function OrDefault<T>(p: Provided<T>, default: T): T {
    match p
    case Absent => default
    case Given(v) => v
  }

  /**
   * The `EmailStr` check of the external email-validator library: None for
   * an address it refuses, otherwise the address as it normalises it.
   */
  type EmailValidator = string -> Option<string>

  /** The raw registration dictionary; it may carry name keys, which UserCreate does not declare. */
  datatype UserData = UserData(
    username: Provided<string>,
    email: Provided<string>,
    password: Provided<string>,
    firstName: Provided<string>,
    lastName: Provided<string>)

  /** Exactly three fields: no name fields, and no constraint on the password. */
  datatype UserCreate = UserCreate(username: string, email: string, password: string)

  /**
   * `UserCreate.model_validate(data)`: the fields it declares are required
   * and the email must pass the validator; undeclared keys are ignored.
   * A failure lists the offending fields in declaration order.
   */
  function ValidateUserCreate(data: UserData, validator: EmailValidator): (r: Result<UserCreate, seq<string>>)
    ensures r.Ok? <==> data.username.Given? && data.email.Given? && data.password.Given?
                       && validator(data.email.value).Some?
    ensures r.Ok? ==> r.value.username == data.username.value
                      && r.value.password == data.password.value
                      && Some(r.value.email) == validator(data.email.value)
    ensures r.Err? ==> r.error != [] && forall f :: f in r.error ==> f in ["username", "email", "password"]
    ensures r.Err? ==> ("username" in r.error <==> data.username.Absent?)
                       && ("email" in r.error <==> data.email.Absent? || validator(data.email.value).None?)
                       && ("password" in r.error <==> data.password.Absent?)
  {
    var errors :=
      (if data.username.Absent? then ["username"] else [])
      + (if data.email.Absent? || validator(data.email.value).None? then ["email"] else [])
      + (if data.password.Absent? then ["password"] else []);
    if errors == [] then
      Ok(UserCreate(data.username.value, validator(data.email.value).value, data.password.value))
    else
      Err(errors)
  }

  /** The outward view of an account: it has no password or password-hash field. */
  datatype UserResponse = UserResponse(
    id: Uuid,
    username: string,
    email: string,
    firstName: Option<string>,
    lastName: Option<string>,
    isActive: Option<bool>,
    isVerified: Option<bool>,
    createdAt: nat,
    updatedAt: Option<nat>)

  /** Building a UserResponse from fields that may be missing: names and `updated_at` default to none, `is_active` to true, `is_verified` to false. */
  function MakeUserResponse(
    id: Uuid, username: string, email: string,
    firstName: Provided<Option<string>>, lastName: Provided<Option<string>>,
    isActive: Provided<Option<bool>>, isVerified: Provided<Option<bool>>,
    createdAt: nat, updatedAt: Provided<Option<nat>>): (r: UserResponse)
    ensures r.id == id && r.username == username && r.email == email && r.createdAt == createdAt
    ensures firstName.Absent? ==> r.firstName.None?
    ensures lastName.Absent? ==> r.lastName.None?
    ensures updatedAt.Absent? ==> r.updatedAt.None?
    ensures isActive.Absent? ==> r.isActive == Some(true)
    ensures isVerified.Absent? ==> r.isVerified == Some(false)
    ensures firstName.Given? ==> r.firstName == firstName.value
    ensures lastName.Given? ==> r.lastName == lastName.value
    ensures updatedAt.Given? ==> r.updatedAt == updatedAt.value
    ensures isActive.Given? ==> r.isActive == isActive.value
    ensures isVerified.Given? ==> r.isVerified == isVerified.value
  {
    UserResponse(id, username, email,
      OrDefault(firstName, None), OrDefault(lastName, None),
      OrDefault(isActive, Some(true)), OrDefault(isVerified, Some(false)),
      createdAt, OrDefault(updatedAt, None))
  }

  /** The login response: a token, its type, and always an account view. */
  datatype Token = Token(accessToken: Jwt, tokenType: string, user: UserResponse)

  /** Building a Token: `token_type` is "bearer" unless given. */
  function MakeToken(accessToken: Jwt, tokenType: Provided<string>, user: UserResponse): (r: Token)
    ensures r.accessToken == accessToken && r.user == user
    ensures tokenType.Absent? ==> r.tokenType == "bearer"
    ensures tokenType.Given? ==> r.tokenType == tokenType.value
  {
    Token(accessToken, OrDefault(tokenType, "bearer"), user)
  }

  /** The decoded token payload. */
  datatype TokenData = TokenData(userId: Option<Uuid>)

  /** Building a TokenData: `user_id` is none unless given. */
  function MakeTokenData(userId: Provided<Option<Uuid>>): (r: TokenData)
    ensures userId.Absent? ==> r.userId.None?
    ensures userId.Given? ==> r.userId == userId.value
  {
    TokenData(OrDefault(userId, None))
  }

  /** The login request body. */
  datatype UserLogin = UserLogin(username: string, password: string)

  /** Name keys in the input change nothing, and a password of any length, the empty one included, is accepted. */
  lemma NoNamesNoPasswordRule(data: UserData, validator: EmailValidator, password: string)
    ensures ValidateUserCreate(data, validator)
         == ValidateUserCreate(data.(firstName := Absent, lastName := Absent), validator)
    ensures data.username.Given? && data.email.Given? && validator(data.email.value).Some? ==>
              ValidateUserCreate(data.(password := Given(password)), validator).Ok?
  {
  }
}
