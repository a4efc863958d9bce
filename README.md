# Account authentication core, modelled in Dafny

This project models the account core of a small FastAPI service:

- the `users` table;
- registration, which validates the input, refuses a taken username or email, hashes the password and inserts a record;
- login, which finds the record by username or email, verifies the password, stamps `last_login` and issues a bearer token;
- the request gate, which turns a bearer token back into the caller's account view, or into a 401 or 400 error.

Modules, one per source file or library piece:

| file | module | models |
|---|---|---|
| wrappers.dfy | `Wrappers` | `Optional` values and raised errors (`Option`, `Result`) |
| uuids.dfy | `Uuids` | `str(uuid)` and `uuid.UUID(text)` from Python's `uuid` module |
| jwt.dfy | `Jwt` | the `{sub, exp}` token with a symbolic signature |
| schemas.dfy | `Schemas` | app/schemas/user.py |
| user_model.dfy | `UserModel` | app/models/user.py, with the table as the class `Directory` |
| dependencies.dfy | `Dependencies` | app/auth/dependencies.py |

Abstractions:

- Passwords: the bcrypt context is a `Hasher`, a pair of functions `hash(salt, password)` and `verify(password, hash)`. The model assumes one thing about it, `SoundHasher`: a password verifies against its own hash. The random salt is a parameter.
- Tokens: a token is the claim pair `sub` and `exp` from RFC 7519 (sections 4.1.2 and 4.1.4), plus a header algorithm and a signature. The signature is symbolic. It is determined by the key, the algorithm and the claims, so changing the claims or the key is detected. A token decodes when it is well formed, its algorithm is "HS256", its signature matches `SECRET_KEY`, and `now < exp`.
- Email checks: `EmailStr` validation is the external email-validator library. The model takes it as a parameter `string -> Option<string>`, where None means refused and Some gives the normalised address.
- Time, randomness and storage: the clock is a `now` parameter in whole seconds. The new `uuid4` id is a parameter. The database is one sequential in-memory table, and a query's `.first()` is the first matching row in insertion order.

Behaviour of the code worth knowing:

- The code has no minimum password length. `AliceScenario` shows that a three-character password is accepted.
- A token's subject must parse as a UUID. A subject of fewer than 32 characters never verifies (`ShortSubjectRefused`); a username verifies only if it spells a UUID, and is then looked up by id. The gate never looks a user up by name (`UsernameBranchUnreachable`).
- The uniqueness check compares email with email and username with username. A new username may equal an older account's email, and then both rows match that identifier at login (`UsernameShadowedByEmail`). Conversely, a new email may equal an older account's username, and then both rows match a login by that email. Reading `.first()` as insertion order, login reaches the older account. `RegisterThenLogin` states when the register-then-login sequence of app/auth/routes.py:13-14 reaches the new account.

## Model

| member | source | states |
|---|---|---|
| `Uuids.Format` | app/models/user.py:125 | `str(id)` has 36 characters: hyphens exactly at positions 8, 13, 18 and 23, lower-case hex digits everywhere else |
| `Uuids.Parse` | app/models/user.py:72 | `uuid.UUID(s)` fails on any string shorter than 32 characters; a parsed value is always the value of exactly 32 hex digits |
| `Uuids.FromHex` | app/models/user.py:72 | 32 hex digits give a value below 2^128, so the result is a UUID |
| `Uuids.ToHex` | app/models/user.py:125 | writing a value gives exactly k lower-case hex digits |
| `Uuids.FromHexToHex` | app/models/user.py:72 | reading back the k hex digits of a value below 16^k gives that value |
| `Uuids.ParseFormat` | app/models/user.py:72 | `uuid.UUID(str(u)) == u` for every UUID u |
| `Jwt.Encode` | app/models/user.py:65 | an encoded token is well formed and carries the given algorithm and claims |
| `Jwt.Decode` | app/models/user.py:70 | decoding succeeds only on an untampered token with an allowed algorithm, before its `exp`, and yields the token's own claims |
| `Jwt.DecodeEncode` | app/models/user.py:63-70 | a token signed with the key decodes to its claims before `exp` and fails from `exp` on |
| `Jwt.ClaimsTamperingRejected` | app/models/user.py:70 | a token whose claims were replaced under the original signature never decodes |
| `Jwt.ForeignKeyRejected` | app/models/user.py:70 | a token signed with another key never decodes |
| `Schemas.ValidateUserCreate` | app/schemas/user.py:7-15 | validation succeeds exactly when username, email and password are all present and the email passes the validator; the result holds those three values, with the normalised email; any failure names the failing fields |
| `Schemas.NoNamesNoPasswordRule` | app/schemas/user.py:13-15 | name keys in the input are ignored, and a password of any length, empty included, is accepted |
| `Schemas.MakeUserResponse` | app/schemas/user.py:30-44 | absent names and `updated_at` default to none, absent `is_active` to true, absent `is_verified` to false; given values are kept |
| `Schemas.MakeToken` | app/schemas/user.py:50-57 | `token_type` is "bearer" unless given; the token always embeds a user view |
| `Schemas.MakeTokenData` | app/schemas/user.py:81-86 | `user_id` is none unless given |
| `UserModel.HashPassword` | app/models/user.py:50-55 | under the hasher assumption, `verify_password` accepts the password against its hash |
| `UserModel.CreateAccessToken` | app/models/user.py:60-65 | the token is signed with `SECRET_KEY` and "HS256" and carries the given subject; `exp` is now + 30 minutes when the delta is missing or zero (both falsy), otherwise now + delta |
| `UserModel.VerifyToken` | app/models/user.py:67-74 | the result is a UUID exactly when the token decodes and its subject is present, non-empty and parses as a UUID, and then it is that UUID; every failure is None |
| `UserModel.TokenForIdVerifies` | app/models/user.py:61-74 | a default-lifetime token for `str(u)` verifies to u before now + 30 minutes and to None from then on |
| `UserModel.ShortSubjectRefused` | app/models/user.py:67-74 | a token whose subject has fewer than 32 characters never verifies |
| `UserModel.FirstIndex` | app/models/user.py:87-89 | `.first()` returns the first row satisfying the filter; None means that no row satisfies it |
| `UserModel.FindById` | app/auth/dependencies.py:29 | the lookup by id gives the first row holding the id, and None exactly when no row holds it |
| `UserModel.FindByUsername` | app/auth/dependencies.py:31 | the lookup by username gives the first row holding the name, and None exactly when no row holds it |
| `UserModel.FindByIdFinds` | app/auth/dependencies.py:29 | in a table with distinct ids, the lookup by a row's id finds that row |
| `UserModel.PreInsert` | app/models/user.py:84-91 | the steps before the insert succeed exactly when validation passes and the uniqueness query finds nothing, giving the validated input; a validation failure carries the validator's field list, and a conflict gives "Username or email already exists" |
| `UserModel.ToView` | app/models/user.py:123 | the view copies id, username, email, names, flags and timestamps from the record |
| `UserModel.ViewHidesPasswordHash` | app/schemas/user.py:30-44 | the view does not depend on the password hash or on `last_login` |
| `UserModel.RegisterAsWritten` | app/models/user.py:94-96 | as written, registration never succeeds: every input that passes validation and the uniqueness query fails on the missing name attribute, and every other input fails with the validation or duplicate error of those steps |
| `UserModel.RegisterResult` | app/models/user.py:80-107 | registration succeeds exactly when the input validates, no row shares its email or username, and the new id is unused; every failure is a validation error, the duplicate error or the id clash. The result is a validation error, carrying the validator's list of failing fields, exactly when validation fails, and "Username or email already exists" exactly when some row shares the email or the username. On success the new record has the new id, the given username, the normalised email, `hash_password(password)`, `is_active`, not `is_verified`, no `last_login` and no names, and none of its keys is in use |
| `UserModel.RegisterKeepsKeysUnique` | app/models/user.py:87-91 | registration keeps usernames, emails and ids pairwise distinct |
| `UserModel.DuplicateRefused` | app/models/user.py:87-91 | a taken username or a taken email, whichever collides, gives "Username or email already exists" |
| `UserModel.RegisteredPasswordVerifies` | app/models/user.py:99 | a registered record's stored hash verifies the registration password |
| `UserModel.LoginMatch` | app/models/user.py:112-117 | login succeeds exactly on the first row whose username or email equals the identifier, and only if the password verifies; no row and a wrong password both give None |
| `UserModel.FirstLoginMatchUnique` | app/models/user.py:112-114 | the first matching row is the one the login query returns |
| `UserModel.StampKeepsKeys` | app/models/user.py:119-120 | the login update changes no id, username or email, so it keeps the table invariant |
| `UserModel.LoginResponseVerifies` | app/models/user.py:122-129 | the login response has `token_type` "bearer" and the account view; its token verifies to the account id until it expires |
| `UserModel.RegisterThenLogin` | app/auth/routes.py:13-14 | after a registration, login with the same password reaches the new row by email when no older row has that email as its username, and by username when no older row has that username as its email |
| `UserModel.AliceScenario` | app/models/user.py:84-117 | alice registers as active and unverified, logs in with her password, fails with a wrong one and cannot register again; a 3-character password is accepted; as written the registration raises |
| `UserModel.UsernameShadowedByEmail` | app/models/user.py:87-114 | a username equal to an older account's email is accepted, and both rows then match that login identifier; with `.first()` read as insertion order, login reaches the older account, not the new one |
| `UserModel.Directory.Register` | app/models/user.py:80-107 | the result is `RegisterResult` of the old table; on success exactly one record is appended and all others are unchanged, otherwise the table is unchanged; the key invariant holds |
| `UserModel.Directory.Authenticate` | app/models/user.py:109-129 | it fails, leaving the table unchanged, exactly when `LoginMatch` finds nothing; on success only the matched row's `last_login` and `updated_at` change, and the result is that row's bearer token and view |
| `UserModel.VerifyPassword` | app/models/user.py:54-55 | under the hasher assumption, a password verifies against any record whose hash was made from it |
| `UserModel.NewAccount` | app/models/user.py:94-100 | the new record has the given id, username and email, no names, the column defaults (active, unverified, no last login, both timestamps now), and a hash that verifies the password |
| `UserModel.FindConflict` | app/models/user.py:87-89 | the uniqueness query finds a row sharing the email or the username, and finds none exactly when no row does |
| `UserModel.FindByLogin` | app/models/user.py:112-114 | the login query returns the first row whose username or email equals the identifier, and none exactly when no row does |
| `UserModel.Stamp` | app/models/user.py:119-120 | the login update sets `last_login` and `updated_at` to now and leaves every other field unchanged |
| `UserModel.TokenFor` | app/models/user.py:122-128 | the login response has type "bearer", the account view, and a token signed with `SECRET_KEY` whose claims are `sub = str(id)` and `exp` = now + 30 minutes |
| `Dependencies.Truthy` | app/auth/dependencies.py:25 | a truthy identifier is present, and every UUID identifier is truthy |
| `Dependencies.TokenIdentifier` | app/auth/dependencies.py:24 | the identifier from a token is None exactly when `verify_token` fails, and otherwise the verified UUID, which is truthy |
| `Dependencies.ResolveIdentifier` | app/auth/dependencies.py:24-36 | any failure is the 401; success happens exactly when the identifier is truthy and some row matches it (by id for a UUID, by username otherwise), and then the result is that row's view |
| `Dependencies.GetCurrentUser` | app/auth/dependencies.py:13-36 | any failure is the 401 "Could not validate credentials"; success happens exactly when the token verifies to an id that some row holds, and the result is then the view of such a row |
| `Dependencies.GetCurrentActiveUser` | app/auth/dependencies.py:39-48 | a view passes unchanged exactly when `is_active` is true; otherwise the result is the 400 "Inactive user" |
| `Dependencies.CurrentActiveUser` | app/auth/dependencies.py:39-48 | the chained gates give the 401 exactly when the token gate fails, the 400 exactly when the account exists but is not active, and the account view exactly when the account exists and is active |
| `Dependencies.UsernameBranchUnreachable` | app/auth/dependencies.py:28-31 | the identifier from a token is always a UUID or None, so the gate behaves as a lookup by id alone |
| `Dependencies.MissingAccountLikeBadToken` | app/auth/dependencies.py:33-34 | a valid token for an account not in the table gets the same answer as a garbled token |
| `Dependencies.LoginTokenResolves` | app/auth/dependencies.py:24-36 | the token from a login resolves to the stamped account's view until it expires and to the 401 afterwards; the active gate passes it exactly when the account is active |

## Findings

| source | as written | input that shows it | evidently intended | confidence | as-written member | corrected member |
|---|---|---|---|---|---|---|
| app/models/user.py:94-96 | `register` reads `user_create.first_name` and `user_create.last_name`, but `UserCreate` (app/schemas/user.py:13-15) declares neither, so every registration that passes the uniqueness query raises `AttributeError` | username "alice", email "alice@example.com", password "secret1" on an empty table (`UserModel.AliceScenario`) | names are optional and left empty, as the view declares them (app/schemas/user.py:39-40) | high (not executed) | `UserModel.RegisterAsWritten` | `UserModel.RegisterResult` |

The rest of the model uses the corrected registration: `Directory.Register` stores no names.

## Left out

- HS256 signing (section 3.2 of RFC 7518) and the base64url/JSON serialisation of tokens: the signature is symbolic, and a token is a record rather than a string.
- bcrypt itself: the hasher is abstract. Beyond "a password verifies against its own hash", nothing is assumed, so the model does not prove that a wrong password is refused.
- passlib raises on a malformed stored hash. This case is not modelled, because stored hashes always come from `hash_password`.
- `EmailStr` syntax: it is the external validator parameter. Re-validating the email when the view is built is assumed to succeed.
- `Uuids.Parse`: the 32 characters left after removing markers, braces and hyphens must all be hex digits. Python's `int(text, 16)` also accepts surrounding whitespace, a sign, a `0x` prefix and underscores. Those spellings are refused here.
- `Jwt.Decode`: expiry follows section 4.1.4 of RFC 7519 (valid strictly before `exp`). The decoding library is not part of this model, so its behaviour at the exact expiry second is not captured.
- `UserModel.CreateAccessToken`: time is in whole seconds, so a sub-second `expires_delta` is not modelled. Only the `sub` key of the input dictionary is modelled, because it is the only key the callers pass.
- `UserModel.RegisterResult`: a validation failure carries the names of the failing fields, not pydantic's message text.
- `UserModel.RegisterResult`: the `nullable=False` constraint on `first_name` and `last_name` (app/models/user.py:33-34) is relaxed so that empty names can be stored.
- Uniqueness is enforced only by the pre-check on a single sequential table. Unique indexes at flush time, session flush/commit semantics and the check-then-insert race between concurrent writers are left out.
- Column lengths: `String(50)` for names and username and `String(120)` for email (app/models/user.py:33-36) are not modelled. A database that enforces them would fail the insert of a longer value at flush; the model accepts any length. The database backend is not part of this model.
- `UserModel.FirstIndex`: a query's `.first()` is read as the first matching row in insertion order. The queries have no ORDER BY, so when several rows match, the database may return any of them. This matters only where two rows match, as in `UserModel.UsernameShadowedByEmail`.
- `UserModel.UsernameShadowedByEmail`: that login reaches the older account rests on the insertion-order reading of `.first()`; the order-free part is that the registration is accepted and both rows match the identifier.
- A clash of the random new id with an existing one is modelled as the error `IdTaken` (the primary key violation at flush).
- `created_at`, `updated_at` and `last_login` all take the same `now` within one operation.
- `Token.model_dump()` is returned as the `Token` record itself, not a dictionary.
- `UserLogin` is a datatype only: the login route that uses it is HTTP mapping.
- `User.__repr__` is left out.
- app/auth/routes.py, main.py, the calculator endpoints, exception handlers, templating, logging, `get_db` and the server bootstrap are not part of this model. Their only composition in the core, register then login, is `UserModel.RegisterThenLogin`.
