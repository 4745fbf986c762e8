# Credential store and auth handlers — a Dafny model

This project models the authentication back end of a small health-information
web application. Its credential store is one JSON document
`{users, admins}`. Each list holds plaintext `{name, password}` records.
Three POST handlers use it:

- **signup** validates `{name, password}`, refuses a name already in `users`,
  appends the record and rewrites the whole document;
- **user-login** and **admin-login** validate, look for a record matching
  both fields exactly in `users` (resp. `admins`), and on a match mint a
  token `btoa("name:now")` (resp. `btoa("admin:name:now")`).

Each handler is a pure function `(request, environment) -> outcome`. The
environment is the state of the backing file, whether a write would succeed,
and the clock. The outcome is the HTTP status, the token if one was issued,
and the document written back, if any.

Modules, one concept each:

| module | file | models |
|---|---|---|
| `Wrappers` | wrappers.dfy | `Option`, standing for a JavaScript value that may be `undefined` |
| `Base64` | base64.dfy | base64 of section 4 of RFC 4648 (the encoding `btoa` emits), and a strict decoder |
| `Decimal` | decimal.dfy | `${n}` for the non-negative integer `Date.now()`, and its parser |
| `Token` | token.dfy | `btoa` over Latin-1 text, its strict inverse, and the user and admin token payloads |
| `CredentialStore` | credential_store.dfy | records, the document, `getAuthData`, `saveAuthData`, the `.some` and `.find` scans |
| `AuthApi` | auth_api.dfy | the three `POST` handlers |
| `AuthProperties` | auth_properties.dfy | what the handlers promise, alone and in sequence |

Modelling choices:

- A list of the document is `None` when the parsed JSON has no such field or
  the field is not an array. Calling `.some`/`.find` on it throws, so only the
  handler that touches that list answers 500
  (`AuthProperties.MissingListOnlyAffectsItsReaders`).
- `btoa` throws on characters above U+00FF. The model keeps that path: the
  login answers 500. So a login with matching credentials gets 200 exactly
  when the name is Latin-1.
- A user token and an admin token have the same text shape. The user
  `admin:n` receives, at the same instant, the same token as the admin `n`
  (`AuthProperties.UserTokenCanEqualAdminToken`). Tokens are never checked
  anywhere, so this has no effect inside the system.
- A signup on an unreadable file sees the empty store. It writes a document
  holding only the new user, which replaces the unreadable file
  (`AuthProperties.FirstSignupOnFallbackStore`).

## Model

| member | source | states |
|---|---|---|
| Base64.Encode | Frontend/app/api/auth/user-login/route.ts:40 | the base64 text of `n` octets has `4 * ceil(n / 3)` characters |
| Base64.DecodeEncode | Frontend/app/api/auth/user-login/route.ts:40 | decoding the base64 text of any octets gives back those octets |
| Base64.EncodeDecode | Frontend/app/api/auth/user-login/route.ts:40 | every text the strict decoder accepts is the encoding of what it decodes to |
| Base64.DecodeIffEncode | Frontend/app/api/auth/user-login/route.ts:40 | a text decodes to given octets if and only if it is their encoding |
| Decimal.Show | Frontend/app/api/auth/user-login/route.ts:40 | the timestamp's decimal text is non-empty, all digits, with no leading zero |
| Decimal.ParseIffShow | Frontend/app/api/auth/user-login/route.ts:40 | a text parses to `n` if and only if it is the decimal rendering of `n` |
| Token.Btoa | Frontend/app/api/auth/user-login/route.ts:40 | `btoa` yields a token exactly when every character is at most U+00FF |
| Token.StrictDecodeOfBtoa | Frontend/app/api/auth/user-login/route.ts:40 | the strict decoder gives back from the token exactly the payload it was made from |
| Token.BtoaOfStrictDecode | Frontend/app/api/auth/user-login/route.ts:40 | any text the strict decoder accepts is the `btoa` of its decoding |
| Token.ParseUserPayloadOfUserPayload | Frontend/app/api/auth/user-login/route.ts:40 | `name:now` splits back into that name and timestamp, even when the name contains `:` |
| Token.UserPayloadOfParse | Frontend/app/api/auth/user-login/route.ts:40 | any text that splits as a user payload is the payload of its parts |
| Token.ParseAdminPayloadOfAdminPayload | Frontend/app/api/auth/admin-login/route.ts:40 | `admin:name:now` reads back as that name and timestamp |
| Token.AdminPayloadIsUserPayload | Frontend/app/api/auth/admin-login/route.ts:40 | the admin payload for `n` is the user payload for `admin:n` |
| CredentialStore.LoadAfterSave | Frontend/app/api/auth/signup/route.ts:12-31 | reading the file after a successful write gives back the written document; after a failed write, what it gave before |
| CredentialStore.NameTaken | Frontend/app/api/auth/signup/route.ts:44 | the scan is true exactly when some record in `users` has the name |
| CredentialStore.FindMatch | Frontend/app/api/auth/user-login/route.ts:33 | a record is found exactly when one equals both name and password, and it is that record |
| CredentialStore.CountName | Frontend/app/api/auth/signup/route.ts:44-49 | a name's count is zero exactly when the scan does not find it |
| CredentialStore.CountNameAppend | Frontend/app/api/auth/signup/route.ts:49 | pushing a record raises the count of its own name by one and no other |
| AuthApi.Signup | Frontend/app/api/auth/signup/route.ts:33-59 | statuses are 400, 409, 201 or 500; a document is written exactly on 201; 400 exactly for a body lacking a field |
| AuthApi.Login | Frontend/app/api/auth/user-login/route.ts:24-46 | nothing is written; a token is issued exactly on 200; 400 exactly for a body lacking a field |
| AuthApi.UserLogin | Frontend/app/api/auth/user-login/route.ts:24-46 | 200 only for a well-formed request whose credentials are in `users`, with a token; no write |
| AuthApi.AdminLogin | Frontend/app/api/auth/admin-login/route.ts:24-47 | 200 only for a well-formed request whose credentials are in `admins`, with a token; no write |
| AuthProperties.SignupRejectsMissingFields | Frontend/app/api/auth/signup/route.ts:37-39 | a missing or empty field gives 400 whatever the store holds, and nothing is written |
| AuthProperties.SignupDuplicateIsConflict | Frontend/app/api/auth/signup/route.ts:44-46 | a name already in `users` gives 409 and no write |
| AuthProperties.SignupAppends | Frontend/app/api/auth/signup/route.ts:49-54 | a new name gives 201 when the write succeeds; the written `users` is the old one plus exactly the new record at the end; `admins` is unchanged |
| AuthProperties.SignupKeepsAdmins | Frontend/app/api/auth/signup/route.ts:49 | whatever signup writes carries the `admins` it read |
| AuthProperties.SignupIgnoresAdmins | Frontend/app/api/auth/signup/route.ts:44 | a name known only as an admin still signs up with 201 when the write succeeds |
| AuthProperties.SignupPreservesUniqueNames | Frontend/app/api/auth/signup/route.ts:44-49 | if names in `users` are pairwise distinct before a signup, they are after it |
| AuthProperties.FirstSignupOnFallbackStore | Frontend/app/api/auth/signup/route.ts:12-22 | on a missing or unreadable file the first signup gives 201 and writes `{users: [it], admins: []}` |
| AuthProperties.SignupWriteFailure | Frontend/app/api/auth/signup/route.ts:24-31 | a failed write leaves the file as it was, and a signup that would append answers 500 |
| AuthProperties.SignupTwice | Frontend/app/api/auth/signup/route.ts:44-49 | after a 201, signing up the same name again gives 409, and `users` holds that name exactly once |
| AuthProperties.LoginRejectsMissingFields | Frontend/app/api/auth/user-login/route.ts:28-30 | a missing or empty field gives 400 whatever the store holds |
| AuthProperties.UnparsableRequestIsServerError | Frontend/app/api/auth/signup/route.ts:34-58 | a body `request.json()` rejects gets 500 and no write from all three handlers |
| AuthProperties.MissingUsersIsServerError | Frontend/app/api/auth/signup/route.ts:44-57 | a parsed document without a `users` array makes signup and user login answer 500, with no write |
| AuthProperties.MissingAdminsIsServerError | Frontend/app/api/auth/admin-login/route.ts:33-45 | a parsed document without an `admins` array makes admin login answer 500 |
| AuthProperties.MissingListOnlyAffectsItsReaders | Frontend/app/api/auth/signup/route.ts:44-50 | a missing `admins` changes neither signup's status nor user login, and signup writes it back missing; a missing `users` does not change admin login |
| AuthProperties.UserLoginDecides | Frontend/app/api/auth/user-login/route.ts:32-41 | 401 if and only if no record of `users` equals both fields; 200 if and only if one does and `btoa` accepts the name; the token is `btoa(name:now)` |
| AuthProperties.AdminLoginDecides | Frontend/app/api/auth/admin-login/route.ts:32-42 | the same for `admins`, with token `btoa(admin:name:now)` |
| AuthProperties.WrongPasswordIsUnauthorized | Frontend/app/api/auth/user-login/route.ts:33-36 | with distinct names, a known name with a wrong password gives 401 |
| AuthProperties.AdminOnlyCredentialsFailUserLogin | Frontend/app/api/auth/user-login/route.ts:33-36 | credentials held only in `admins` give 401 at user login |
| AuthProperties.UserOnlyCredentialsFailAdminLogin | Frontend/app/api/auth/admin-login/route.ts:33-36 | credentials held only in `users` give 401 at admin login |
| AuthProperties.AdminLoginOnFallbackStoreFails | Frontend/app/api/auth/admin-login/route.ts:12-22 | on a missing or unreadable file every well-formed admin login gives 401 |
| AuthProperties.UserTokenDecodes | Frontend/app/api/auth/user-login/route.ts:40 | a user token decodes to `name:now`, which splits back into the name and the login time |
| AuthProperties.AdminTokenDecodes | Frontend/app/api/auth/admin-login/route.ts:40 | an admin token decodes to `admin:name:now`, which reads back as the name and the login time |
| AuthProperties.UserTokenCanEqualAdminToken | Frontend/app/api/auth/admin-login/route.ts:40 | the user `admin:n` and the admin `n` logging in at the same instant get equal tokens |
| AuthProperties.SignupThenUserLogin | Frontend/app/api/auth/user-login/route.ts:33-41 | after a 201 signup, user login with the same credentials gives 200 and a non-empty token (500 when the name is not Latin-1) |
| AuthProperties.AliceScenario | Frontend/app/api/auth/signup/route.ts:33-59 | on any store without an `alice`: signup 201 when the write succeeds, repeat signup 409, wrong password 401, right password 200 with a non-empty token |

## Left out

- The prediction page (`Frontend/app/page.tsx`) and the sign-up and login pages: user interface and form state; the prediction is a random pick from a fixed list.
- File-system I/O, the file's path and JSON text: the file is one of absent, unreadable, or holding a parsed document, and a write succeeds or fails as the environment says.
- A failed write that leaves a partly written file: a failed write leaves the file as it was.
- Records inside a list that are not `{name, password}` objects, and request fields that are truthy non-strings (numbers, objects): fields are strings or absent.
- `request.json()` failing, or the body being `null`: one `Unparsable` request, answered 500. Any other body that is not an object (a number, string, boolean or array) destructures to two absent fields and is `Body(None, None)`, answered 400.
- `Date.now()`: a natural-number parameter. Its rendering is plain decimal digits, which JavaScript uses below 10^21.
- Concurrent requests and the lost-update race between two signups: the model is sequential.
- Response message texts, `console` logging, and the request/response plumbing.
- Strings that are not well-formed UTF-16: JavaScript strings are UTF-16 code units, and Dafny's characters are Unicode scalar values. The model covers only well-formed UTF-16. A name holding a lone surrogate (such as `"\ud800"`) is accepted and stored by signup in the source, but no model string represents it.
- Top-level fields of the document other than `users` and `admins`: signup writes them back unchanged, and the model's document does not hold them.
- The forgiving decoding of `atob` (missing padding, non-zero pad bits, white space): the source never decodes a token. The model's inverse of `btoa` is the strict decoder, which accepts only canonical base64.
- Idempotence of repeated loads holds by construction: `GetAuthData` is a function of the file state.
- AuthProperties.WrongPasswordIsUnauthorized: assumes the names in `users` are distinct, which signup maintains. A hand-edited file with two records for one name could match on the other record's password.
