# User registration and login, modelled in Dafny

This project models the user controller of a small authentication backend
(`src/controllers/user.controller.js`): the registration handler
`registerUser`, the login handler `loginUser` and the helper
`generateRefreshAndAccessTokens`, with the two validators they inline (the
blank-field test and the e-mail regular expression).

The persistence layer is an in-memory store: a class `UserStore` holding the
sequence of user records in insertion order. Each handler is modelled twice:

- as a function (`UserController.Register`, `UserController.Login`,
  `UserController.IssueTokens`) from the request, the external collaborators'
  answers and the store before the request to the reply and the store after it;
- as a `UserStore` method that takes the same steps, with the same early exits,
  against the mutable store, proved equal to that function.

The properties are lemmas about the functions. Together they cover the order of
the checks, what every failure leaves behind, what a success stores and
returns, the frame of a login, and which uniqueness invariants survive.

Modules, one per file:

- `Wrappers` (`wrappers.dfy`): `Option`.
- `JsText` (`js_text.dfy`): JavaScript `trim`, `toLowerCase` and the
  truthiness of a request field.
- `EmailPattern` (`email_pattern.dfy`): the pattern
  `^[\w-\.]+@([\w-]+\.)+[\w-]{2,4}$`, in two forms:
  - `MatchesPattern`, the language the expression denotes, written by
    splitting the input as the expression is built;
  - `IsValidEmail`, a deterministic scanner.

  They are proved equal, and the shape of an accepted address is proved.
- `UserModel` (`user_model.dfy`): the user record, its sanitised view,
  `findOne`/`findById` as `FirstMatch`/`IndexOfId`, and fresh ids.
- `UserController` (`user_controller.dfy`): requests, replies and the three
  handlers as functions.
- `RegisterProperties`, `LoginProperties`: the lemmas.
- `UserStoreModule` (`user_store.dfy`): the `UserStore` class and a two-request
  client method.

External collaborators are parameters:

- `upload`: the media host. It takes a local path (`None` stands for `null`)
  and returns the hosted URL, or `None` when the upload failed.
- `hash`: the value the persistence layer stores for a password.
- `verify`: `isPasswordCorrect`.
- `tokens`: the pair the token signer produces, or `None` when signing or
  saving fails.

`Register` also reports the paths it handed to the media host, so "no upload
before the avatar check" can be stated.

Some behaviour follows the code even where another reading would be
expected:

- A field that is absent is not blank. `field?.trim() === ""` is false for
  `undefined`.
- An absent e-mail that reaches the pattern test is a fault (`Failure.Fault`),
  because `email.match` throws. The handler wrapper sees a fault as an
  unexpected error.
- The model takes an absent username to match no record in the conflict
  query; it then faults at `username.toLowerCase()`, which runs after the
  uploads.
- The conflict check compares the username as submitted, but the record stores
  it lower-cased. A case-insensitive check would lower-case before comparing;
  the code does not. `MixedCaseUsernameIsStoredTwice` shows two records ending up
  with the username `alice`.
- Login demands both the username and the e-mail (`!username || !email`).
- A successful login replies HTTP 200 with envelope status 201.
- The avatar URL is stored as the media host returns it. `avatar.url` is not
  itself checked to be non-empty.

## Model

| member | source | states |
|---|---|---|
| `JsText.Trim` | src/controllers/user.controller.js:39 | `String.prototype.trim`: drops leading and trailing ECMAScript whitespace and line terminators; its contract is stated by `TrimStart`, `TrimEnd`, `TrimIsEmptyIff` and `TrimShape` |
| `JsText.ToLower` | src/controllers/user.controller.js:79 | `toLowerCase` on ASCII letters; its properties are `ToLowerProperties` |
| `JsText.Truthy` | src/controllers/user.controller.js:116 | a request field is truthy when present and non-empty; used by `LoginRejectsMissingIdentifier` |
| `EmailPattern.MatchesPattern` | src/controllers/user.controller.js:44 | the language of `^[\w-\.]+@([\w-]+\.)+[\w-]{2,4}$`, built by splitting the input as the expression is built; the reference for `ValidEmailIffPattern` |
| `EmailPattern.IsValidEmail` | src/controllers/user.controller.js:44 | the scanner registration applies; equal to `MatchesPattern` by `ValidEmailIffPattern` |
| `UserModel.ViewById` | src/controllers/user.controller.js:86-88 | `findById(id).select("-password -refreshToken")`: nothing exactly when no record has the id, otherwise the sanitised view of a record with that id |
| `UserController.Blank` | src/controllers/user.controller.js:39 | `field?.trim() === ""`; characterised by `BlankIff` |
| `UserController.AnyBlank` | src/controllers/user.controller.js:38-42 | the blank test over the four registration fields; its effect is `RegisterRejectsBlank` |
| `UserController.FirstRejection` | src/controllers/user.controller.js:38-60 | the checks before any upload, in source order; the first that fails decides the error (`RegisterRejectsBlank` to `RegisterRejectsMissingAvatar`) |
| `UserController.UploadAndInsert` | src/controllers/user.controller.js:62-91 | the uploads, the insert and the read-back; specified by `UploadAndInsertOutcome` |
| `UserController.Register` | src/controllers/user.controller.js:23-103 | `registerUser`; specified by `RegisterSucceedsIff`, `RegisterSuccess`, `RegisterFailureLeavesStore` and the preservation lemmas |
| `UserController.IssueTokens` | src/controllers/user.controller.js:8-21 | `generateRefreshAndAccessTokens`; specified by `IssueTokensForStoredUser` and `IssueTokensForUnknownId` |
| `UserController.Login` | src/controllers/user.controller.js:105-164 | `loginUser`; specified by `LoginSucceedsIff`, `LoginSuccess`, `LoginFailureLeavesStore` and the per-check lemmas |
| `JsText.TrimIsEmptyIff` | src/controllers/user.controller.js:39 | `s.trim() === ""` holds exactly when every character of `s` is ECMAScript whitespace or a line terminator |
| `JsText.TrimShape` | src/controllers/user.controller.js:39 | the trimmed string is no longer than the original and neither starts nor ends with whitespace |
| `JsText.ToLowerProperties` | src/controllers/user.controller.js:79 | lower-casing keeps the length and every non-upper-case character, maps each letter `A`-`Z` to the letter 32 code points above it in `a`-`z`, leaves no upper-case letter, is idempotent, and is the identity exactly on lower-case strings |
| `EmailPattern.ValidEmailIffPattern` | src/controllers/user.controller.js:44 | the scanner used by registration accepts a string exactly when `^[\w-\.]+@([\w-]+\.)+[\w-]{2,4}$` matches it (both directions) |
| `EmailPattern.AcceptedEmailShape` | src/controllers/user.controller.js:44 | an accepted address has exactly one `@`, a dot after it, ends in a dot and 2 to 4 characters of `[\w-]`, and holds no other characters than `[\w-\.]` and that `@` |
| `EmailPattern.ExampleAddressMatches` | src/controllers/user.controller.js:44 | `alice@example.com` is accepted |
| `UserModel.FirstMatch` | src/controllers/user.controller.js:120-122 | `findOne({$or: [{username}, {email}]})` gives the first record in store order whose username or e-mail equals the given one, and nothing exactly when no record does |
| `UserModel.IndexOfId` | src/controllers/user.controller.js:10 | `findById` gives the first record with that id, and nothing exactly when no record carries it |
| `UserModel.FreshId` | src/controllers/user.controller.js:76 | the id given to a created record is larger than, so different from, every stored id |
| `RegisterProperties.BlankIff` | src/controllers/user.controller.js:38-42 | a field is blank exactly when it is present and made only of whitespace; an absent field is not blank |
| `RegisterProperties.RegisterRejectsBlank` | src/controllers/user.controller.js:38-42 | a blank field gives 400 "All fields are required", the store unchanged and no upload, whatever else the request holds |
| `RegisterProperties.RegisterRejectsEmail` | src/controllers/user.controller.js:44-46 | past the blank check, an e-mail the pattern rejects gives 400 "Invalid email" and an absent one a fault; store unchanged, no upload |
| `RegisterProperties.RegisterConflict` | src/controllers/user.controller.js:49-55 | past the e-mail check, 409 comes exactly when a stored record has the submitted username (not lower-cased) or the submitted e-mail; then the store is unchanged and nothing is uploaded |
| `RegisterProperties.RegisterRejectsMissingAvatar` | src/controllers/user.controller.js:58-60 | past the conflict check, a missing avatar file gives 400 "Avatar file is required" with no upload attempted and the store unchanged |
| `RegisterProperties.RegisterRejectsFailedUpload` | src/controllers/user.controller.js:62-73 | past the avatar check, the avatar then the cover path are handed to the media host; a failed avatar upload gives 400 "Failed to upload avatar on cloudinary" and no record |
| `RegisterProperties.UploadAndInsertOutcome` | src/controllers/user.controller.js:62-91 | after the checks, the insert happens exactly when the avatar upload gave a URL and all fields are present; a failure changes nothing; a success stores exactly the new record and reads it back |
| `RegisterProperties.RegisterSucceedsIff` | src/controllers/user.controller.js:38-102 | registration succeeds exactly when no field is blank, the e-mail matches, no record conflicts, the avatar is present and uploaded, and all fields are present |
| `RegisterProperties.RegisterSuccess` | src/controllers/user.controller.js:76-102 | a success appends one record and keeps the earlier ones. The record has the submitted name and e-mail, the username lower-cased, the stored password value, the avatar URL, the cover URL or "", no refresh token and a fresh id. The reply is 201/201 with its sanitised view |
| `RegisterProperties.RegisterFailureLeavesStore` | src/controllers/user.controller.js:86-91 | every failed registration leaves the store unchanged; the read-back after the insert never fails, so failures are 400, 409 or faults |
| `RegisterProperties.RegisterPreservesUniqueIds` | src/controllers/user.controller.js:76-83 | registration keeps record ids unique |
| `RegisterProperties.RegisterPreservesUniqueEmails` | src/controllers/user.controller.js:49-83 | registration keeps e-mails unique, since they are compared and stored as submitted |
| `RegisterProperties.RegisterPreservesUniqueUsernames` | src/controllers/user.controller.js:49-83 | registration keeps usernames unique when the submitted username is already lower-case |
| `RegisterProperties.MixedCaseUsernameIsStoredTwice` | src/controllers/user.controller.js:49-83 | with `alice` stored, registering `Alice` with another e-mail succeeds and leaves two records with username `alice` |
| `RegisterProperties.RegisterAliceExample` | src/controllers/user.controller.js:35-102 | registering alice into an empty store gives 201 with username `alice` and the hosted avatar URL |
| `LoginProperties.IssueTokensForStoredUser` | src/controllers/user.controller.js:8-21 | for a stored user, generated tokens are returned and become that record's refresh token, nothing else changes; a generation failure gives 500 "error while generating tokens" and changes nothing |
| `LoginProperties.IssueTokensForUnknownId` | src/controllers/user.controller.js:10-19 | an id no record carries gives 500 "error while generating tokens" and changes nothing |
| `LoginProperties.WithRefreshTokenKeepsIdentity` | src/controllers/user.controller.js:14-15 | replacing one refresh token changes no other record and no other field, and keeps ids, e-mails and usernames unique |
| `LoginProperties.LoginRejectsMissingIdentifier` | src/controllers/user.controller.js:116-118 | 400 "username or email is required" comes exactly when the username or the e-mail is missing or empty; the store is unchanged |
| `LoginProperties.LoginNotFound` | src/controllers/user.controller.js:120-126 | with both present, 404 comes exactly when no record matches the username or the e-mail; the store is unchanged |
| `LoginProperties.LoginWrongPassword` | src/controllers/user.controller.js:129-132 | the password is checked against the first matching record; 401 comes exactly when it is wrong; the store is unchanged |
| `LoginProperties.LoginFailureLeavesStore` | src/controllers/user.controller.js:116-137 | no failed login changes the store |
| `LoginProperties.LoginTokenFailure` | src/controllers/user.controller.js:135-137 | a token failure after a correct password gives 500 "error while generating tokens" and changes nothing |
| `LoginProperties.LoginSuccess` | src/controllers/user.controller.js:135-163 | a successful login replies HTTP 200 with envelope status 201, the first match's sanitised view, the generated tokens and the `accessToken` and `refreshToken` cookies carrying them; only that record's refresh token changes |
| `LoginProperties.LoginSucceedsIff` | src/controllers/user.controller.js:113-163 | login succeeds exactly when both identifiers are present, some record matches, the password is right for the first match, and tokens are generated |
| `LoginProperties.LoginPreservesUniqueness` | src/controllers/user.controller.js:14-15 | login keeps ids, e-mails and usernames unique |
| `LoginProperties.RegisterThenLogin` | src/controllers/user.controller.js:120-137 | after a successful registration, logging in with the username as submitted (in any case), the e-mail and the right password succeeds on the new record, found through its e-mail, and sets its refresh token |
| `UserStoreModule.UserStore.RegisterUser` | src/controllers/user.controller.js:23-103 | the step-by-step handler on the mutable store gives the reply, new store and upload list of `Register`; failures leave the store, success appends one record; the store invariant `Valid` (unique ids and unique e-mails) is kept |
| `UserStoreModule.UserStore.GenerateRefreshAndAccessTokens` | src/controllers/user.controller.js:8-21 | the handler on the mutable store gives the reply and store of `IssueTokens` and keeps `Valid` |
| `UserStoreModule.UserStore.LoginUser` | src/controllers/user.controller.js:105-164 | the handler on the mutable store gives the reply and store of `Login` and keeps `Valid`; failures leave the store unchanged |

## Left out

- `UserModel.MatchesIdentity`: an absent filter value is taken to match no
  record. How the persistence layer casts an `undefined` filter value is not
  modelled; if it drops the condition, a registration without a username
  into a non-empty store would be a 409 rather than a fault after the uploads.
- `UserController.Register`: a create with an absent full name or password is
  modelled as a fault. The persistence schema that would accept or reject it
  (`models/user.model.js`) is not part of this model.
- The persistence layer's own constraints are not modelled. A unique index
  would turn the duplicate in `MixedCaseUsernameIsStoredTwice` into a fault.
  Setters that lower-case query values would change the conflict check.
- `JsText.ToLower`, `JsText.ToLowerProperties`: only ASCII letters are
  lower-cased. JavaScript's full Unicode case mapping, which can also change
  a string's length, is not modelled.
- Password hashing, password verification, token signing and the media upload
  are opaque parameters. Their internals live in files that are not part of
  this model (`utils/cloudinary.js`, `models/user.model.js`).
- The handler wrapper (`asyncHandler`), `ApiError` and `ApiResponse` are not
  shown in the source. A failure is modelled as a status and a message, or as
  a fault. The HTTP response Express builds from a fault, and the
  `success`/`errors` fields of the envelopes, are not modelled.
- Request fields are strings or absent. JSON values of other types are not
  modelled, and neither are repeated form fields that arrive as arrays.
- Cookie attributes (`httpOnly`, `secure`) are left out. The model records only
  the names and values of the two cookies.
- Concurrency is left out: requests run one after another. The race between
  the conflict check and the insert is therefore not modelled.
- The media host may still have stored files when registration then fails. The
  model lists the paths handed over but no state of the host.
- Timestamps and other schema fields of the stored record are not modelled.
- Express wiring, logging, the database connection and process start-up are
  left out (`src/app.js`, `src/db/index.js`, `src/index.js`).
