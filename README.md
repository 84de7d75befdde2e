# User accounts: registration, login, error classification and the token guard

This project models the decision core of a small Express/Mongoose account
service and proves properties of it in Dafny.

- **The `User` model** (`user_model.dfy`, with `js_strings.dfy` and
  `email_format.dfy`). The schema's setters (`trim`; `trim` and `lowercase`
  on the e-mail) and defaults (role "student", `createdAt` from the clock).
  The field constraints: user name of 3 to 30 characters, e-mail pattern,
  password of at least 6 characters, role enum. The two asynchronous
  uniqueness validators, the post-save hook that rewrites a duplicate-key
  `MongoError`, and the collection itself: a class `UserStore` whose
  records and id counter `save()` updates. Its invariant (`ValidState`)
  says that every record went through the setters and satisfies the
  schema, and that no two records share an id, an e-mail or a user name.
  The e-mail pattern `^\w+([.-]?\w+)*@\w+([.-]?\w+)*(\.\w{2,3})+$` is a
  hand-written recognizer. For the dotted-name part `\w+([.-]?\w+)*`
  the accepted language is also described without recursion, and the two
  descriptions are proved equivalent. For the top-level labels
  `(\.\w{2,3})+` only necessary conditions are proved.
- **The controller** (`user_controller.dfy`). `registerUser` and `loginUser`
  are methods over the store, each proved equal to a specification
  function (`RegisterOutcome`, `LoginOutcome`). The function gives the
  response sent and, for registration, the new store. Lemmas about these
  functions cover:
  - which answer each failure gets: the duplicate 400 exactly for an
    error with code 11000, the fixed 500 for every other one, including a
    document that fails validation;
  - that a successful registration appends exactly one record;
  - that registration keeps the invariant;
  - that a registered user can then log in.
- **bcrypt and jsonwebtoken** (`crypto.dfy`). They are values carrying
  functions. What the core relies on is stated as ghost predicates and
  required by the lemmas that use it:
  - `compare(p, hash(p))`;
  - a signed token decodes to its claims under a non-empty key;
  - a compact token has no space.

  The signing key is `JWT_SECRET` or "secret". The verifying key is
  `JWT_SECRET` alone. Expiry is one hour in whole seconds.
- **The error classifier** (`error_handler.dfy`). It logs the message once,
  then answers 400 for a validation or duplicate error and 500 with a fixed
  text otherwise.
- **The auth guard** (`auth_middleware.dfy`). It takes the second
  space-separated field of the `Authorization` header and decides one of
  three outcomes: 401, 400, or attach the claims and call `next`. The
  decision is a pure function. The method that carries it out mutates a
  request/response `Exchange` object.

A thrown failure of the database, bcrypt or the insert is a `fault`
parameter (`Option<Error>`) for the step that throws. The clock is a
`nowMs` parameter, and `JWT_SECRET` an `env` parameter.

Four behaviours of the code worth knowing:
- the token carries an `id` claim, not a subject claim;
- the guard does not check that the scheme word is "Bearer";
- a duplicate key reported by the insert as a `MongoError` is rewritten by
  the post-save hook into an error without a code, so `registerUser`
  answers it with 500, not as a duplicate (`DuplicateKeyOnInsert`);
- `registerUser` answers every other failure with the fixed text
  "Registration failed.", while `loginUser` echoes the error's message.

## Model

| member | source | states |
|---|---|---|
| JsStrings.TrimStartSpec | src/models/userModel.js:23 | the leading part `trim` drops is all white space and what remains starts with a non-space |
| JsStrings.TrimEndSpec | src/models/userModel.js:23 | the trailing part `trim` drops is all white space and what remains ends with a non-space |
| JsStrings.Trim | src/models/userModel.js:23 | the trimmed value has no white space at either end |
| JsStrings.TrimSpec | src/models/userModel.js:23 | the trimmed value is the infix of the input after its leading white space, and everything cut on either side is white space |
| JsStrings.TrimIdempotent | src/models/userModel.js:23 | trimming twice is trimming once |
| JsStrings.ToLowerCase | src/models/userModel.js:32 | same length; each capital becomes the small letter at the same place in the alphabet; every non-capital is kept |
| JsStrings.LowerCharAlikeIff | src/models/userModel.js:32 | two characters lower-case alike exactly when they are equal or the capital and small form of one letter |
| JsStrings.LowerCaseAlikeIff | src/models/userModel.js:32 | two strings lower-case alike exactly when they have the same length and agree position by position up to ASCII case |
| JsStrings.NormalizeEmail | src/models/userModel.js:31-32 | the stored form of an e-mail is trimmed and has no capital letter |
| JsStrings.NormalizeEmailIdempotent | src/models/userModel.js:31-32 | normalising a normalised e-mail changes nothing |
| JsStrings.Split | src/middleware/authMiddleware.js:18 | `split(" ")` gives at least one field, no field contains a space, and joining the fields with single spaces gives the header back |
| JsStrings.SplitSpaceFree | src/middleware/authMiddleware.js:18 | a value without a space splits into itself alone, so it has no second field |
| JsStrings.SplitAfterWord | src/middleware/authMiddleware.js:18 | a space-free word and a space become the first field; the rest splits on its own |
| JsStrings.SplitJoin | src/middleware/authMiddleware.js:18 | splitting undoes joining space-free fields |
| EmailFormat.Dotted | src/models/userModel.js:34 | what `\w+([.-]?\w+)*` accepts is non-empty and begins and ends with a word character |
| EmailFormat.TopLevelLabels | src/models/userModel.js:34 | what `(\.\w{2,3})+` accepts has at least three characters, starts with a dot and ends with two word characters |
| EmailFormat.MatchesEmail | src/models/userModel.js:34 | an accepted address has at least five characters and begins and ends with a word character |
| EmailFormat.DottedHasShape | src/models/userModel.js:34 | what `\w+([.-]?\w+)*` accepts has only word characters and separators, word characters at both ends, no two separators in a row |
| EmailFormat.ShapeIsDotted | src/models/userModel.js:34 | every string of that shape is accepted by `\w+([.-]?\w+)*` |
| EmailFormat.DottedIffShape | src/models/userModel.js:34 | the recursive recognizer and the shape description accept the same strings |
| EmailFormat.TopLevelLabelsShape | src/models/userModel.js:34 | necessary conditions only: `(\.\w{2,3})+` accepts only dots and word characters, starts with a dot and ends with a dot and two or three word characters |
| EmailFormat.EmailParts | src/models/userModel.js:34 | an accepted address splits into a non-empty local part, '@', a non-empty domain name and top-level labels |
| EmailFormat.JoinedPartsMatch | src/models/userModel.js:34 | conversely, any such three pieces joined around '@' are accepted |
| EmailFormat.EmailHasOneAt | src/models/userModel.js:34 | an accepted address contains exactly one '@' |
| EmailFormat.EmailEndsWithShortLabel | src/models/userModel.js:34 | an accepted address ends with a dot and two or three word characters |
| EmailFormat.EmailShape | src/models/userModel.js:34 | an accepted address has one '@', starts with a word character (never '.' or '-') and ends with a short label |
| EmailFormat.WordIsDotted | src/models/userModel.js:34 | a run of word characters matches `\w+([.-]?\w+)*` |
| EmailFormat.DottedJoin | src/models/userModel.js:34 | two dotted names joined by '.' or '-' form a dotted name |
| EmailFormat.AcceptsPlainAddress | src/models/userModel.js:34 | word characters, '@', word characters, '.', and two or three word characters form an accepted address |
| EmailFormat.RejectsMissingAt | src/models/userModel.js:33-36 | "invalid-email" is refused |
| EmailFormat.RejectsLongFinalLabel | src/models/userModel.js:34 | "user@example.info" is refused: the last label may have at most three characters |
| UserModel.Cast | src/models/userModel.js:18-51 | the document is normalised (user name trimmed; e-mail trimmed and without capitals), keeps the password as given, takes `createdAt` from the clock, and gets role "student" when none is given |
| UserModel.FindOne | src/controllers/userController.js:31-33 | a found record is stored and matches the query, and nothing is found exactly when no record matches |
| UserModel.FindOneAppend | src/controllers/userController.js:68 | after records that do not match, an appended record is found exactly when it matches |
| UserModel.CountDocuments | src/models/userModel.js:55-58 | the count is zero exactly when no record matches |
| UserModel.EmailIsFree | src/models/userModel.js:54-59 | the e-mail validator passes exactly when no stored record has that e-mail |
| UserModel.UsernameIsFree | src/models/userModel.js:61-66 | the user-name validator passes exactly when no stored record has that user name |
| UserModel.EmailValidatorReportsTaken | src/models/userModel.js:54-59 | for a well-formed address the e-mail path fails with "Email already exists" exactly when some record has it |
| UserModel.UsernameValidatorReportsTaken | src/models/userModel.js:61-66 | for a user name of allowed length the path fails with "Username already exists" exactly when some record has it |
| UserModel.UsernameError | src/models/userModel.js:19-66 | the user-name path passes exactly when the name has 3 to 30 characters and no record has it |
| UserModel.EmailError | src/models/userModel.js:27-59 | the e-mail path passes exactly when the address matches the pattern and no record has it |
| UserModel.PasswordError | src/models/userModel.js:38-42 | the password path passes exactly when the password has at least 6 characters |
| UserModel.RoleError | src/models/userModel.js:43-47 | the role path passes exactly when the role is one of the enum's values |
| UserModel.Validate | src/models/userModel.js:18-66 | no validation error exactly when every field constraint holds and neither the e-mail nor the user name is taken; at most four errors |
| UserModel.ValidateOnePerPath | src/models/userModel.js:18-66 | at most one error per path, and the paths come in schema order |
| UserModel.ValidationError | src/models/userModel.js:18-66 | a validation failure is named `ValidationError` and carries no code |
| UserModel.PostSaveHook | src/models/userModel.js:69-75 | a `MongoError` with code 11000 becomes a plain error with the duplicate message; every other error passes unchanged |
| UserModel.HookLeavesNoMongoDuplicate | src/models/userModel.js:69-75 | after the hook no error is a `MongoError` 11000, and code 11000 survives only on errors with another name |
| UserModel.SaveOutcome | src/controllers/userController.js:42-43 | `save()` is atomic: on error the store is unchanged; on success exactly the new record is appended under the next id; it succeeds exactly when nothing throws, the schema holds and both keys are free |
| UserModel.SaveErrorSource | src/models/userModel.js:69-75 | a failed save reports either a validation error or the hook's rewrite of the thrown fault |
| UserModel.AppendPreservesValid | src/models/userModel.js:22-30 | appending a well-formed record with a fresh id and free e-mail and user name keeps the invariant |
| UserModel.SavePreservesValid | src/models/userModel.js:18-66 | every save keeps the invariant: records conform and no two share an id, an e-mail or a user name |
| UserModel.StoredRecordShape | src/models/userModel.js:19-47 | every stored record has a trimmed user name of 3 to 30 characters, a trimmed, lower-case e-mail with one '@' and a short final label, a password of at least 6 characters and an allowed role |
| UserModel.FindByEmailIsUnique | src/models/userModel.js:30 | in a valid store, looking up a record's e-mail finds that record |
| UserModel.UserStore.constructor | src/models/userModel.js:81 | the empty collection satisfies the invariant |
| UserModel.UserStore.Save | src/controllers/userController.js:42-43 | the method's error and new state are those of `SaveOutcome`, and the invariant is kept |
| Crypto.SigningKey | src/controllers/userController.js:76 | login signs with `JWT_SECRET` when it is set and non-empty, otherwise with "secret" |
| Crypto.VerifyingKey | src/middleware/authMiddleware.js:21 | the guard verifies with `JWT_SECRET` alone: no key when it is unset or empty |
| Crypto.LoginClaims | src/controllers/userController.js:74-80 | the token carries the user's id, is issued at the current whole second and expires 3600 seconds after that |
| Crypto.Verify | src/middleware/authMiddleware.js:21 | a token is accepted exactly when it decodes under the verifying key and the clock has not reached its expiry, and then yields the decoded claims |
| Crypto.Issue | src/controllers/userController.js:74-80 | for a sound codec the login token is non-empty, has no space, and decodes under the signing key to the login claims |
| Crypto.VerifyIssued | src/controllers/userController.js:74-80 | a login token is accepted exactly when the secret is set and less than an hour has passed, and then yields the claims it was issued with |
| Crypto.NoSecretNothingVerifies | src/middleware/authMiddleware.js:21 | without `JWT_SECRET` no token verifies |
| UserController.RegistrationCatch | src/controllers/userController.js:45-53 | the duplicate answer exactly when the error has code 11000; otherwise the fixed 500 text, never the error's message |
| UserController.SaveResponse | src/controllers/userController.js:43-53 | 201 exactly when the save succeeds; the duplicate 400 exactly when the save fails with code 11000; otherwise the fixed 500; the store is the save's |
| UserController.RegisterInvalidDocumentFails | src/controllers/userController.js:41-53 | with no duplicate found and nothing thrown before the insert, a document that fails validation gets 500 "Registration failed." and the store is unchanged |
| UserController.RegisterThrowAnswers | src/controllers/userController.js:31-53 | a throw of the duplicate look-up or of the hashing gets the duplicate 400 for code 11000 and the fixed 500 otherwise, with the store unchanged |
| UserController.RegisterUser | src/controllers/userController.js:26-54 | the handler's response and new store are those of `RegisterOutcome`, and the invariant is kept |
| UserController.RegisterRejectsDuplicate | src/controllers/userController.js:31-39 | a stored record with the same e-mail or user name gives 400 "Email or username already exists" and an unchanged store |
| UserController.RegisterCreatedIff | src/controllers/userController.js:31-44 | 201 exactly when nothing throws, no record has the e-mail or the user name, and the document with the digest satisfies the schema |
| UserController.RegisterAppendsOne | src/controllers/userController.js:41-44 | a 201 appends exactly one record under the next id: trimmed user name, normalised e-mail, the digest (not the password), role "student" |
| UserController.RegisterOutcome | src/controllers/userController.js:26-54 | registration answers only 201, the duplicate 400 or the fixed 500, and only 201 changes the store |
| UserController.RegisterPreservesValid | src/controllers/userController.js:31-44 | registration keeps the invariant |
| UserController.DuplicateKeyOnInsert | src/controllers/userController.js:45-53 | a duplicate key thrown by the insert is answered 400 only when it is not named `MongoError`; a `MongoError` 11000 gets 500 |
| UserController.PlaintextLengthNotChecked | src/controllers/userController.js:41-42 | with a bcrypt-shaped hasher the password length check always passes, whatever the plaintext |
| UserController.LoginOutcome | src/controllers/userController.js:64-85 | login answers only 200, 401, 404 or 500 |
| UserController.LoginUser | src/controllers/userController.js:64-85 | the handler reads the store, changes nothing, and answers as `LoginOutcome` |
| UserController.LoginUnknownEmail | src/controllers/userController.js:68-69 | no record with the normalised e-mail gives 404 "User not found." |
| UserController.LoginWrongPassword | src/controllers/userController.js:71-72 | a digest that does not verify gives 401 "Invalid credentials" |
| UserController.LoginSucceeds | src/controllers/userController.js:74-81 | a verifying digest gives 200 with a token for the record's id, issued now, expiring an hour later, signed with `JWT_SECRET` or "secret" |
| UserController.LoginFailureEchoesMessage | src/controllers/userController.js:64-84 | a throw of `findOne`, or of `bcrypt.compare` once a record is found, gives 500 "Login failed: " followed by the error's message; without a record `compare` never runs and the answer is 404 |
| UserController.RegisteredUserCanLogIn | src/controllers/userController.js:26-81 | after a 201, the same e-mail and password log in and get a token for the new record's id |
| ErrorHandler.HandleError | src/utils/errorHandler.js:18-33 | one line (the message) is logged; 400 with the message exactly for a `ValidationError` or the duplicate message; otherwise 500 "Something went wrong." |
| ErrorHandler.PrecedenceUnobservable | src/utils/errorHandler.js:22-29 | testing the message before the name would give the same answer |
| ErrorHandler.ServerErrorHidesMessage | src/utils/errorHandler.js:32 | all errors that reach the last branch get the same answer, whatever their message |
| ErrorHandler.LogsOnceInOrder | src/utils/errorHandler.js:19 | two calls log exactly their two messages, in order |
| ErrorHandler.HookedDuplicateIsBadRequest | src/utils/errorHandler.js:27-29 | a `MongoError` 11000 rewritten by the post-save hook is answered 400 with the duplicate message |
| ErrorHandler.ValidationFailureIsBadRequest | src/utils/errorHandler.js:22-24 | a save that fails validation is answered 400 with the validation error's message |
| AuthMiddleware.TokenOf | src/middleware/authMiddleware.js:18 | a token is found only in a present header and never contains a space |
| AuthMiddleware.Decide | src/middleware/authMiddleware.js:17-27 | a refusal is 401 "Access denied." or 400 "Invalid token."; a pass carries the claims the header's token verifies to |
| AuthMiddleware.ThreeOutcomes | src/middleware/authMiddleware.js:17-27 | exactly one outcome per request: 401 exactly without a (non-empty) token, 400 exactly when verification fails, otherwise the verified claims |
| AuthMiddleware.NoSecondFieldDenied | src/middleware/authMiddleware.js:18-19 | a missing header or one without a space gives 401 "Access denied." |
| AuthMiddleware.SchemeNotChecked | src/middleware/authMiddleware.js:18 | any one-word scheme followed by a space and a token yields that token |
| AuthMiddleware.NoSecretNeverProceeds | src/middleware/authMiddleware.js:21 | without `JWT_SECRET` no request gets through |
| AuthMiddleware.IssuedTokenDecision | src/middleware/authMiddleware.js:21-26 | a login token passes exactly when the secret is set and the hour has not run out, carrying the login claims; otherwise 400 |
| AuthMiddleware.TokenLifetimeExamples | src/middleware/authMiddleware.js:21-26 | with the secret set, a login token passes after 30 minutes and is refused after 61 |
| AuthMiddleware.Guard | src/middleware/authMiddleware.js:17-27 | a refusal sends exactly one response and leaves `req.user` and `next` alone; a pass sets `req.user` to the claims, calls `next` once and sends nothing |

## Left out

- Crypto.NoSecretNothingVerifies: assumes jsonwebtoken 9 or later, which refuses to verify without a secret. Up to 8.5.1, `jwt.verify(token, undefined)` without an `algorithms` option accepts an unsigned token with `alg: "none"`. The version is not fixed by the core's files.
- AuthMiddleware.NoSecretNeverProceeds: holds under the same jsonwebtoken 9 assumption; with 8.5.1 or earlier, an unsigned token would let the request through when `JWT_SECRET` is unset.
- bcrypt and jsonwebtoken internals: salts, cost rounds, constant-time comparison, signature algorithms, token encoding. They are abstract functions whose needed properties are predicates on them.
- The winston logger's formatting and transports: the log is a sequence of messages.
- Unicode case mapping: `toLowerCase` is modelled on A-Z only. Lengths are counted in code points, not UTF-16 units.
- Absent (undefined) body fields: the request bodies always carry strings. Mongoose's casting of non-string values is not modelled.
- Mongoose query casting: the duplicate look-up and the login look-up use the values after the schema's setters, as Mongoose 6 and later do.
- EmailFormat.TopLevelLabelsShape: gives necessary conditions for `(\.\w{2,3})+` only; a description without recursion that is also sufficient is not proved.
- UserModel.Validate: reports the first failing validator of each path, with Mongoose's default message templates. Mongoose's exact aggregation and wording of several failures per path are not modelled. The order of the paths in the error (schema order) is the model's choice: Mongoose records a path's error when its validators finish, so the asynchronous uniqueness failures may come after synchronous failures of later paths. Only the message echoed by the error handler could show this order.
- The read-then-insert race between concurrent registrations: a record inserted in between is covered by the `save` fault (a duplicate key from the unique index).
- The Express request and response objects: the controller's response is a returned value; the guard's is appended to the `Exchange`.
- Application bootstrap, routes, database connection, the service wrapper, the logger configuration and the tests are not part of this model.
