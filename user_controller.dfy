/**
 * The two account handlers, `registerUser` and `loginUser`. Each is a short
 * sequence with early returns that sends exactly one response; registration
 * may insert one record, login never writes.
 *
 * A failure thrown by the database, by bcrypt or by the insert is not
 * produced by the model: it is given as a `fault` argument for the step that
 * throws it, and the handler's `catch` block decides what is sent.
 */
module UserController {
  import opened Options
  import opened Errors
  import opened JsStrings
  import opened Crypto
  import opened UserModel

  datatype RegisterBody = RegisterBody(username: string, email: string, password: string)
  datatype LoginBody = LoginBody(email: string, password: string)

  /** What may throw during registration: the duplicate look-up, the hashing, the insert. */
  datatype RegisterFaults = RegisterFaults(find: Option<Error>, hash: Option<Error>, save: Option<Error>)

  /** What may throw during login: the look-up and the password comparison. */
  datatype LoginFaults = LoginFaults(find: Option<Error>, compare: Option<Error>)

  const NoRegisterFaults := RegisterFaults(None, None, None)
  const NoLoginFaults := LoginFaults(None, None)

  const Created := Response(201, MessageBody("User registered successfully"))
  const DuplicateAccount := Response(400, ErrorBody(DuplicateMessage))
  const RegistrationFailed := Response(500, ErrorBody("Registration failed."))
  const UserNotFound := Response(404, ErrorBody("User not found."))
  const InvalidCredentials := Response(401, ErrorBody("Invalid credentials"))

  /**
   * The `catch` block of `registerUser`: only a duplicate-key code gives the
   * duplicate answer; every other failure gives the fixed 500 text, so the
   * error's own message never reaches the client.
   */
  function RegistrationCatch(e: Error): (r: Response)
    ensures r == DuplicateAccount <==> e.code == Some(DuplicateKeyCode)
    ensures r == DuplicateAccount || r == RegistrationFailed
  {
    if e.code == Some(DuplicateKeyCode) then DuplicateAccount else RegistrationFailed
  }

  /** The `findOne({ $or: [{ email }, { username }] })` query, after the schema's setters. */
  function DuplicateQuery(body: RegisterBody): Query {
    ByEmailOrUsername(NormalizeEmail(body.email), Trim(body.username))
  }

  /** The fields `registerUser` builds its document from: the digest in place of the password, no role. */
  function NewUserFields(body: RegisterBody, h: Hasher): Fields {
    Fields(body.username, body.email, h.hash(body.password), None)
  }

  /**
   * The insert and what `registerUser` answers for it: 201 and one record
   * appended when the save succeeds, otherwise the `catch` block's answer
   * and the store unchanged.
   */
  function SaveResponse(st: StoreState, fields: Fields, nowMs: nat, fault: Option<Error>)
    : (out: (StoreState, Response))
    ensures out.1 == Created <==> SaveOutcome(st, fields, nowMs, fault).0.None?
    ensures out.0 == SaveOutcome(st, fields, nowMs, fault).1
    ensures out.1 == DuplicateAccount <==> && SaveOutcome(st, fields, nowMs, fault).0.Some?
                                           && SaveOutcome(st, fields, nowMs, fault).0.value.code == Some(DuplicateKeyCode)
    ensures out.1 == Created || out.1 == DuplicateAccount || out.1 == RegistrationFailed
  {
    var saved := SaveOutcome(st, fields, nowMs, fault);
    if saved.0.Some? then (saved.1, RegistrationCatch(saved.0.value)) else (saved.1, Created)
  }

  /** `registerUser` as a function of the store: the new store and the response sent. */
  function RegisterOutcome(st: StoreState, body: RegisterBody, h: Hasher, nowMs: nat, f: RegisterFaults)
    : (out: (StoreState, Response))
    ensures out.1 == Created || out.1 == DuplicateAccount || out.1 == RegistrationFailed
    ensures out.1 != Created ==> out.0 == st
  {
    if f.find.Some? then (st, RegistrationCatch(f.find.value))
    else if FindOne(st.records, DuplicateQuery(body)).Some? then (st, DuplicateAccount)
    else if f.hash.Some? then (st, RegistrationCatch(f.hash.value))
    else SaveResponse(st, NewUserFields(body, h), nowMs, f.save)
  }

  /** `registerUser(req, res)` on the store. */
  method RegisterUser(store: UserStore, body: RegisterBody, h: Hasher, nowMs: nat, f: RegisterFaults)
    returns (res: Response)
    requires store.Valid()
    modifies store
    ensures store.Valid()
    ensures (store.State(), res) == RegisterOutcome(old(store.State()), body, h, nowMs, f)
  {
    if f.find.Some? {
      return RegistrationCatch(f.find.value);
    }
    var existing := FindOne(store.records, DuplicateQuery(body));
    if existing.Some? {
      return DuplicateAccount;
    }
    if f.hash.Some? {
      return RegistrationCatch(f.hash.value);
    }
    var hashed := h.hash(body.password);
    var err := store.Save(Fields(body.username, body.email, hashed, None), nowMs, f.save);
    if err.Some? {
      return RegistrationCatch(err.value);
    }
    res := Created;
  }

  /** `loginUser` as a function of the stored records: the response sent. */
  function LoginOutcome(records: seq<User>, body: LoginBody, h: Hasher, c: TokenCodec,
                        env: Option<string>, nowMs: nat, f: LoginFaults): (r: Response)
    ensures r.status in {200, 401, 404, 500}
  {
    if f.find.Some? then Response(500, ErrorBody("Login failed: " + f.find.value.message))
    else
      match FindOne(records, ByEmail(NormalizeEmail(body.email)))
      case None => UserNotFound
      case Some(u) =>
        if f.compare.Some? then Response(500, ErrorBody("Login failed: " + f.compare.value.message))
        else if !h.compare(body.password, u.password) then InvalidCredentials
        else Response(200, TokenBody(Issue(c, u.id, env, nowMs)))
  }

  /** `loginUser(req, res)` on the store; it reads the store and changes nothing. */
  method LoginUser(store: UserStore, body: LoginBody, h: Hasher, c: TokenCodec,
                   env: Option<string>, nowMs: nat, f: LoginFaults) returns (res: Response)
    ensures res == LoginOutcome(store.records, body, h, c, env, nowMs, f)
  {
    if f.find.Some? {
      return Response(500, ErrorBody("Login failed: " + f.find.value.message));
    }
    var user := FindOne(store.records, ByEmail(NormalizeEmail(body.email)));
    if user.None? {
      return UserNotFound;
    }
    if f.compare.Some? {
      return Response(500, ErrorBody("Login failed: " + f.compare.value.message));
    }
    var isMatch := h.compare(body.password, user.value.password);
    if !isMatch {
      return InvalidCredentials;
    }
    var token := Issue(c, user.value.id, env, nowMs);
    res := Response(200, TokenBody(token));
  }

  // ----- Registration -----

  /**
   * When a stored record already has the e-mail or the user name, registration
   * answers 400 with the duplicate message and the store is unchanged.
   */
  lemma RegisterRejectsDuplicate(st: StoreState, body: RegisterBody, h: Hasher, nowMs: nat, f: RegisterFaults, k: nat)
    requires f.find.None?
    requires k < |st.records|
    requires st.records[k].email == NormalizeEmail(body.email) || st.records[k].username == Trim(body.username)
    ensures RegisterOutcome(st, body, h, nowMs, f) == (st, DuplicateAccount)
  {
    assert Matches(st.records[k], DuplicateQuery(body));
  }

  /** The record a successful registration stores under the next id. */
  function RegisteredUser(st: StoreState, body: RegisterBody, h: Hasher, nowMs: nat): User {
    Stored(Cast(NewUserFields(body, h), nowMs), st.nextId)
  }

  /**
   * Registration answers 201 exactly when nothing throws, neither the e-mail
   * nor the user name is taken, and the document with the digest satisfies
   * the schema.
   */
  lemma RegisterCreatedIff(st: StoreState, body: RegisterBody, h: Hasher, nowMs: nat, f: RegisterFaults)
    ensures RegisterOutcome(st, body, h, nowMs, f).1 == Created
        <==> && f == NoRegisterFaults
             && (forall k :: 0 <= k < |st.records| ==> !Matches(st.records[k], DuplicateQuery(body)))
             && Conforms(Cast(NewUserFields(body, h), nowMs))
  {
    var doc := Cast(NewUserFields(body, h), nowMs);
    if f.find.None? && FindOne(st.records, DuplicateQuery(body)).None? {
      assert EmailIsFree(st.records, doc.email) && UsernameIsFree(st.records, doc.username);
    }
  }

  /**
   * A document that fails the schema, or whose e-mail or user name the
   * validators find taken, is answered with the fixed 500 text: the
   * `ValidationError` carries no code, so the `catch` block does not
   * recognise it as a duplicate. A fault of the insert changes nothing,
   * since validation runs first.
   */
  lemma RegisterInvalidDocumentFails(st: StoreState, body: RegisterBody, h: Hasher, nowMs: nat, f: RegisterFaults)
    requires f.find.None? && f.hash.None?
    requires FindOne(st.records, DuplicateQuery(body)).None?
    requires Validate(Cast(NewUserFields(body, h), nowMs), st.records) != []
    ensures RegisterOutcome(st, body, h, nowMs, f) == (st, RegistrationFailed)
  {
  }

  /**
   * A throw of the duplicate look-up or of the hashing is answered by the
   * `catch` block alone: the duplicate 400 for code 11000, the fixed 500
   * otherwise, and the store is unchanged.
   */
  lemma RegisterThrowAnswers(st: StoreState, body: RegisterBody, h: Hasher, nowMs: nat, f: RegisterFaults)
    requires f.find.Some? || (FindOne(st.records, DuplicateQuery(body)).None? && f.hash.Some?)
    ensures var e := if f.find.Some? then f.find.value else f.hash.value;
            RegisterOutcome(st, body, h, nowMs, f)
              == (st, if e.code == Some(DuplicateKeyCode) then DuplicateAccount else RegistrationFailed)
  {
  }

  /**
   * A 201 appends exactly one record under the next id: trimmed user name,
   * normalised e-mail, the digest of the password (not the password), role
   * "student".
   */
  lemma RegisterAppendsOne(st: StoreState, body: RegisterBody, h: Hasher, nowMs: nat, f: RegisterFaults)
    requires RegisterOutcome(st, body, h, nowMs, f).1 == Created
    ensures RegisterOutcome(st, body, h, nowMs, f).0
         == StoreState(st.records + [RegisteredUser(st, body, h, nowMs)], st.nextId + 1)
    ensures var u := RegisteredUser(st, body, h, nowMs);
            && u.id == st.nextId && u.username == Trim(body.username) && u.email == NormalizeEmail(body.email)
            && u.password == h.hash(body.password) && u.role == DefaultRole
  {
  }

  /** Registration keeps the invariant: no two records share an e-mail or a user name, every record satisfies the schema. */
  lemma RegisterPreservesValid(st: StoreState, body: RegisterBody, h: Hasher, nowMs: nat, f: RegisterFaults)
    requires ValidState(st)
    ensures ValidState(RegisterOutcome(st, body, h, nowMs, f).0)
  {
    if f.find.None? && FindOne(st.records, DuplicateQuery(body)).None? && f.hash.None? {
      SavePreservesValid(st, NewUserFields(body, h), nowMs, f.save);
    }
  }

  /**
   * An insert that throws a duplicate key answers 400 only when the driver
   * names the error something other than `MongoError`: the post-save hook
   * rewrites a `MongoError` 11000 into an error without a code, which the
   * `catch` block then answers with 500.
   */
  lemma DuplicateKeyOnInsert(st: StoreState, body: RegisterBody, h: Hasher, nowMs: nat, e: Error)
    requires e.code == Some(DuplicateKeyCode)
    requires FindOne(st.records, DuplicateQuery(body)).None?
    requires Validate(Cast(NewUserFields(body, h), nowMs), st.records) == []
    ensures var (st', r) := RegisterOutcome(st, body, h, nowMs, RegisterFaults(None, None, Some(e)));
            && st' == st
            && (r == DuplicateAccount <==> e.name != "MongoError")
            && (e.name == "MongoError" ==> r == RegistrationFailed)
  {
  }

  /**
   * The password length check sees the digest, not the plaintext: with a
   * bcrypt-shaped hasher a one-character password is accepted.
   */
  lemma PlaintextLengthNotChecked(st: StoreState, body: RegisterBody, h: Hasher, nowMs: nat)
    requires BcryptShaped(h)
    ensures PasswordError(Cast(NewUserFields(body, h), nowMs).password).None?
  {
    assert |h.hash(body.password)| == BcryptDigestLength;
  }

  // ----- Login -----

  /** No record with the (normalised) e-mail: 404 "User not found.". */
  lemma LoginUnknownEmail(records: seq<User>, body: LoginBody, h: Hasher, c: TokenCodec,
                          env: Option<string>, nowMs: nat, f: LoginFaults)
    requires f.find.None?
    requires forall k :: 0 <= k < |records| ==> records[k].email != NormalizeEmail(body.email)
    ensures LoginOutcome(records, body, h, c, env, nowMs, f) == UserNotFound
  {
  }

  /** The record's digest does not verify against the password: 401 "Invalid credentials". */
  lemma LoginWrongPassword(st: StoreState, k: nat, body: LoginBody, h: Hasher, c: TokenCodec,
                           env: Option<string>, nowMs: nat)
    requires UniqueKeys(st.records) && k < |st.records|
    requires st.records[k].email == NormalizeEmail(body.email)
    requires !h.compare(body.password, st.records[k].password)
    ensures LoginOutcome(st.records, body, h, c, env, nowMs, NoLoginFaults) == InvalidCredentials
  {
    FindByEmailIsUnique(st, k);
  }

  /**
   * The digest verifies: 200 with a token carrying the record's id, issued
   * now and expiring an hour later, signed with `JWT_SECRET` or "secret".
   */
  lemma LoginSucceeds(st: StoreState, k: nat, body: LoginBody, h: Hasher, c: TokenCodec,
                      env: Option<string>, nowMs: nat)
    requires UniqueKeys(st.records) && k < |st.records|
    requires st.records[k].email == NormalizeEmail(body.email)
    requires h.compare(body.password, st.records[k].password)
    ensures LoginOutcome(st.records, body, h, c, env, nowMs, NoLoginFaults)
         == Response(200, TokenBody(c.sign(Claims(st.records[k].id, nowMs / 1000, nowMs / 1000 + 3600), SigningKey(env))))
  {
    FindByEmailIsUnique(st, k);
    assert FindOne(st.records, ByEmail(NormalizeEmail(body.email))) == Some(st.records[k]);
    assert LoginClaims(st.records[k].id, nowMs) == Claims(st.records[k].id, nowMs / 1000, nowMs / 1000 + 3600);
  }

  /**
   * A thrown failure answers 500 with "Login failed: " and the error's
   * message, whether `findOne` or `bcrypt.compare` throws; `compare` runs
   * only once a record was found.
   */
  lemma LoginFailureEchoesMessage(records: seq<User>, body: LoginBody, h: Hasher, c: TokenCodec,
                                  env: Option<string>, nowMs: nat, e: Error)
    ensures LoginOutcome(records, body, h, c, env, nowMs, LoginFaults(Some(e), None))
         == Response(500, ErrorBody("Login failed: " + e.message))
    ensures FindOne(records, ByEmail(NormalizeEmail(body.email))).Some? ==>
              (LoginOutcome(records, body, h, c, env, nowMs, LoginFaults(None, Some(e)))
               == Response(500, ErrorBody("Login failed: " + e.message)))
    ensures FindOne(records, ByEmail(NormalizeEmail(body.email))).None? ==>
              LoginOutcome(records, body, h, c, env, nowMs, LoginFaults(None, Some(e))) == UserNotFound
  {
  }

  /**
   * What registration stores, login accepts: after a 201 the same e-mail
   * and password log in and get a token for the new record's id.
   */
  lemma RegisteredUserCanLogIn(st: StoreState, body: RegisterBody, h: Hasher, c: TokenCodec,
                               env: Option<string>, registeredMs: nat, nowMs: nat)
    requires ValidState(st) && HashVerifies(h)
    requires RegisterOutcome(st, body, h, registeredMs, NoRegisterFaults).1 == Created
    ensures LoginOutcome(RegisterOutcome(st, body, h, registeredMs, NoRegisterFaults).0.records,
                         LoginBody(body.email, body.password), h, c, env, nowMs, NoLoginFaults)
         == Response(200, TokenBody(Issue(c, st.nextId, env, nowMs)))
  {
    RegisterCreatedIff(st, body, h, registeredMs, NoRegisterFaults);
    RegisterAppendsOne(st, body, h, registeredMs, NoRegisterFaults);
    var u := RegisteredUser(st, body, h, registeredMs);
    var q := ByEmail(NormalizeEmail(body.email));
    forall k | 0 <= k < |st.records|
      ensures !Matches(st.records[k], q)
    {
      assert !Matches(st.records[k], DuplicateQuery(body));
    }
    FindOneAppend(st.records, u, q);
    assert h.compare(body.password, h.hash(body.password));
  }
}
