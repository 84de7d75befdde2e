/**
 * The `User` model: its schema (setters, defaults, field constraints), the
 * two asynchronous uniqueness validators, the post-save error hook, and the
 * collection of stored records with its uniqueness invariant.
 */
module UserModel {
  import opened Options
  import opened Errors
  import opened JsStrings
  import opened EmailFormat

  const Roles: seq<string> := ["student", "instructor", "admin"]
  const DefaultRole: string := "student"
  const UsernameMinLength: nat := 3
  const UsernameMaxLength: nat := 30
  const PasswordMinLength: nat := 6

  /** What `new User({ ... })` is given; an absent role is `None`. */
  datatype Fields = Fields(username: string, email: string, password: string, role: Option<string>)

  /** A document after its setters and defaults ran, before validation. */
  datatype Document = Document(username: string, email: string, password: string, role: string, createdAt: int)

  /** A stored record: a document together with its `_id`. */
  datatype User = User(id: nat, username: string, email: string, password: string, role: string, createdAt: int)

  function DocumentOf(u: User): Document {
    Document(u.username, u.email, u.password, u.role, u.createdAt)
  }

  function Stored(d: Document, id: nat): (u: User)
    ensures DocumentOf(u) == d && u.id == id
  {
    User(id, d.username, d.email, d.password, d.role, d.createdAt)
  }

  /** The setters have run: user name and e-mail trimmed, e-mail without capitals. */
  predicate Normalized(d: Document) {
    IsTrimmed(d.username) && IsTrimmed(d.email) && IsLowerCase(d.email)
  }

  /**
   * `new User(fields)` at time `nowMs`: `trim` on the user name, `trim` and
   * `lowercase` on the e-mail, the password as given, the role defaulting to
   * "student", and `createdAt` set to the clock.
   */
  function Cast(f: Fields, nowMs: nat): (d: Document)
    ensures Normalized(d)
    ensures d.password == f.password && d.createdAt == nowMs
    ensures f.role.None? ==> d.role == DefaultRole
  {
    Document(Trim(f.username), NormalizeEmail(f.email), f.password, f.role.GetOr(DefaultRole), nowMs)
  }

  /** The schema's field constraints (everything except uniqueness). */
  predicate Conforms(d: Document) {
    && UsernameMinLength <= |d.username| <= UsernameMaxLength
    && MatchesEmail(d.email)
    && |d.password| >= PasswordMinLength
    && d.role in Roles
  }

  // ----- Queries over the collection -----

  datatype Query = ByEmail(email: string) | ByUsername(username: string) | ByEmailOrUsername(email: string, username: string)

  predicate Matches(u: User, q: Query) {
    match q
    case ByEmail(e) => u.email == e
    case ByUsername(n) => u.username == n
    case ByEmailOrUsername(e, n) => u.email == e || u.username == n
  }

  /**
   * `findOne(q)`: some matching record, if any. The model scans in insertion
   * order; no contract depends on which match is returned.
   */
  function FindOne(records: seq<User>, q: Query): (r: Option<User>)
    ensures r.Some? ==> r.value in records && Matches(r.value, q)
    ensures r.None? <==> forall k :: 0 <= k < |records| ==> !Matches(records[k], q)
  {
    if records == [] then None
    else if Matches(records[0], q) then Some(records[0])
    else FindOne(records[1..], q)
  }

  /** Appending a record after records that do not match leaves it as the only candidate. */
  lemma {:induction false} FindOneAppend(records: seq<User>, u: User, q: Query)
    requires forall k :: 0 <= k < |records| ==> !Matches(records[k], q)
    ensures FindOne(records + [u], q) == if Matches(u, q) then Some(u) else None
  {
    if records == [] {
      assert records + [u] == [u];
    } else {
      assert (records + [u])[1..] == records[1..] + [u];
      FindOneAppend(records[1..], u, q);
    }
  }

  /** `countDocuments(q)`: how many records match. */
  function CountDocuments(records: seq<User>, q: Query): (n: nat)
    ensures n <= |records|
    ensures n == 0 <==> forall k :: 0 <= k < |records| ==> !Matches(records[k], q)
  {
    if records == [] then 0
    else (if Matches(records[0], q) then 1 else 0) + CountDocuments(records[1..], q)
  }

  /** The e-mail validator: passes when `countDocuments({ email: value })` is zero. */
  function EmailIsFree(records: seq<User>, value: string): (ok: bool)
    ensures ok <==> forall k :: 0 <= k < |records| ==> records[k].email != value
  {
    CountDocuments(records, ByEmail(value)) == 0
  }

  /** The user-name validator: passes when `countDocuments({ username: value })` is zero. */
  function UsernameIsFree(records: seq<User>, value: string): (ok: bool)
    ensures ok <==> forall k :: 0 <= k < |records| ==> records[k].username != value
  {
    CountDocuments(records, ByUsername(value)) == 0
  }

  // ----- Validation -----

  datatype FieldError = FieldError(path: string, message: string)

  /** The first failing validator of `username`: required, minlength, maxlength, then uniqueness. */
  function UsernameError(username: string, records: seq<User>): (r: Option<string>)
    ensures r.None? <==> UsernameMinLength <= |username| <= UsernameMaxLength && UsernameIsFree(records, username)
  {
    if username == "" then Some("Path `username` is required.")
    else if |username| < UsernameMinLength then
      Some("Path `username` (`" + username + "`) is shorter than the minimum allowed length (3).")
    else if |username| > UsernameMaxLength then
      Some("Path `username` (`" + username + "`) is longer than the maximum allowed length (30).")
    else if !UsernameIsFree(records, username) then Some("Username already exists")
    else None
  }

  /** The first failing validator of `email`: required, the pattern, then uniqueness. */
  function EmailError(email: string, records: seq<User>): (r: Option<string>)
    ensures r.None? <==> MatchesEmail(email) && EmailIsFree(records, email)
  {
    if email == "" then Some("Path `email` is required.")
    else if !MatchesEmail(email) then Some("Please fill a valid email address")
    else if !EmailIsFree(records, email) then Some("Email already exists")
    else None
  }

  /** The first failing validator of `password`: required, then minlength. */
  function PasswordError(password: string): (r: Option<string>)
    ensures r.None? <==> |password| >= PasswordMinLength
  {
    if password == "" then Some("Path `password` is required.")
    else if |password| < PasswordMinLength then
      Some("Path `password` (`" + password + "`) is shorter than the minimum allowed length (6).")
    else None
  }

  /** The `enum` validator of `role`. */
  function RoleError(role: string): (r: Option<string>)
    ensures r.None? <==> role in Roles
  {
    if role in Roles then None else Some("`" + role + "` is not a valid enum value for path `role`.")
  }

  function ErrorsOf(path: string, e: Option<string>): seq<FieldError> {
    if e.Some? then [FieldError(path, e.value)] else []
  }

  /**
   * All validators, path by path in schema order. No error at all exactly
   * when the document satisfies every field constraint and neither its
   * e-mail nor its user name is taken.
   */
  function Validate(d: Document, records: seq<User>): (errs: seq<FieldError>)
    ensures errs == [] <==> Conforms(d) && EmailIsFree(records, d.email) && UsernameIsFree(records, d.username)
    ensures |errs| <= 4
  {
    ErrorsOf("username", UsernameError(d.username, records))
      + ErrorsOf("email", EmailError(d.email, records))
      + ErrorsOf("password", PasswordError(d.password))
      + ErrorsOf("role", RoleError(d.role))
  }

  /** Each path reports at most one error, and the paths appear in schema order. */
  lemma ValidateOnePerPath(d: Document, records: seq<User>)
    ensures InSchemaOrder(Validate(d, records))
    ensures var errs := Validate(d, records);
            forall i, j :: 0 <= i < j < |errs| ==> errs[i].path != errs[j].path
  {
    SchemaOrderOfErrors(UsernameError(d.username, records), EmailError(d.email, records),
                        PasswordError(d.password), RoleError(d.role));
  }

  /** Whatever each path's validators report, the errors come one per path in schema order. */
  lemma SchemaOrderOfErrors(username: Option<string>, email: Option<string>,
                            password: Option<string>, role: Option<string>)
    ensures InSchemaOrder(ErrorsOf("username", username) + ErrorsOf("email", email)
                          + ErrorsOf("password", password) + ErrorsOf("role", role))
  {
    SchemaPathRanks();
    var u, e := ErrorsOf("username", username), ErrorsOf("email", email);
    var p, r := ErrorsOf("password", password), ErrorsOf("role", role);
    ConcatInOrder(u, e, 1);
    ConcatInOrder(u + e, p, 2);
    ConcatInOrder(u + e + p, r, 3);
  }

  /** The position of a path in the schema; 4 for a path the schema does not have. */
  function PathRank(path: string): nat {
    if path == "username" then 0
    else if path == "email" then 1
    else if path == "password" then 2
    else if path == "role" then 3
    else 4
  }

  lemma SchemaPathRanks()
    ensures PathRank("username") == 0 && PathRank("email") == 1
    ensures PathRank("password") == 2 && PathRank("role") == 3
  {
    assert "email" != "username";
    assert "password" != "username" && "password" != "email";
    assert "role" != "username" && "role" != "email" && "role" != "password";
  }

  /** Every path comes strictly later in the schema than the one before it. */
  predicate InSchemaOrder(errs: seq<FieldError>) {
    forall i, j :: 0 <= i < j < |errs| ==> PathRank(errs[i].path) < PathRank(errs[j].path)
  }

  /** Appending at most one error of a path ranked `k`, after errors of paths ranked below `k`. */
  lemma {:induction false} ConcatInOrder(a: seq<FieldError>, b: seq<FieldError>, k: nat)
    requires InSchemaOrder(a) && |b| <= 1
    requires forall i :: 0 <= i < |a| ==> PathRank(a[i].path) < k
    requires forall i :: 0 <= i < |b| ==> PathRank(b[i].path) == k
    ensures InSchemaOrder(a + b)
    ensures forall i :: 0 <= i < |a + b| ==> PathRank((a + b)[i].path) <= k
  {
  }

  /** When the address has the right format, the e-mail path fails with "Email already exists" exactly when a record has it. */
  lemma EmailValidatorReportsTaken(email: string, records: seq<User>)
    requires MatchesEmail(email)
    ensures EmailError(email, records) == Some("Email already exists")
        <==> exists k :: 0 <= k < |records| && records[k].email == email
    ensures EmailError(email, records).None? <==> EmailIsFree(records, email)
  {
  }

  /** When the user name has an allowed length, its path fails with "Username already exists" exactly when a record has it. */
  lemma UsernameValidatorReportsTaken(username: string, records: seq<User>)
    requires UsernameMinLength <= |username| <= UsernameMaxLength
    ensures UsernameError(username, records) == Some("Username already exists")
        <==> exists k :: 0 <= k < |records| && records[k].username == username
    ensures UsernameError(username, records).None? <==> UsernameIsFree(records, username)
  {
  }

  function Describe(errs: seq<FieldError>): string {
    if errs == [] then ""
    else if |errs| == 1 then errs[0].path + ": " + errs[0].message
    else errs[0].path + ": " + errs[0].message + ", " + Describe(errs[1..])
  }

  /** The error `save()` rejects with when validation fails. */
  function ValidationError(errs: seq<FieldError>): (e: Error)
    ensures e.name == "ValidationError" && e.code.None?
  {
    Error("ValidationError", "User validation failed: " + Describe(errs), None)
  }

  /**
   * The post-save error hook: a `MongoError` with code 11000 becomes a plain
   * error with the duplicate message (and no code); any other error passes.
   */
  function PostSaveHook(e: Error): (r: Error)
    ensures e.name == "MongoError" && e.code == Some(DuplicateKeyCode) ==> r == PlainError(DuplicateMessage)
    ensures !(e.name == "MongoError" && e.code == Some(DuplicateKeyCode)) ==> r == e
  {
    if e.name == "MongoError" && e.code == Some(DuplicateKeyCode) then PlainError(DuplicateMessage) else e
  }

  /** After the hook no error is both a `MongoError` and a duplicate key; a duplicate code survives only on other names. */
  lemma HookLeavesNoMongoDuplicate(e: Error)
    ensures !(PostSaveHook(e).name == "MongoError" && PostSaveHook(e).code == Some(DuplicateKeyCode))
    ensures PostSaveHook(e).code == Some(DuplicateKeyCode) <==> e.code == Some(DuplicateKeyCode) && e.name != "MongoError"
  {
  }

  // ----- The collection -----

  datatype StoreState = StoreState(records: seq<User>, nextId: nat)

  predicate Distinct(a: User, b: User) {
    a.id != b.id && a.email != b.email && a.username != b.username
  }

  /**
   * Every stored record went through the setters and satisfies the schema,
   * ids are below the next id, and no two records share an id, an e-mail
   * or a user name.
   */
  predicate ValidState(st: StoreState) {
    RecordsWellFormed(st) && UniqueKeys(st.records)
  }

  predicate RecordsWellFormed(st: StoreState) {
    forall k :: 0 <= k < |st.records| ==> WellFormed(st.records[k]) && st.records[k].id < st.nextId
  }

  /** No two records share an id, an e-mail or a user name. */
  predicate UniqueKeys(records: seq<User>) {
    forall j, k :: 0 <= j < k < |records| ==> Distinct(records[j], records[k])
  }

  /**
   * `new User(f).save()` at `nowMs`, with `fault` the failure of the insert
   * itself (a write error, or the unique index refusing a record inserted
   * meanwhile). The save is atomic: either an error and nothing stored, or
   * no error and exactly the new record appended under the next id.
   */
  function SaveOutcome(st: StoreState, f: Fields, nowMs: nat, fault: Option<Error>): (out: (Option<Error>, StoreState))
    ensures out.0.Some? ==> out.1 == st
    ensures out.0.None? ==> out.1 == StoreState(st.records + [Stored(Cast(f, nowMs), st.nextId)], st.nextId + 1)
    ensures out.0.None? <==> && fault.None? && Conforms(Cast(f, nowMs))
                             && EmailIsFree(st.records, Cast(f, nowMs).email)
                             && UsernameIsFree(st.records, Cast(f, nowMs).username)
  {
    var doc := Cast(f, nowMs);
    var errs := Validate(doc, st.records);
    if errs != [] then (Some(PostSaveHook(ValidationError(errs))), st)
    else if fault.Some? then (Some(PostSaveHook(fault.value)), st)
    else (None, StoreState(st.records + [Stored(doc, st.nextId)], st.nextId + 1))
  }

  /** A rejected save reports a validation failure or the hook's rewrite of the fault, never anything else. */
  lemma SaveErrorSource(st: StoreState, f: Fields, nowMs: nat, fault: Option<Error>)
    requires SaveOutcome(st, f, nowMs, fault).0.Some?
    ensures var e := SaveOutcome(st, f, nowMs, fault).0.value;
            || (e.name == "ValidationError" && e.code.None? && Validate(Cast(f, nowMs), st.records) != [])
            || (fault.Some? && e == PostSaveHook(fault.value))
  {
  }

  /** A record that went through the setters and satisfies the schema. */
  predicate WellFormed(u: User) {
    Normalized(DocumentOf(u)) && Conforms(DocumentOf(u))
  }

  /** Appending a well-formed record under a fresh id whose e-mail and user name are free keeps the invariant. */
  lemma {:induction false} AppendPreservesValid(st: StoreState, u: User)
    requires ValidState(st)
    requires WellFormed(u) && u.id == st.nextId
    requires EmailIsFree(st.records, u.email) && UsernameIsFree(st.records, u.username)
    ensures ValidState(StoreState(st.records + [u], st.nextId + 1))
  {
    AppendKeepsWellFormed(st, u);
    AppendKeepsUnique(st.records, u);
  }

  lemma {:induction false} AppendKeepsWellFormed(st: StoreState, u: User)
    requires RecordsWellFormed(st)
    requires WellFormed(u) && u.id == st.nextId
    ensures RecordsWellFormed(StoreState(st.records + [u], st.nextId + 1))
  {
    var rs := st.records + [u];
    forall k | 0 <= k < |rs|
      ensures WellFormed(rs[k]) && rs[k].id < st.nextId + 1
    {
      if k < |st.records| {
        assert rs[k] == st.records[k];
      }
    }
  }

  lemma {:induction false} AppendKeepsUnique(records: seq<User>, u: User)
    requires UniqueKeys(records)
    requires forall k :: 0 <= k < |records| ==> records[k].id < u.id
    requires EmailIsFree(records, u.email) && UsernameIsFree(records, u.username)
    ensures UniqueKeys(records + [u])
  {
    var rs := records + [u];
    forall j, k | 0 <= j < k < |rs|
      ensures Distinct(rs[j], rs[k])
    {
      assert rs[j] == records[j];
      if k < |records| {
        assert rs[k] == records[k];
      }
    }
  }

  /** Saving keeps the uniqueness invariant and the schema constraints of every record. */
  lemma SavePreservesValid(st: StoreState, f: Fields, nowMs: nat, fault: Option<Error>)
    requires ValidState(st)
    ensures ValidState(SaveOutcome(st, f, nowMs, fault).1)
  {
    var out := SaveOutcome(st, f, nowMs, fault);
    if out.0.None? {
      AppendPreservesValid(st, Stored(Cast(f, nowMs), st.nextId));
    }
  }

  /**
   * What every stored record looks like: a trimmed user name of 3 to 30
   * characters; a trimmed e-mail without capitals, with exactly one '@', a
   * word character first and a two- or three-character label last; a
   * password (digest) of at least 6 characters; an allowed role.
   */
  lemma StoredRecordShape(st: StoreState, k: nat)
    requires ValidState(st) && k < |st.records|
    ensures var u := st.records[k];
            && IsTrimmed(u.username) && UsernameMinLength <= |u.username| <= UsernameMaxLength
            && IsTrimmed(u.email) && IsLowerCase(u.email)
            && Occurrences(u.email, '@') == 1 && IsWordChar(u.email[0]) && EndsWithShortLabel(u.email)
            && |u.password| >= PasswordMinLength && u.role in Roles
  {
    var u := st.records[k];
    assert WellFormed(u);
    EmailShape(u.email);
  }

  /** In a valid collection the record with a given e-mail is the one `findOne({ email })` returns. */
  lemma FindByEmailIsUnique(st: StoreState, k: nat)
    requires UniqueKeys(st.records) && k < |st.records|
    ensures FindOne(st.records, ByEmail(st.records[k].email)) == Some(st.records[k])
  {
    var r := FindOne(st.records, ByEmail(st.records[k].email));
    assert r.Some?;
    var j :| 0 <= j < |st.records| && st.records[j] == r.value;
    assert forall i :: 0 <= i < |st.records| && i != k ==> Distinct(st.records[i], st.records[k]) by {
      forall i | 0 <= i < |st.records| && i != k
        ensures Distinct(st.records[i], st.records[k])
      {
        if i < k {
          assert Distinct(st.records[i], st.records[k]);
        } else {
          assert Distinct(st.records[k], st.records[i]);
        }
      }
    }
  }

  /** The collection the model writes to: `User` in MongoDB. */
  class UserStore {
    var records: seq<User>
    var nextId: nat

    function State(): StoreState
      reads this
    {
      StoreState(records, nextId)
    }

    predicate Valid()
      reads this
    {
      ValidState(State())
    }

    constructor ()
      ensures Valid() && records == [] && nextId == 0
    {
      records, nextId := [], 0;
    }

    /** `new User(f).save()`: validate, insert unless `fault`, report the error through the post-save hook. */
    method Save(f: Fields, nowMs: nat, fault: Option<Error>) returns (err: Option<Error>)
      requires Valid()
      modifies this
      ensures Valid()
      ensures err == SaveOutcome(old(State()), f, nowMs, fault).0
      ensures State() == SaveOutcome(old(State()), f, nowMs, fault).1
    {
      ghost var before := State();
      SavePreservesValid(before, f, nowMs, fault);
      var doc := Cast(f, nowMs);
      var errs := Validate(doc, records);
      if errs != [] {
        return Some(PostSaveHook(ValidationError(errs)));
      }
      if fault.Some? {
        return Some(PostSaveHook(fault.value));
      }
      records := records + [Stored(doc, nextId)];
      nextId := nextId + 1;
      err := None;
    }
  }
}
