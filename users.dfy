/** UserService (internal/app/users.go) over an in-memory user repository. bcrypt is not
    modelled: a `Bcrypt` supplies GenerateFromPassword and CompareHashAndPassword, and `Sound`
    states the two laws the service relies on, within bcrypt's 72-byte key. The random salt and the clock are parameters. */
module Users {
  import opened Wrappers
  import opened GoStrings
  import opened SendKey
  import opened Storage
  import opened Hex

  const MsgEmailRequired := "An email is required."
  const MsgPasswordRequired := "A password is required."
  const MsgAccountExists := "An account with the specified email already exists."
  const MsgNoSuchUser := "No user could be found with the specified email."
  const MsgInvalidPassword := "The specified password is invalid."

  /** bcrypt.DefaultCost. */
  const DefaultCost := 10

  // ---------------------------------------------------------------------------------------------
  // bcrypt

  datatype CompareResult = Match | Mismatch | CompareFailed(code: int)

  /** `generate(password, cost, salt)` is GenerateFromPassword with the salt it would draw;
      `compare(hash, password)` is CompareHashAndPassword, with Mismatch for
      ErrMismatchedHashAndPassword and CompareFailed for any other error. Hashes are ASCII, so
      the stored string and its bytes are the same thing here. */
  datatype Bcrypt = Bcrypt(
    generate: (Bytes, int, Bytes) -> Result<string, int>,
    compare: (string, Bytes) -> CompareResult)

  /** bcrypt keys Blowfish with the password followed by a zero byte, cut to 72 bytes, so it can
      tell two passwords apart only when both are at most 71 bytes long and hold no zero byte. */
  const MaxKeyBytes := 72

  predicate Distinguishable(pw: Bytes) {
    |pw| < MaxKeyBytes && 0 !in pw
  }

  /** The first law: a generated hash matches the password it was generated from. */
  ghost predicate MatchesOwn(b: Bcrypt) {
    forall pw, cost, salt :: b.generate(pw, cost, salt).Success? ==> b.compare(b.generate(pw, cost, salt).value, pw) == Match
  }

  /** The second law: a generated hash does not match another password, when bcrypt can tell
      the two apart. */
  ghost predicate RejectsOthers(b: Bcrypt) {
    forall pw, other, cost, salt ::
      b.generate(pw, cost, salt).Success? && Distinguishable(pw) && Distinguishable(other) && other != pw ==>
        b.compare(b.generate(pw, cost, salt).value, other) == Mismatch
  }

  ghost predicate Sound(b: Bcrypt) {
    MatchesOwn(b) && RejectsOthers(b)
  }

  /** The bytes bcrypt keys Blowfish with: the password, a zero byte, at most 72 bytes. */
  function KeyBytes(pw: Bytes): (k: Bytes)
    ensures |k| <= MaxKeyBytes
  {
    var z := pw + [0];
    if |z| <= MaxKeyBytes then z else z[..MaxKeyBytes]
  }

  /** A stand-in for bcrypt that keeps its 72-byte cut: the "hash" is the key bytes in hex. */
  function KeyGenerate(pw: Bytes, cost: int, salt: Bytes): Result<string, int> {
    Success(EncodeToString(KeyBytes(pw)))
  }

  function KeyCompare(hash: string, pw: Bytes): CompareResult {
    if hash == EncodeToString(KeyBytes(pw)) then Match else Mismatch
  }

  /** The laws can be met, by a bcrypt that reads only the first 72 key bytes. */
  lemma SoundBcryptExists()
    ensures Sound(Bcrypt(KeyGenerate, KeyCompare))
  {
    forall pw: Bytes, other: Bytes | Distinguishable(pw) && Distinguishable(other) && other != pw
      ensures EncodeToString(KeyBytes(pw)) != EncodeToString(KeyBytes(other))
    {
      assert KeyBytes(pw) == pw + [0] && KeyBytes(other) == other + [0];
      assert KeyBytes(pw)[..|pw|] == pw && KeyBytes(other)[..|other|] == other;
      EncodeInjective(KeyBytes(pw), KeyBytes(other));
    }
  }

  /** The second law cannot go further: with that bcrypt, a hash of a 72-byte password also
      matches the password followed by any byte. */
  lemma SeventyTwoByteCut(pw: Bytes, x: byte, cost: int, salt: Bytes)
    requires |pw| == MaxKeyBytes
    ensures pw + [x] != pw
    ensures KeyCompare(KeyGenerate(pw, cost, salt).value, pw + [x]) == Match
  {
    assert KeyBytes(pw) == pw;
    assert (pw + [x] + [0])[..MaxKeyBytes] == pw;
  }

  // ---------------------------------------------------------------------------------------------
  // The users table

  /** The first row with the id, as `SELECT ... WHERE ID = ?` answers it; None for no rows. */
  function FindById(rows: seq<User>, id: Uuid): (r: Option<User>)
    ensures r.Some? <==> exists i :: 0 <= i < |rows| && rows[i].id == id
    ensures r.Some? ==> r.value in rows && r.value.id == id
  {
    if rows == [] then None
    else if rows[0].id == id then Some(rows[0])
    else FindById(rows[1..], id)
  }

  /** The first row with the email, compared exactly. */
  function FindByEmail(rows: seq<User>, email: string): (r: Option<User>)
    ensures r.Some? <==> exists i :: 0 <= i < |rows| && rows[i].email == email
    ensures r.Some? ==> r.value in rows && r.value.email == email
  {
    if rows == [] then None
    else if rows[0].email == email then Some(rows[0])
    else FindByEmail(rows[1..], email)
  }

  predicate UniqueUserIds(rows: seq<User>) {
    forall i, j :: 0 <= i < j < |rows| ==> rows[i].id != rows[j].id
  }

  predicate UniqueEmails(rows: seq<User>) {
    forall i, j :: 0 <= i < j < |rows| ==> rows[i].email != rows[j].email
  }

  /** Under unique emails, the row found for an email is the one row that has it. */
  lemma {:induction false} FindByEmailUnique(rows: seq<User>, i: int)
    requires UniqueEmails(rows) && 0 <= i < |rows|
    ensures FindByEmail(rows, rows[i].email) == Some(rows[i])
  {
    if i > 0 {
      var rest := rows[1..];
      assert UniqueEmails(rest) by {
        forall a, b | 0 <= a < b < |rest| ensures rest[a].email != rest[b].email {
          assert rest[a] == rows[a + 1] && rest[b] == rows[b + 1];
        }
      }
      assert rest[i - 1] == rows[i];
      FindByEmailUnique(rest, i - 1);
    }
  }

  /** The in-memory repository: `users` holds the rows in insertion order. */
  class UserStore {
    var users: seq<User>

    ghost predicate Valid()
      reads this
    {
      UniqueUserIds(users)
    }

    constructor ()
      ensures Valid() && users == []
    {
      users := [];
    }

    method Find(id: Uuid) returns (r: Option<User>)
      ensures r == FindById(users, id)
    {
      r := FindById(users, id);
    }

    method FindByEmailAddress(email: string) returns (r: Option<User>)
      ensures r == FindByEmail(users, email)
    {
      r := FindByEmail(users, email);
    }

    /** Create inserts the row as given; an id already present violates the primary key. */
    method Create(u: User) returns (err: Option<StoreError>)
      requires Valid()
      modifies this
      ensures Valid()
      ensures err == if FindById(old(users), u.id).Some? then Some(ErrDuplicateKey) else None
      ensures users == if err.None? then old(users) + [u] else old(users)
    {
      if FindById(users, u.id).Some? {
        err := Some(ErrDuplicateKey);
      } else {
        err := None;
        users := users + [u];
      }
    }
  }

  // ---------------------------------------------------------------------------------------------
  // The service

  datatype CreateUserRequest = CreateUserRequest(email: string, password: string, firstName: string, lastName: string)
  datatype CreateUserResponse = CreateUserResponse(success: bool, errors: seq<string>, user: Option<User>)
  datatype UserLoginRequest = UserLoginRequest(email: string, password: string)
  datatype UserLoginResponse = UserLoginResponse(success: bool, errors: seq<string>, user: Option<User>)

  datatype UserError = UserStoreFailed(store: StoreError) | HashFailed(code: int) | CompareError(code: int)

  /** The two "required" checks, both collected, on the email as the caller gives it. */
  function RequiredErrors(email: string, password: string): (errs: seq<string>)
    ensures (MsgEmailRequired in errs <==> email == "") && (MsgPasswordRequired in errs <==> password == "")
    ensures errs == [] <==> email != "" && password != ""
    ensures forall m :: m in errs ==> m == MsgEmailRequired || m == MsgPasswordRequired
  {
    (if email == "" then [MsgEmailRequired] else []) + (if password == "" then [MsgPasswordRequired] else [])
  }

  /** CreateUser: trim the email, validate, reject a taken email, hash the password, insert. */
  function CreateUserSpec(b: Bcrypt, rows: seq<User>, req: CreateUserRequest, id: Uuid, salt: Bytes, now: Time)
    : (seq<User>, Result<CreateUserResponse, UserError>)
  {
    var email := TrimSpace(req.email);
    var errs := RequiredErrors(email, req.password);
    if errs != [] then (rows, Success(CreateUserResponse(false, errs, None)))
    else if FindByEmail(rows, email).Some? then (rows, Success(CreateUserResponse(false, [MsgAccountExists], None)))
    else match b.generate(Utf8(req.password), DefaultCost, salt)
      case Failure(code) => (rows, Failure(HashFailed(code)))
      case Success(hash) =>
        var user := User(id, email, false, req.firstName, req.lastName, hash, now);
        if FindById(rows, id).Some? then (rows, Failure(UserStoreFailed(ErrDuplicateKey)))
        else (rows + [user], Success(CreateUserResponse(true, [], Some(user))))
  }

  /** Login: validate the email as given, find the user, compare the password with the hash. */
  function LoginSpec(b: Bcrypt, rows: seq<User>, req: UserLoginRequest): Result<UserLoginResponse, UserError> {
    var errs := RequiredErrors(req.email, req.password);
    if errs != [] then Success(UserLoginResponse(false, errs, None))
    else match FindByEmail(rows, req.email)
      case None => Success(UserLoginResponse(false, [MsgNoSuchUser], None))
      case Some(user) =>
        match b.compare(user.password, Utf8(req.password))
        case Match => Success(UserLoginResponse(true, [], Some(user)))
        case Mismatch => Success(UserLoginResponse(false, [MsgInvalidPassword], None))
        case CompareFailed(code) => Failure(CompareError(code))
  }

  class UserService {
    const users: UserStore
    const bcrypt: Bcrypt

    ghost predicate Valid()
      reads this, users
    {
      users.Valid()
    }

    constructor (users: UserStore, bcrypt: Bcrypt)
      requires users.Valid()
      ensures Valid() && this.users == users && this.bcrypt == bcrypt
    {
      this.users := users;
      this.bcrypt := bcrypt;
    }

    method CreateUser(req: CreateUserRequest, id: Uuid, salt: Bytes, now: Time)
      returns (r: Result<CreateUserResponse, UserError>)
      requires Valid()
      modifies users
      ensures Valid()
      ensures (users.users, r) == CreateUserSpec(bcrypt, old(users.users), req, id, salt, now)
    {
      var email := TrimSpace(req.email);
      var errs: seq<string> := [];
      if email == "" {
        errs := errs + [MsgEmailRequired];
      }
      if req.password == "" {
        errs := errs + [MsgPasswordRequired];
      }
      assert errs == RequiredErrors(email, req.password);
      if |errs| > 0 {
        return Success(CreateUserResponse(false, errs, None));
      }
      var found := users.FindByEmailAddress(email);
      if found.Some? {
        return Success(CreateUserResponse(false, [MsgAccountExists], None));
      }
      var pass := bcrypt.generate(Utf8(req.password), DefaultCost, salt);
      if pass.Failure? {
        return Failure(HashFailed(pass.error));
      }
      var user := User(id, email, false, req.firstName, req.lastName, pass.value, now);
      var err := users.Create(user);
      if err.Some? {
        return Failure(UserStoreFailed(err.value));
      }
      r := Success(CreateUserResponse(true, [], Some(user)));
    }

    method Login(req: UserLoginRequest) returns (r: Result<UserLoginResponse, UserError>)
      ensures r == LoginSpec(bcrypt, users.users, req)
    {
      var errs: seq<string> := [];
      if req.email == "" {
        errs := errs + [MsgEmailRequired];
      }
      if req.password == "" {
        errs := errs + [MsgPasswordRequired];
      }
      assert errs == RequiredErrors(req.email, req.password);
      if |errs| > 0 {
        return Success(UserLoginResponse(false, errs, None));
      }
      var user := users.FindByEmailAddress(req.email);
      if user.None? {
        return Success(UserLoginResponse(false, [MsgNoSuchUser], None));
      }
      var cmp := bcrypt.compare(user.value.password, Utf8(req.password));
      if cmp.CompareFailed? {
        return Failure(CompareError(cmp.code));
      }
      if cmp.Mismatch? {
        return Success(UserLoginResponse(false, [MsgInvalidPassword], None));
      }
      r := Success(UserLoginResponse(true, [], Some(user.value)));
    }

    method FindUser(id: Uuid) returns (r: Option<User>)
      ensures r == FindById(users.users, id)
    {
      r := users.Find(id);
    }
  }

  // ---------------------------------------------------------------------------------------------
  // What CreateUser guarantees

  /** Any validation error (the email is checked after trimming, the password as given) is
      answered with every failing rule's message, and nothing is looked up or stored. */
  lemma CreateUserRejectsInvalid(b: Bcrypt, rows: seq<User>, req: CreateUserRequest, id: Uuid, salt: Bytes, now: Time)
    requires AllSpace(req.email) || req.password == ""
    ensures var (rows1, r) := CreateUserSpec(b, rows, req, id, salt, now);
      && rows1 == rows && r.Success? && !r.value.success && r.value.user.None?
      && (MsgEmailRequired in r.value.errors <==> AllSpace(req.email))
      && (MsgPasswordRequired in r.value.errors <==> req.password == "")
      && (AllSpace(req.email) && req.password == "" ==> r.value.errors == [MsgEmailRequired, MsgPasswordRequired])
  {
    TrimSpaceSpec(req.email);
  }

  /** A valid request whose trimmed email is taken is answered with the duplicate-account
      message, and nothing is stored. */
  lemma CreateUserDuplicateEmail(b: Bcrypt, rows: seq<User>, req: CreateUserRequest, id: Uuid, salt: Bytes, now: Time, i: int)
    requires !AllSpace(req.email) && req.password != ""
    requires 0 <= i < |rows| && rows[i].email == TrimSpace(req.email)
    ensures CreateUserSpec(b, rows, req, id, salt, now) == (rows, Success(CreateUserResponse(false, [MsgAccountExists], None)))
  {
    TrimSpaceSpec(req.email);
  }

  /** A valid request with a free email and id stores one user: the trimmed email, the names as
      given, not verified, and as password the hash, which matches the request's password. */
  lemma CreateUserStores(b: Bcrypt, rows: seq<User>, req: CreateUserRequest, id: Uuid, salt: Bytes, now: Time)
    requires MatchesOwn(b) && !AllSpace(req.email) && req.password != ""
    requires FindByEmail(rows, TrimSpace(req.email)).None? && FindById(rows, id).None?
    requires b.generate(Utf8(req.password), DefaultCost, salt).Success?
    ensures var (rows1, r) := CreateUserSpec(b, rows, req, id, salt, now);
      var hash := b.generate(Utf8(req.password), DefaultCost, salt).value;
      && r.Success? && r.value.success && r.value.errors == [] && r.value.user.Some?
      && var u := r.value.user.value;
      && rows1 == rows + [u]
      && u == User(id, TrimSpace(req.email), false, req.firstName, req.lastName, hash, now)
      && b.compare(u.password, Utf8(req.password)) == Match
  {
    TrimSpaceSpec(req.email);
  }

  /** CreateUser keeps ids and emails unique. */
  lemma CreateUserKeepsUnique(b: Bcrypt, rows: seq<User>, req: CreateUserRequest, id: Uuid, salt: Bytes, now: Time)
    requires UniqueUserIds(rows) && UniqueEmails(rows)
    ensures UniqueUserIds(CreateUserSpec(b, rows, req, id, salt, now).0)
    ensures UniqueEmails(CreateUserSpec(b, rows, req, id, salt, now).0)
  {
    var rows1 := CreateUserSpec(b, rows, req, id, salt, now).0;
    if rows1 != rows {
      var u := rows1[|rows|];
      assert rows1 == rows + [u];
      forall k | 0 <= k < |rows| ensures rows[k].id != u.id && rows[k].email != u.email {
      }
    }
  }

  // ---------------------------------------------------------------------------------------------
  // What Login guarantees

  /** Login checks the email exactly as given: a blank email that is not empty passes the check
      and is looked up. */
  lemma LoginDoesNotTrim(b: Bcrypt, rows: seq<User>, req: UserLoginRequest)
    requires req.email != "" && AllSpace(req.email) && req.password != ""
    requires FindByEmail(rows, req.email).None?
    ensures LoginSpec(b, rows, req) == Success(UserLoginResponse(false, [MsgNoSuchUser], None))
    ensures TrimSpace(req.email) == ""
  {
    TrimSpaceSpec(req.email);
  }

  /** Login succeeds exactly when the request passes validation, the email belongs to a user and
      the password matches that user's hash, and then answers that user; an unknown email, a
      mismatched password and a failed validation give distinct messages. */
  lemma LoginOutcomes(b: Bcrypt, rows: seq<User>, req: UserLoginRequest)
    ensures var r := LoginSpec(b, rows, req);
      var found := FindByEmail(rows, req.email);
      var checked := req.email != "" && req.password != "" && found.Some?;
      && (r.Success? && r.value.success <==> (checked && b.compare(found.value.password, Utf8(req.password)) == Match))
      && (r.Success? && r.value.success ==> r.value.user == found && r.value.errors == [])
      && (r.Success? && !r.value.success ==> r.value.user.None?)
      && (r.Failure? <==> (checked && b.compare(found.value.password, Utf8(req.password)).CompareFailed?))
      && (r.Success? && MsgNoSuchUser in r.value.errors <==> (req.email != "" && req.password != "" && found.None?))
      && (r.Success? && MsgInvalidPassword in r.value.errors <==>
            (checked && b.compare(found.value.password, Utf8(req.password)).Mismatch?))
  {
  }

  /** With a sound bcrypt, a user created from a request logs in with the trimmed email and the
      same password, and with no other password that bcrypt can tell apart from it. */
  lemma CreateThenLogin(b: Bcrypt, rows: seq<User>, req: CreateUserRequest, id: Uuid, salt: Bytes, now: Time, other: string)
    requires Sound(b) && UniqueUserIds(rows) && UniqueEmails(rows)
    requires CreateUserSpec(b, rows, req, id, salt, now).1.Success?
    requires CreateUserSpec(b, rows, req, id, salt, now).1.value.success
    ensures var (rows1, r) := CreateUserSpec(b, rows, req, id, salt, now);
      && LoginSpec(b, rows1, UserLoginRequest(TrimSpace(req.email), req.password)) ==
           Success(UserLoginResponse(true, [], r.value.user))
      && (other != "" && other != req.password && Distinguishable(Utf8(other)) && Distinguishable(Utf8(req.password)) ==>
            LoginSpec(b, rows1, UserLoginRequest(TrimSpace(req.email), other)) ==
              Success(UserLoginResponse(false, [MsgInvalidPassword], None)))
  {
    var (rows1, r) := CreateUserSpec(b, rows, req, id, salt, now);
    CreateUserKeepsUnique(b, rows, req, id, salt, now);
    assert rows1[|rows|] == r.value.user.value;
    FindByEmailUnique(rows1, |rows|);
    Utf8Injective(other, req.password);
  }
}
