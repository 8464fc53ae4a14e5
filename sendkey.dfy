/** The shared records of sendkey.go and the JSON objects Go's encoding/json makes of them.
    A field tagged `json:"-"` does not appear in the object; every other field appears under
    its tag name, in declaration order. */
module SendKey {
  import opened GoStrings

  /** uuid.UUID: sixteen bytes. */
  type Uuid = s: Bytes | |s| == 16 witness [0, 0, 0, 0, 0, 0, 0, 0, 0, 0, 0, 0, 0, 0, 0, 0]

  /** uuid.Nil, the all-zero UUID. */
  const Nil: Uuid := [0, 0, 0, 0, 0, 0, 0, 0, 0, 0, 0, 0, 0, 0, 0, 0]

  /** time.Time in UTC, as nanoseconds since an epoch; time.Duration, in nanoseconds. */
  type Time = int
  type Duration = int

  datatype User = User(
    id: Uuid,
    email: string,
    emailVerified: bool,
    firstName: string,
    lastName: string,
    password: string,
    createdAtUtc: Time)

  datatype Entry = Entry(
    id: Uuid,
    name: string,
    sentByUserId: Uuid,
    sentToEmail: string,
    nonce: Bytes,
    value: Bytes,
    invalidAttempts: int,
    createdAtUtc: Time,
    expiresAtUtc: Time)

  datatype ClaimedEntry = ClaimedEntry(
    entryId: Uuid,
    name: string,
    sentByUserId: Uuid,
    sentToEmail: string,
    claimedAtUtc: Time)

  datatype ExpiredEntry = ExpiredEntry(
    entryId: Uuid,
    name: string,
    sentByUserId: Uuid,
    sentToEmail: string,
    tooManyAttempts: bool,
    expiredAtUtc: Time)

  datatype RefreshToken = RefreshToken(
    id: Uuid,
    userId: Uuid,
    token: string,
    createdAtUtc: Time,
    expiresAtUtc: Time)

  // ---------------------------------------------------------------------------------------------
  // JSON views. UUIDs and times stay abstract values: their text formats belong to the uuid and
  // time packages.

  datatype Json = JString(s: string) | JBool(b: bool) | JInt(i: int) | JUuid(u: Uuid) | JTime(t: Time)

  type JsonObject = seq<(string, Json)>

  function Keys(o: JsonObject): (ks: seq<string>)
    ensures |ks| == |o|
    ensures forall i :: 0 <= i < |o| ==> ks[i] == o[i].0
  {
    if o == [] then [] else [o[0].0] + Keys(o[1..])
  }

  function UserJson(u: User): JsonObject {
    [("id", JUuid(u.id)), ("email", JString(u.email)), ("emailVerified", JBool(u.emailVerified)),
     ("firstName", JString(u.firstName)), ("lastName", JString(u.lastName)),
     ("createdAtUtc", JTime(u.createdAtUtc))]
  }

  function EntryJson(e: Entry): JsonObject {
    [("id", JUuid(e.id)), ("name", JString(e.name)), ("sentByUserId", JUuid(e.sentByUserId)),
     ("sentToEmail", JString(e.sentToEmail)), ("invalidAttempts", JInt(e.invalidAttempts)),
     ("createdAtUtc", JTime(e.createdAtUtc)), ("expiresAtUtc", JTime(e.expiresAtUtc))]
  }

  function ClaimedEntryJson(c: ClaimedEntry): JsonObject {
    [("entryId", JUuid(c.entryId)), ("name", JString(c.name)), ("sentByUserId", JUuid(c.sentByUserId)),
     ("sentToEmail", JString(c.sentToEmail)), ("claimedAtUtc", JTime(c.claimedAtUtc))]
  }

  function ExpiredEntryJson(x: ExpiredEntry): JsonObject {
    [("entryId", JUuid(x.entryId)), ("name", JString(x.name)), ("sentByUserId", JUuid(x.sentByUserId)),
     ("sentToEmail", JString(x.sentToEmail)), ("tooManyAttempts", JBool(x.tooManyAttempts)),
     ("expiredAtUtc", JTime(x.expiredAtUtc))]
  }

  function RefreshTokenJson(t: RefreshToken): JsonObject {
    [("id", JUuid(t.id)), ("userId", JUuid(t.userId)), ("token", JString(t.token)),
     ("createdAtUtc", JTime(t.createdAtUtc)), ("expiresAtUtc", JTime(t.expiresAtUtc))]
  }

  /** A user's JSON object has no password member, whatever the password is. */
  lemma UserJsonHidesPassword(u: User)
    ensures "password" !in Keys(UserJson(u))
    ensures Keys(UserJson(u)) == ["id", "email", "emailVerified", "firstName", "lastName", "createdAtUtc"]
  {
    assert Keys(UserJson(u)) == ["id", "email", "emailVerified", "firstName", "lastName", "createdAtUtc"];
  }

  /** Two users with the same JSON object differ at most in their password. */
  lemma UserJsonDeterminesUser(u: User, v: User)
    ensures UserJson(u) == UserJson(v) <==> u.(password := v.password) == v
  {
    if UserJson(u) == UserJson(v) {
      var ju, jv := UserJson(u), UserJson(v);
      assert ju[0] == jv[0] && ju[1] == jv[1] && ju[2] == jv[2];
      assert ju[3] == jv[3] && ju[4] == jv[4] && ju[5] == jv[5];
    }
  }

  /** An entry's JSON object carries the attempt count but neither the nonce nor the sealed
      value. */
  lemma EntryJsonHidesSecrets(e: Entry)
    ensures "nonce" !in Keys(EntryJson(e)) && "value" !in Keys(EntryJson(e))
    ensures ("invalidAttempts", JInt(e.invalidAttempts)) in EntryJson(e)
  {
    assert Keys(EntryJson(e)) == ["id", "name", "sentByUserId", "sentToEmail", "invalidAttempts", "createdAtUtc", "expiresAtUtc"];
    assert EntryJson(e)[4] == ("invalidAttempts", JInt(e.invalidAttempts));
  }

  /** Two entries with the same JSON object differ at most in their nonce and sealed value. */
  lemma EntryJsonDeterminesEntry(e: Entry, f: Entry)
    ensures EntryJson(e) == EntryJson(f) <==> e.(nonce := f.nonce, value := f.value) == f
  {
    if EntryJson(e) == EntryJson(f) {
      var je, jf := EntryJson(e), EntryJson(f);
      assert je[0] == jf[0] && je[1] == jf[1] && je[2] == jf[2] && je[3] == jf[3];
      assert je[4] == jf[4] && je[5] == jf[5] && je[6] == jf[6];
    }
  }

  /** Every field of the terminal records is visible, so their objects determine them. */
  lemma TerminalRecordsJsonInjective(c: ClaimedEntry, d: ClaimedEntry, x: ExpiredEntry, y: ExpiredEntry)
    ensures ClaimedEntryJson(c) == ClaimedEntryJson(d) <==> c == d
    ensures ExpiredEntryJson(x) == ExpiredEntryJson(y) <==> x == y
    ensures Keys(ClaimedEntryJson(c)) == ["entryId", "name", "sentByUserId", "sentToEmail", "claimedAtUtc"]
    ensures ("tooManyAttempts", JBool(x.tooManyAttempts)) in ExpiredEntryJson(x)
  {
    assert Keys(ClaimedEntryJson(c)) == ["entryId", "name", "sentByUserId", "sentToEmail", "claimedAtUtc"];
    assert ExpiredEntryJson(x)[4] == ("tooManyAttempts", JBool(x.tooManyAttempts));
    if ClaimedEntryJson(c) == ClaimedEntryJson(d) {
      assert ClaimedEntryJson(c)[0] == ClaimedEntryJson(d)[0] && ClaimedEntryJson(c)[1] == ClaimedEntryJson(d)[1];
      assert ClaimedEntryJson(c)[2] == ClaimedEntryJson(d)[2] && ClaimedEntryJson(c)[3] == ClaimedEntryJson(d)[3];
      assert ClaimedEntryJson(c)[4] == ClaimedEntryJson(d)[4];
    }
    if ExpiredEntryJson(x) == ExpiredEntryJson(y) {
      assert ExpiredEntryJson(x)[0] == ExpiredEntryJson(y)[0] && ExpiredEntryJson(x)[1] == ExpiredEntryJson(y)[1];
      assert ExpiredEntryJson(x)[2] == ExpiredEntryJson(y)[2] && ExpiredEntryJson(x)[3] == ExpiredEntryJson(y)[3];
      assert ExpiredEntryJson(x)[4] == ExpiredEntryJson(y)[4] && ExpiredEntryJson(x)[5] == ExpiredEntryJson(y)[5];
    }
  }

  lemma RefreshTokenJsonInjective(t: RefreshToken, s: RefreshToken)
    ensures RefreshTokenJson(t) == RefreshTokenJson(s) <==> t == s
  {
    if RefreshTokenJson(t) == RefreshTokenJson(s) {
      assert RefreshTokenJson(t)[0] == RefreshTokenJson(s)[0] && RefreshTokenJson(t)[1] == RefreshTokenJson(s)[1];
      assert RefreshTokenJson(t)[2] == RefreshTokenJson(s)[2] && RefreshTokenJson(t)[3] == RefreshTokenJson(s)[3];
      assert RefreshTokenJson(t)[4] == RefreshTokenJson(s)[4];
    }
  }
}
