/** EntryService (internal/app/entries.go): entries are created after validation and stored
    sealed; a lookup expires a lapsed entry before it checks the nonce; a reveal is limited by
    an attempt counter; a revealed or expired entry is moved to a terminal table.
    Each service call reads the clock once, as `now`; the nonce and the new id are parameters. */
module Entries {
  import opened Wrappers
  import opened GoStrings
  import opened SendKey
  import opened Storage
  import opened Crypto
  import opened Hex
  import opened EntryStore

  const MsgSenderRequired := "A sender ID is required."
  const MsgNameRequired := "A name is required."
  const MsgEmailRequired := "A send to email is required."
  const MsgValueRequired := "A value is required."
  const MsgSecretRequired := "A secret is required."
  const MsgDurationPositive := "Duration must be greater than 0."
  const MsgInvalidEntryId := "Invalid entry ID."
  const MsgInvalidSecret := "Invalid secret."
  const MsgTooManyAttempts := "Too many attempts have been made, and the entry has been expired."

  datatype CreateEntryRequest = CreateEntryRequest(
    name: string, senderId: Uuid, sendToEmail: string, value: string, secret: string, duration: Duration)

  datatype CreateEntryResponse = CreateEntryResponse(success: bool, errors: seq<string>, entry: Option<Entry>)

  datatype DecryptEntryRequest = DecryptEntryRequest(id: Uuid, nonce: string, secret: string)

  datatype DecryptEntryResponse = DecryptEntryResponse(
    success: bool, errors: seq<string>, expired: bool, entry: Option<Entry>)

  /** The `error` results of the service: a store failure or a cipher failure. */
  datatype ServiceError = StoreFailed(store: StoreError) | CryptoFailed(crypto: CryptoError)

  datatype Config = Config(aesKey: Bytes, maxAttempts: int, cipher: Cipher)

  // ---------------------------------------------------------------------------------------------
  // Validation of CreateEntry

  /** The messages of the six rules, in the order CreateEntry checks them. */
  const CreateMessages: seq<string> :=
    [MsgSenderRequired, MsgNameRequired, MsgEmailRequired, MsgValueRequired, MsgSecretRequired, MsgDurationPositive]

  /** For each rule of CreateEntry, in the order it is checked, whether the request violates
      it. The e-mail rule looks at the trimmed address, the other text rules at the trimmed
      text, and the duration must be positive. */
  function Checks(req: CreateEntryRequest): (c: seq<bool>)
    ensures |c| == |CreateMessages|
  {
    [req.senderId == Nil, TrimSpace(req.name) == "", TrimSpace(req.sendToEmail) == "",
     TrimSpace(req.value) == "", TrimSpace(req.secret) == "", req.duration <= 0]
  }

  /** The messages whose flag is set, in their order. */
  function Select(ms: seq<string>, fs: seq<bool>): (r: seq<string>)
    requires |ms| == |fs|
    ensures |r| <= |ms|
  {
    if ms == [] then [] else (if fs[0] then [ms[0]] else []) + Select(ms[1..], fs[1..])
  }

  /** CreateEntry's validation errors: one message per violated rule, in rule order; every
      rule is checked, so the errors are collected rather than the first one returned. */
  function CreateEntryErrors(req: CreateEntryRequest): (errs: seq<string>) {
    Select(CreateMessages, Checks(req))
  }

  predicate Distinct(ms: seq<string>) {
    forall i, j :: 0 <= i < j < |ms| ==> ms[i] != ms[j]
  }

  lemma {:induction false} SelectMembers(ms: seq<string>, fs: seq<bool>)
    requires |ms| == |fs| && Distinct(ms)
    ensures forall j :: 0 <= j < |ms| ==> (ms[j] in Select(ms, fs) <==> fs[j])
    ensures forall x :: x in Select(ms, fs) ==> x in ms
    ensures Select(ms, fs) == [] <==> forall j :: 0 <= j < |fs| ==> !fs[j]
  {
    if ms != [] {
      assert Distinct(ms[1..]) by {
        forall i, j | 0 <= i < j < |ms[1..]| ensures ms[1..][i] != ms[1..][j] {
          assert ms[1..][i] == ms[i + 1] && ms[1..][j] == ms[j + 1];
        }
      }
      SelectMembers(ms[1..], fs[1..]);
      forall j | 0 < j < |ms| ensures ms[j] in Select(ms, fs) <==> fs[j] {
        assert ms[j] == ms[1..][j - 1] && fs[j] == fs[1..][j - 1];
        assert ms[j] != ms[0];
      }
      forall k | 0 <= k < |ms[1..]| ensures ms[1..][k] != ms[0] {
        assert ms[1..][k] == ms[k + 1];
      }
      if Select(ms, fs) == [] {
        forall j | 0 <= j < |fs| ensures !fs[j] {
          if j > 0 { assert fs[j] == fs[1..][j - 1]; }
        }
      }
    }
  }

  /** Each of CreateEntry's messages is among its errors exactly when the request violates that
      rule. */
  lemma CreateEntryErrorsByRule(req: CreateEntryRequest)
    ensures MsgSenderRequired in CreateEntryErrors(req) <==> req.senderId == Nil
    ensures MsgNameRequired in CreateEntryErrors(req) <==> TrimSpace(req.name) == ""
    ensures MsgEmailRequired in CreateEntryErrors(req) <==> TrimSpace(req.sendToEmail) == ""
    ensures MsgValueRequired in CreateEntryErrors(req) <==> TrimSpace(req.value) == ""
    ensures MsgSecretRequired in CreateEntryErrors(req) <==> TrimSpace(req.secret) == ""
    ensures MsgDurationPositive in CreateEntryErrors(req) <==> req.duration <= 0
  {
    assert MsgSenderRequired in CreateEntryErrors(req) <==> req.senderId == Nil by { RuleMessage(req, 0); }
    assert MsgNameRequired in CreateEntryErrors(req) <==> TrimSpace(req.name) == "" by { RuleMessage(req, 1); }
    assert MsgEmailRequired in CreateEntryErrors(req) <==> TrimSpace(req.sendToEmail) == "" by { RuleMessage(req, 2); }
    assert MsgValueRequired in CreateEntryErrors(req) <==> TrimSpace(req.value) == "" by { RuleMessage(req, 3); }
    assert MsgSecretRequired in CreateEntryErrors(req) <==> TrimSpace(req.secret) == "" by { RuleMessage(req, 4); }
    assert MsgDurationPositive in CreateEntryErrors(req) <==> req.duration <= 0 by { RuleMessage(req, 5); }
  }

  /** CreateEntry reports only its own messages, and none exactly when the request violates no
      rule. */
  lemma CreateEntryErrorsNone(req: CreateEntryRequest)
    ensures forall m :: m in CreateEntryErrors(req) ==> m in CreateMessages
    ensures CreateEntryErrors(req) == [] <==>
      && req.senderId != Nil && TrimSpace(req.name) != "" && TrimSpace(req.sendToEmail) != ""
      && TrimSpace(req.value) != "" && TrimSpace(req.secret) != "" && req.duration > 0
  {
    var c := Checks(req);
    assert forall m :: m in CreateEntryErrors(req) ==> m in CreateMessages by {
      CreateMessagesDistinct();
      SelectMembers(CreateMessages, c);
    }
    assert CreateEntryErrors(req) == [] <==> forall j :: 0 <= j < |c| ==> !c[j] by {
      CreateMessagesDistinct();
      SelectMembers(CreateMessages, c);
    }
    assert c[0] == (req.senderId == Nil) && c[1] == (TrimSpace(req.name) == "");
    assert c[2] == (TrimSpace(req.sendToEmail) == "") && c[3] == (TrimSpace(req.value) == "");
    assert c[4] == (TrimSpace(req.secret) == "") && c[5] == (req.duration <= 0);
  }

  /** The message of rule `k` is among the errors exactly when the request violates rule `k`. */
  lemma RuleMessage(req: CreateEntryRequest, k: int)
    requires 0 <= k < |CreateMessages|
    ensures CreateMessages[k] in CreateEntryErrors(req) <==> Checks(req)[k]
  {
    CreateMessagesDistinct();
    SelectMembers(CreateMessages, Checks(req));
  }

  lemma CreateMessagesDistinct()
    ensures Distinct(CreateMessages)
  {
    assert |MsgSenderRequired| == 24 && |MsgNameRequired| == 19 && |MsgEmailRequired| == 28;
    assert |MsgValueRequired| == 20 && |MsgSecretRequired| == 21 && |MsgDurationPositive| == 32;
  }

  // ---------------------------------------------------------------------------------------------
  // The state the service keeps, and its operations as functions of that state

  /** What every stored entry satisfies: the primary key, and a nonce of the GCM size. */
  predicate Wf(t: Tables) {
    UniqueIds(t.entries) && forall e :: e in t.entries ==> |e.nonce| == NonceSize
  }

  function ExpiredOf(e: Entry, tooManyAttempts: bool, now: Time): (x: ExpiredEntry) {
    ExpiredEntry(e.id, e.name, e.sentByUserId, e.sentToEmail, tooManyAttempts, now)
  }

  function ClaimedOf(e: Entry, now: Time): (c: ClaimedEntry) {
    ClaimedEntry(e.id, e.name, e.sentByUserId, e.sentToEmail, now)
  }

  /** expireEntry: the expired record is written, then the entry is deleted. */
  function Expire(t: Tables, e: Entry, tooManyAttempts: bool, now: Time): Tables {
    Tables(Without(t.entries, e.id), t.claimed, t.expired + [ExpiredOf(e, tooManyAttempts, now)])
  }

  /** claimEntry: the claimed record is written, then the entry is deleted. */
  function Claim(t: Tables, e: Entry, now: Time): Tables {
    Tables(Without(t.entries, e.id), t.claimed + [ClaimedOf(e, now)], t.expired)
  }

  /** An entry is live while its expiry lies after `now`. */
  predicate Live(e: Entry, now: Time) {
    e.expiresAtUtc > now
  }

  /** CreateEntry. */
  function CreateSpec(cfg: Config, t: Tables, req: CreateEntryRequest, nonce: Bytes, id: Uuid, now: Time)
    : (Tables, Result<CreateEntryResponse, ServiceError>)
    requires |nonce| == NonceSize
  {
    var errs := CreateEntryErrors(req);
    if errs != [] then (t, Success(CreateEntryResponse(false, errs, None)))
    else match Encrypt(cfg.cipher, cfg.aesKey, Utf8(req.value), nonce, Utf8(req.secret))
      case Failure(err) => (t, Failure(CryptoFailed(err)))
      case Success(sealed) => StoreNew(t, NewEntry(req, nonce, sealed, id, now))
  }

  /** The entry CreateEntry builds: the trimmed recipient, no invalid attempts, and an expiry
      `duration` after its creation. */
  function NewEntry(req: CreateEntryRequest, nonce: Bytes, sealed: Bytes, id: Uuid, now: Time): Entry {
    Entry(id, req.name, req.senderId, TrimSpace(req.sendToEmail), nonce, sealed, 0, now, now + req.duration)
  }

  /** The store's Create, then the success response carrying the entry. */
  function StoreNew(t: Tables, entry: Entry): (Tables, Result<CreateEntryResponse, ServiceError>) {
    if HasId(t.entries, entry.id) then (t, Failure(StoreFailed(ErrDuplicateKey)))
    else (t.(entries := t.entries + [entry]), Success(CreateEntryResponse(true, [], Some(entry))))
  }

  /** FindEntry: None when the id is absent, when the entry has lapsed (which expires it), and
      when the presented nonce is not the hex encoding of the stored one. */
  function FindSpec(t: Tables, id: Uuid, nonce: string, now: Time): (Tables, Option<Entry>) {
    match Lookup(t.entries, id)
    case None => (t, None)
    case Some(e) =>
      if !Live(e, now) then (Expire(t, e, false, now), None)
      else if EncodeToString(e.nonce) != nonce then (t, None)
      else (t, Some(e))
  }

  /** The loop of FindByUserID over the rows the store returned, from `rows[0]` on, with
      `acc` the entries kept so far. */
  function ListFrom(t: Tables, rows: seq<Entry>, now: Time, acc: seq<Entry>): (Tables, seq<Entry>)
    decreases |rows|
  {
    if rows == [] then (t, acc)
    else if Live(rows[0], now) then ListFrom(t, rows[1..], now, acc + [rows[0]])
    else ListFrom(Expire(t, rows[0], false, now), rows[1..], now, acc)
  }

  /** FindByUserID. */
  function ListSpec(t: Tables, user: Uuid, now: Time): (Tables, seq<Entry>) {
    ListFrom(t, OrderByCreated(Owned(t.entries, user)), now, [])
  }

  /** incrementInvalidAttempts: raise the count, read it back, and expire the entry (as too
      many attempts) once the count reaches `maxAttempts`. */
  function IncrementSpec(cfg: Config, t: Tables, e: Entry, now: Time): (Tables, Result<Option<ExpiredEntry>, ServiceError>) {
    var t1 := t.(entries := Incremented(t.entries, e.id));
    match Lookup(t1.entries, e.id)
    case None => (t1, Failure(StoreFailed(ErrNoRows)))
    case Some(row) =>
      if row.invalidAttempts >= cfg.maxAttempts then (Expire(t1, e, true, now), Success(Some(ExpiredOf(e, true, now))))
      else (t1, Success(None))
  }

  /** DecryptEntry. */
  function DecryptSpec(cfg: Config, t: Tables, req: DecryptEntryRequest, now: Time): (Tables, Result<DecryptEntryResponse, ServiceError>)
    requires Wf(t)
  {
    var found := FindSpec(t, req.id, req.nonce, now);
    match found.1
    case None => (found.0, Success(DecryptEntryResponse(false, [MsgInvalidEntryId], false, None)))
    case Some(e) =>
      match Decrypt(cfg.cipher, cfg.aesKey, e.value, e.nonce, Utf8(req.secret))
      case Failure(_) =>
        var inc := IncrementSpec(cfg, found.0, e, now);
        (match inc.1
         case Failure(err) => (inc.0, Failure(err))
         case Success(ee) =>
           (inc.0, Success(DecryptEntryResponse(false, [MsgInvalidSecret] + (if ee.Some? then [MsgTooManyAttempts] else []), ee.Some?, None))))
      case Success(plain) =>
        (Claim(found.0, e, now), Success(DecryptEntryResponse(true, [], false, Some(e.(value := plain)))))
  }

  // ---------------------------------------------------------------------------------------------
  // The service object

  class EntryService {
    const store: Store
    const aesKey: Bytes
    const maxAttempts: int
    const cipher: Cipher

    function Cfg(): Config {
      Config(aesKey, maxAttempts, cipher)
    }

    ghost predicate Valid()
      reads this, store
    {
      store.Valid() && Wf(store.State())
    }

    /** NewEntryService. */
    constructor (er: Store, key: Bytes, maxAttempts: int, cipher: Cipher)
      ensures this.store == er && this.aesKey == key && this.maxAttempts == maxAttempts && this.cipher == cipher
    {
      this.store := er;
      this.aesKey := key;
      this.maxAttempts := maxAttempts;
      this.cipher := cipher;
    }

    method CreateEntry(req: CreateEntryRequest, nonce: Bytes, id: Uuid, now: Time)
      returns (r: Result<CreateEntryResponse, ServiceError>)
      requires Valid() && |nonce| == NonceSize
      modifies store
      ensures Valid()
      ensures (store.State(), r) == CreateSpec(Cfg(), old(store.State()), req, nonce, id, now)
    {
      ghost var t0 := store.State();
      var errs := CreateEntryErrors(req);
      if errs != [] {
        CreateRejectsInvalid(Cfg(), t0, req, nonce, id, now);
        return Success(CreateEntryResponse(false, errs, None));
      }
      var sealed := Encrypt(cipher, aesKey, Utf8(req.value), nonce, Utf8(req.secret));
      if sealed.Failure? {
        return Failure(CryptoFailed(sealed.error));
      }
      var entry := NewEntry(req, nonce, sealed.value, id, now);
      CreateSpecStores(Cfg(), t0, req, nonce, id, now);
      var err := store.Create(entry);
      if err.Some? {
        return Failure(StoreFailed(err.value));
      }
      SendEntry(entry);
      r := Success(CreateEntryResponse(true, [], Some(entry)));
    }

    /** SendEntry does nothing yet (it never reports an error). */
    method SendEntry(entry: Entry)
    {
    }

    method FindEntry(id: Uuid, nonce: string, now: Time) returns (r: Option<Entry>)
      requires Valid()
      modifies store
      ensures Valid()
      ensures (store.State(), r) == FindSpec(old(store.State()), id, nonce, now)
    {
      var entry := store.Find(id);
      if entry.None? {
        return None;
      }
      var e := entry.value;
      if !(e.expiresAtUtc > now) {
        var _ := ExpireEntry(e, false, now);
        return None;
      }
      if EncodeToString(e.nonce) != nonce {
        return None;
      }
      r := Some(e);
    }

    method FindByUserID(user: Uuid, now: Time) returns (r: seq<Entry>)
      requires Valid()
      modifies store
      ensures Valid()
      ensures (store.State(), r) == ListSpec(old(store.State()), user, now)
    {
      var rows := store.FindByUserID(user);
      r := KeepLive(rows, now);
    }

    /** The loop of FindByUserID: each lapsed row is expired, each live one kept. */
    method KeepLive(rows: seq<Entry>, now: Time) returns (r: seq<Entry>)
      requires Valid()
      modifies store
      ensures Valid()
      ensures (store.State(), r) == ListFrom(old(store.State()), rows, now, [])
    {
      ghost var goal := ListFrom(store.State(), rows, now, []);
      assert rows[0..] == rows;
      r := [];
      var i := 0;
      while i < |rows|
        invariant 0 <= i <= |rows|
        invariant Valid()
        invariant ListFrom(store.State(), rows[i..], now, r) == goal
      {
        if rows[i].expiresAtUtc > now {
          ListFromLive(store.State(), rows, i, now, r);
          r := r + [rows[i]];
        } else {
          ListFromLapsed(store.State(), rows, i, now, r);
          var _ := ExpireEntry(rows[i], false, now);
        }
        i := i + 1;
      }
    }

    method DecryptEntry(req: DecryptEntryRequest, now: Time) returns (r: Result<DecryptEntryResponse, ServiceError>)
      requires Valid()
      modifies store
      ensures Valid()
      ensures (store.State(), r) == DecryptSpec(Cfg(), old(store.State()), req, now)
    {
      ghost var t0 := store.State();
      var entry := FindEntry(req.id, req.nonce, now);
      if entry.None? {
        return Success(DecryptEntryResponse(false, [MsgInvalidEntryId], false, None));
      }
      var e := entry.value;
      assert e in t0.entries;
      var value := Decrypt(cipher, aesKey, e.value, e.nonce, Utf8(req.secret));
      if value.Failure? {
        var ee := IncrementInvalidAttempts(e, now);
        if ee.Failure? {
          return Failure(ee.error);
        }
        var errs := [MsgInvalidSecret];
        if ee.value.Some? {
          errs := errs + [MsgTooManyAttempts];
        }
        assert errs == [MsgInvalidSecret] + (if ee.value.Some? then [MsgTooManyAttempts] else []);
        return Success(DecryptEntryResponse(false, errs, ee.value.Some?, None));
      }
      var _ := ClaimEntry(e, now);
      r := Success(DecryptEntryResponse(true, [], false, Some(e.(value := value.value))));
    }

    method ExpireEntry(e: Entry, tooManyAttempts: bool, now: Time) returns (ee: ExpiredEntry)
      requires Valid()
      modifies store
      ensures Valid()
      ensures ee == ExpiredOf(e, tooManyAttempts, now)
      ensures store.State() == Expire(old(store.State()), e, tooManyAttempts, now)
    {
      ee := ExpiredOf(e, tooManyAttempts, now);
      store.CreateExpiredEntry(ee);
      WithoutRows(store.entries, e.id);
      store.Delete(e.id);
    }

    method IncrementInvalidAttempts(e: Entry, now: Time) returns (r: Result<Option<ExpiredEntry>, ServiceError>)
      requires Valid()
      modifies store
      ensures Valid()
      ensures (store.State(), r) == IncrementSpec(Cfg(), old(store.State()), e, now)
    {
      IncrementedWf(store.State(), e.id);
      var attempts := store.IncrementInvalidAttempts(e.id);
      if attempts.Failure? {
        return Failure(StoreFailed(attempts.error));
      }
      if attempts.value >= maxAttempts {
        var ee := ExpireEntry(e, true, now);
        return Success(Some(ee));
      }
      r := Success(None);
    }

    method ClaimEntry(e: Entry, now: Time) returns (ce: ClaimedEntry)
      requires Valid()
      modifies store
      ensures Valid()
      ensures ce == ClaimedOf(e, now)
      ensures store.State() == Claim(old(store.State()), e, now)
    {
      ce := ClaimedOf(e, now);
      store.CreateClaimedEntry(ce);
      WithoutRows(store.entries, e.id);
      store.Delete(e.id);
    }
  }

  /** Any violated rule makes CreateEntry answer with the errors, Success=false and no entry,
      before the store is touched. */
  lemma CreateRejectsInvalid(cfg: Config, t: Tables, req: CreateEntryRequest, nonce: Bytes, id: Uuid, now: Time)
    requires |nonce| == NonceSize && CreateEntryErrors(req) != []
    ensures CreateSpec(cfg, t, req, nonce, id, now) == (t, Success(CreateEntryResponse(false, CreateEntryErrors(req), None)))
  {
  }

  lemma CreateSpecStores(cfg: Config, t: Tables, req: CreateEntryRequest, nonce: Bytes, id: Uuid, now: Time)
    requires |nonce| == NonceSize && CreateEntryErrors(req) == []
    requires Encrypt(cfg.cipher, cfg.aesKey, Utf8(req.value), nonce, Utf8(req.secret)).Success?
    ensures CreateSpec(cfg, t, req, nonce, id, now) ==
      StoreNew(t, NewEntry(req, nonce, Encrypt(cfg.cipher, cfg.aesKey, Utf8(req.value), nonce, Utf8(req.secret)).value, id, now))
  {
  }

  lemma ListFromLive(t: Tables, rows: seq<Entry>, i: int, now: Time, acc: seq<Entry>)
    requires 0 <= i < |rows| && Live(rows[i], now)
    ensures ListFrom(t, rows[i..], now, acc) == ListFrom(t, rows[i + 1..], now, acc + [rows[i]])
  {
    assert rows[i..][1..] == rows[i + 1..];
  }

  lemma ListFromLapsed(t: Tables, rows: seq<Entry>, i: int, now: Time, acc: seq<Entry>)
    requires 0 <= i < |rows| && !Live(rows[i], now)
    ensures ListFrom(t, rows[i..], now, acc) == ListFrom(Expire(t, rows[i], false, now), rows[i + 1..], now, acc)
  {
    assert rows[i..][1..] == rows[i + 1..];
  }

  /** The attempt update keeps the stored nonces. */
  lemma IncrementedWf(t: Tables, id: Uuid)
    requires Wf(t)
    ensures Wf(t.(entries := Incremented(t.entries, id)))
  {
    IncrementedRows(t.entries, id);
    IncrementedKeepsIds(t.entries, id, id);
    var r := Incremented(t.entries, id);
    forall e | e in r ensures |e.nonce| == NonceSize {
      var i :| 0 <= i < |r| && r[i] == e;
      assert t.entries[i] in t.entries;
    }
  }
}
