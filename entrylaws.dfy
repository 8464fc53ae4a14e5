/** What the entry service guarantees, stated over the functions that specify its methods. */
module EntryLaws {
  import opened Wrappers
  import opened GoStrings
  import opened SendKey
  import opened Storage
  import opened Crypto
  import opened Hex
  import opened EntryStore
  import opened Entries

  // ---------------------------------------------------------------------------------------------
  // The state invariant

  lemma UniqueIdsSame(rows: seq<Entry>, a: Entry, b: Entry)
    requires UniqueIds(rows) && a in rows && b in rows
    ensures a.id == b.id ==> a == b
  {
    var i :| 0 <= i < |rows| && rows[i] == a;
    var j :| 0 <= j < |rows| && rows[j] == b;
    assert a.id == b.id ==> i == j;
  }

  lemma ExpireWf(t: Tables, e: Entry, tooManyAttempts: bool, now: Time)
    requires Wf(t)
    ensures Wf(Expire(t, e, tooManyAttempts, now))
  {
    WithoutKeepsUniqueIds(t.entries, e.id);
    WithoutRows(t.entries, e.id);
  }

  lemma ClaimWf(t: Tables, e: Entry, now: Time)
    requires Wf(t)
    ensures Wf(Claim(t, e, now))
  {
    WithoutKeepsUniqueIds(t.entries, e.id);
    WithoutRows(t.entries, e.id);
  }

  lemma FindWf(t: Tables, id: Uuid, nonce: string, now: Time)
    requires Wf(t)
    ensures Wf(FindSpec(t, id, nonce, now).0)
    ensures FindSpec(t, id, nonce, now).1.Some? ==> FindSpec(t, id, nonce, now).0 == t
  {
    match Lookup(t.entries, id)
    case None =>
    case Some(e) => ExpireWf(t, e, false, now);
  }

  /** Every operation of the service keeps the invariant. */
  lemma DecryptWf(cfg: Config, t: Tables, req: DecryptEntryRequest, now: Time)
    requires Wf(t)
    ensures Wf(DecryptSpec(cfg, t, req, now).0)
  {
    FindWf(t, req.id, req.nonce, now);
    var found := FindSpec(t, req.id, req.nonce, now);
    if found.1.Some? {
      var e := found.1.value;
      IncrementedWf(t, e.id);
      ExpireWf(t.(entries := Incremented(t.entries, e.id)), e, true, now);
      ClaimWf(t, e, now);
    }
  }

  lemma CreateWf(cfg: Config, t: Tables, req: CreateEntryRequest, nonce: Bytes, id: Uuid, now: Time)
    requires Wf(t) && |nonce| == NonceSize
    ensures Wf(CreateSpec(cfg, t, req, nonce, id, now).0)
  {
    var t1 := CreateSpec(cfg, t, req, nonce, id, now).0;
    if t1 != t {
      assert !HasId(t.entries, id);
      forall i | 0 <= i < |t.entries| ensures t.entries[i].id != id {
      }
    }
  }

  // ---------------------------------------------------------------------------------------------
  // CreateEntry

  /** A valid request stores one entry: a fresh 12-byte nonce, no invalid attempts, the
      trimmed recipient, the name as given, an expiry `duration` after creation, and a sealed
      value that the request's secret opens to the request's value. */
  lemma CreateStoresEntry(cfg: Config, t: Tables, req: CreateEntryRequest, nonce: Bytes, id: Uuid, now: Time)
    requires Sound(cfg.cipher) && |nonce| == NonceSize
    requires CreateEntryErrors(req) == [] && !HasId(t.entries, id)
    ensures var (t1, r) := CreateSpec(cfg, t, req, nonce, id, now);
      && r.Success? && r.value.success && r.value.errors == [] && r.value.entry.Some?
      && var e := r.value.entry.value;
      && e.id == id && e.name == req.name && e.sentByUserId == req.senderId
      && e.sentToEmail == TrimSpace(req.sendToEmail) && e.nonce == nonce && e.invalidAttempts == 0
      && e.createdAtUtc == now && e.expiresAtUtc == e.createdAtUtc + req.duration
      && t1 == t.(entries := t.entries + [e])
      && Decrypt(cfg.cipher, cfg.aesKey, e.value, e.nonce, Utf8(req.secret)) == Success(Utf8(req.value))
  {
    DecryptEncrypt(cfg.cipher, cfg.aesKey, Utf8(req.value), nonce, Utf8(req.secret));
  }

  /** A valid request whose id is taken fails with the primary-key error and stores nothing. */
  lemma CreateDuplicateId(cfg: Config, t: Tables, req: CreateEntryRequest, nonce: Bytes, id: Uuid, now: Time)
    requires Sound(cfg.cipher) && |nonce| == NonceSize
    requires CreateEntryErrors(req) == [] && HasId(t.entries, id)
    ensures CreateSpec(cfg, t, req, nonce, id, now) == (t, Failure(StoreFailed(ErrDuplicateKey)))
  {
    EncryptSucceeds(cfg.cipher, cfg.aesKey, Utf8(req.value), nonce, Utf8(req.secret));
  }

  // ---------------------------------------------------------------------------------------------
  // FindEntry

  /** An absent id finds nothing and changes nothing. */
  lemma FindAbsent(t: Tables, id: Uuid, nonce: string, now: Time)
    requires !HasId(t.entries, id)
    ensures FindSpec(t, id, nonce, now) == (t, None)
  {
  }

  /** A lapsed entry is expired (not as too many attempts) and deleted, whatever nonce is
      presented, and nothing is returned. */
  lemma FindLapsed(t: Tables, i: int, nonce: string, now: Time)
    requires Wf(t) && 0 <= i < |t.entries| && !Live(t.entries[i], now)
    ensures var (t1, r) := FindSpec(t, t.entries[i].id, nonce, now);
      && r == None
      && t1 == Expire(t, t.entries[i], false, now)
      && !HasId(t1.entries, t.entries[i].id)
      && |t1.entries| == |t.entries| - 1
      && t1.expired == t.expired + [ExpiredEntry(t.entries[i].id, t.entries[i].name, t.entries[i].sentByUserId,
                                                 t.entries[i].sentToEmail, false, now)]
  {
    var e := t.entries[i];
    LookupUnique(t.entries, i);
    assert HasId(t.entries, e.id);
    WithoutPresent(t.entries, e.id);
    WithoutRows(t.entries, e.id);
    var t1 := FindSpec(t, e.id, nonce, now).0;
    assert t1 == Expire(t, e, false, now);
    forall j | 0 <= j < |t1.entries| ensures t1.entries[j].id != e.id {
    }
  }

  /** A live entry is returned unchanged exactly when the presented nonce is the lower-case hex
      of the stored one; otherwise nothing is returned. The state does not change. */
  lemma FindLive(t: Tables, i: int, nonce: string, now: Time)
    requires Wf(t) && 0 <= i < |t.entries| && Live(t.entries[i], now)
    ensures FindSpec(t, t.entries[i].id, nonce, now).0 == t
    ensures FindSpec(t, t.entries[i].id, nonce, now).1 == Some(t.entries[i]) <==> nonce == EncodeToString(t.entries[i].nonce)
    ensures FindSpec(t, t.entries[i].id, nonce, now).1 == Some(t.entries[i]) <==>
      AllLowerHex(nonce) && DecodeString(nonce) == Some(t.entries[i].nonce)
    ensures FindSpec(t, t.entries[i].id, nonce, now).1.Some? ==> FindSpec(t, t.entries[i].id, nonce, now).1 == Some(t.entries[i])
  {
    LookupUnique(t.entries, i);
    IsEncodingOf(t.entries[i].nonce, nonce);
  }

  // ---------------------------------------------------------------------------------------------
  // FindByUserID

  /** The rows that are still live, in their order. */
  function Kept(rows: seq<Entry>, now: Time): (r: seq<Entry>)
    ensures |r| <= |rows|
  {
    if rows == [] then [] else (if Live(rows[0], now) then [rows[0]] else []) + Kept(rows[1..], now)
  }

  /** The rows that have lapsed, in their order. */
  function Lapsed(rows: seq<Entry>, now: Time): (r: seq<Entry>)
    ensures |r| <= |rows|
  {
    if rows == [] then [] else (if Live(rows[0], now) then [] else [rows[0]]) + Lapsed(rows[1..], now)
  }

  /** Kept holds the live rows and Lapsed the others. */
  lemma {:induction false} KeptLapsedMembers(rows: seq<Entry>, now: Time)
    ensures forall e :: e in Kept(rows, now) <==> e in rows && Live(e, now)
    ensures forall e :: e in Lapsed(rows, now) <==> e in rows && !Live(e, now)
  {
    if rows != [] {
      KeptLapsedMembers(rows[1..], now);
      assert rows == [rows[0]] + rows[1..];
    }
  }

  function ExpiredRecords(rows: seq<Entry>, now: Time): (r: seq<ExpiredEntry>)
    ensures |r| == |rows|
  {
    if rows == [] then [] else [ExpiredOf(rows[0], false, now)] + ExpiredRecords(rows[1..], now)
  }

  /** The rows left after deleting the id of every row of `gone`. */
  function DeleteAll(rows: seq<Entry>, gone: seq<Entry>): (r: seq<Entry>)
    decreases |gone|
  {
    if gone == [] then rows else DeleteAll(Without(rows, gone[0].id), gone[1..])
  }

  /** A row survives DeleteAll exactly when no row of `gone` has its id. */
  lemma {:induction false} DeleteAllMembers(rows: seq<Entry>, gone: seq<Entry>)
    ensures forall e :: e in DeleteAll(rows, gone) <==> e in rows && forall x :: x in gone ==> x.id != e.id
    decreases |gone|
  {
    if gone != [] {
      WithoutRows(rows, gone[0].id);
      DeleteAllMembers(Without(rows, gone[0].id), gone[1..]);
      assert gone == [gone[0]] + gone[1..];
    }
  }

  lemma {:induction false} KeptSorted(rows: seq<Entry>, now: Time)
    requires SortedByCreated(rows)
    ensures SortedByCreated(Kept(rows, now))
  {
    if rows != [] {
      var rest := rows[1..];
      assert SortedByCreated(rest) by {
        forall i, j | 0 <= i < j < |rest| ensures rest[i].createdAtUtc <= rest[j].createdAtUtc {
          assert rest[i] == rows[i + 1] && rest[j] == rows[j + 1];
        }
      }
      KeptSorted(rest, now);
      var k := Kept(rest, now);
      KeptLapsedMembers(rest, now);
      forall j | 0 <= j < |k| ensures rows[0].createdAtUtc <= k[j].createdAtUtc {
        assert k[j] in rest;
        var m :| 0 <= m < |rest| && rest[m] == k[j];
        assert rows[m + 1] == rest[m];
      }
      var r := Kept(rows, now);
      forall i, j | 0 <= i < j < |r| ensures r[i].createdAtUtc <= r[j].createdAtUtc {
        if Live(rows[0], now) && i == 0 {
          assert r[j] == k[j - 1];
        } else if Live(rows[0], now) {
          assert r[i] == k[i - 1] && r[j] == k[j - 1];
        }
      }
    }
  }

  /** The loop answers the live rows, after those already gathered. */
  lemma {:induction false} ListFromAnswer(t: Tables, rows: seq<Entry>, now: Time, acc: seq<Entry>)
    ensures ListFrom(t, rows, now, acc).1 == acc + Kept(rows, now)
    decreases |rows|
  {
    if rows == [] {
      assert acc + [] == acc;
    } else if Live(rows[0], now) {
      assert ListFrom(t, rows, now, acc) == ListFrom(t, rows[1..], now, acc + [rows[0]]);
      assert Kept(rows, now) == [rows[0]] + Kept(rows[1..], now);
      ListFromAnswer(t, rows[1..], now, acc + [rows[0]]);
      assert acc + [rows[0]] + Kept(rows[1..], now) == acc + Kept(rows, now);
    } else {
      assert ListFrom(t, rows, now, acc) == ListFrom(Expire(t, rows[0], false, now), rows[1..], now, acc);
      assert Kept(rows, now) == [] + Kept(rows[1..], now) == Kept(rows[1..], now);
      ListFromAnswer(Expire(t, rows[0], false, now), rows[1..], now, acc);
    }
  }

  /** The loop expires the lapsed rows, in their order, and leaves the claimed table alone. */
  lemma {:induction false} ListFromExpired(t: Tables, rows: seq<Entry>, now: Time, acc: seq<Entry>)
    ensures ListFrom(t, rows, now, acc).0.claimed == t.claimed
    ensures ListFrom(t, rows, now, acc).0.expired == t.expired + ExpiredRecords(Lapsed(rows, now), now)
    decreases |rows|
  {
    if rows == [] {
      assert t.expired + [] == t.expired;
    } else if Live(rows[0], now) {
      ListFromExpired(t, rows[1..], now, acc + [rows[0]]);
      assert Lapsed(rows, now) == [] + Lapsed(rows[1..], now) == Lapsed(rows[1..], now);
    } else {
      var t1 := Expire(t, rows[0], false, now);
      ListFromExpired(t1, rows[1..], now, acc);
      var gone := Lapsed(rows, now);
      assert gone == [rows[0]] + Lapsed(rows[1..], now);
      assert ExpiredRecords(gone, now) == [ExpiredOf(rows[0], false, now)] + ExpiredRecords(gone[1..], now);
      assert gone[1..] == Lapsed(rows[1..], now);
      assert t1.expired == t.expired + [ExpiredOf(rows[0], false, now)];
    }
  }

  /** The loop deletes the lapsed rows. */
  lemma {:induction false} ListFromEntries(t: Tables, rows: seq<Entry>, now: Time, acc: seq<Entry>)
    ensures ListFrom(t, rows, now, acc).0.entries == DeleteAll(t.entries, Lapsed(rows, now))
    decreases |rows|
  {
    if rows != [] && Live(rows[0], now) {
      ListFromEntries(t, rows[1..], now, acc + [rows[0]]);
      assert Lapsed(rows, now) == [] + Lapsed(rows[1..], now) == Lapsed(rows[1..], now);
    } else if rows != [] {
      var t1 := Expire(t, rows[0], false, now);
      ListFromEntries(t1, rows[1..], now, acc);
      var gone := Lapsed(rows, now);
      assert gone == [rows[0]] + Lapsed(rows[1..], now);
      assert gone[1..] == Lapsed(rows[1..], now);
      assert DeleteAll(t.entries, gone) == DeleteAll(Without(t.entries, rows[0].id), gone[1..]);
    }
  }

  /** FindByUserID answers exactly the sender's live entries, in creation order; each of the
      sender's lapsed entries is expired (not as too many attempts) and deleted; nothing else
      changes. */
  lemma ListSpecResult(t: Tables, user: Uuid, now: Time)
    requires Wf(t)
    ensures var (t1, r) := ListSpec(t, user, now);
      var rows := OrderByCreated(Owned(t.entries, user));
      && r == Kept(rows, now)
      && (forall e :: e in r <==> e in t.entries && e.sentByUserId == user && Live(e, now))
      && SortedByCreated(r)
      && t1.claimed == t.claimed
      && t1.expired == t.expired + ExpiredRecords(Lapsed(rows, now), now)
      && (forall e :: e in t1.entries <==> e in t.entries && !(e.sentByUserId == user && !Live(e, now)))
  {
    var rows := OrderByCreated(Owned(t.entries, user));
    ListFromAnswer(t, rows, now, []);
    ListFromExpired(t, rows, now, []);
    ListFromEntries(t, rows, now, []);
    assert [] + Kept(rows, now) == Kept(rows, now);
    KeptSorted(rows, now);
    KeptLapsedMembers(rows, now);
    DeleteAllMembers(t.entries, Lapsed(rows, now));
    forall e ensures e in rows <==> e in t.entries && e.sentByUserId == user {
      assert e in rows <==> e in multiset(rows);
      assert e in Owned(t.entries, user) <==> e in multiset(Owned(t.entries, user));
    }
    var gone := Lapsed(rows, now);
    forall e | e in t.entries
      ensures (forall x :: x in gone ==> x.id != e.id) <==> !(e.sentByUserId == user && !Live(e, now))
    {
      if exists x :: x in gone && x.id == e.id {
        var x :| x in gone && x.id == e.id;
        UniqueIdsSame(t.entries, x, e);
      }
    }
  }

  // ---------------------------------------------------------------------------------------------
  // DecryptEntry

  /** Whatever the reason FindEntry finds nothing (absent id, lapsed entry, wrong nonce), the
      reveal answers the same "Invalid entry ID." and nothing more. */
  lemma DecryptNotFound(cfg: Config, t: Tables, req: DecryptEntryRequest, now: Time)
    requires Wf(t) && FindSpec(t, req.id, req.nonce, now).1.None?
    ensures DecryptSpec(cfg, t, req, now) ==
      (FindSpec(t, req.id, req.nonce, now).0, Success(DecryptEntryResponse(false, [MsgInvalidEntryId], false, None)))
  {
  }

  /** A wrong secret for a found entry answers "Invalid secret." and raises the stored count by
      exactly one; when that count reaches `maxAttempts` the entry is also expired as too many
      attempts, the answer says so and adds the too-many-attempts message. */
  lemma RevealWrongSecret(cfg: Config, t: Tables, req: DecryptEntryRequest, now: Time, i: int)
    requires Wf(t) && 0 <= i < |t.entries| && t.entries[i].id == req.id
    requires Live(t.entries[i], now) && req.nonce == EncodeToString(t.entries[i].nonce)
    requires Decrypt(cfg.cipher, cfg.aesKey, t.entries[i].value, t.entries[i].nonce, Utf8(req.secret)).Failure?
    ensures var (t1, r) := DecryptSpec(cfg, t, req, now);
      var e := t.entries[i];
      var count := e.invalidAttempts + 1;
      && r.Success? && !r.value.success && r.value.entry.None?
      && r.value.errors == [MsgInvalidSecret] + (if count >= cfg.maxAttempts then [MsgTooManyAttempts] else [])
      && r.value.expired == (count >= cfg.maxAttempts)
      && t1.claimed == t.claimed
      && (count < cfg.maxAttempts ==>
            && t1 == t.(entries := Incremented(t.entries, e.id))
            && Lookup(t1.entries, e.id) == Some(e.(invalidAttempts := count)))
      && (count >= cfg.maxAttempts ==>
            && t1.expired == t.expired + [ExpiredEntry(e.id, e.name, e.sentByUserId, e.sentToEmail, true, now)]
            && !HasId(t1.entries, e.id))
  {
    var e := t.entries[i];
    var t1 := t.(entries := Incremented(t.entries, e.id));
    assert FindSpec(t, req.id, req.nonce, now) == (t, Some(e)) by {
      FindLive(t, i, req.nonce, now);
    }
    IncrementFound(cfg, t, i, now);
    var dec := DecryptSpec(cfg, t, req, now);
    if e.invalidAttempts + 1 >= cfg.maxAttempts {
      assert dec == (Expire(t1, e, true, now), Success(DecryptEntryResponse(false, [MsgInvalidSecret] + [MsgTooManyAttempts], true, None)));
      WithoutRows(t1.entries, e.id);
      forall j | 0 <= j < |dec.0.entries| ensures dec.0.entries[j].id != e.id {
      }
    } else {
      assert dec == (t1, Success(DecryptEntryResponse(false, [MsgInvalidSecret] + [], false, None)));
    }
  }

  /** The attempt update on a stored entry reads back its count plus one, and expires it (as too
      many attempts) exactly when that count reaches `maxAttempts`. */
  lemma IncrementFound(cfg: Config, t: Tables, i: int, now: Time)
    requires UniqueIds(t.entries) && 0 <= i < |t.entries|
    ensures var e := t.entries[i];
      var t1 := t.(entries := Incremented(t.entries, e.id));
      && Lookup(t1.entries, e.id) == Some(e.(invalidAttempts := e.invalidAttempts + 1))
      && IncrementSpec(cfg, t, e, now) ==
           if e.invalidAttempts + 1 >= cfg.maxAttempts then (Expire(t1, e, true, now), Success(Some(ExpiredOf(e, true, now))))
           else (t1, Success(None))
  {
    var e := t.entries[i];
    var t1 := t.(entries := Incremented(t.entries, e.id));
    assert Lookup(t1.entries, e.id) == Some(e.(invalidAttempts := e.invalidAttempts + 1)) by {
      LookupUnique(t.entries, i);
      LookupIncremented(t.entries, e.id);
    }
  }

  /** The right secret answers Success with the entry carrying the opened plaintext; the entry
      is claimed and deleted. */
  lemma RevealRightSecret(cfg: Config, t: Tables, req: DecryptEntryRequest, now: Time, i: int, plain: Bytes)
    requires Wf(t) && 0 <= i < |t.entries| && t.entries[i].id == req.id
    requires Live(t.entries[i], now) && req.nonce == EncodeToString(t.entries[i].nonce)
    requires Decrypt(cfg.cipher, cfg.aesKey, t.entries[i].value, t.entries[i].nonce, Utf8(req.secret)) == Success(plain)
    ensures var (t1, r) := DecryptSpec(cfg, t, req, now);
      var e := t.entries[i];
      && r == Success(DecryptEntryResponse(true, [], false, Some(e.(value := plain))))
      && t1 == Claim(t, e, now)
      && t1.claimed == t.claimed + [ClaimedEntry(e.id, e.name, e.sentByUserId, e.sentToEmail, now)]
      && t1.expired == t.expired
      && !HasId(t1.entries, e.id)
  {
    FindLive(t, i, req.nonce, now);
    WithoutRows(t.entries, req.id);
    var t1 := DecryptSpec(cfg, t, req, now).0;
    forall j | 0 <= j < |t1.entries| ensures t1.entries[j].id != req.id {
    }
  }

  /** An entry is revealed at most once: after a successful reveal every later reveal of the
      same id, whatever its nonce and secret, answers "Invalid entry ID." and changes nothing. */
  lemma RevealAtMostOnce(cfg: Config, t: Tables, req: DecryptEntryRequest, now: Time, again: DecryptEntryRequest, later: Time)
    requires Wf(t) && again.id == req.id
    requires DecryptSpec(cfg, t, req, now).1.Success? && DecryptSpec(cfg, t, req, now).1.value.success
    ensures Wf(DecryptSpec(cfg, t, req, now).0)
    ensures var t1 := DecryptSpec(cfg, t, req, now).0;
      DecryptSpec(cfg, t1, again, later) == (t1, Success(DecryptEntryResponse(false, [MsgInvalidEntryId], false, None)))
  {
    DecryptWf(cfg, t, req, now);
    var e := FindSpec(t, req.id, req.nonce, now).1.value;
    var t1 := DecryptSpec(cfg, t, req, now).0;
    assert t1 == Claim(t, e, now);
    assert !HasId(t1.entries, req.id) by {
      WithoutRows(t.entries, e.id);
      forall j | 0 <= j < |t1.entries| ensures t1.entries[j].id != req.id {
      }
    }
    FindAbsent(t1, again.id, again.nonce, later);
  }

  /** Entries are never lost or duplicated: every reveal, lookup and listing keeps the total
      number of active, claimed and expired rows, and only appends to the terminal tables. */
  function Total(t: Tables): nat {
    |t.entries| + |t.claimed| + |t.expired|
  }

  predicate Extends(t: Tables, t1: Tables) {
    |t.claimed| <= |t1.claimed| && t1.claimed[..|t.claimed|] == t.claimed
    && |t.expired| <= |t1.expired| && t1.expired[..|t.expired|] == t.expired
  }

  lemma ExpireTotal(t: Tables, e: Entry, tooManyAttempts: bool, now: Time)
    requires Wf(t) && HasId(t.entries, e.id)
    ensures Total(Expire(t, e, tooManyAttempts, now)) == Total(t)
    ensures Extends(t, Expire(t, e, tooManyAttempts, now))
  {
    WithoutPresent(t.entries, e.id);
    assert (t.expired + [ExpiredOf(e, tooManyAttempts, now)])[..|t.expired|] == t.expired;
  }

  lemma FindTotal(t: Tables, id: Uuid, nonce: string, now: Time)
    requires Wf(t)
    ensures Total(FindSpec(t, id, nonce, now).0) == Total(t)
    ensures Extends(t, FindSpec(t, id, nonce, now).0)
  {
    match Lookup(t.entries, id)
    case None =>
    case Some(e) => ExpireTotal(t, e, false, now);
  }

  lemma DecryptTotal(cfg: Config, t: Tables, req: DecryptEntryRequest, now: Time)
    requires Wf(t)
    ensures Total(DecryptSpec(cfg, t, req, now).0) == Total(t)
    ensures Extends(t, DecryptSpec(cfg, t, req, now).0)
  {
    FindTotal(t, req.id, req.nonce, now);
    var found := FindSpec(t, req.id, req.nonce, now);
    if found.1.Some? {
      var e := found.1.value;
      FindWf(t, req.id, req.nonce, now);
      assert HasId(t.entries, e.id);
      WithoutPresent(t.entries, e.id);
      assert (t.claimed + [ClaimedOf(e, now)])[..|t.claimed|] == t.claimed;
      var t2 := t.(entries := Incremented(t.entries, e.id));
      IncrementedWf(t, e.id);
      IncrementedKeepsIds(t.entries, e.id, e.id);
      ExpireTotal(t2, e, true, now);
    }
  }

  lemma {:induction false} ListFromTotal(t: Tables, rows: seq<Entry>, now: Time, acc: seq<Entry>)
    requires Wf(t)
    requires forall x :: x in rows ==> x in t.entries
    requires UniqueIds(rows)
    ensures Total(ListFrom(t, rows, now, acc).0) == Total(t)
    ensures Extends(t, ListFrom(t, rows, now, acc).0)
    decreases |rows|
  {
    if rows != [] {
      var rest := rows[1..];
      assert UniqueIds(rest) by {
        forall i, j | 0 <= i < j < |rest| ensures rest[i].id != rest[j].id {
          assert rest[i] == rows[i + 1] && rest[j] == rows[j + 1];
        }
      }
      assert rows[0] in t.entries;
      if Live(rows[0], now) {
        ListFromTotal(t, rest, now, acc + [rows[0]]);
      } else {
        var t1 := Expire(t, rows[0], false, now);
        var k :| 0 <= k < |t.entries| && t.entries[k] == rows[0];
        assert HasId(t.entries, rows[0].id);
        ExpireTotal(t, rows[0], false, now);
        ExpireWf(t, rows[0], false, now);
        WithoutRows(t.entries, rows[0].id);
        forall x | x in rest ensures x in t1.entries {
          var m :| 0 <= m < |rest| && rest[m] == x;
          assert rows[m + 1] == x;
          assert x.id != rows[0].id;
        }
        ListFromTotal(t1, rest, now, acc);
        var t2 := ListFrom(t1, rest, now, acc).0;
        assert t2.claimed[..|t.claimed|] == t2.claimed[..|t1.claimed|][..|t.claimed|];
        assert t2.expired[..|t.expired|] == t2.expired[..|t1.expired|][..|t.expired|];
      }
    }
  }

  lemma {:induction false} OwnedUnique(rows: seq<Entry>, user: Uuid)
    requires UniqueIds(rows)
    ensures UniqueIds(Owned(rows, user))
  {
    if rows != [] {
      OwnedUnique(rows[1..], user);
      var rest := Owned(rows[1..], user);
      if rows[0].sentByUserId == user {
        var r := [rows[0]] + rest;
        forall j | 0 < j < |r| ensures r[j].id != rows[0].id {
          assert r[j] == rest[j - 1];
          assert rest[j - 1] in rows[1..];
          var k :| 0 <= k < |rows[1..]| && rows[1..][k] == rest[j - 1];
          assert rows[k + 1] == rows[1..][k];
        }
        assert Owned(rows, user) == r;
      } else {
        assert Owned(rows, user) == rest;
      }
    }
  }

  /** Two equal elements at different positions are counted twice. */
  lemma RepeatCounted(s: seq<Entry>, i: int, j: int)
    requires 0 <= i < j < |s|
    ensures s[i] == s[j] ==> multiset(s)[s[i]] >= 2
  {
    assert s == s[..i] + [s[i]] + s[i + 1..j] + [s[j]] + s[j + 1..];
  }

  /** Ids that are unique stay unique under a permutation. */
  lemma PermutationUnique(a: seq<Entry>, b: seq<Entry>)
    requires UniqueIds(a) && multiset(a) == multiset(b)
    ensures UniqueIds(b)
  {
    forall i, j | 0 <= i < j < |b| ensures b[i].id != b[j].id {
      assert b[i] in multiset(a) && b[j] in multiset(a);
      CountAtMostOne(a, b[i]);
      RepeatCounted(b, i, j);
      UniqueIdsSame(a, b[i], b[j]);
    }
  }

  lemma {:induction false} CountAtMostOne(a: seq<Entry>, x: Entry)
    requires UniqueIds(a)
    ensures multiset(a)[x] <= 1
  {
    if a != [] {
      var rest := a[1..];
      assert UniqueIds(rest) by {
        forall i, j | 0 <= i < j < |rest| ensures rest[i].id != rest[j].id {
          assert rest[i] == a[i + 1] && rest[j] == a[j + 1];
        }
      }
      CountAtMostOne(rest, x);
      assert a == [a[0]] + rest;
      if a[0] == x {
        assert x !in rest by {
          forall k | 0 <= k < |rest| ensures rest[k] != x {
            assert rest[k] == a[k + 1];
          }
        }
      }
    }
  }

  lemma ListTotal(t: Tables, user: Uuid, now: Time)
    requires Wf(t)
    ensures Total(ListSpec(t, user, now).0) == Total(t)
    ensures Extends(t, ListSpec(t, user, now).0)
  {
    var rows := OrderByCreated(Owned(t.entries, user));
    OwnedUnique(t.entries, user);
    PermutationUnique(Owned(t.entries, user), rows);
    forall x | x in rows ensures x in t.entries {
      assert x in multiset(rows);
    }
    ListFromTotal(t, rows, now, []);
  }

  // ---------------------------------------------------------------------------------------------
  // End to end

  /** An entry created from a valid request is revealed, before it lapses, by its id, the hex of
      its nonce and the request's secret: the answer carries the request's value, and the entry
      moves to the claimed table. */
  lemma CreateThenReveal(cfg: Config, t: Tables, req: CreateEntryRequest, nonce: Bytes, id: Uuid, now: Time, later: Time)
    requires Sound(cfg.cipher) && Wf(t) && |nonce| == NonceSize
    requires CreateEntryErrors(req) == [] && !HasId(t.entries, id)
    requires later < now + req.duration
    ensures Wf(CreateSpec(cfg, t, req, nonce, id, now).0)
    ensures var t1 := CreateSpec(cfg, t, req, nonce, id, now).0;
      var (t2, r) := DecryptSpec(cfg, t1, DecryptEntryRequest(id, EncodeToString(nonce), req.secret), later);
      && r.Success? && r.value.success && r.value.entry.Some?
      && r.value.entry.value.value == Utf8(req.value)
      && r.value.entry.value.id == id
      && t2.claimed == t.claimed + [ClaimedEntry(id, req.name, req.senderId, TrimSpace(req.sendToEmail), later)]
      && !HasId(t2.entries, id)
  {
    CreateStoresEntry(cfg, t, req, nonce, id, now);
    CreateWf(cfg, t, req, nonce, id, now);
    var t1 := CreateSpec(cfg, t, req, nonce, id, now).0;
    var e := CreateSpec(cfg, t, req, nonce, id, now).1.value.entry.value;
    assert t1.entries[|t.entries|] == e;
    RevealRightSecret(cfg, t1, DecryptEntryRequest(id, EncodeToString(nonce), req.secret), later, |t.entries|, Utf8(req.value));
  }

  /** A secret whose derived key differs from the creating one opens nothing: the attempt is
      counted against the new entry. */
  lemma CreateThenWrongSecret(cfg: Config, t: Tables, req: CreateEntryRequest, nonce: Bytes, id: Uuid, now: Time,
                              secret: string, later: Time)
    requires Sound(cfg.cipher) && Wf(t) && |nonce| == NonceSize
    requires CreateEntryErrors(req) == [] && !HasId(t.entries, id)
    requires later < now + req.duration && cfg.maxAttempts > 1
    requires DeriveKey(cfg.cipher, cfg.aesKey, Utf8(secret)) != DeriveKey(cfg.cipher, cfg.aesKey, Utf8(req.secret))
    ensures Wf(CreateSpec(cfg, t, req, nonce, id, now).0)
    ensures var t1 := CreateSpec(cfg, t, req, nonce, id, now).0;
      var (t2, r) := DecryptSpec(cfg, t1, DecryptEntryRequest(id, EncodeToString(nonce), secret), later);
      && r == Success(DecryptEntryResponse(false, [MsgInvalidSecret], false, None))
      && Lookup(t2.entries, id).Some? && Lookup(t2.entries, id).value.invalidAttempts == 1
  {
    EncryptSucceeds(cfg.cipher, cfg.aesKey, Utf8(req.value), nonce, Utf8(req.secret));
    var sealed := Encrypt(cfg.cipher, cfg.aesKey, Utf8(req.value), nonce, Utf8(req.secret)).value;
    var e := NewEntry(req, nonce, sealed, id, now);
    var t1 := t.(entries := t.entries + [e]);
    assert CreateSpec(cfg, t, req, nonce, id, now).0 == t1 by {
      CreateSpecStores(cfg, t, req, nonce, id, now);
    }
    CreateWf(cfg, t, req, nonce, id, now);
    assert t1.entries[|t.entries|] == e;
    assert Decrypt(cfg.cipher, cfg.aesKey, e.value, e.nonce, Utf8(secret)).Failure? by {
      Crypto.DecryptWrongSecret(cfg.cipher, cfg.aesKey, Utf8(req.value), nonce, Utf8(req.secret), Utf8(secret));
    }
    var dreq := DecryptEntryRequest(id, EncodeToString(nonce), secret);
    RevealWrongSecret(cfg, t1, dreq, later, |t.entries|);
    assert [MsgInvalidSecret] + [] == [MsgInvalidSecret];
  }
}
