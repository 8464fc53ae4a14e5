/** The entry repository (internal/mysql/entries.go) as three in-memory tables: `entries`
    (primary key `id`), `claimed_entries` and `expired_entries`. Each SQL statement becomes a
    function on rows; the `Store` class applies them to its fields. */
module EntryStore {
  import opened Wrappers
  import opened Storage
  import opened SendKey

  /** The contents of the three tables. */
  datatype Tables = Tables(entries: seq<Entry>, claimed: seq<ClaimedEntry>, expired: seq<ExpiredEntry>)

  /** Some row has the id. */
  predicate HasId(rows: seq<Entry>, id: Uuid) {
    exists i :: 0 <= i < |rows| && rows[i].id == id
  }

  /** The primary-key constraint on `entries.id`. */
  predicate UniqueIds(rows: seq<Entry>) {
    forall i, j :: 0 <= i < j < |rows| ==> rows[i].id != rows[j].id
  }

  lemma HasIdCons(rows: seq<Entry>, id: Uuid)
    requires rows != []
    ensures HasId(rows, id) <==> rows[0].id == id || HasId(rows[1..], id)
  {
    if HasId(rows, id) && rows[0].id != id {
      var i :| 0 <= i < |rows| && rows[i].id == id;
      assert rows[1..][i - 1].id == id;
    }
    if HasId(rows[1..], id) {
      var i :| 0 <= i < |rows[1..]| && rows[1..][i].id == id;
      assert rows[i + 1].id == id;
    }
  }

  /** `SELECT … FROM entries WHERE id = ?`: the row with the id, None when there is none
      (the store turns sql.ErrNoRows into a nil entry and no error). */
  function Lookup(rows: seq<Entry>, id: Uuid): (r: Option<Entry>)
    ensures r.Some? <==> HasId(rows, id)
    ensures r.Some? ==> r.value.id == id && r.value in rows
  {
    HasIdCons2(rows, id);
    if rows == [] then None
    else if rows[0].id == id then Some(rows[0])
    else Lookup(rows[1..], id)
  }

  lemma HasIdCons2(rows: seq<Entry>, id: Uuid)
    ensures rows != [] ==> (HasId(rows, id) <==> rows[0].id == id || HasId(rows[1..], id))
    ensures rows == [] ==> !HasId(rows, id)
  {
    if rows != [] {
      HasIdCons(rows, id);
    }
  }

  /** Under the primary key, the lookup of a row's id finds that row. */
  lemma {:induction false} LookupUnique(rows: seq<Entry>, i: int)
    requires UniqueIds(rows) && 0 <= i < |rows|
    ensures Lookup(rows, rows[i].id) == Some(rows[i])
  {
    if i > 0 {
      assert rows[0].id != rows[i].id;
      assert rows[1..][i - 1] == rows[i];
      LookupUnique(rows[1..], i - 1);
    }
  }

  /** `DELETE FROM entries WHERE id = ?`: the other rows, in their order. */
  function Without(rows: seq<Entry>, id: Uuid): (r: seq<Entry>)
    ensures |r| <= |rows|
  {
    if rows == [] then []
    else if rows[0].id == id then Without(rows[1..], id)
    else [rows[0]] + Without(rows[1..], id)
  }

  /** The rows left by the delete are exactly the rows without the id. */
  lemma {:induction false} WithoutRows(rows: seq<Entry>, id: Uuid)
    ensures forall i :: 0 <= i < |Without(rows, id)| ==> Without(rows, id)[i].id != id
    ensures forall e :: e in Without(rows, id) <==> e in rows && e.id != id
  {
    if rows != [] {
      WithoutRows(rows[1..], id);
      assert rows == [rows[0]] + rows[1..];
      if rows[0].id != id {
        var r := [rows[0]] + Without(rows[1..], id);
        assert Without(rows, id) == r;
        forall i | 0 < i < |r| ensures r[i].id != id {
          assert r[i] == Without(rows[1..], id)[i - 1];
        }
      }
    }
  }

  /** Deleting an absent id changes nothing. */
  lemma {:induction false} WithoutAbsent(rows: seq<Entry>, id: Uuid)
    requires !HasId(rows, id)
    ensures Without(rows, id) == rows
  {
    HasIdCons2(rows, id);
    if rows != [] {
      WithoutAbsent(rows[1..], id);
      assert rows == [rows[0]] + rows[1..];
    }
  }

  /** Under the primary key, deleting a present id removes exactly one row. */
  lemma {:induction false} WithoutPresent(rows: seq<Entry>, id: Uuid)
    requires UniqueIds(rows) && HasId(rows, id)
    ensures |Without(rows, id)| == |rows| - 1
  {
    HasIdCons2(rows, id);
    if rows[0].id == id {
      assert !HasId(rows[1..], id) by {
        forall i | 0 <= i < |rows[1..]| ensures rows[1..][i].id != id {
          assert rows[1..][i] == rows[i + 1];
        }
      }
      WithoutAbsent(rows[1..], id);
    } else {
      WithoutPresent(rows[1..], id);
    }
  }

  /** Deleting keeps the primary key. */
  lemma {:induction false} WithoutKeepsUniqueIds(rows: seq<Entry>, id: Uuid)
    requires UniqueIds(rows)
    ensures UniqueIds(Without(rows, id))
  {
    if rows != [] {
      WithoutKeepsUniqueIds(rows[1..], id);
      WithoutRows(rows[1..], id);
      var rest := Without(rows[1..], id);
      if rows[0].id != id {
        var r := [rows[0]] + rest;
        assert Without(rows, id) == r;
        forall j | 0 < j < |r| ensures r[j].id != rows[0].id {
          assert r[j] == rest[j - 1];
          assert rest[j - 1] in rows[1..];
          var k :| 0 <= k < |rows[1..]| && rows[1..][k] == rest[j - 1];
          assert rows[k + 1] == rows[1..][k];
        }
      }
    }
  }

  /** Deleting one id changes nothing that another id finds. */
  lemma {:induction false} LookupWithout(rows: seq<Entry>, id: Uuid, other: Uuid)
    requires other != id
    ensures Lookup(Without(rows, id), other) == Lookup(rows, other)
  {
    if rows != [] {
      LookupWithout(rows[1..], id, other);
      if rows[0].id != id {
        var r := [rows[0]] + Without(rows[1..], id);
        assert Without(rows, id) == r;
        assert r[1..] == Without(rows[1..], id);
      }
    }
  }

  /** One row with its attempt count raised when it has the id. */
  function Bump(e: Entry, id: Uuid): Entry {
    if e.id == id then e.(invalidAttempts := e.invalidAttempts + 1) else e
  }

  /** `UPDATE entries SET invalidAttempts = invalidAttempts + 1 WHERE id = ?`. */
  function Incremented(rows: seq<Entry>, id: Uuid): (r: seq<Entry>)
    ensures |r| == |rows|
  {
    if rows == [] then [] else [Bump(rows[0], id)] + Incremented(rows[1..], id)
  }

  /** The update raises the count of the row with the id by exactly one and changes no other
      field and no other row. */
  lemma {:induction false} IncrementedRows(rows: seq<Entry>, id: Uuid)
    ensures forall i :: 0 <= i < |rows| ==> Incremented(rows, id)[i] == Bump(rows[i], id)
  {
    if rows != [] {
      IncrementedRows(rows[1..], id);
      forall i | 0 < i < |rows| ensures Incremented(rows, id)[i] == Bump(rows[i], id) {
        assert Incremented(rows, id)[i] == Incremented(rows[1..], id)[i - 1];
        assert rows[i] == rows[1..][i - 1];
      }
    }
  }

  /** The update keeps every id, so it keeps the primary key and what is present. */
  lemma IncrementedKeepsIds(rows: seq<Entry>, id: Uuid, other: Uuid)
    ensures HasId(Incremented(rows, id), other) == HasId(rows, other)
    ensures UniqueIds(rows) ==> UniqueIds(Incremented(rows, id))
  {
    IncrementedRows(rows, id);
    var r := Incremented(rows, id);
    assert forall i :: 0 <= i < |rows| ==> r[i].id == rows[i].id;
    if HasId(rows, other) {
      var i :| 0 <= i < |rows| && rows[i].id == other;
      assert r[i].id == other;
    }
    if HasId(r, other) {
      var i :| 0 <= i < |r| && r[i].id == other;
      assert rows[i].id == other;
    }
  }

  /** The read-back after the update finds the old count plus one. */
  lemma {:induction false} LookupIncremented(rows: seq<Entry>, id: Uuid)
    ensures Lookup(Incremented(rows, id), id) ==
      match Lookup(rows, id)
      case None => None
      case Some(e) => Some(e.(invalidAttempts := e.invalidAttempts + 1))
  {
    if rows != [] {
      var r := Incremented(rows, id);
      assert r == [Bump(rows[0], id)] + Incremented(rows[1..], id);
      assert r[1..] == Incremented(rows[1..], id);
      if rows[0].id != id {
        LookupIncremented(rows[1..], id);
      }
    }
  }

  /** No other id sees a change from the update. */
  lemma {:induction false} LookupIncrementedOther(rows: seq<Entry>, id: Uuid, other: Uuid)
    requires other != id
    ensures Lookup(Incremented(rows, id), other) == Lookup(rows, other)
  {
    if rows != [] {
      var r := Incremented(rows, id);
      assert r == [Bump(rows[0], id)] + Incremented(rows[1..], id);
      assert r[1..] == Incremented(rows[1..], id);
      LookupIncrementedOther(rows[1..], id, other);
    }
  }

  /** `WHERE sentByUserId = ?`: the rows of one sender. */
  function Owned(rows: seq<Entry>, user: Uuid): (r: seq<Entry>)
    ensures forall e :: e in r <==> e in rows && e.sentByUserId == user
  {
    if rows == [] then []
    else (if rows[0].sentByUserId == user then [rows[0]] else []) + Owned(rows[1..], user)
  }

  predicate SortedByCreated(rows: seq<Entry>) {
    forall i, j :: 0 <= i < j < |rows| ==> rows[i].createdAtUtc <= rows[j].createdAtUtc
  }

  /** Puts `e` in front of the first row created at or after it. */
  function InsertByCreated(e: Entry, rows: seq<Entry>): seq<Entry> {
    if rows == [] || e.createdAtUtc <= rows[0].createdAtUtc then [e] + rows
    else [rows[0]] + InsertByCreated(e, rows[1..])
  }

  lemma {:induction false} InsertByCreatedPermutes(e: Entry, rows: seq<Entry>)
    ensures multiset(InsertByCreated(e, rows)) == multiset(rows) + multiset{e}
  {
    if rows != [] && e.createdAtUtc > rows[0].createdAtUtc {
      InsertByCreatedPermutes(e, rows[1..]);
      assert rows == [rows[0]] + rows[1..];
    }
  }

  lemma {:induction false} InsertByCreatedSorted(e: Entry, rows: seq<Entry>)
    requires SortedByCreated(rows)
    ensures SortedByCreated(InsertByCreated(e, rows))
  {
    if rows == [] || e.createdAtUtc <= rows[0].createdAtUtc {
      SortedByCreatedCons(e, rows);
    } else {
      var rest := rows[1..];
      assert SortedByCreated(rest) by {
        forall i, j | 0 <= i < j < |rest| ensures rest[i].createdAtUtc <= rest[j].createdAtUtc {
          assert rest[i] == rows[i + 1] && rest[j] == rows[j + 1];
        }
      }
      InsertByCreatedSorted(e, rest);
      InsertByCreatedAfterHead(e, rows);
      SortedByCreatedCons(rows[0], InsertByCreated(e, rest));
    }
  }

  /** A row created no later than any of a sorted sequence, placed in front. */
  lemma SortedByCreatedCons(e: Entry, rows: seq<Entry>)
    requires SortedByCreated(rows) && forall j :: 0 <= j < |rows| ==> e.createdAtUtc <= rows[j].createdAtUtc
    ensures SortedByCreated([e] + rows)
  {
    var r := [e] + rows;
    forall i, j | 0 <= i < j < |r| ensures r[i].createdAtUtc <= r[j].createdAtUtc {
      assert r[j] == rows[j - 1];
      if i > 0 {
        assert r[i] == rows[i - 1];
      }
    }
  }

  /** Inserting a row created after the head of a sorted sequence into its tail gives rows
      created no earlier than the head. */
  lemma InsertByCreatedAfterHead(e: Entry, rows: seq<Entry>)
    requires SortedByCreated(rows) && rows != [] && e.createdAtUtc > rows[0].createdAtUtc
    ensures forall j :: 0 <= j < |InsertByCreated(e, rows[1..])| ==>
      rows[0].createdAtUtc <= InsertByCreated(e, rows[1..])[j].createdAtUtc
  {
    var rest := rows[1..];
    var ins := InsertByCreated(e, rest);
    InsertByCreatedPermutes(e, rest);
    forall j | 0 <= j < |ins| ensures rows[0].createdAtUtc <= ins[j].createdAtUtc {
      assert ins[j] in multiset(ins);
      if ins[j] != e {
        assert ins[j] in multiset(rest);
        var k :| 0 <= k < |rest| && rest[k] == ins[j];
        assert rows[k + 1] == rest[k];
      }
    }
  }

  /** `ORDER BY createdAtUtc`, ties kept in table order. */
  function OrderByCreated(rows: seq<Entry>): (r: seq<Entry>)
    ensures multiset(r) == multiset(rows)
    ensures SortedByCreated(r)
  {
    if rows == [] then []
    else
      var rest := OrderByCreated(rows[1..]);
      InsertByCreatedPermutes(rows[0], rest);
      InsertByCreatedSorted(rows[0], rest);
      assert rows == [rows[0]] + rows[1..];
      InsertByCreated(rows[0], rest)
  }

  /** The ordered rows of a sender are that sender's rows, each carrying the sender's id. */
  lemma OrderedOwnedRows(rows: seq<Entry>, user: Uuid)
    ensures forall k :: 0 <= k < |OrderByCreated(Owned(rows, user))| ==> OrderByCreated(Owned(rows, user))[k].sentByUserId == user
    ensures forall e :: e in OrderByCreated(Owned(rows, user)) <==> e in rows && e.sentByUserId == user
  {
    var o := Owned(rows, user);
    var r := OrderByCreated(o);
    forall k | 0 <= k < |r| ensures r[k].sentByUserId == user {
      assert r[k] in multiset(r);
    }
    forall e ensures e in r <==> e in o {
      assert e in r <==> e in multiset(r);
      assert e in o <==> e in multiset(o);
    }
  }

  /** The in-memory tables. */
  class Store {
    var entries: seq<Entry>
    var claimed: seq<ClaimedEntry>
    var expired: seq<ExpiredEntry>

    ghost predicate Valid()
      reads this
    {
      UniqueIds(entries)
    }

    function State(): Tables
      reads this
    {
      Tables(entries, claimed, expired)
    }

    constructor ()
      ensures Valid() && State() == Tables([], [], [])
    {
      entries, claimed, expired := [], [], [];
    }

    /** Create inserts the row with every field as given; an id already present violates the
        primary key. */
    method Create(e: Entry) returns (err: Option<StoreError>)
      requires Valid()
      modifies this`entries
      ensures Valid()
      ensures err == if HasId(old(entries), e.id) then Some(ErrDuplicateKey) else None
      ensures entries == if err.None? then old(entries) + [e] else old(entries)
    {
      if Lookup(entries, e.id).Some? {
        err := Some(ErrDuplicateKey);
      } else {
        err := None;
        entries := entries + [e];
      }
    }

    /** Find: the stored row, or None when no row has the id. */
    method Find(id: Uuid) returns (r: Option<Entry>)
      ensures r == Lookup(entries, id)
    {
      r := Lookup(entries, id);
    }

    /** FindByUserID: the sender's rows in creation order, each read back with the queried
        sender id. */
    method FindByUserID(user: Uuid) returns (r: seq<Entry>)
      ensures r == OrderByCreated(Owned(entries, user))
      ensures forall e :: e in r <==> e in entries && e.sentByUserId == user
    {
      var rows := OrderByCreated(Owned(entries, user));
      OrderedOwnedRows(entries, user);
      r := [];
      var i := 0;
      while i < |rows|
        invariant 0 <= i <= |rows|
        invariant r == rows[..i]
      {
        assert rows[i].(sentByUserId := user) == rows[i];
        assert rows[..i + 1] == rows[..i] + [rows[i]];
        r := r + [rows[i].(sentByUserId := user)];
        i := i + 1;
      }
      assert rows[..i] == rows;
    }

    /** Delete removes the row with the id, and succeeds when there is none. */
    method Delete(id: Uuid)
      requires Valid()
      modifies this`entries
      ensures Valid()
      ensures entries == Without(old(entries), id)
    {
      WithoutKeepsUniqueIds(entries, id);
      entries := Without(entries, id);
    }

    /** IncrementInvalidAttempts raises the row's count, then reads it back; the read-back of
        an absent id fails with sql.ErrNoRows. */
    method IncrementInvalidAttempts(id: Uuid) returns (r: Result<int, StoreError>)
      requires Valid()
      modifies this`entries
      ensures Valid()
      ensures entries == Incremented(old(entries), id)
      ensures r == match Lookup(entries, id)
        case None => Failure(ErrNoRows)
        case Some(e) => Success(e.invalidAttempts)
    {
      IncrementedKeepsIds(entries, id, id);
      entries := Incremented(entries, id);
      match Lookup(entries, id)
      case None => r := Failure(ErrNoRows);
      case Some(e) => r := Success(e.invalidAttempts);
    }

    method CreateClaimedEntry(ce: ClaimedEntry)
      modifies this`claimed
      ensures claimed == old(claimed) + [ce]
    {
      claimed := claimed + [ce];
    }

    method CreateExpiredEntry(ee: ExpiredEntry)
      modifies this`expired
      ensures expired == old(expired) + [ee]
    {
      expired := expired + [ee];
    }
  }
}
