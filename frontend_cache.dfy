/**
 * The TTL cache `FrontendCache`: documents `{_id, data, expiredAt?}` in the
 * object store "Cache" of the database "system", read and written only through
 * the engine's operations. The reference time is taken once, when the cache is
 * made, and never moves.
 */
module Cache {
  import opened Wrappers
  import opened Tables
  import opened IndexDb

  /** A JavaScript value stored as `data`. Undefined, Null and NaN are the void values. */
  datatype Data = Undefined | Null | NaN | Bool(b: bool) | Num(n: int) | Text(s: string)

  /** A cache document; `expiredAt` is absent for documents that never expire. */
  datatype Doc = Doc(id: string, data: Data, expiredAt: Option<int>)

  const CacheTable: string := "Cache"
  /** `initDB({dbName: 'system', version: 3, tables: [{tableName: 'Cache', keyPath: '_id', indexes: ['expiredAt']}]})` */
  const CacheConfig: Config := Config("system", 3, [TableSpec(CacheTable, ["expiredAt"])])

  /** The primary key of a document: its `_id`. */
  function DocKey(d: Doc): string
  {
    d.id
  }

  /** The condition `data._id === id`. */
  function IdIs(id: string): Doc -> bool
  {
    KeyIs(DocKey, id)
  }

  /** `isVoid`: undefined, null and NaN. */
  predicate IsVoid(d: Data)
    ensures IsVoid(d) <==> !(d.Bool? || d.Num? || d.Text?)
  {
    match d
    case Undefined => true
    case Null => true
    case NaN => true
    case _ => false
  }

  /** `x ?? null`. */
  function OrNull(d: Data): Data
  {
    if d.Undefined? || d.Null? then Null else d
  }

  function Digits(n: nat): string
    decreases n
  {
    var c := "0123456789"[n % 10];
    if n < 10 then [c] else Digits(n / 10) + [c]
  }

  /** `String(n)` for an integer. */
  function Decimal(n: int): string
  {
    if n < 0 then "-" + Digits(-n) else Digits(n)
  }

  /** JavaScript's `data + amount` for a numeric `amount`. */
  function Add(d: Data, amount: int): Data
  {
    match d
    case Undefined => NaN
    case Null => Num(amount)
    case NaN => NaN
    case Bool(b) => Num((if b then 1 else 0) + amount)
    case Num(n) => Num(n + amount)
    case Text(s) => Text(s + Decimal(amount))
  }

  /** The test `get` makes before it returns `doc.data`: the document exists, its data is not
      void, and `expiredAt` is absent, 0, or later than the reference time. */
  predicate Live(doc: Option<Doc>, time: int)
  {
    && doc.Some?
    && !IsVoid(doc.value.data)
    && (doc.value.expiredAt.None? || doc.value.expiredAt.value == 0 || doc.value.expiredAt.value > time)
  }

  /** The sweep's condition `data['expiredAt'] <= time`; false when `expiredAt` is undefined. */
  function SweepMatches(time: int): Doc -> bool
  {
    (d: Doc) => d.expiredAt.Some? && d.expiredAt.value <= time
  }

  /** The document `set` writes: `{_id, data}`, plus `expiredAt = time + timeout` when the timeout is not 0. */
  function Payload(id: string, data: Data, timeout: int, time: int): Doc
  {
    Doc(id, data, if timeout != 0 then Some(time + timeout) else None)
  }

  /** `set`'s handle: keep `_id`, take every other field from the payload. */
  function Restamp(payload: Doc): Doc -> Doc
  {
    (value: Doc) => Doc(value.id, payload.data, payload.expiredAt)
  }

  /** `increase`'s handle: `{...value, data: value.data + amount}`. */
  function Bump(amount: int): Doc -> Doc
  {
    (value: Doc) => value.(data := Add(value.data, amount))
  }

  // ---------------------------------------------------------------------
  // What each cache operation does to the "Cache" table and what it returns

  function GetSpec(t: seq<Doc>, id: string, time: int): (seq<Doc>, Data)
  {
    var doc := Find(DocKey, t, id);
    if Live(doc, time) then (t, doc.value.data) else (Reject(t, IdIs(id)), Null)
  }

  function SetSpec(t: seq<Doc>, id: string, data: Data, timeout: int, time: int): seq<Doc>
  {
    Put(DocKey, t, Payload(id, data, timeout, time))
  }

  /** `increase`, deciding on whether the update found a document. */
  function IncreaseSpec(t: seq<Doc>, id: string, amount: int, time: int): (seq<Doc>, Data)
  {
    match Find(DocKey, t, id)
    case None => (Put(DocKey, t, Doc(id, Num(amount), None)), Num(amount))
    case Some(cur) => GetSpec(Put(DocKey, t, Bump(amount)(cur)), id, time)
  }

  /** `increase` as written: it decides on the truthiness of `result?._id`, which is false for the
      empty id, so an existing document with id "" is overwritten by `{_id: "", data: amount}`. */
  function IncreaseAsWritten(t: seq<Doc>, id: string, amount: int, time: int): (seq<Doc>, Data)
  {
    match Find(DocKey, t, id)
    case None => (Put(DocKey, t, Doc(id, Num(amount), None)), Num(amount))
    case Some(cur) =>
      var t1 := Put(DocKey, t, Bump(amount)(cur));
      if id != "" then GetSpec(t1, id, time)
      else (Put(DocKey, t1, Doc(id, Num(amount), None)), Num(amount))
  }

  function DeleteSpec(t: seq<Doc>, id: string): (seq<Doc>, bool)
  {
    (Reject(t, IdIs(id)), |Filter(t, IdIs(id))| != 0)
  }

  function PopSpec(t: seq<Doc>, id: string): (seq<Doc>, Data)
  {
    var removed := Filter(t, IdIs(id));
    (Reject(t, IdIs(id)), if |removed| != 0 then OrNull(removed[0].data) else Null)
  }

  function SweepSpec(t: seq<Doc>, time: int): seq<Doc>
  {
    Reject(t, SweepMatches(time))
  }

  // ---------------------------------------------------------------------
  // Properties of the cache operations

  /** No document with `id` is left in a table after the cursor delete on `_id === id`,
      and every other key reads as before. */
  lemma RejectIdSpec(t: seq<Doc>, id: string)
    ensures forall x :: x in Reject(t, IdIs(id)) ==> x in t && x.id != id
    ensures Find(DocKey, Reject(t, IdIs(id)), id) == None
    ensures forall k :: k != id ==> Find(DocKey, Reject(t, IdIs(id)), k) == Find(DocKey, t, k)
  {
    forall x ensures x in Reject(t, IdIs(id)) ==> x in t && x.id != id {
      FilterMembership(t, Not(IdIs(id)), x);
      assert Not(IdIs(id))(x) == (DocKey(x) != id);
    }
    DeleteKeyFind(DocKey, t, id, id);
    forall k | k != id ensures Find(DocKey, Reject(t, IdIs(id)), k) == Find(DocKey, t, k) {
      DeleteKeyFind(DocKey, t, id, k);
    }
  }

  /** `get` returns `data` exactly when the stored document is live, and then changes nothing;
      otherwise it returns null and no document with that id remains. */
  lemma GetReturnsOnlyLiveData(t: seq<Doc>, id: string, time: int)
    ensures var (t', d) := GetSpec(t, id, time);
      var doc := Find(DocKey, t, id);
      && (d != Null <==> Live(doc, time))
      && (Live(doc, time) ==> t' == t && d == doc.value.data)
      && (!Live(doc, time) ==> forall x :: x in t' ==> x in t && x.id != id)
      && (forall k :: k != id ==> Find(DocKey, t', k) == Find(DocKey, t, k))
  {
    RejectIdSpec(t, id);
  }

  /** `set` stores exactly its payload under `id` (earlier fields are gone) and other ids are
      unchanged, whether or not the id existed. */
  lemma SetStoresPayload(t: seq<Doc>, id: string, data: Data, timeout: int, time: int, k: string)
    ensures Find(DocKey, SetSpec(t, id, data, timeout, time), k) ==
      if k == id then Some(Payload(id, data, timeout, time)) else Find(DocKey, t, k)
    ensures timeout == 0 ==> Payload(id, data, timeout, time).expiredAt == None
    ensures timeout != 0 ==> Payload(id, data, timeout, time).expiredAt == Some(time + timeout)
  {
    PutFind(DocKey, t, Payload(id, data, timeout, time), k);
  }

  /** Repeating an identical `set` leaves the table as the first one left it. */
  lemma SetIdempotent(t: seq<Doc>, id: string, data: Data, timeout: int, time: int)
    ensures SetSpec(SetSpec(t, id, data, timeout, time), id, data, timeout, time) == SetSpec(t, id, data, timeout, time)
  {
    PutIdempotent(DocKey, t, Payload(id, data, timeout, time));
  }

  /** `set(id, d, timeout)` with a timeout of 0 or more, then `get(id)`, returns `d` and leaves the
      table as `set` left it, when `d` is not void. */
  lemma SetThenGet(t: seq<Doc>, id: string, data: Data, timeout: int, time: int)
    requires !IsVoid(data) && timeout >= 0
    ensures GetSpec(SetSpec(t, id, data, timeout, time), id, time) == (SetSpec(t, id, data, timeout, time), data)
  {
    SetStoresPayload(t, id, data, timeout, time, id);
  }

  /** A document set with a timeout is gone for a cache whose reference time has reached the
      expiry: `get` returns null and a point read then finds nothing. */
  lemma SetThenGetAfterExpiry(t: seq<Doc>, id: string, data: Data, timeout: int, time: int, later: int)
    requires timeout != 0 && time + timeout != 0 && later >= time + timeout
    ensures var (t', d) := GetSpec(SetSpec(t, id, data, timeout, time), id, later);
      d == Null && Find(DocKey, t', id) == None
  {
    SetStoresPayload(t, id, data, timeout, time, id);
    RejectIdSpec(SetSpec(t, id, data, timeout, time), id);
  }

  /** `increase` on an absent id stores `{_id: id, data: amount}` without expiry and returns `amount`. */
  lemma IncreaseAbsent(t: seq<Doc>, id: string, amount: int, time: int)
    requires Find(DocKey, t, id).None?
    ensures var (t', d) := IncreaseSpec(t, id, amount, time);
      d == Num(amount) && Find(DocKey, t', id) == Some(Doc(id, Num(amount), None))
  {
    PutFind(DocKey, t, Doc(id, Num(amount), None), id);
  }

  /** `increase` on a present id adds `amount` to its data, keeps `expiredAt`, and returns what
      `get` then returns: the sum when the document is still live, null otherwise. */
  lemma IncreasePresent(t: seq<Doc>, id: string, amount: int, time: int)
    requires Find(DocKey, t, id).Some?
    ensures var cur := Find(DocKey, t, id).value;
      var bumped := Doc(id, Add(cur.data, amount), cur.expiredAt);
      var (t', d) := IncreaseSpec(t, id, amount, time);
      if Live(Some(bumped), time) then d == bumped.data && Find(DocKey, t', id) == Some(bumped)
      else d == Null && Find(DocKey, t', id) == None
  {
    var cur := Find(DocKey, t, id).value;
    FindSpec(DocKey, t, id);
    var t1 := Put(DocKey, t, Bump(amount)(cur));
    PutFind(DocKey, t, Bump(amount)(cur), id);
    RejectIdSpec(t1, id);
  }

  /** `increase` leaves every document with another id as it was, whether or not `id` existed. */
  lemma IncreaseKeepsOtherIds(t: seq<Doc>, id: string, amount: int, time: int, k: string)
    requires k != id
    ensures Find(DocKey, IncreaseSpec(t, id, amount, time).0, k) == Find(DocKey, t, k)
  {
    match Find(DocKey, t, id)
    case None =>
      PutFind(DocKey, t, Doc(id, Num(amount), None), k);
    case Some(cur) =>
      FindSpec(DocKey, t, id);
      PutFind(DocKey, t, Bump(amount)(cur), k);
      RejectIdSpec(Put(DocKey, t, Bump(amount)(cur)), id);
  }

  /** A counter: `increase(id, x)` on an absent id returns x, and a second `increase(id, y)`
      returns x + y. */
  lemma IncreaseTwice(t: seq<Doc>, id: string, x: int, y: int, time: int)
    requires Find(DocKey, t, id).None?
    ensures var (t1, a) := IncreaseSpec(t, id, x, time);
      var (t2, b) := IncreaseSpec(t1, id, y, time);
      a == Num(x) && b == Num(x + y)
  {
    IncreaseAbsent(t, id, x, time);
    IncreasePresent(IncreaseSpec(t, id, x, time).0, id, y, time);
  }

  /** The discrepancy in `increase`: with the empty id, an existing document is overwritten by
      `{_id: "", data: amount}` and `amount` is returned instead of the sum. */
  lemma IncreaseAsWrittenDropsEmptyId(time: int)
    ensures IncreaseAsWritten([Doc("", Num(1), None)], "", 2, time) == ([Doc("", Num(2), None)], Num(2))
    ensures IncreaseSpec([Doc("", Num(1), None)], "", 2, time) == ([Doc("", Num(3), None)], Num(3))
  {
    var t := [Doc("", Num(1), None)];
    assert Find(DocKey, t, "") == Some(Doc("", Num(1), None));
    assert Put(DocKey, t, Doc("", Num(3), None)) == [Doc("", Num(3), None)];
    assert Put(DocKey, [Doc("", Num(3), None)], Doc("", Num(2), None)) == [Doc("", Num(2), None)];
    assert Find(DocKey, [Doc("", Num(3), None)], "") == Some(Doc("", Num(3), None));
  }

  /** For every non-empty id the code as written and the corrected `increase` agree. */
  lemma IncreaseAsWrittenAgrees(t: seq<Doc>, id: string, amount: int, time: int)
    requires id != ""
    ensures IncreaseAsWritten(t, id, amount, time) == IncreaseSpec(t, id, amount, time)
  {
  }

  /** The first record a cursor delete on `_id === id` removes is the stored document. */
  lemma RemovedIsStored(t: seq<Doc>, id: string)
    requires DistinctKeys(DocKey, t)
    ensures Filter(t, IdIs(id)) == if Find(DocKey, t, id).Some? then [Find(DocKey, t, id).value] else []
  {
    FilterKeyIsFind(DocKey, t, id);
  }

  /** `delete(id)` answers true exactly when a document with that id existed, and afterwards none remains. */
  lemma DeleteSpecHolds(t: seq<Doc>, id: string)
    requires DistinctKeys(DocKey, t)
    ensures var (t', removed) := DeleteSpec(t, id);
      && (removed <==> Find(DocKey, t, id).Some?)
      && Find(DocKey, t', id) == None
      && (forall x :: x in t' ==> x in t && x.id != id)
      && (forall k :: k != id ==> Find(DocKey, t', k) == Find(DocKey, t, k))
  {
    RemovedIsStored(t, id);
    RejectIdSpec(t, id);
  }

  /** `pop(id)` returns the stored document's data (null when absent or when data is null or
      undefined), leaves no document with that id, and a second `pop` returns null. */
  lemma PopSpecHolds(t: seq<Doc>, id: string)
    requires DistinctKeys(DocKey, t)
    ensures var (t', d) := PopSpec(t, id);
      && d == (if Find(DocKey, t, id).Some? then OrNull(Find(DocKey, t, id).value.data) else Null)
      && Find(DocKey, t', id) == None
      && PopSpec(t', id) == (t', Null)
  {
    RemovedIsStored(t, id);
    RejectIdSpec(t, id);
    var t' := Reject(t, IdIs(id));
    FilterDistinct(DocKey, t, Not(IdIs(id)));
    RemovedIsStored(t', id);
    DeleteKeyAbsent(DocKey, t', id);
  }

  /** The sweep removes exactly the documents whose `expiredAt` is set and not after the
      reference time; documents without `expiredAt` survive. */
  lemma SweepSpecHolds(t: seq<Doc>, time: int)
    ensures forall x :: x in SweepSpec(t, time) <==>
      x in t && (x.expiredAt.None? || x.expiredAt.value > time)
    ensures |SweepSpec(t, time)| <= |t|
  {
    forall x ensures x in SweepSpec(t, time) <==> x in t && (x.expiredAt.None? || x.expiredAt.value > time) {
      FilterMembership(t, Not(SweepMatches(time)), x);
    }
    FilterBounded(t, Not(SweepMatches(time)));
  }

  /** The sweep and `get` agree on which documents are expired, except for `expiredAt == 0`,
      which `get` treats as "never" and the sweep as long past. */
  lemma SweepAgreesWithGet(doc: Doc, time: int)
    requires !IsVoid(doc.data)
    ensures doc.expiredAt != Some(0) ==> (SweepMatches(time)(doc) <==> !Live(Some(doc), time))
    ensures doc.expiredAt == Some(0) && time >= 0 ==> SweepMatches(time)(doc) && Live(Some(doc), time)
  {
  }

  /** Opening the cache database creates the "Cache" store when it is missing and leaves an
      existing one untouched. */
  lemma CacheOpenCreatesTable(s: Store<Doc>)
    ensures CacheTable in CreateTables(s, CacheConfig.tables)
    ensures CacheTable in s ==> CreateTables(s, CacheConfig.tables)[CacheTable] == s[CacheTable]
    ensures CacheTable !in s ==> CreateTables(s, CacheConfig.tables)[CacheTable] == []
  {
    CreateTablesSpec(s, CacheConfig.tables);
  }

  /** Both paths of `set` end in the same table: updating the found document with the payload's
      fields, possibly followed by the fallback insert, or inserting the payload when none exists. */
  lemma SetPaths(t: seq<Doc>, payload: Doc)
    ensures Find(DocKey, t, payload.id).Some? ==>
      && Put(DocKey, t, Restamp(payload)(Find(DocKey, t, payload.id).value)) == Put(DocKey, t, payload)
      && PutAll(DocKey, Put(DocKey, t, payload), [payload]) == Put(DocKey, t, payload)
    ensures Find(DocKey, t, payload.id).None? ==> PutAll(DocKey, t, [payload]) == Put(DocKey, t, payload)
  {
    FindSpec(DocKey, t, payload.id);
    PutIdempotent(DocKey, t, payload);
    assert [payload][..0] == [];
    assert PutAll(DocKey, Put(DocKey, t, payload), [payload]) == Put(DocKey, PutAll(DocKey, Put(DocKey, t, payload), []), payload);
    assert PutAll(DocKey, t, [payload]) == Put(DocKey, PutAll(DocKey, t, []), payload);
  }

  // ---------------------------------------------------------------------
  // The cache object

  class FrontendCache {
    /** `Math.floor(Date.now() / 1000)` at construction. */
    const time: int
    const db: TsIndexDb<string, Doc>

    ghost predicate Valid()
      reads this, db, db.disk
    {
      db.Valid() && db.ready && db.keyOf == DocKey
    }

    constructor (time: int, db: TsIndexDb<string, Doc>)
      requires db.Valid() && db.ready && db.keyOf == DocKey
      ensures Valid() && this.time == time && this.db == db
    {
      this.time := time;
      this.db := db;
    }

    method Get(id: string) returns (r: Result<Data>)
      requires Valid()
      modifies db, db.disk
      ensures Valid() && db.disk.version == old(db.disk.version)
      ensures CacheTable !in old(db.disk.tables) ==>
        r == Failure(NoSuchTable(CacheTable)) && db.disk.tables == old(db.disk.tables)
      ensures CacheTable in old(db.disk.tables) ==>
        && r == Success(GetSpec(old(db.disk.tables)[CacheTable], id, time).1)
        && db.disk.tables == old(db.disk.tables)[CacheTable := GetSpec(old(db.disk.tables)[CacheTable], id, time).0]
    {
      var q := db.Commit(QueryByKeyOp(CacheTable, id));
      var reply :- q.value;
      var doc := reply.record;
      if Live(doc, time) {
        assert db.disk.tables == old(db.disk.tables)[CacheTable := old(db.disk.tables)[CacheTable]];
        return Success(doc.value.data);
      }
      var d := db.Commit(DeleteOp(CacheTable, IdIs(id)));
      r := Success(Null);
    }

    method Set(id: string, data: Data, timeout: int) returns (r: Result<()>)
      requires Valid()
      modifies db, db.disk
      ensures Valid() && db.disk.version == old(db.disk.version)
      ensures CacheTable !in old(db.disk.tables) ==>
        r == Failure(NoSuchTable(CacheTable)) && db.disk.tables == old(db.disk.tables)
      ensures CacheTable in old(db.disk.tables) ==>
        && r == Success(())
        && db.disk.tables == old(db.disk.tables)[CacheTable := SetSpec(old(db.disk.tables)[CacheTable], id, data, timeout, time)]
    {
      var payload := Payload(id, data, timeout, time);
      ghost var t := if CacheTable in db.disk.tables then db.disk.tables[CacheTable] else [];
      var u := db.Commit(UpdateByKeyOp(CacheTable, id, Restamp(payload)));
      var reply :- u.value;
      var result := reply.record;
      SetPaths(t, payload);
      if result.None? || result.value.id == "" {
        var ins := db.Commit(InsertOp(CacheTable, [payload]));
      }
      r := Success(());
    }

    method Increase(id: string, amount: int) returns (r: Result<Data>)
      requires Valid()
      modifies db, db.disk
      ensures Valid() && db.disk.version == old(db.disk.version)
      ensures CacheTable !in old(db.disk.tables) ==>
        r == Failure(NoSuchTable(CacheTable)) && db.disk.tables == old(db.disk.tables)
      ensures CacheTable in old(db.disk.tables) ==>
        && r == Success(IncreaseSpec(old(db.disk.tables)[CacheTable], id, amount, time).1)
        && db.disk.tables == old(db.disk.tables)[CacheTable := IncreaseSpec(old(db.disk.tables)[CacheTable], id, amount, time).0]
    {
      var u := db.Commit(UpdateByKeyOp(CacheTable, id, Bump(amount)));
      var reply :- u.value;
      if reply.record.Some? {
        r := Get(id);
      } else {
        ghost var t1 := db.disk.tables[CacheTable];
        var created := Doc(id, Num(amount), None);
        var ins := db.Commit(InsertOp(CacheTable, [created]));
        assert PutAll(DocKey, t1, [created]) == Put(DocKey, PutAll(DocKey, t1, []), created) by {
          assert [created][..0] == [];
        }
        r := Success(Num(amount));
      }
    }

    method Delete(id: string) returns (r: Result<bool>)
      requires Valid()
      modifies db, db.disk
      ensures Valid() && db.disk.version == old(db.disk.version)
      ensures CacheTable !in old(db.disk.tables) ==>
        r == Failure(NoSuchTable(CacheTable)) && db.disk.tables == old(db.disk.tables)
      ensures CacheTable in old(db.disk.tables) ==>
        && r == Success(DeleteSpec(old(db.disk.tables)[CacheTable], id).1)
        && db.disk.tables == old(db.disk.tables)[CacheTable := DeleteSpec(old(db.disk.tables)[CacheTable], id).0]
    {
      var d := db.Commit(DeleteOp(CacheTable, IdIs(id)));
      var reply :- d.value;
      r := Success(|reply.records| != 0);
    }

    method Pop(id: string) returns (r: Result<Data>)
      requires Valid()
      modifies db, db.disk
      ensures Valid() && db.disk.version == old(db.disk.version)
      ensures CacheTable !in old(db.disk.tables) ==>
        r == Failure(NoSuchTable(CacheTable)) && db.disk.tables == old(db.disk.tables)
      ensures CacheTable in old(db.disk.tables) ==>
        && r == Success(PopSpec(old(db.disk.tables)[CacheTable], id).1)
        && db.disk.tables == old(db.disk.tables)[CacheTable := PopSpec(old(db.disk.tables)[CacheTable], id).0]
    {
      var d := db.Commit(DeleteOp(CacheTable, IdIs(id)));
      var reply :- d.value;
      var removed := reply.records;
      r := Success(if |removed| != 0 then OrNull(removed[0].data) else Null);
    }

    /** One tick of the sweep timer, which fires every 60 seconds; a failure is swallowed. */
    method Sweep()
      requires Valid()
      modifies db, db.disk
      ensures Valid() && db.disk.version == old(db.disk.version)
      ensures CacheTable !in old(db.disk.tables) ==> db.disk.tables == old(db.disk.tables)
      ensures CacheTable in old(db.disk.tables) ==>
        db.disk.tables == old(db.disk.tables)[CacheTable := SweepSpec(old(db.disk.tables)[CacheTable], time)]
    {
      var d := db.Commit(DeleteOp(CacheTable, SweepMatches(time)));
    }
  }
}
