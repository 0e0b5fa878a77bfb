/**
 * The IndexedDB wrapper `TsIndexDb`. The browser database is a value: a map
 * from object-store names to tables (see module Tables) held by a `Disk`
 * object that outlives any one wrapper instance. Each public operation of the
 * wrapper is an `Op`; `Apply` says what running it does. An operation issued
 * before the database is open is kept in `queue` and run when `OpenDB`
 * drains the queue.
 */
module IndexDb {
  import opened Wrappers
  import opened Tables

  /** A rejected request. */
  datatype Error =
    | NoSuchTable(name: string)                 // the transaction names an object store that does not exist
    | VersionError(requested: nat, stored: nat) // open with a version lower than the stored one

  datatype Result<+T> = Success(value: T) | Failure(error: Error) {
    predicate IsFailure() { Failure? }
    function PropagateFailure<U>(): Result<U> requires Failure? { Failure(error) }
    function Extract(): T requires Success? { value }
  }

  /** A version number of a database: IndexedDB versions start at 1. */
  type Version = v: nat | 1 <= v witness 1

  /** Declared object store: its name and the fields it indexes (index internals are not modelled). */
  datatype TableSpec = TableSpec(name: string, indexes: seq<string>)

  /** The options `{dbName, version, tables}` an instance is created with. */
  datatype Config = Config(dbName: string, version: Version, tables: seq<TableSpec>)

  type Store<R> = map<string, seq<R>>

  /** One wrapper operation, as the closure `commitDb` builds for it. */
  datatype Op<K, !R> =
    | QueryAllOp(table: string)
    | QueryOp(table: string, cond: R -> bool)
    | QueryByKeyOp(table: string, key: K)
    | UpdateOp(table: string, cond: R -> bool, handle: R -> R)
    | UpdateByKeyOp(table: string, key: K, handle: R -> R)
    | InsertOp(table: string, records: seq<R>)
    | DeleteOp(table: string, cond: R -> bool)
    | DeleteByKeyOp(table: string, key: K)
    | ClearOp(table: string)

  /** What an operation resolves with: a list of records, one record or null, or nothing. */
  datatype Reply<R> = Records(records: seq<R>) | Record(record: Option<R>) | Done

  /** What `closeDB` resolves with: the "please open the database" string, or null. */
  datatype CloseReply = NotOpen | Closed

  /** Transforms passed to updates keep the primary key. */
  ghost predicate WellFormed<K, R(!new)>(key: R -> K, op: Op<K, R>)
  {
    match op
    case UpdateOp(_, _, h) => KeyPreserving(key, h)
    case UpdateByKeyOp(_, _, h) => KeyPreserving(key, h)
    case _ => true
  }

  ghost predicate StoreValid<K, R>(key: R -> K, s: Store<R>)
  {
    forall name :: name in s ==> DistinctKeys(key, s[name])
  }

  /** Running one operation against the database: the new database and the result. */
  function Apply<K(==), R>(key: R -> K, s: Store<R>, op: Op<K, R>): (Store<R>, Result<Reply<R>>)
  {
    if op.table !in s then (s, Failure(NoSuchTable(op.table)))
    else
      var t := s[op.table];
      match op
      case QueryAllOp(_) => (s, Success(Records(Filter(t, Always()))))
      case QueryOp(_, c) => (s, Success(Records(Filter(t, c))))
      case QueryByKeyOp(_, k) => (s, Success(Record(Find(key, t, k))))
      case UpdateOp(_, c, h) => (s[op.table := MapWhere(t, c, h)], Success(Records(Images(t, c, h))))
      case UpdateByKeyOp(_, k, h) =>
        (match Find(key, t, k)
         case None => (s, Success(Record(None)))
         case Some(cur) => (s[op.table := Put(key, t, h(cur))], Success(Record(Some(h(cur))))))
      case InsertOp(_, rs) => (s[op.table := PutAll(key, t, rs)], Success(Done))
      case DeleteOp(_, c) => (s[op.table := Reject(t, c)], Success(Records(Filter(t, c))))
      case DeleteByKeyOp(_, k) => (s[op.table := DeleteKey(key, t, k)], Success(Done))
      case ClearOp(_) => (s[op.table := []], Success(Done))
  }

  /** The drain loop of `openDB`: pop the most recently queued task, run it, repeat. */
  function Drain<K(==), R>(key: R -> K, s: Store<R>, q: seq<Op<K, R>>): (Store<R>, seq<Result<Reply<R>>>)
    decreases |q|
  {
    if q == [] then (s, [])
    else
      var (s1, o) := Apply(key, s, q[|q| - 1]);
      var (s2, os) := Drain(key, s1, q[..|q| - 1]);
      (s2, [o] + os)
  }

  /** Running operations first to last. */
  function RunInOrder<K(==), R>(key: R -> K, s: Store<R>, ops: seq<Op<K, R>>): (Store<R>, seq<Result<Reply<R>>>)
  {
    if ops == [] then (s, [])
    else
      var (s1, o) := Apply(key, s, ops[0]);
      var (s2, os) := RunInOrder(key, s1, ops[1..]);
      (s2, [o] + os)
  }

  function Reverse<T>(s: seq<T>): seq<T>
    decreases |s|
  {
    if s == [] then [] else [s[|s| - 1]] + Reverse(s[..|s| - 1])
  }

  /** The object stores that the upgrade creates: each declared one not yet present, empty. */
  function CreateTables<R>(s: Store<R>, specs: seq<TableSpec>): Store<R>
    decreases |specs|
  {
    if specs == [] then s
    else
      var s' := CreateTables(s, specs[..|specs| - 1]);
      var name := specs[|specs| - 1].name;
      if name in s' then s' else s'[name := []]
  }

  // ---------------------------------------------------------------------
  // Properties of the specification functions

  lemma {:induction false} ReverseAt<T>(s: seq<T>)
    ensures |Reverse(s)| == |s|
    ensures forall i :: 0 <= i < |s| ==> Reverse(s)[i] == s[|s| - 1 - i]
    decreases |s|
  {
    if s != [] {
      ReverseAt(s[..|s| - 1]);
    }
  }

  /** Draining the queue runs its tasks in reverse of push order (last in, first out). */
  lemma {:induction false} DrainIsReversed<K, R>(key: R -> K, s: Store<R>, q: seq<Op<K, R>>)
    ensures Drain(key, s, q) == RunInOrder(key, s, Reverse(q))
    decreases |q|
  {
    if q != [] {
      var (s1, o) := Apply(key, s, q[|q| - 1]);
      DrainIsReversed(key, s1, q[..|q| - 1]);
      assert Reverse(q)[0] == q[|q| - 1];
      assert Reverse(q)[1..] == Reverse(q[..|q| - 1]);
    }
  }

  /** Every queued task runs exactly once: one result per task. */
  lemma {:induction false} DrainRunsEachOnce<K, R>(key: R -> K, s: Store<R>, q: seq<Op<K, R>>)
    ensures |Drain(key, s, q).1| == |q|
    decreases |q|
  {
    if q != [] {
      DrainRunsEachOnce(key, Apply(key, s, q[|q| - 1]).0, q[..|q| - 1]);
    }
  }

  /** No operation adds or removes object stores, and every one keeps primary keys distinct. */
  lemma ApplyPreservesValid<K, R(!new)>(key: R -> K, s: Store<R>, op: Op<K, R>)
    requires StoreValid(key, s) && WellFormed(key, op)
    ensures Apply(key, s, op).0.Keys == s.Keys
    ensures StoreValid(key, Apply(key, s, op).0)
  {
    if op.table in s {
      var t := s[op.table];
      match op
      case UpdateOp(_, c, h) => MapWhereDistinct(key, t, c, h);
      case UpdateByKeyOp(_, k, h) =>
        if Find(key, t, k).Some? {
          PutDistinct(key, t, h(Find(key, t, k).value));
        }
      case InsertOp(_, rs) => PutAllDistinct(key, t, rs);
      case DeleteOp(_, c) => FilterDistinct(key, t, Not(c));
      case DeleteByKeyOp(_, k) => FilterDistinct(key, t, Not(KeyIs(key, k)));
      case _ =>
    }
  }

  /** A query returns exactly the matching records, at most the table's size, and changes nothing. */
  lemma QueryReadOnly<K, R>(key: R -> K, s: Store<R>, table: string, cond: R -> bool)
    requires table in s
    ensures Apply(key, s, QueryOp(table, cond)).0 == s
    ensures Apply(key, s, QueryOp(table, cond)).1.Success?
    ensures var rs := Apply(key, s, QueryOp(table, cond)).1.value.records;
      |rs| <= |s[table]| && forall x :: x in rs <==> x in s[table] && cond(x)
  {
    FilterBounded(s[table], cond);
    forall x ensures x in Filter(s[table], cond) <==> x in s[table] && cond(x) {
      FilterMembership(s[table], cond, x);
    }
  }

  /** `queryAll` returns the whole table in cursor order. */
  lemma QueryAllReturnsTable<K, R>(key: R -> K, s: Store<R>, table: string)
    requires table in s
    ensures Apply(key, s, QueryAllOp(table)) == (s, Success(Records(s[table])))
  {
    FilterAlways(s[table]);
  }

  /** A conditional delete removes what a query with the same condition returns, and the
      removed and the remaining records together are the old table. */
  lemma DeleteMatchesQuery<K, R>(key: R -> K, s: Store<R>, table: string, cond: R -> bool)
    requires table in s
    ensures Apply(key, s, DeleteOp(table, cond)).1 == Apply(key, s, QueryOp(table, cond)).1
    ensures var removed := Apply(key, s, DeleteOp(table, cond)).1.value.records;
      var left := Apply(key, s, DeleteOp(table, cond)).0[table];
      multiset(removed) + multiset(left) == multiset(s[table]) &&
      (forall x :: x in left <==> x in s[table] && !cond(x))
  {
    FilterPartition(s[table], cond);
    forall x ensures x in Reject(s[table], cond) <==> x in s[table] && !cond(x) {
      FilterMembership(s[table], Not(cond), x);
    }
  }

  /** A conditional update rewrites exactly the matching slots and returns their images in cursor order. */
  lemma UpdateRewritesMatches<K, R>(key: R -> K, s: Store<R>, table: string, cond: R -> bool, h: R -> R)
    requires table in s
    ensures var (s', o) := Apply(key, s, UpdateOp(table, cond, h));
      var t, t' := s[table], s'[table];
      |t'| == |t| &&
      (forall i :: 0 <= i < |t| ==> t'[i] == if cond(t[i]) then h(t[i]) else t[i]) &&
      o.Success? && |o.value.records| == |Filter(t, cond)| &&
      (forall i :: 0 <= i < |Filter(t, cond)| ==> o.value.records[i] == h(Filter(t, cond)[i]))
  {
    MapWhereAt(s[table], cond, h);
    ImagesAt(s[table], cond, h);
  }

  /** `updateByPrimaryKey` on an absent key resolves null and changes nothing; on a present key it
      stores `handle(current)` under that key, returns it, and leaves other keys alone. */
  lemma UpdateByKeySpec<K, R(!new)>(key: R -> K, s: Store<R>, table: string, k: K, h: R -> R, k': K)
    requires table in s && KeyPreserving(key, h)
    ensures var (s', o) := Apply(key, s, UpdateByKeyOp(table, k, h));
      match Find(key, s[table], k)
      case None => s' == s && o == Success(Record(None))
      case Some(cur) =>
        o == Success(Record(Some(h(cur)))) &&
        Find(key, s'[table], k) == Some(h(cur)) &&
        (k' != k ==> Find(key, s'[table], k') == Find(key, s[table], k'))
  {
    var t := s[table];
    FindSpec(key, t, k);
    if Find(key, t, k).Some? {
      var cur := Find(key, t, k).value;
      PutFind(key, t, h(cur), k);
      PutFind(key, t, h(cur), k');
    }
  }

  /** Insert round trip: after inserting a batch, a point read of a key the batch wrote returns the
      batch's last record with that key; reads of other keys are unchanged. */
  lemma InsertThenQueryByKey<K, R>(key: R -> K, s: Store<R>, table: string, rs: seq<R>, k: K)
    requires table in s
    ensures var s1 := Apply(key, s, InsertOp(table, rs)).0;
      Apply(key, s1, QueryByKeyOp(table, k)).1 ==
        Success(Record(if FindLast(key, rs, k).Some? then FindLast(key, rs, k) else Find(key, s[table], k)))
  {
    PutAllFind(key, s[table], rs, k);
  }

  /** Inserting one record and reading its key back returns that record. */
  lemma InsertOneRoundTrip<K, R>(key: R -> K, s: Store<R>, table: string, r: R)
    requires table in s
    ensures Apply(key, Apply(key, s, InsertOp(table, [r])).0, QueryByKeyOp(table, key(r))).1 ==
      Success(Record(Some(r)))
  {
    InsertThenQueryByKey(key, s, table, [r], key(r));
  }

  /** `deleteByPrimaryKey` removes that key only, and is a no-op for an absent key. */
  lemma DeleteByKeySpec<K, R>(key: R -> K, s: Store<R>, table: string, k: K, k': K)
    requires table in s
    ensures var s' := Apply(key, s, DeleteByKeyOp(table, k)).0;
      Find(key, s'[table], k) == None &&
      (k' != k ==> Find(key, s'[table], k') == Find(key, s[table], k')) &&
      (Find(key, s[table], k).None? ==> s' == s)
  {
    DeleteKeyFind(key, s[table], k, k);
    DeleteKeyFind(key, s[table], k, k');
    if Find(key, s[table], k).None? {
      DeleteKeyAbsent(key, s[table], k);
      assert s[table := s[table]] == s;
    }
  }

  /** Draining a two-task queue runs the second task, then the first. */
  lemma DrainPair<K, R>(key: R -> K, s: Store<R>, x: Op<K, R>, y: Op<K, R>)
    ensures Drain(key, s, [x, y]).0 == Apply(key, Apply(key, s, y).0, x).0
  {
    var q := [x, y];
    assert q[|q| - 1] == y && q[..|q| - 1] == [x];
    var s1 := Apply(key, s, y).0;
    assert Drain(key, s, q).0 == Drain(key, s1, [x]).0;
    assert [x][..0] == [];
    assert Drain(key, s1, [x]).0 == Drain(key, Apply(key, s1, x).0, []).0;
  }

  /** The LIFO drain is observable: when two queued inserts write the same key, the record that
      stays is the one pushed first, because it runs last. */
  lemma DrainLastWriterIsFirstPushed<K, R>(key: R -> K, s: Store<R>, table: string, a: R, b: R)
    requires table in s && key(a) == key(b)
    ensures var s' := Drain(key, s, [InsertOp(table, [a]), InsertOp(table, [b])]).0;
      table in s' && Find(key, s'[table], key(a)) == Some(a)
  {
    var s1 := Apply(key, s, InsertOp(table, [b])).0;
    DrainPair(key, s, InsertOp(table, [a]), InsertOp(table, [b]));
    InsertThenQueryByKey(key, s1, table, [a], key(a));
  }

  /** Two inserts queued before the database opened both land, whatever the drain order. */
  lemma QueuedInsertsBothLand<K, R>(key: R -> K, s: Store<R>, table: string, a: R, b: R)
    requires table in s && key(a) != key(b)
    ensures var s' := Drain(key, s, [InsertOp(table, [a]), InsertOp(table, [b])]).0;
      table in s' && Find(key, s'[table], key(a)) == Some(a) && Find(key, s'[table], key(b)) == Some(b)
  {
    var s1 := Apply(key, s, InsertOp(table, [b])).0;
    DrainPair(key, s, InsertOp(table, [a]), InsertOp(table, [b]));
    InsertThenQueryByKey(key, s, table, [b], key(b));
    InsertThenQueryByKey(key, s1, table, [a], key(a));
    InsertThenQueryByKey(key, s1, table, [a], key(b));
  }

  /** The upgrade creates every declared object store that is missing, as an empty table, and
      leaves every existing one untouched. */
  lemma {:induction false} CreateTablesSpec<R>(s: Store<R>, specs: seq<TableSpec>)
    ensures forall name :: name in s ==> name in CreateTables(s, specs) && CreateTables(s, specs)[name] == s[name]
    ensures forall i :: 0 <= i < |specs| ==> specs[i].name in CreateTables(s, specs)
    ensures forall name :: name in CreateTables(s, specs) && name !in s ==>
      CreateTables(s, specs)[name] == [] && exists i :: 0 <= i < |specs| && specs[i].name == name
    decreases |specs|
  {
    if specs != [] {
      var init := specs[..|specs| - 1];
      CreateTablesSpec(s, init);
      forall name | name in CreateTables(s, specs) && name !in s
        ensures exists i :: 0 <= i < |specs| && specs[i].name == name
      {
        if name in CreateTables(s, init) {
          var i :| 0 <= i < |init| && init[i].name == name;
          assert specs[i] == init[i];
        } else {
          assert specs[|specs| - 1].name == name;
        }
      }
      forall i | 0 <= i < |init| ensures specs[i].name in CreateTables(s, specs) {
        assert specs[i] == init[i];
      }
    }
  }

  // ---------------------------------------------------------------------
  // The browser database and the wrapper object

  /** The browser's database of one name: its object stores and its stored version. It persists
      across wrapper instances. */
  class Disk<R> {
    var tables: Store<R>
    var version: nat

    constructor ()
      ensures tables == map[] && version == 0
    {
      tables := map[];
      version := 0;
    }
  }

  /** What a cursor's `handler` does with a matching record. */
  datatype CursorAction<!R> = Collect | Rewrite(handle: R -> R) | Remove

  /** The process-wide `_instance` slot of the singleton. */
  class Registry<K(==), R(!new)> {
    var instance: TsIndexDb?<K, R>

    constructor ()
      ensures instance == null
    {
      instance := null;
    }

    /** `getInstance`: create an instance only when none exists and options are given;
        otherwise hand back the current one (possibly null) unchanged. */
    method GetInstance(options: Option<Config>, keyOf: R -> K, disk: Disk<R>) returns (db: TsIndexDb?<K, R>)
      modifies this
      ensures old(instance) == null && options.Some? ==>
        && db != null && fresh(db) && db.config == options.value && db.keyOf == keyOf
        && db.disk == disk && !db.ready && db.queue == []
        && (StoreValid(keyOf, disk.tables) ==> db.Valid())
      ensures !(old(instance) == null && options.Some?) ==> db == old(instance)
      ensures instance == db
    {
      if instance == null && options.Some? {
        instance := new TsIndexDb(options.value, keyOf, disk);
      }
      db := instance;
    }
  }

  class TsIndexDb<K(==), R(!new)> {
    const config: Config
    /** The primary-key field of the object stores (their `keyPath`). */
    const keyOf: R -> K
    const disk: Disk<R>
    /** Whether the connection `db` is set. */
    var ready: bool
    /** Deferred tasks, in push order. */
    var queue: seq<Op<K, R>>

    ghost predicate Valid()
      reads this, disk
    {
      && StoreValid(keyOf, disk.tables)
      && (forall i :: 0 <= i < |queue| ==> WellFormed(keyOf, queue[i]))
      && (ready ==> queue == [])
    }

    constructor (config: Config, keyOf: R -> K, disk: Disk<R>)
      ensures this.config == config && this.keyOf == keyOf && this.disk == disk
      ensures !ready && queue == []
      ensures StoreValid(keyOf, disk.tables) ==> Valid()
    {
      this.config := config;
      this.keyOf := keyOf;
      this.disk := disk;
      ready := false;
      queue := [];
    }

    /** `cursorSuccess` driven to the end of the table: the condition only decides whether the
        handler runs; the cursor always moves on. Returns what the handler collected and the table
        as the cursor left it. */
    method RunCursor(t: seq<R>, cond: R -> bool, action: CursorAction<R>) returns (res: seq<R>, out: seq<R>)
      ensures action.Collect? ==> res == Filter(t, cond) && out == t
      ensures action.Rewrite? ==> res == Images(t, cond, action.handle) && out == MapWhere(t, cond, action.handle)
      ensures action.Remove? ==> res == Filter(t, cond) && out == Reject(t, cond)
    {
      res, out := [], [];
      var i := 0;
      while i < |t|
        invariant 0 <= i <= |t|
        invariant action.Collect? ==> res == Filter(t[..i], cond) && out == t[..i]
        invariant action.Rewrite? ==> res == Images(t[..i], cond, action.handle) && out == MapWhere(t[..i], cond, action.handle)
        invariant action.Remove? ==> res == Filter(t[..i], cond) && out == Reject(t[..i], cond)
      {
        var current := t[i];
        if cond(current) {
          match action
          case Collect =>
            res := res + [current];
            out := out + [current];
          case Rewrite(h) =>
            var value := h(current);
            res := res + [value];
            out := out + [value];
          case Remove =>
            res := res + [current];
        } else {
          out := out + [current];
        }
        assert t[..i + 1][..i] == t[..i];
        i := i + 1;
      }
      assert t[..|t|] == t;
    }

    /** The body of a task: run one operation in its own transaction. */
    method Execute(op: Op<K, R>) returns (o: Result<Reply<R>>)
      modifies disk
      ensures (disk.tables, o) == Apply(keyOf, old(disk.tables), op)
      ensures disk.version == old(disk.version)
    {
      if op.table !in disk.tables {
        return Failure(NoSuchTable(op.table));
      }
      var t := disk.tables[op.table];
      match op
      case QueryAllOp(_) =>
        var res, _ := RunCursor(t, Always(), Collect);
        o := Success(Records(res));
      case QueryOp(_, c) =>
        var res, _ := RunCursor(t, c, Collect);
        o := Success(Records(res));
      case QueryByKeyOp(_, k) =>
        o := Success(Record(Find(keyOf, t, k)));
      case UpdateOp(_, c, h) =>
        var res, out := RunCursor(t, c, Rewrite(h));
        disk.tables := disk.tables[op.table := out];
        o := Success(Records(res));
      case UpdateByKeyOp(_, k, h) =>
        var current := Find(keyOf, t, k);
        if current.None? {
          o := Success(Record(None));
        } else {
          var value := h(current.value);
          disk.tables := disk.tables[op.table := Put(keyOf, t, value)];
          o := Success(Record(Some(value)));
        }
      case InsertOp(_, rs) =>
        var t' := t;
        for i := 0 to |rs|
          invariant t' == PutAll(keyOf, t, rs[..i])
        {
          assert rs[..i + 1][..i] == rs[..i];
          t' := Put(keyOf, t', rs[i]);
        }
        assert rs[..|rs|] == rs;
        disk.tables := disk.tables[op.table := t'];
        o := Success(Done);
      case DeleteOp(_, c) =>
        var res, out := RunCursor(t, c, Remove);
        disk.tables := disk.tables[op.table := out];
        o := Success(Records(res));
      case DeleteByKeyOp(_, k) =>
        disk.tables := disk.tables[op.table := DeleteKey(keyOf, t, k)];
        o := Success(Done);
      case ClearOp(_) =>
        disk.tables := disk.tables[op.table := []];
        o := Success(Done);
    }

    /** `commitDb`: before the database is open the task joins the end of the queue and the call
        stays pending (None); afterwards it runs at once and the queue is untouched. */
    method Commit(op: Op<K, R>) returns (r: Option<Result<Reply<R>>>)
      requires Valid() && WellFormed(keyOf, op)
      modifies this, disk
      ensures Valid() && ready == old(ready) && disk.version == old(disk.version)
      ensures !old(ready) ==> r == None && queue == old(queue) + [op] && disk.tables == old(disk.tables)
      ensures old(ready) ==>
        && queue == old(queue)
        && r == Some(Apply(keyOf, old(disk.tables), op).1)
        && disk.tables == Apply(keyOf, old(disk.tables), op).0
    {
      if !ready {
        queue := queue + [op];
        r := None;
      } else {
        ApplyPreservesValid(keyOf, disk.tables, op);
        var o := Execute(op);
        r := Some(o);
      }
    }

    /** `createTable`: a declared object store is created, empty, only when it is absent. */
    method CreateTable(spec: TableSpec)
      modifies disk
      ensures disk.tables == if spec.name in old(disk.tables) then old(disk.tables)
                             else old(disk.tables)[spec.name := []]
      ensures disk.version == old(disk.version)
    {
      if spec.name !in disk.tables {
        disk.tables := disk.tables[spec.name := []];
      }
    }

    /** The upgrade step that runs when the requested version is above the stored one. */
    function Upgraded(s: Store<R>, stored: nat): Store<R>
      reads this
    {
      if config.version > stored then CreateTables(s, config.tables) else s
    }

    /** `openDB`: a lower version than the stored one is refused; otherwise missing object stores
        are created on an upgrade, the connection is set, and the queue is drained last in, first
        out. Returns the results of the drained tasks in the order they ran. */
    method OpenDB() returns (r: Result<seq<Result<Reply<R>>>>)
      requires Valid()
      modifies this, disk
      ensures Valid()
      ensures config.version < old(disk.version) ==>
        && r == Failure(VersionError(config.version, old(disk.version)))
        && ready == old(ready) && queue == old(queue)
        && disk.tables == old(disk.tables) && disk.version == old(disk.version)
      ensures config.version >= old(disk.version) ==>
        && ready && queue == [] && disk.version == config.version && r.Success?
        && (disk.tables, r.value) == Drain(keyOf, Upgraded(old(disk.tables), old(disk.version)), old(queue))
    {
      if config.version < disk.version {
        return Failure(VersionError(config.version, disk.version));
      }
      if config.version > disk.version {
        for i := 0 to |config.tables|
          invariant disk.tables == CreateTables(old(disk.tables), config.tables[..i])
          invariant disk.version == old(disk.version)
          invariant queue == old(queue) && ready == old(ready)
        {
          assert config.tables[..i + 1][..i] == config.tables[..i];
          CreateTable(config.tables[i]);
        }
        assert config.tables[..|config.tables|] == config.tables;
        StoreValidAfterCreate(keyOf, old(disk.tables), config.tables);
        disk.version := config.version;
      }
      ready := true;
      ghost var start := disk.tables;
      ghost var pending := queue;
      var outs: seq<Result<Reply<R>>> := [];
      assert start == Upgraded(old(disk.tables), old(disk.version));
      assert outs + Drain(keyOf, start, pending).1 == Drain(keyOf, start, pending).1;
      while queue != []
        invariant ready
        invariant StoreValid(keyOf, disk.tables)
        invariant forall i :: 0 <= i < |queue| ==> WellFormed(keyOf, queue[i])
        invariant disk.version == config.version
        invariant Drain(keyOf, start, pending).0 == Drain(keyOf, disk.tables, queue).0
        invariant Drain(keyOf, start, pending).1 == outs + Drain(keyOf, disk.tables, queue).1
        decreases |queue|
      {
        var task := queue[|queue| - 1];
        var rest := queue[..|queue| - 1];
        ghost var before := disk.tables;
        assert Drain(keyOf, before, queue) ==
          (Drain(keyOf, Apply(keyOf, before, task).0, rest).0,
           [Apply(keyOf, before, task).1] + Drain(keyOf, Apply(keyOf, before, task).0, rest).1);
        queue := rest;
        ApplyPreservesValid(keyOf, disk.tables, task);
        var o := Execute(task);
        assert outs + [o] + Drain(keyOf, disk.tables, queue).1 == outs + ([o] + Drain(keyOf, disk.tables, queue).1);
        outs := outs + [o];
      }
      assert outs + Drain(keyOf, disk.tables, queue).1 == outs;
      r := Success(outs);
    }

    /** `closeDB`: on an unopened database resolve with the sentinel and change nothing; otherwise
        drop the connection and clear the singleton slot. */
    method CloseDB(registry: Registry<K, R>) returns (r: CloseReply)
      requires Valid()
      modifies this, registry
      ensures Valid() && queue == old(queue)
      ensures !old(ready) ==> r == NotOpen && !ready && registry.instance == old(registry.instance)
      ensures old(ready) ==> r == Closed && !ready && registry.instance == null
    {
      if !ready {
        return NotOpen;
      }
      ready := false;
      registry.instance := null;
      r := Closed;
    }
  }

  /** Creating empty object stores keeps every table's keys distinct. */
  lemma StoreValidAfterCreate<K, R>(key: R -> K, s: Store<R>, specs: seq<TableSpec>)
    requires StoreValid(key, s)
    ensures StoreValid(key, CreateTables(s, specs))
  {
    CreateTablesSpec(s, specs);
  }
}
