/**
 * One object store of the browser database, seen as a value: a sequence of
 * records whose order is the cursor order. The functions below are what the
 * engine's cursor scans and point requests do to such a sequence.
 */
module Tables {
  import opened Wrappers

  /** No two records of the table share a primary key. */
  ghost predicate DistinctKeys<K, R>(key: R -> K, t: seq<R>)
  {
    forall i, j :: 0 <= i < j < |t| ==> key(t[i]) != key(t[j])
  }

  /** A record transform that never changes the primary key. */
  ghost predicate KeyPreserving<K, R(!new)>(key: R -> K, h: R -> R)
  {
    forall r :: key(h(r)) == key(r)
  }

  function Not<R>(cond: R -> bool): R -> bool
  {
    r => !cond(r)
  }

  function Always<R>(): R -> bool
  {
    _ => true
  }

  function KeyIs<K(==), R>(key: R -> K, k: K): R -> bool
  {
    r => key(r) == k
  }

  /** The records a cursor hands to `handler` because `cond` holds, in cursor order. */
  function Filter<R>(t: seq<R>, cond: R -> bool): seq<R>
    decreases |t|
  {
    if t == [] then []
    else Filter(t[..|t| - 1], cond) + (if cond(t[|t| - 1]) then [t[|t| - 1]] else [])
  }

  /** The records a deleting cursor leaves behind. */
  function Reject<R>(t: seq<R>, cond: R -> bool): seq<R>
  {
    Filter(t, Not(cond))
  }

  /** The images `h(r)` of the matching records, in cursor order. */
  function Images<R>(t: seq<R>, cond: R -> bool, h: R -> R): seq<R>
    decreases |t|
  {
    if t == [] then []
    else Images(t[..|t| - 1], cond, h) + (if cond(t[|t| - 1]) then [h(t[|t| - 1])] else [])
  }

  /** The table after an updating cursor wrote `h(r)` over every matching record. */
  function MapWhere<R>(t: seq<R>, cond: R -> bool, h: R -> R): seq<R>
    decreases |t|
  {
    if t == [] then []
    else MapWhere(t[..|t| - 1], cond, h) + [if cond(t[|t| - 1]) then h(t[|t| - 1]) else t[|t| - 1]]
  }

  /** Point read by primary key: the stored record, or None. */
  function Find<K(==), R>(key: R -> K, t: seq<R>, k: K): Option<R>
  {
    if t == [] then None
    else if key(t[0]) == k then Some(t[0])
    else Find(key, t[1..], k)
  }

  /** The last record of a batch that carries key `k`: the one a batch of puts leaves behind. */
  function FindLast<K(==), R>(key: R -> K, rs: seq<R>, k: K): Option<R>
    decreases |rs|
  {
    if rs == [] then None
    else if key(rs[|rs| - 1]) == k then Some(rs[|rs| - 1])
    else FindLast(key, rs[..|rs| - 1], k)
  }

  /** A `put`: overwrite the record with the same key where it stands, or add it at the end. */
  function Put<K(==), R>(key: R -> K, t: seq<R>, r: R): seq<R>
  {
    if t == [] then [r]
    else if key(t[0]) == key(r) then [r] + t[1..]
    else [t[0]] + Put(key, t[1..], r)
  }

  /** A batch of puts issued one after the other. */
  function PutAll<K(==), R>(key: R -> K, t: seq<R>, rs: seq<R>): seq<R>
    decreases |rs|
  {
    if rs == [] then t
    else Put(key, PutAll(key, t, rs[..|rs| - 1]), rs[|rs| - 1])
  }

  /** A point delete by primary key. */
  function DeleteKey<K(==), R>(key: R -> K, t: seq<R>, k: K): seq<R>
  {
    Reject(t, KeyIs(key, k))
  }

  // ---------------------------------------------------------------------
  // Cursor scans

  /** Filtering distributes over concatenation, so it keeps cursor order. */
  lemma {:induction false} FilterAppend<R>(a: seq<R>, b: seq<R>, cond: R -> bool)
    ensures Filter(a + b, cond) == Filter(a, cond) + Filter(b, cond)
    decreases |b|
  {
    if b == [] {
      assert a + b == a;
    } else {
      var b' := b[..|b| - 1];
      assert (a + b)[..|a + b| - 1] == a + b';
      FilterAppend(a, b', cond);
    }
  }

  /** Filtering one record more at the front of the cursor. */
  lemma FilterCons<R>(x: R, t: seq<R>, cond: R -> bool)
    ensures Filter([x] + t, cond) == (if cond(x) then [x] else []) + Filter(t, cond)
  {
    FilterAppend([x], t, cond);
    assert [x][..0] == [];
  }

  /** A record is returned exactly when it is stored and satisfies the condition. */
  lemma {:induction false} FilterMembership<R>(t: seq<R>, cond: R -> bool, x: R)
    ensures x in Filter(t, cond) <==> x in t && cond(x)
    decreases |t|
  {
    if t != [] {
      var t' := t[..|t| - 1];
      FilterMembership(t', cond, x);
      assert t == t' + [t[|t| - 1]];
    }
  }

  /** The condition splits the table: what is returned and what is left make up the table. */
  lemma {:induction false} FilterPartition<R>(t: seq<R>, cond: R -> bool)
    ensures multiset(Filter(t, cond)) + multiset(Reject(t, cond)) == multiset(t)
    decreases |t|
  {
    if t != [] {
      var t', x := t[..|t| - 1], t[|t| - 1];
      FilterPartition(t', cond);
      assert t == t' + [x];
      assert multiset(t) == multiset(t') + multiset{x};
      if cond(x) {
        assert Filter(t, cond) == Filter(t', cond) + [x];
        assert Reject(t, cond) == Reject(t', cond);
      } else {
        assert Filter(t, cond) == Filter(t', cond);
        assert Reject(t, cond) == Reject(t', cond) + [x];
      }
    }
  }

  /** ... and so their sizes add up to the table's. */
  lemma FilterPartitionSize<R>(t: seq<R>, cond: R -> bool)
    ensures |Filter(t, cond)| + |Reject(t, cond)| == |t|
  {
    FilterPartition(t, cond);
    assert |multiset(Filter(t, cond)) + multiset(Reject(t, cond))| == |multiset(t)|;
  }

  /** A scan never yields more records than the table holds. */
  lemma FilterBounded<R>(t: seq<R>, cond: R -> bool)
    ensures |Filter(t, cond)| <= |t|
  {
    FilterPartitionSize(t, cond);
  }

  /** A scan whose condition always holds yields the whole table. */
  lemma {:induction false} FilterAlways<R>(t: seq<R>)
    ensures Filter(t, Always()) == t
    decreases |t|
  {
    if t != [] {
      FilterAlways(t[..|t| - 1]);
    }
  }

  /** When no record matches, nothing is returned and nothing is removed. */
  lemma {:induction false} FilterNoMatch<R>(t: seq<R>, cond: R -> bool)
    requires forall i :: 0 <= i < |t| ==> !cond(t[i])
    ensures Filter(t, cond) == [] && Reject(t, cond) == t
    decreases |t|
  {
    if t != [] {
      FilterNoMatch(t[..|t| - 1], cond);
    }
  }

  /** A subsequence of a table with distinct keys has distinct keys. */
  lemma {:induction false} FilterDistinct<K, R>(key: R -> K, t: seq<R>, cond: R -> bool)
    requires DistinctKeys(key, t)
    ensures DistinctKeys(key, Filter(t, cond))
    decreases |t|
  {
    if t != [] {
      var t' := t[..|t| - 1];
      var x := t[|t| - 1];
      FilterDistinct(key, t', cond);
      if cond(x) {
        var f := Filter(t', cond);
        forall i | 0 <= i < |f| ensures key(f[i]) != key(x) {
          FilterMembership(t', cond, f[i]);
        }
      }
    }
  }

  /** The updated table has the same length; each slot holds the image exactly when it matched. */
  lemma {:induction false} MapWhereAt<R>(t: seq<R>, cond: R -> bool, h: R -> R)
    ensures |MapWhere(t, cond, h)| == |t|
    ensures forall i :: 0 <= i < |t| ==>
      MapWhere(t, cond, h)[i] == if cond(t[i]) then h(t[i]) else t[i]
    decreases |t|
  {
    if t != [] {
      MapWhereAt(t[..|t| - 1], cond, h);
    }
  }

  /** The images returned by an update are `h` applied to the records a query would return. */
  lemma {:induction false} ImagesAt<R>(t: seq<R>, cond: R -> bool, h: R -> R)
    ensures |Images(t, cond, h)| == |Filter(t, cond)|
    ensures forall i :: 0 <= i < |Filter(t, cond)| ==> Images(t, cond, h)[i] == h(Filter(t, cond)[i])
    decreases |t|
  {
    if t != [] {
      ImagesAt(t[..|t| - 1], cond, h);
    }
  }

  /** A key-preserving update keeps the keys distinct. */
  lemma MapWhereDistinct<K, R(!new)>(key: R -> K, t: seq<R>, cond: R -> bool, h: R -> R)
    requires DistinctKeys(key, t) && KeyPreserving(key, h)
    ensures DistinctKeys(key, MapWhere(t, cond, h))
  {
    MapWhereAt(t, cond, h);
    var m := MapWhere(t, cond, h);
    forall i, j | 0 <= i < j < |m| ensures key(m[i]) != key(m[j]) {
      assert key(m[i]) == key(t[i]) && key(m[j]) == key(t[j]);
    }
  }

  // ---------------------------------------------------------------------
  // Point requests

  /** A point read finds a stored record with that key, and finds none only when there is none. */
  lemma {:induction false} FindSpec<K, R>(key: R -> K, t: seq<R>, k: K)
    ensures Find(key, t, k).Some? ==> Find(key, t, k).value in t && key(Find(key, t, k).value) == k
    ensures Find(key, t, k).None? <==> forall i :: 0 <= i < |t| ==> key(t[i]) != k
  {
    if t != [] && key(t[0]) != k {
      FindSpec(key, t[1..], k);
      assert forall i :: 1 <= i < |t| ==> t[i] == t[1..][i - 1];
    }
  }

  /** With distinct keys, the record a point read returns is the one record with that key. */
  lemma {:induction false} FindUnique<K, R>(key: R -> K, t: seq<R>, i: nat)
    requires DistinctKeys(key, t) && i < |t|
    ensures Find(key, t, key(t[i])) == Some(t[i])
  {
    if i > 0 {
      assert key(t[0]) != key(t[i]);
      assert DistinctKeys(key, t[1..]) by {
        forall a, b | 0 <= a < b < |t[1..]| ensures key(t[1..][a]) != key(t[1..][b]) {
          assert t[1..][a] == t[a + 1] && t[1..][b] == t[b + 1];
        }
      }
      FindUnique(key, t[1..], i - 1);
    }
  }

  /** A point read on a table extended at the end sees the old table first. */
  lemma {:induction false} FindSnoc<K, R>(key: R -> K, t: seq<R>, x: R, k: K)
    ensures Find(key, t + [x], k) ==
      if Find(key, t, k).Some? then Find(key, t, k) else if key(x) == k then Some(x) else None
  {
    if t != [] {
      assert (t + [x])[1..] == t[1..] + [x];
      FindSnoc(key, t[1..], x, k);
    }
  }

  /** With distinct keys, the records a cursor selects by key are just the one a point read returns. */
  lemma {:induction false} FilterKeyIsFind<K, R>(key: R -> K, t: seq<R>, k: K)
    requires DistinctKeys(key, t)
    ensures Filter(t, KeyIs(key, k)) == if Find(key, t, k).Some? then [Find(key, t, k).value] else []
    decreases |t|
  {
    if t != [] {
      var init, x := t[..|t| - 1], t[|t| - 1];
      assert t == init + [x];
      assert DistinctKeys(key, init) by {
        forall a, b | 0 <= a < b < |init| ensures key(init[a]) != key(init[b]) {
          assert init[a] == t[a] && init[b] == t[b];
        }
      }
      FilterKeyIsFind(key, init, k);
      FindSnoc(key, init, x, k);
      if key(x) == k {
        assert forall i :: 0 <= i < |init| ==> init[i] == t[i] && key(init[i]) != k;
        FindSpec(key, init, k);
      }
    }
  }

  /** After a put, a point read of its key returns it; reads of other keys see no change. */
  lemma {:induction false} PutFind<K, R>(key: R -> K, t: seq<R>, r: R, k: K)
    ensures Find(key, Put(key, t, r), k) == if k == key(r) then Some(r) else Find(key, t, k)
  {
    if t != [] && key(t[0]) != key(r) {
      PutFind(key, t[1..], r, k);
    }
  }

  /** A put keeps the keys distinct. */
  lemma {:induction false} PutDistinct<K, R>(key: R -> K, t: seq<R>, r: R)
    requires DistinctKeys(key, t)
    ensures DistinctKeys(key, Put(key, t, r))
    ensures forall x :: x in Put(key, t, r) ==> x == r || x in t
  {
    if t != [] {
      var tail := t[1..];
      assert DistinctKeys(key, tail) by {
        forall a, b | 0 <= a < b < |tail| ensures key(tail[a]) != key(tail[b]) {
          assert tail[a] == t[a + 1] && tail[b] == t[b + 1];
        }
      }
      if key(t[0]) == key(r) {
        var p := [r] + tail;
        forall a, b | 0 <= a < b < |p| ensures key(p[a]) != key(p[b]) {
          if a == 0 {
            assert key(p[a]) == key(t[0]) && p[b] == t[b];
          } else {
            assert p[a] == t[a] && p[b] == t[b];
          }
        }
      } else {
        PutDistinct(key, tail, r);
        var rest := Put(key, tail, r);
        var p := [t[0]] + rest;
        forall b | 0 < b < |p| ensures key(p[0]) != key(p[b]) {
          assert p[b] in rest;
          if p[b] != r {
            var j :| 0 <= j < |tail| && tail[j] == p[b];
            assert tail[j] == t[j + 1];
          }
        }
        forall a, b | 0 <= a < b < |p| ensures key(p[a]) != key(p[b]) {
          if a > 0 {
            assert p[a] == rest[a - 1] && p[b] == rest[b - 1];
          }
        }
      }
    }
  }

  /** Putting the same record twice is the same as putting it once. */
  lemma {:induction false} PutIdempotent<K, R>(key: R -> K, t: seq<R>, r: R)
    ensures Put(key, Put(key, t, r), r) == Put(key, t, r)
  {
    if t != [] && key(t[0]) != key(r) {
      PutIdempotent(key, t[1..], r);
    }
  }

  /** Overwriting an existing key keeps the table's length; a new key adds one record. */
  lemma {:induction false} PutLength<K, R>(key: R -> K, t: seq<R>, r: R)
    ensures |Put(key, t, r)| == if Find(key, t, key(r)).Some? then |t| else |t| + 1
  {
    if t != [] && key(t[0]) != key(r) {
      PutLength(key, t[1..], r);
    }
  }

  /** After a batch of puts, a key written by the batch holds the batch's last record with that
      key; any other key reads as before. */
  lemma {:induction false} PutAllFind<K, R>(key: R -> K, t: seq<R>, rs: seq<R>, k: K)
    ensures Find(key, PutAll(key, t, rs), k) ==
      if FindLast(key, rs, k).Some? then FindLast(key, rs, k) else Find(key, t, k)
    decreases |rs|
  {
    if rs != [] {
      PutAllFind(key, t, rs[..|rs| - 1], k);
      PutFind(key, PutAll(key, t, rs[..|rs| - 1]), rs[|rs| - 1], k);
    }
  }

  /** A batch of puts keeps the keys distinct. */
  lemma {:induction false} PutAllDistinct<K, R>(key: R -> K, t: seq<R>, rs: seq<R>)
    requires DistinctKeys(key, t)
    ensures DistinctKeys(key, PutAll(key, t, rs))
    decreases |rs|
  {
    if rs != [] {
      PutAllDistinct(key, t, rs[..|rs| - 1]);
      PutDistinct(key, PutAll(key, t, rs[..|rs| - 1]), rs[|rs| - 1]);
    }
  }

  /** A point delete removes its key and no other. */
  lemma {:induction false} DeleteKeyFind<K, R>(key: R -> K, t: seq<R>, k: K, k': K)
    ensures Find(key, DeleteKey(key, t, k), k') == if k' == k then None else Find(key, t, k')
  {
    if t != [] {
      var rest := DeleteKey(key, t[1..], k);
      assert t == [t[0]] + t[1..];
      FilterCons(t[0], t[1..], Not(KeyIs(key, k)));
      DeleteKeyFind(key, t[1..], k, k');
      if key(t[0]) != k {
        assert DeleteKey(key, t, k) == [t[0]] + rest;
        assert ([t[0]] + rest)[1..] == rest;
      } else {
        assert !Not(KeyIs(key, k))(t[0]);
        assert DeleteKey(key, t, k) == rest;
      }
    }
  }

  /** Deleting an absent key changes nothing. */
  lemma DeleteKeyAbsent<K, R>(key: R -> K, t: seq<R>, k: K)
    requires Find(key, t, k).None?
    ensures DeleteKey(key, t, k) == t
  {
    FindSpec(key, t, k);
    FilterNoMatch(t, KeyIs(key, k));
  }
}
