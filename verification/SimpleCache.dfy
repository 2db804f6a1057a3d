/**
  SimpleCache over SimpleHashMap and LRUEvictor, one operation at a time
  (include/sisl/cache/simple_cache.hpp, include/sisl/cache/simple_hashmap.hpp, src/cache/lru_evictor.cpp).

  A key is in its hash bucket exactly when its record is linked in its eviction partition. While a key is
  inserted its bucket is locked, so the evictor cannot take the records of that bucket.
 */
module SimpleCaches {

  import opened Remainders
  import opened Wrappers
  import opened SimpleHashMaps
  import opened LruEvictors

  // ----- runs of operations

  /** Operations with their results. */
  datatype Event<V> =
    | Inserted(key: int, value: V, ok: bool)
    | Got(key: int, result: Option<V>)
    | Removed(key: int, result: Option<V>)

  /** What a lookup of each key would find. */
  type Contents<!V> = imap<int, Option<V>>

  ghost predicate Total<V>(c: Contents<V>) { forall k :: k in c }

  /** What an operation does to the contents; an insert may also evict other keys. */
  ghost predicate Allowed<V>(c: Contents<V>, e: Event<V>, c': Contents<V>)
    requires Total(c) && Total(c')
  {
    match e
    case Inserted(k, v, ok) =>
      if c[k].Some? then !ok && c' == c
      else c'[k] == (if ok then Some(v) else None) && forall j :: j != k ==> c'[j] == c[j] || c'[j].None?
    case Got(k, r) => r == c[k] && c' == c
    case Removed(k, r) => r == c[k] && c' == c[k := None]
  }

  /** The value of the last successful insert of k that no removal followed. */
  function LastInserted<V>(run: seq<Event<V>>, k: int): Option<V> {
    if run == [] then None
    else
      var e := run[|run| - 1];
      if e.Inserted? && e.key == k && e.ok then Some(e.value)
      else if e.Removed? && e.key == k then None
      else LastInserted(run[..|run| - 1], k)
  }

  /** states[i] are the contents in front of event i, from the empty cache on. */
  ghost predicate IsRun<V>(run: seq<Event<V>>, states: seq<Contents<V>>) {
    && |states| == |run| + 1 && (forall i :: 0 <= i < |states| ==> Total(states[i]))
    && (forall k :: states[0][k].None?)
    && forall i :: 0 <= i < |run| ==> Allowed(states[i], run[i], states[i + 1])
  }

  /** In every run, what is in the cache is what was last inserted. */
  lemma {:induction false} ContentsAreLatest<V>(run: seq<Event<V>>, states: seq<Contents<V>>, k: int)
    requires IsRun(run, states)
    ensures states[|run|][k].Some? ==> states[|run|][k] == LastInserted(run, k)
  {
    if run != [] {
      var n := |run| - 1;
      ContentsAreLatest(run[..n], states[..n + 1], k);
      assert Allowed(states[n], run[n], states[n + 1]);
    }
  }

  /** Every hit returns the value of the last successful insert of its key. */
  lemma HitsAreLatest<V>(run: seq<Event<V>>, states: seq<Contents<V>>, i: nat)
    requires IsRun(run, states) && i < |run| && run[i].Got? && run[i].result.Some?
    ensures run[i].result == LastInserted(run[..i], run[i].key)
  {
    ContentsAreLatest(run[..i], states[..i + 1], run[i].key);
    assert Allowed(states[i], run[i], states[i + 1]);
  }

  // ----- linked records

  lemma {:induction false} KeptDistinct(list: seq<Record>, ok: Record -> bool)
    requires Distinct(list)
    ensures Distinct(Kept(list, ok)) && forall r :: r in Kept(list, ok) ==> r in list
  {
    if list != [] {
      KeptDistinct(list[1..], ok);
      forall r | r in Kept(list[1..], ok) ensures r in list && r.key != list[0].key {
        var j :| 0 <= j < |list[1..]| && list[1..][j] == r;
        assert list[j + 1] == r;
      }
    }
  }

  /** After an eviction pass the linked keys are the old ones without the evicted. */
  lemma SurvivorsLinked(list: seq<Record>, k: nat, ok: Record -> bool)
    requires Distinct(list) && k <= |list|
    ensures Distinct(Survivors(list, k, ok))
    ensures forall r :: r in Survivors(list, k, ok) <==> r in list && r !in Gone(list[..k], ok)
  {
    KeptDistinct(list[..k], ok);
    assert list == list[..k] + list[k..];
    forall r ensures r in Survivors(list, k, ok) <==> r in list && r !in Gone(list[..k], ok) {
      PassMembers(list[..k], ok, r);
    }
    var kept := Kept(list[..k], ok);
    forall i, j | 0 <= i < j < |Survivors(list, k, ok)|
      ensures Survivors(list, k, ok)[i].key != Survivors(list, k, ok)[j].key
    {
      if i < |kept| <= j {
        assert kept[i] in list[..k];
        var x :| 0 <= x < k && list[x] == kept[i];
        assert Survivors(list, k, ok)[j] == list[k + j - |kept|];
      }
    }
  }

  /** Every partition gets an equal share of the maximum. */
  function Share(maxSize: nat, nParts: nat): (max: nat)
    requires 0 < nParts
    ensures nParts * max <= maxSize < nParts * (max + 1)
  {
    maxSize / nParts
  }

  method NewParts(n: nat, max: int) returns (ps: seq<LRUPartition>)
    ensures |ps| == n && fresh(ps)
    ensures forall i :: 0 <= i < n ==> ps[i].list == [] && ps[i].filled == 0 && ps[i].max == max
    ensures forall i, j :: 0 <= i < j < n ==> ps[i] != ps[j]
  {
    ps := [];
    while |ps| < n
      invariant |ps| <= n && fresh(ps)
      invariant forall i :: 0 <= i < |ps| ==> ps[i].list == [] && ps[i].filled == 0 && ps[i].max == max
      invariant forall i, j :: 0 <= i < j < |ps| ==> ps[i] != ps[j]
    {
      var p := new LRUPartition(max);
      ps := ps + [p];
    }
  }

  class SimpleCache<V> {
    const hashMap: SimpleHashMap<V>
    const parts: seq<LRUPartition>
    const size: nat
    var failed: seq<int>    // t_failed_keys

    constructor (nBuckets: nat, nParts: nat, maxSize: nat, size: nat, hash: int -> nat, keyOf: V -> int)
      requires 0 < nBuckets && 0 < nParts
      ensures Valid() && fresh(hashMap.buckets) && fresh(parts) && forall k :: hashMap.Find(k).None?
      ensures |hashMap.buckets| == nBuckets && hashMap.hash == hash && hashMap.keyOf == keyOf && this.size == size
      ensures |parts| == nParts && forall p :: 0 <= p < nParts ==> parts[p].max == Share(maxSize, nParts)
      ensures forall p :: 0 <= p < nParts ==> nParts * parts[p].max <= maxSize < nParts * (parts[p].max + 1)
    {
      hide IsRemainder, Falling, SimpleHashMap.Find;
      var m := new SimpleHashMap<V>(nBuckets, hash, keyOf);
      var share := Share(maxSize, nParts);
      var ps := NewParts(nParts, share);
      this.hashMap, this.parts, this.failed, this.size := m, ps, [], size;
    }

    function PartOf(k: int): (p: nat)
      requires parts != []
      ensures IsRemainder(hashMap.hash(k), |parts|, p)
    {
      Remainder(hashMap.hash(k), |parts|)
    }

    /** Two keys share a partition, or a bucket, exactly if their hash codes leave the same remainder. */
    lemma Shared(j: int, k: int)
      requires parts != [] && hashMap.buckets != []
      ensures PartOf(j) == PartOf(k) <==> hashMap.hash(j) % |parts| == hashMap.hash(k) % |parts|
      ensures hashMap.BucketOf(j) == hashMap.BucketOf(k) <==>
        hashMap.hash(j) % |hashMap.buckets| == hashMap.hash(k) % |hashMap.buckets|
    {}

    ghost function Values(): (c: Contents<V>)
      requires hashMap.Valid()
      reads hashMap.buckets
      ensures Total(c)
    {
      imap k: int | true :: hashMap.Find(k)
    }

    function RecordOf(k: int): Record { Record(k, size, false) }

    /** Every record is in the partition of its key, once; sizes add up and stay within the bound. */
    ghost predicate EvictorValid()
      reads parts
    {
      && parts != [] && (forall i, j :: 0 <= i < j < |parts| ==> parts[i] != parts[j])
      && (forall p :: 0 <= p < |parts| ==> parts[p].Valid() && Distinct(parts[p].list))
      && (forall p :: 0 <= p < |parts| && 0 < size ==> Bounded(parts[p].filled, parts[p].max, size))
      && (forall p, r :: 0 <= p < |parts| && r in parts[p].list ==> PartOf(r.key) == p && r == RecordOf(r.key))
    }

    ghost predicate IsLinked(k: int)
      requires parts != []
      reads parts
    {
      RecordOf(k) in parts[PartOf(k)].list
    }

    /** The two structures agree on membership. */
    ghost predicate Valid()
      reads this, hashMap.buckets, parts
    {
      && hashMap.Valid() && EvictorValid() && failed == []
      && forall k :: hashMap.Find(k).Some? <==> IsLinked(k)
    }

    /** While key k is inserted its bucket is locked, so the callback cannot take the lock of that bucket. */
    predicate Unlocked(k: int, r: Record) {
      hashMap.buckets != [] && hashMap.BucketOf(r.key) != hashMap.BucketOf(k)
    }

    function Unlocking(k: int): Record -> bool { (r: Record) => Unlocked(k, r) }

    /** Whether the evictor takes r while key k is inserted and the user's callback answers as may does. */
    function Taker(k: int, may: Record -> bool): Record -> bool {
      (r: Record) => !r.pinned && may(r) && Unlocked(k, r)
    }

    /** Inserting k may cost j its place: they share a partition but not a bucket, and the user lets j go. */
    predicate Evictable(j: int, k: int, may: Record -> bool)
      requires parts != [] && hashMap.buckets != []
    {
      && hashMap.hash(j) % |parts| == hashMap.hash(k) % |parts|
      && hashMap.hash(j) % |hashMap.buckets| != hashMap.hash(k) % |hashMap.buckets|
      && may(Record(j, size, false))
    }

    lemma EvictedAreEvictable(list: seq<Record>, cut: nat, k: int, may: Record -> bool)
      requires parts != [] && hashMap.buckets != [] && cut <= |list|
      requires forall r :: r in list ==> PartOf(r.key) == PartOf(k) && r == RecordOf(r.key)
      ensures forall j :: KeyIn(Gone(list[..cut], Taker(k, may)), j) ==> Evictable(j, k, may)
    {
      hide Gone, PartOf, SimpleHashMap.BucketOf;
      forall j | KeyIn(Gone(list[..cut], Taker(k, may)), j) ensures Evictable(j, k, may) {
        var r :| r in Gone(list[..cut], Taker(k, may)) && r.key == j;
        PassMembers(list[..cut], Taker(k, may), r);
        assert r in list;
        Shared(j, k);
      }
    }

    /** What inserting k did to its partition: an eviction pass, and the new record at the end if it was admitted. */
    ghost predicate Passed(k: int, may: Record -> bool, list: seq<Record>, cut: nat, max: int, added: bool,
                           list': seq<Record>)
    {
      && cut <= |list| && IsPass(list, cut, size, max, Taker(k, may))
      && list' == Survivors(list, cut, Taker(k, may)) + (if added then [RecordOf(k)] else [])
      && (0 < size ==> (added <==> Admits(list, size, max, Taker(k, may))))
    }

    /** on_hash_operation for a new key: its record is linked, unless the partition stays full after evicting; then
        the key is remembered as failed. Evicted keys leave the map during the pass. */
    method OnCreate(k: int, may: Record -> bool) returns (ghost cut: nat)
      requires hashMap.Valid() && EvictorValid() && !IsLinked(k) && failed == []
      requires forall j :: IsLinked(j) ==> hashMap.Find(j).Some?
      modifies this`failed, hashMap.buckets, parts
      ensures hashMap.Valid() && EvictorValid() && (failed == [] || failed == [k])
      ensures var p := PartOf(k); var list := old(parts[p].list);
        && Passed(k, may, list, cut, parts[p].max, failed == [], parts[p].list)
        && (forall j :: hashMap.Find(j) ==
             if KeyIn(Gone(list[..cut], Taker(k, may)), j) then None else old(hashMap.Find(j)))
      ensures forall q :: 0 <= q < |parts| && q != PartOf(k) ==> parts[q].list == old(parts[q].list)
    {
      hide Gone, Survivors, Kept, PartOf, Sum, IsPass, Admits, Unlocking, Taker, Takes, KeyIn;
      hide SimpleHashMap.Find, SimpleHashMap.Valid;
      var p := PartOf(k);
      ghost var list, keys := parts[p].list, hashMap.Keys();
      ghost var evicted;
      var added;
      added, evicted, cut := parts[p].AddRecord(hashMap, RecordOf(k), may, Unlocking(k));
      assert forall r :: r in list ==> r.key in keys by {
        forall r | r in list ensures r.key in keys { assert old(IsLinked(r.key)); }
      }
      InMapTests(k, may, list, cut, parts[p].max, keys);
      SurvivorsLinked(list, cut, Taker(k, may));
      NewlyLinked(list, Survivors(list, cut, Taker(k, may)), RecordOf(k));
      assert forall q :: 0 <= q < |parts| && q != p ==>
        parts[q].list == old(parts[q].list) && parts[q].filled == old(parts[q].filled);
      if !added {
        failed := [k];
      }
    }

    /** Where all records are in the map, the evictor takes what Taker says. */
    lemma InMapTests(k: int, may: Record -> bool, list: seq<Record>, cut: nat, max: int, keys: iset<int>)
      requires cut <= |list| && forall r :: r in list ==> r.key in keys
      ensures var ok, ok' := Takes(may, Unlocking(k), keys), Taker(k, may);
        && Gone(list[..cut], ok) == Gone(list[..cut], ok') && Survivors(list, cut, ok) == Survivors(list, cut, ok')
        && (IsPass(list, cut, size, max, ok) <==> IsPass(list, cut, size, max, ok'))
        && (Admits(list, size, max, ok) <==> Admits(list, size, max, ok'))
    {
      hide Gone, Survivors, IsPass, Admits, Unlocked;
      SameTests(list, cut, size, max, Takes(may, Unlocking(k), keys), Taker(k, may));
    }

    /** Refused keys are taken out of the map again; their records were never linked. */
    method DrainFailed() returns (any: bool)
      requires hashMap.Valid()
      modifies this`failed, hashMap.buckets
      ensures hashMap.Valid() && failed == [] && (any <==> old(failed) != [])
      ensures forall j :: hashMap.Find(j) == if j in old(failed) then None else old(hashMap.Find(j))
    {
      any := failed != [];
      var i := 0;
      while i < |failed|
        invariant i <= |failed| && hashMap.Valid() && failed == old(failed)
        invariant forall j :: hashMap.Find(j) == if j in failed[..i] then None else old(hashMap.Find(j))
      {
        assert failed[..i + 1] == failed[..i] + [failed[i]];
        var gone := hashMap.Erase(failed[i]);
        i := i + 1;
      }
      assert failed[..i] == failed;
      failed := [];
    }

    /** Between the insertion of a new key into the map and the callback. */
    ghost predicate AlmostValid(k: int)
      reads this, hashMap.buckets, parts
    {
      && hashMap.Valid() && EvictorValid() && failed == []
      && hashMap.Find(k).Some? && !IsLinked(k) && forall j :: j != k ==> (hashMap.Find(j).Some? <==> IsLinked(j))
    }

    /** After the callback the structures agree on all keys but a refused one. */
    method Create(k: int, may: Record -> bool) returns (ghost cut: nat)
      requires AlmostValid(k)
      modifies this, hashMap.buckets, parts
      ensures hashMap.Valid() && EvictorValid() && (failed == [] || failed == [k])
      ensures (IsLinked(k) <==> failed == []) && hashMap.Find(k) == old(hashMap.Find(k))
      ensures forall j :: j != k ==> (hashMap.Find(j).Some? <==> IsLinked(j))
      ensures var p := PartOf(k); var list := old(parts[p].list);
        && Passed(k, may, list, cut, parts[p].max, failed == [], parts[p].list)
        && (forall j :: j != k ==>
              hashMap.Find(j) == if KeyIn(Gone(list[..cut], Taker(k, may)), j) then None else old(hashMap.Find(j)))
        && (forall q :: 0 <= q < |parts| && q != p ==> parts[q].list == old(parts[q].list))
    {
      hide Gone, Survivors, Taker, PartOf, KeyIn, IsPass, Admits;
      ghost var list := parts[PartOf(k)].list;
      cut := OnCreate(k, may);
      PassAgrees(list, cut, Taker(k, may), k, size);
    }

    method Admit(k: int, may: Record -> bool) returns (ret: bool, ghost cut: nat)
      requires AlmostValid(k)
      modifies this, hashMap.buckets, parts
      ensures Valid()
      ensures var p := PartOf(k); var list := old(parts[p].list);
        && hashMap.Find(k) == (if ret then old(hashMap.Find(k)) else None)
        && Passed(k, may, list, cut, parts[p].max, ret, parts[p].list)
        && (forall j :: j != k ==>
              hashMap.Find(j) == if KeyIn(Gone(list[..cut], Taker(k, may)), j) then None else old(hashMap.Find(j)))
        && (forall q :: 0 <= q < |parts| && q != p ==> parts[q].list == old(parts[q].list))
    {
      hide Gone, Survivors, Taker, PartOf, KeyIn, Passed, SimpleHashMap.Find, SimpleHashMap.Valid;
      cut := Create(k, may);
      var any := DrainFailed();
      ret := !any;
    }

    /** Into the map, then the callback; a refused key is taken out again. */
    method Place(value: V, may: Record -> bool) returns (ret: bool, ghost cut: nat)
      requires Valid()
      modifies this, hashMap.buckets, parts
      ensures Valid()
      ensures old(hashMap.Find(hashMap.keyOf(value))).Some? ==>
        && !ret && (forall j :: hashMap.Find(j) == old(hashMap.Find(j)))
        && forall p :: 0 <= p < |parts| ==> parts[p].list == old(parts[p].list)
      ensures old(hashMap.Find(hashMap.keyOf(value))).None? ==>
        var k := hashMap.keyOf(value); var p := PartOf(k); var list := old(parts[p].list);
        && hashMap.Find(k) == (if ret then Some(value) else None)
        && Passed(k, may, list, cut, parts[p].max, ret, parts[p].list)
        && (forall j :: j != k ==>
              hashMap.Find(j) == if KeyIn(Gone(list[..cut], Taker(k, may)), j) then None else old(hashMap.Find(j)))
        && (forall q :: 0 <= q < |parts| && q != p ==> parts[q].list == old(parts[q].list))
    {
      hide Gone, Survivors, Taker, PartOf, KeyIn, Passed, SimpleHashMap.Find;
      cut := 0;
      ret := hashMap.Insert(value);
      if ret {
        ret, cut := Admit(hashMap.keyOf(value), may);
      }
    }

    /** A key that is present is left alone. A new key is present with its value exactly if this succeeds; the only
        other change is that an eviction pass over its partition takes records of other buckets. The user's eviction
        callback may answer differently in every call. */
    method InsertValue(value: V, may: Record -> bool) returns (ret: bool, ghost cut: nat)
      requires Valid()
      modifies this, hashMap.buckets, parts
      ensures Valid()
      ensures old(hashMap.Find(hashMap.keyOf(value))).Some? ==>
        && !ret && (forall j :: hashMap.Find(j) == old(hashMap.Find(j)))
        && forall p :: 0 <= p < |parts| ==> parts[p].list == old(parts[p].list)
      ensures old(hashMap.Find(hashMap.keyOf(value))).None? ==>
        var k := hashMap.keyOf(value); var p := PartOf(k); var list := old(parts[p].list);
        && hashMap.Find(k) == (if ret then Some(value) else None)
        && Passed(k, may, list, cut, parts[p].max, ret, parts[p].list)
        && (forall j :: j != k ==>
              hashMap.Find(j) == if KeyIn(Gone(list[..cut], Taker(k, may)), j) then None else old(hashMap.Find(j)))
        && (forall j :: j != k && !Evictable(j, k, may) ==> hashMap.Find(j) == old(hashMap.Find(j)))
        && (size * (|list| + 1) <= parts[p].max ==>
              forall j :: j != k ==> hashMap.Find(j) == old(hashMap.Find(j)))
        && (0 < size ==>
              (ret <==> size * |list| < parts[p].max ||
                        exists j :: old(hashMap.Find(j)).Some? && Evictable(j, k, may)))
        && (forall q :: 0 <= q < |parts| && q != p ==> parts[q].list == old(parts[q].list))
    {
      hide Gone, Taker, PartOf, KeyIn, Passed, Evictable, AnyTaken, Listed, IsRemainder, Valid;
      hide SimpleHashMap.Find, SimpleHashMap.Valid;
      ghost var k := hashMap.keyOf(value);
      TakenAreEvictable(k, may);
      PartIsListed(k);
      ghost var list, present := parts[PartOf(k)].list, hashMap.Find(k).Some?;
      ret, cut := Place(value, may);
      if !present { PassTells(k, may, list, cut, ret, parts[PartOf(k)].list); }
    }

    /** list holds records of the partition of k, within the bound. */
    ghost predicate Listed(k: int, list: seq<Record>) {
      && parts != [] && hashMap.buckets != []
      && (forall r :: r in list ==> PartOf(r.key) == PartOf(k) && r == RecordOf(r.key))
      && (0 < size ==> Bounded(Sum(list), parts[PartOf(k)].max, size))
    }

    lemma PartIsListed(k: int)
      requires Valid()
      ensures hashMap.Valid() && parts != [] && hashMap.buckets != [] && PartOf(k) < |parts|
      ensures Listed(k, parts[PartOf(k)].list)
    {}

    /** What the pass for k says about keys. */
    lemma PassTells(k: int, may: Record -> bool, list: seq<Record>, cut: nat, added: bool, list': seq<Record>)
      requires Listed(k, list) && Passed(k, may, list, cut, parts[PartOf(k)].max, added, list')
      ensures cut <= |list|
      ensures size * (|list| + 1) <= parts[PartOf(k)].max ==> forall j :: !KeyIn(Gone(list[..cut], Taker(k, may)), j)
      ensures 0 < size ==> (added <==> size * |list| < parts[PartOf(k)].max || AnyTaken(list, k, may))
      ensures forall j :: KeyIn(Gone(list[..cut], Taker(k, may)), j) ==> Evictable(j, k, may)
    {
      hide PartOf, SimpleHashMap.BucketOf, Taker, Evictable;
      SizesAreEqual(list, size);
      assert size * (|list| + 1) == size * |list| + size;
      if 0 < size { AdmitsIff(list, size, parts[PartOf(k)].max, Taker(k, may)); }
      EvictedAreEvictable(list, cut, k, may);
    }

    ghost predicate AnyTaken(list: seq<Record>, k: int, may: Record -> bool) {
      exists r :: r in list && Taker(k, may)(r)
    }

    /** The records of a partition that may go are its keys that may go. */
    lemma TakenAreEvictable(k: int, may: Record -> bool)
      requires Valid()
      ensures AnyTaken(parts[PartOf(k)].list, k, may) <==>
        exists j :: hashMap.Find(j).Some? && Evictable(j, k, may)
    {
      hide PartOf, SimpleHashMap.BucketOf, SimpleHashMap.Find;
      var list := parts[PartOf(k)].list;
      if AnyTaken(list, k, may) {
        var r :| r in list && Taker(k, may)(r);
        Shared(r.key, k);
        assert IsLinked(r.key);
        assert hashMap.Find(r.key).Some? && Evictable(r.key, k, may);
      }
      if j :| hashMap.Find(j).Some? && Evictable(j, k, may) {
        Shared(j, k);
        assert RecordOf(j) in list;
      }
    }

    /** The filled size of a partition counts its records. */
    lemma FilledIsCount(p: nat)
      requires EvictorValid() && p < |parts|
      ensures parts[p].filled == size * |parts[p].list|
    {
      SizesAreEqual(parts[p].list, size);
    }

    /** A hit moves the record to the end of its partition and changes nothing else. */
    method GetValue(key: int) returns (r: Option<V>)
      requires Valid()
      modifies parts
      ensures Valid() && r == old(hashMap.Find(key)) && forall j :: hashMap.Find(j) == old(hashMap.Find(j))
      ensures r.Some? ==> parts[PartOf(key)].list == Without(old(parts[PartOf(key)].list), key) + [RecordOf(key)]
      ensures forall q :: 0 <= q < |parts| && q != PartOf(key) ==> parts[q].list == old(parts[q].list)
      ensures r.None? ==> forall p :: 0 <= p < |parts| ==> parts[p].list == old(parts[p].list)
    {
      hide PartOf, Falling, RowFind;
      r := hashMap.Get(key);
      if r.Some? {
        Touch(key);
      }
    }

    method Touch(key: int)
      requires EvictorValid() && IsLinked(key)
      modifies parts
      ensures EvictorValid() && forall j :: IsLinked(j) <==> old(IsLinked(j))
      ensures parts[PartOf(key)].list == Without(old(parts[PartOf(key)].list), key) + [RecordOf(key)]
      ensures forall q :: 0 <= q < |parts| && q != PartOf(key) ==> parts[q].list == old(parts[q].list)
    {
      hide PartOf, Without;
      var p := PartOf(key);
      ghost var list := parts[p].list;
      parts[p].RecordAccessed(RecordOf(key));
      MovedLast(list, RecordOf(key));
      assert forall q :: 0 <= q < |parts| && q != p ==>
        parts[q].list == old(parts[q].list) && parts[q].filled == old(parts[q].filled);
    }

    method RemoveKey(key: int) returns (r: Option<V>)
      requires Valid()
      modifies hashMap.buckets, parts
      ensures Valid() && r == old(hashMap.Find(key)) && hashMap.Find(key).None?
      ensures forall j :: j != key ==> hashMap.Find(j) == old(hashMap.Find(j))
      ensures r.Some? ==> parts[PartOf(key)].list == Without(old(parts[PartOf(key)].list), key)
      ensures forall q :: 0 <= q < |parts| && q != PartOf(key) ==> parts[q].list == old(parts[q].list)
      ensures r.None? ==> forall p :: 0 <= p < |parts| ==> parts[p].list == old(parts[p].list)
    {
      hide PartOf, Falling, RowFind, Without, EvictorValid;
      assert parts != [] by { PartsExist(); }
      r := hashMap.Erase(key);
      if r.Some? {
        Unlink(key);
      }
    }

    lemma PartsExist()
      requires Valid()
      ensures parts != []
    {}

    method Unlink(key: int)
      requires EvictorValid()
      modifies parts
      ensures EvictorValid() && !IsLinked(key) && forall j :: j != key ==> (IsLinked(j) <==> old(IsLinked(j)))
      ensures parts[PartOf(key)].list == Without(old(parts[PartOf(key)].list), key)
      ensures forall q :: 0 <= q < |parts| && q != PartOf(key) ==> parts[q].list == old(parts[q].list)
    {
      hide PartOf, Without;
      var p := PartOf(key);
      ghost var list := parts[p].list;
      parts[p].RemoveRecord(RecordOf(key));
      TakenOut(list, key);
      assert forall q :: 0 <= q < |parts| && q != p ==>
        parts[q].list == old(parts[q].list) && parts[q].filled == old(parts[q].filled);
    }

    // the operations as events of a run

    method Insert(value: V, may: Record -> bool) returns (ret: bool)
      requires Valid()
      modifies this, hashMap.buckets, parts
      ensures Valid() && Allowed(old(Values()), Inserted(hashMap.keyOf(value), value, ret), Values())
    {
      hide KeyIn, Gone, Passed, PartOf, Taker, EvictorValid, IsLinked;
      ghost var cut;
      ret, cut := InsertValue(value, may);
    }

    method Get(key: int) returns (r: Option<V>)
      requires Valid()
      modifies parts
      ensures Valid() && Allowed(old(Values()), Got(key, r), Values())
    {
      hide Without, PartOf, EvictorValid, IsLinked;
      r := GetValue(key);
    }

    method Remove(key: int) returns (r: Option<V>)
      requires Valid()
      modifies hashMap.buckets, parts
      ensures Valid() && Allowed(old(Values()), Removed(key, r), Values())
    {
      hide Without, PartOf, EvictorValid, IsLinked;
      r := RemoveKey(key);
    }
  }

  lemma {:induction false} SizesAreEqual(list: seq<Record>, size: nat)
    requires forall r :: r in list ==> r.size == size
    ensures Sum(list) == size * |list|
  {
    if list != [] {
      SizesAreEqual(list[1..], size);
      assert size * |list| == size * |list[1..]| + size;
    }
  }

  /** With equal sizes a record is admitted exactly if the partition is not full or something in it can go. */
  lemma AdmitsIff(list: seq<Record>, size: nat, max: int, ok: Record -> bool)
    requires 0 < size && (forall r :: r in list ==> r.size == size) && Bounded(Sum(list), max, size)
    ensures Admits(list, size, max, ok) <==> Sum(list) < max || exists r :: r in list && ok(r)
  {
    PassSum(list, ok);
    forall r ensures r in Gone(list, ok) <==> r in list && ok(r) { PassMembers(list, ok, r); }
    var gone := Gone(list, ok);
    hide Gone, Kept, Sum;
    SizesAreEqual(gone, size);
    SumOfNone();
    if gone != [] { assert gone[0] in gone && size <= size * |gone|; }
    if r :| r in list && ok(r) { assert r in gone; }
  }

  lemma SumOfNone()
    ensures Sum([]) == 0
  {}

  /** On the records of a list two tests that agree there decide alike. */
  lemma SameTests(list: seq<Record>, cut: nat, size: nat, max: int, ok: Record -> bool, ok': Record -> bool)
    requires cut <= |list| && forall r :: r in list ==> ok(r) == ok'(r)
    ensures Gone(list[..cut], ok) == Gone(list[..cut], ok') && Survivors(list, cut, ok) == Survivors(list, cut, ok')
    ensures IsPass(list, cut, size, max, ok) <==> IsPass(list, cut, size, max, ok')
    ensures Admits(list, size, max, ok) <==> Admits(list, size, max, ok')
  {
    SamePass(list, ok, ok');
    SamePass(list[..cut], ok, ok');
    forall j: nat | j <= |list| ensures FilledAfter(list, j, Sum(list), ok) == FilledAfter(list, j, Sum(list), ok') {
      SamePass(list[..j], ok, ok');
    }
    hide FilledAfter;
  }

  lemma {:induction false} TakenOut(list: seq<Record>, key: int)
    requires Distinct(list)
    ensures Distinct(Without(list, key)) && forall r :: r in Without(list, key) <==> r in list && r.key != key
  {
    if list != [] {
      TakenOut(list[1..], key);
      assert list == [list[0]] + list[1..];
      forall r | r in Without(list[1..], key) ensures r.key != list[0].key {
        var j :| 0 <= j < |list[1..]| && list[1..][j] == r;
        assert list[j + 1] == r;
      }
    }
  }

  lemma MovedLast(list: seq<Record>, r: Record)
    requires Distinct(list) && r in list
    ensures Distinct(Without(list, r.key) + [r]) && forall x :: x in Without(list, r.key) + [r] <==> x in list
  {
    TakenOut(list, r.key);
    forall i | 0 <= i < |Without(list, r.key)| ensures Without(list, r.key)[i].key != r.key {
      assert Without(list, r.key)[i] in Without(list, r.key);
    }
    forall x | x in list ensures x in Without(list, r.key) + [r] {
      var i, j :| 0 <= i < |list| && 0 <= j < |list| && list[i] == x && list[j] == r;
      assert x.key == r.key ==> i == j;
    }
  }

  /** What stays linked is what was linked and not evicted, and the new key is not touched. */
  lemma PassAgrees(list: seq<Record>, cut: nat, ok: Record -> bool, k: int, size: nat)
    requires Distinct(list) && cut <= |list| && forall r :: r in list ==> r == Record(r.key, size, false)
    requires Record(k, size, false) !in list
    ensures forall j :: Record(j, size, false) in Survivors(list, cut, ok) <==>
      Record(j, size, false) in list && !KeyIn(Gone(list[..cut], ok), j)
    ensures forall j :: KeyIn(Gone(list[..cut], ok), j) ==> j != k && Record(j, size, false) in list
  {
    SurvivorsLinked(list, cut, ok);
    forall r | r in Gone(list[..cut], ok) ensures r in list { PassMembers(list[..cut], ok, r); }
    hide Survivors, Gone;
  }

  lemma NewlyLinked(list: seq<Record>, left: seq<Record>, r: Record)
    requires Distinct(left) && (forall x :: x in left ==> x in list) && forall x :: x in list ==> x.key != r.key
    ensures Distinct(left + [r]) && forall x :: x in left + [r] ==> x in list || x == r
  {
    forall i | 0 <= i < |left| ensures left[i].key != r.key { assert left[i] in left; }
  }
}
