/**
  SimpleHashMap and its buckets (include/sisl/cache/simple_hashmap.hpp): every bucket is a list of values in
  descending order of their keys.
 */
module SimpleHashMaps {

  import opened Remainders
  import opened Wrappers

  // ----- one bucket

  /** Values in descending order of their keys. */
  predicate Falling<V>(row: seq<V>, keyOf: V -> int) {
    forall i, j :: 0 <= i < j < |row| ==> keyOf(row[i]) > keyOf(row[j])
  }

  function RowFind<V>(row: seq<V>, keyOf: V -> int, k: int): Option<V> {
    if row == [] then None
    else if keyOf(row[0]) == k then Some(row[0])
    else RowFind(row[1..], keyOf, k)
  }

  lemma {:induction false} RowFindAt<V>(row: seq<V>, keyOf: V -> int, i: nat)
    requires Falling(row, keyOf) && i < |row|
    ensures RowFind(row, keyOf, keyOf(row[i])) == Some(row[i])
  {
    if i > 0 {
      assert keyOf(row[0]) > keyOf(row[i]);
      RowFindAt(row[1..], keyOf, i - 1);
    }
  }

  lemma {:induction false} RowFindNone<V>(row: seq<V>, keyOf: V -> int, k: int)
    requires forall i :: 0 <= i < |row| ==> keyOf(row[i]) != k
    ensures RowFind(row, keyOf, k).None?
  {
    if row != [] { RowFindNone(row[1..], keyOf, k); }
  }

  lemma {:induction false} RowFindKey<V>(row: seq<V>, keyOf: V -> int, k: int)
    ensures RowFind(row, keyOf, k).Some? ==>
      keyOf(RowFind(row, keyOf, k).value) == k && RowFind(row, keyOf, k).value in row
  {
    if row != [] { RowFindKey(row[1..], keyOf, k); }
  }

  /** Finding other keys does not see a value put in or taken out. */
  lemma {:induction false} RowFindSplice<V>(p: seq<V>, v: V, q: seq<V>, keyOf: V -> int, k: int)
    ensures k != keyOf(v) ==> RowFind(p + [v] + q, keyOf, k) == RowFind(p + q, keyOf, k)
  {
    if k != keyOf(v) {
      if p == [] {
        assert p + [v] + q == [v] + q && p + q == q;
      } else {
        assert (p + [v] + q)[1..] == p[1..] + [v] + q && (p + q)[1..] == p[1..] + q;
        RowFindSplice(p[1..], v, q, keyOf, k);
      }
    }
  }

  class SimpleHashBucket<V> {
    var list: seq<V>
    const keyOf: V -> int

    constructor (keyOf: V -> int)
      ensures this.keyOf == keyOf && list == []
    {
      this.keyOf := keyOf;
      list := [];
    }

    ghost function Find(k: int): Option<V>
      reads this
    {
      RowFind(list, keyOf, k)
    }

    /** Does not overwrite; reports whether the value was put in. */
    method Insert(value: V) returns (created: bool)
      requires Falling(list, keyOf)
      modifies this
      ensures Falling(list, keyOf)
      ensures created <==> old(Find(keyOf(value))).None?
      ensures !created ==> list == old(list)
      ensures created ==> Find(keyOf(value)) == Some(value)
      ensures forall k :: k != keyOf(value) ==> Find(k) == old(Find(k))
    {
      var key := keyOf(value);
      var it, found := 0, false;
      while it < |list|
        invariant it <= |list|
        invariant forall j :: 0 <= j < it ==> key <= keyOf(list[j])
        invariant found <==> exists j :: 0 <= j < it && keyOf(list[j]) == key
      {
        if key > keyOf(list[it]) {
          break;
        } else if key == keyOf(list[it]) {
          found := true;
        }
        it := it + 1;
      }
      if found {
        var j :| 0 <= j < it && keyOf(list[j]) == key;
        RowFindAt(list, keyOf, j);
        return false;
      }
      forall j | it <= j < |list| ensures key > keyOf(list[j]) { assert it < j ==> keyOf(list[it]) > keyOf(list[j]); }
      RowFindNone(list, keyOf, key);
      Placed(list, it, value, keyOf);
      list := list[..it] + [value] + list[it..];
      created := true;
    }

    method Get(key: int) returns (r: Option<V>)
      requires Falling(list, keyOf)
      ensures r == Find(key)
    {
      var i := 0;
      while i < |list|
        invariant i <= |list|
        invariant forall j :: 0 <= j < i ==> key < keyOf(list[j])
      {
        if key > keyOf(list[i]) {
          break;
        } else if key == keyOf(list[i]) {
          RowFindAt(list, keyOf, i);
          return Some(list[i]);
        }
        i := i + 1;
      }
      forall j | i <= j < |list| ensures keyOf(list[j]) != key { assert i < j ==> keyOf(list[i]) > keyOf(list[j]); }
      RowFindNone(list, keyOf, key);
      r := None;
    }

    method EraseUnsafe(key: int) returns (r: Option<V>)
      requires Falling(list, keyOf)
      modifies this
      ensures Falling(list, keyOf) && r == old(Find(key)) && Find(key).None?
      ensures forall k :: k != key ==> Find(k) == old(Find(k))
    {
      var i := 0;
      while i < |list| && key < keyOf(list[i])
        invariant i <= |list|
        invariant forall j :: 0 <= j < i ==> key < keyOf(list[j])
      {
        i := i + 1;
      }
      if i < |list| && key == keyOf(list[i]) {
        r := Some(list[i]);
        RowFindAt(list, keyOf, i);
        Taken(list, i, keyOf);
        list := list[..i] + list[i + 1..];
      } else {
        forall j | i <= j < |list| ensures keyOf(list[j]) != key { assert i < j ==> keyOf(list[i]) > keyOf(list[j]); }
        RowFindNone(list, keyOf, key);
        r := None;
      }
    }
  }

  lemma PlacedFalls<V>(row: seq<V>, i: nat, v: V, keyOf: V -> int)
    requires Falling(row, keyOf) && i <= |row|
    requires forall j :: 0 <= j < i ==> keyOf(v) < keyOf(row[j])
    requires forall j :: i <= j < |row| ==> keyOf(v) > keyOf(row[j])
    ensures Falling(row[..i] + [v] + row[i..], keyOf)
  {}

  lemma Placed<V>(row: seq<V>, i: nat, v: V, keyOf: V -> int)
    requires Falling(row, keyOf) && i <= |row|
    requires forall j :: 0 <= j < i ==> keyOf(v) < keyOf(row[j])
    requires forall j :: i <= j < |row| ==> keyOf(v) > keyOf(row[j])
    ensures var row' := row[..i] + [v] + row[i..];
      && Falling(row', keyOf) && RowFind(row', keyOf, keyOf(v)) == Some(v)
      && forall k :: k != keyOf(v) ==> RowFind(row', keyOf, k) == RowFind(row, keyOf, k)
  {
    hide RowFind, Falling;
    var row' := row[..i] + [v] + row[i..];
    PlacedFalls(row, i, v, keyOf);
    assert row'[i] == v;
    RowFindAt(row', keyOf, i);
    assert row[..i] + row[i..] == row;
    forall k | k != keyOf(v) ensures RowFind(row', keyOf, k) == RowFind(row, keyOf, k) {
      RowFindSplice(row[..i], v, row[i..], keyOf, k);
    }
  }

  lemma Taken<V>(row: seq<V>, i: nat, keyOf: V -> int)
    requires Falling(row, keyOf) && i < |row|
    ensures var row' := row[..i] + row[i + 1..];
      && Falling(row', keyOf) && RowFind(row', keyOf, keyOf(row[i])).None?
      && forall k :: k != keyOf(row[i]) ==> RowFind(row', keyOf, k) == RowFind(row, keyOf, k)
  {
    var row' := row[..i] + row[i + 1..];
    RowFindNone(row', keyOf, keyOf(row[i]));
    forall k | k != keyOf(row[i]) ensures RowFind(row', keyOf, k) == RowFind(row, keyOf, k) {
      RowFindSplice(row[..i], row[i], row[i + 1..], keyOf, k);
      assert row[..i] + [row[i]] + row[i + 1..] == row;
    }
  }

  method NewBuckets<V>(n: nat, keyOf: V -> int) returns (bs: seq<SimpleHashBucket<V>>)
    ensures |bs| == n && fresh(bs)
    ensures forall i :: 0 <= i < n ==> bs[i].list == [] && bs[i].keyOf == keyOf
    ensures forall i, j :: 0 <= i < j < n ==> bs[i] != bs[j]
  {
    bs := [];
    while |bs| < n
      invariant |bs| <= n && fresh(bs)
      invariant forall i :: 0 <= i < |bs| ==> bs[i].list == [] && bs[i].keyOf == keyOf
      invariant forall i, j :: 0 <= i < j < |bs| ==> bs[i] != bs[j]
    {
      var b := new SimpleHashBucket<V>(keyOf);
      bs := bs + [b];
    }
  }

  class SimpleHashMap<V> {
    const buckets: seq<SimpleHashBucket<V>>
    const hash: int -> nat
    const keyOf: V -> int

    constructor (nBuckets: nat, hash: int -> nat, keyOf: V -> int)
      requires 0 < nBuckets
      ensures Valid() && fresh(buckets) && |buckets| == nBuckets && this.hash == hash && this.keyOf == keyOf
      ensures forall k :: Find(k).None?
    {
      var bs := NewBuckets(nBuckets, keyOf);
      this.buckets, this.hash, this.keyOf := bs, hash, keyOf;
    }

    function BucketOf(k: int): (i: nat)
      requires buckets != []
      ensures IsRemainder(hash(k), |buckets|, i)
    {
      Remainder(hash(k), |buckets|)
    }

    ghost predicate Valid()
      reads buckets
    {
      && buckets != [] && (forall i, j :: 0 <= i < j < |buckets| ==> buckets[i] != buckets[j])
      && (forall i :: 0 <= i < |buckets| ==> buckets[i].keyOf == keyOf && Falling(buckets[i].list, keyOf))
    }

    ghost function Find(k: int): Option<V>
      requires Valid()
      reads buckets
    {
      buckets[BucketOf(k)].Find(k)
    }

    ghost function Keys(): iset<int>
      requires Valid()
      reads buckets
    {
      iset k | Find(k).Some?
    }

    /** Does not overwrite; reports whether the value was put in. */
    method Insert(value: V) returns (created: bool)
      requires Valid()
      modifies buckets
      ensures Valid() && (created <==> old(Find(keyOf(value))).None?)
      ensures Find(keyOf(value)) == if created then Some(value) else old(Find(keyOf(value)))
      ensures forall j :: j != keyOf(value) ==> Find(j) == old(Find(j))
    {
      created := buckets[BucketOf(keyOf(value))].Insert(value);
    }

    method Get(key: int) returns (r: Option<V>)
      requires Valid()
      ensures r == Find(key)
    {
      r := buckets[BucketOf(key)].Get(key);
    }

    method Erase(key: int) returns (r: Option<V>)
      requires Valid()
      modifies buckets
      ensures Valid() && r == old(Find(key)) && Find(key).None?
      ensures forall j :: j != key ==> Find(j) == old(Find(j))
    {
      r := buckets[BucketOf(key)].EraseUnsafe(key);
    }

    /** gotLock is whether try_lock gets the bucket of the key; without it nothing happens. */
    method TryErase(key: int, gotLock: bool) returns (erased: bool)
      requires Valid()
      modifies buckets
      ensures Valid() && (erased <==> gotLock && old(Find(key)).Some?)
      ensures forall j :: Find(j) == if j == key && erased then None else old(Find(j))
    {
      if !gotLock { return false; }
      var r := Erase(key);
      erased := r.Some?;
    }
  }
}
