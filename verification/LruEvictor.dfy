/**
  LRUEvictor::LRUPartition (src/cache/lru_evictor.cpp, include/sisl/cache/lru_evictor.hpp): records in order
  of their last use, the least recently used first, and the sum of their sizes.
 */
module LruEvictors {

  import opened Wrappers
  import opened SimpleHashMaps

  /** A cache record; no two linked records have the same key. */
  datatype Record = Record(key: int, size: nat, pinned: bool)

  function Sum(list: seq<Record>): nat {
    if list == [] then 0 else list[0].size + Sum(list[1..])
  }

  predicate Distinct(list: seq<Record>) {
    forall i, j :: 0 <= i < j < |list| ==> list[i].key != list[j].key
  }

  predicate Linked(list: seq<Record>, key: int) { exists i :: 0 <= i < |list| && list[i].key == key }

  /** What an eviction pass over list takes out, and what it leaves. */
  function Gone(list: seq<Record>, ok: Record -> bool): seq<Record> {
    if list == [] then [] else (if ok(list[0]) then [list[0]] else []) + Gone(list[1..], ok)
  }

  function Kept(list: seq<Record>, ok: Record -> bool): seq<Record> {
    if list == [] then [] else (if ok(list[0]) then [] else [list[0]]) + Kept(list[1..], ok)
  }

  /** The filled size once the evictable ones of the first k records are out. */
  function FilledAfter(list: seq<Record>, k: nat, filled: int, ok: Record -> bool): int
    requires k <= |list|
  {
    filled - Sum(Gone(list[..k], ok))
  }

  /** The pass stops behind the first k records: as soon as there is room, or at the end. */
  ghost predicate IsCut(list: seq<Record>, k: nat, filled: int, needed: nat, max: int, ok: Record -> bool) {
    && k <= |list|
    && (k < |list| ==> FilledAfter(list, k, filled, ok) + needed <= max)
    && forall j: nat :: j < k ==> FilledAfter(list, j, filled, ok) + needed > max
  }

  lemma {:induction false} SumJoin(p: seq<Record>, q: seq<Record>)
    ensures Sum(p + q) == Sum(p) + Sum(q)
  {
    if p == [] {
      assert p + q == q;
    } else {
      assert (p + q)[1..] == p[1..] + q;
      SumJoin(p[1..], q);
    }
  }

  lemma SumOne(r: Record)
    ensures Sum([r]) == r.size
  {
    assert [r][1..] == [];
  }

  lemma {:induction false} GoneJoin(p: seq<Record>, q: seq<Record>, ok: Record -> bool)
    ensures Gone(p + q, ok) == Gone(p, ok) + Gone(q, ok)
  {
    if p == [] {
      assert p + q == q;
    } else {
      assert (p + q)[1..] == p[1..] + q && (p + q)[0] == p[0];
      GoneJoin(p[1..], q, ok);
      var head := if ok(p[0]) then [p[0]] else [];
      assert Gone(p + q, ok) == head + Gone(p[1..] + q, ok);
      assert Gone(p, ok) == head + Gone(p[1..], ok);
    }
  }

  lemma {:induction false} KeptJoin(p: seq<Record>, q: seq<Record>, ok: Record -> bool)
    ensures Kept(p + q, ok) == Kept(p, ok) + Kept(q, ok)
  {
    if p == [] {
      assert p + q == q;
    } else {
      assert (p + q)[1..] == p[1..] + q && (p + q)[0] == p[0];
      KeptJoin(p[1..], q, ok);
      var head := if ok(p[0]) then [] else [p[0]];
      assert Kept(p + q, ok) == head + Kept(p[1..] + q, ok);
      assert Kept(p, ok) == head + Kept(p[1..], ok);
    }
  }

  lemma PassOne(list: seq<Record>, k: nat, ok: Record -> bool)
    requires k < |list|
    ensures Gone(list[..k + 1], ok) == Gone(list[..k], ok) + if ok(list[k]) then [list[k]] else []
    ensures Kept(list[..k + 1], ok) == Kept(list[..k], ok) + if ok(list[k]) then [] else [list[k]]
  {
    assert list[..k + 1] == list[..k] + [list[k]];
    GoneJoin(list[..k], [list[k]], ok);
    KeptJoin(list[..k], [list[k]], ok);
    assert [list[k]][1..] == [];
  }

  lemma {:induction false} PassSum(list: seq<Record>, ok: Record -> bool)
    ensures Sum(Gone(list, ok)) + Sum(Kept(list, ok)) == Sum(list)
  {
    if list != [] {
      PassSum(list[1..], ok);
      SumJoin(if ok(list[0]) then [list[0]] else [], Gone(list[1..], ok));
      SumJoin(if ok(list[0]) then [] else [list[0]], Kept(list[1..], ok));
    }
  }

  lemma {:induction false} PassMembers(list: seq<Record>, ok: Record -> bool, r: Record)
    ensures r in Gone(list, ok) <==> r in list && ok(r)
    ensures r in Kept(list, ok) <==> r in list && !ok(r)
  {
    if list != [] {
      PassMembers(list[1..], ok, r);
      assert list == [list[0]] + list[1..];
    }
  }

  /** There is only one place to stop. */
  lemma CutIsUnique(list: seq<Record>, k: nat, k': nat, filled: int, needed: nat, max: int, ok: Record -> bool)
    requires IsCut(list, k, filled, needed, max, ok) && IsCut(list, k', filled, needed, max, ok)
    ensures k == k'
  {}

  /** What is left after a pass over the first k records. */
  function Survivors(list: seq<Record>, k: nat, ok: Record -> bool): seq<Record>
    requires k <= |list|
  {
    Kept(list[..k], ok) + list[k..]
  }

  lemma SurvivorsSum(list: seq<Record>, k: nat, ok: Record -> bool)
    requires k <= |list|
    ensures Sum(Survivors(list, k, ok)) == Sum(list) - Sum(Gone(list[..k], ok))
  {
    assert list == list[..k] + list[k..];
    SumJoin(list[..k], list[k..]);
    SumJoin(Kept(list[..k], ok), list[k..]);
    PassSum(list[..k], ok);
  }

  lemma Unlinked(list: seq<Record>, i: nat)
    requires i < |list|
    ensures Sum(list[..i] + list[i + 1..]) == Sum(list) - list[i].size
  {
    hide Sum;
    assert list == list[..i] + ([list[i]] + list[i + 1..]);
    SumOne(list[i]);
    SumJoin(list[..i], [list[i]] + list[i + 1..]);
    SumJoin([list[i]], list[i + 1..]);
    SumJoin(list[..i], list[i + 1..]);
  }

  /** The pass looks at one more record. */
  lemma PassStep(list: seq<Record>, k: nat, filled: int, ok: Record -> bool)
    requires k < |list|
    ensures var it, left := |Kept(list[..k], ok)|, Survivors(list, k, ok);
      && it < |left| && left[it] == list[k]
      && |Kept(list[..k + 1], ok)| == it + (if ok(list[k]) then 0 else 1)
      && Survivors(list, k + 1, ok) == (if ok(list[k]) then left[..it] + left[it + 1..] else left)
      && FilledAfter(list, k + 1, filled, ok)
         == FilledAfter(list, k, filled, ok) - (if ok(list[k]) then list[k].size else 0)
  {
    PassOne(list, k, ok);
    hide Kept, Gone, Sum;
    if ok(list[k]) {
      SumJoin(Gone(list[..k], ok), [list[k]]);
      SumOne(list[k]);
    } else {
      assert Gone(list[..k + 1], ok) == Gone(list[..k], ok);
    }
    assert list[k..] == [list[k]] + list[k + 1..];
  }

  lemma PassStart(list: seq<Record>, filled: int, ok: Record -> bool)
    ensures Kept(list[..0], ok) == [] == Gone(list[..0], ok) && Survivors(list, 0, ok) == list
    ensures FilledAfter(list, 0, filled, ok) == filled
  {}

  lemma PassEnd(list: seq<Record>, k: nat, filled: int, ok: Record -> bool)
    requires k <= |list|
    ensures FilledAfter(list, k, filled, ok) == filled - Sum(Gone(list[..k], ok))
    ensures FilledAfter(list, k, Sum(list), ok) == Sum(Survivors(list, k, ok))
  {
    SurvivorsSum(list, k, ok);
  }

  // ----- what decides an eviction

  predicate KeyIn(list: seq<Record>, k: int) { exists r :: r in list && r.key == k }

  /** Whether a pass evicts a record: it is unpinned, the user lets it go, and the callback gets the lock of its bucket
      and finds its key among those in the map. */
  ghost function Takes(may: Record -> bool, gotLock: Record -> bool, keys: iset<int>): Record -> bool {
    (r: Record) => !r.pinned && may(r) && gotLock(r) && r.key in keys
  }

  /** Only records that are in the map and that nothing holds back go, and all others stay. */
  lemma PassSpares(list: seq<Record>, k: nat, may: Record -> bool, gotLock: Record -> bool, keys: iset<int>)
    requires k <= |list|
    ensures var ok := Takes(may, gotLock, keys);
      && (forall r :: r in Gone(list[..k], ok) ==> r in list && !r.pinned && may(r) && gotLock(r) && r.key in keys)
      && (forall r :: r in list && (r.pinned || !may(r) || !gotLock(r) || r.key !in keys) ==>
            r in Survivors(list, k, ok))
  {
    var ok := Takes(may, gotLock, keys);
    forall r ensures (r in Gone(list[..k], ok) <==> r in list[..k] && ok(r))
      && (r in Kept(list[..k], ok) <==> r in list[..k] && !ok(r))
    {
      PassMembers(list[..k], ok, r);
    }
    assert list == list[..k] + list[k..];
  }

  /** The pass for a record of the given size: none if it fits, else up to the cut. */
  ghost predicate IsPass(list: seq<Record>, k: nat, size: nat, max: int, ok: Record -> bool) {
    if Sum(list) + size <= max then k == 0 else IsCut(list, k, Sum(list), size, max, ok)
  }

  /** Whether a record is admitted: it fits as it is, or the records that cannot be evicted do not fill the
      partition. */
  predicate Admits(list: seq<Record>, size: nat, max: int, ok: Record -> bool) {
    Sum(list) + size <= max || Sum(Kept(list, ok)) < max
  }

  /** Whether the partition is over its maximum afterwards. */
  predicate Overfills(list: seq<Record>, size: nat, max: int, ok: Record -> bool) {
    var rest := Sum(Kept(list, ok));
    rest + size > max && rest != max
  }

  /** However far a pass goes, what stays is at least what cannot be evicted. */
  lemma PassBounds(list: seq<Record>, k: nat, ok: Record -> bool)
    requires k <= |list|
    ensures Sum(Kept(list, ok)) <= FilledAfter(list, k, Sum(list), ok)
    ensures k == |list| ==> Sum(Kept(list, ok)) == FilledAfter(list, k, Sum(list), ok)
  {
    assert list == list[..k] + list[k..];
    GoneJoin(list[..k], list[k..], ok);
    SumJoin(Gone(list[..k], ok), Gone(list[k..], ok));
    PassSum(list, ok);
    if k == |list| { assert list[..k] == list; }
  }

  /** What the pass leaves decides both questions. */
  lemma PassDecides(list: seq<Record>, k: nat, size: nat, max: int, ok: Record -> bool)
    requires IsPass(list, k, size, max, ok)
    ensures k <= |list|
    ensures var f := FilledAfter(list, k, Sum(list), ok); var added := Sum(list) + size <= max || f < max;
      && (Sum(list) + size <= max ==> f == Sum(list))
      && (0 < size ==> (Admits(list, size, max, ok) <==> added))
      && (Overfills(list, size, max, ok) <==> (if added then f + size > max else f > max))
  {
    PassStart(list, Sum(list), ok);
    PassBounds(list, 0, ok);
    PassBounds(list, k, ok);
  }

  /** Two tests that agree on the records give the same pass. */
  lemma {:induction false} SamePass(list: seq<Record>, ok: Record -> bool, ok': Record -> bool)
    requires forall r :: r in list ==> ok(r) == ok'(r)
    ensures Gone(list, ok) == Gone(list, ok') && Kept(list, ok) == Kept(list, ok')
  {
    if list != [] { SamePass(list[1..], ok, ok'); }
  }

  lemma OneMoreGone(evicted: seq<Record>, r: Record)
    ensures forall j :: KeyIn(evicted + [r], j) <==> KeyIn(evicted, j) || j == r.key
  {
    assert r in evicted + [r];
  }

  /** A record the pass has not come to is not among the evicted. */
  lemma NotYetGone(list: seq<Record>, k: nat, ok: Record -> bool)
    requires Distinct(list) && k < |list|
    ensures !KeyIn(Gone(list[..k], ok), list[k].key)
  {
    forall r | r in Gone(list[..k], ok) ensures r.key != list[k].key {
      PassMembers(list[..k], ok, r);
      var i :| 0 <= i < k && list[i] == r;
      assert list[i].key != list[k].key;
    }
  }

  /** The bound on the filled size when record sizes are at most s: eviction tests for a full partition, not for
      room. */
  predicate Bounded(filled: int, max: int, s: nat) { 0 < s && filled <= max + s - 1 }

  class LRUPartition {
    var list: seq<Record>
    var filled: int
    const max: int

    constructor (max: int)
      ensures this.max == max && list == [] && filled == 0
    {
      this.max := max;
      list := [];
      filled := 0;
    }

    predicate Valid()
      reads this
    {
      filled == Sum(list)
    }

    predicate WillFill(size: nat)
      reads this
    {
      filled + size > max
    }

    predicate IsFull()
      reads this
    {
      filled >= max
    }

    /** A record that may go is erased; the post-eviction callback then erases its key from the map, and if it cannot,
        the record is put back where it was. */
    method EvictOne<V>(hashMap: SimpleHashMap<V>, it: nat, may: Record -> bool, gotLock: Record -> bool)
      returns (taken: bool)
      requires it < |list| && hashMap.Valid()
      modifies this, hashMap.buckets
      ensures hashMap.Valid()
      ensures var rec := old(list)[it];
        && (taken <==> !rec.pinned && may(rec) && gotLock(rec) && old(hashMap.Find(rec.key)).Some?)
        && list == (if taken then old(list)[..it] + old(list)[it + 1..] else old(list))
        && filled == old(filled) - (if taken then rec.size else 0)
        && (forall j :: hashMap.Find(j) == if j == rec.key && taken then None else old(hashMap.Find(j)))
    {
      var rec := list[it];
      taken := false;
      if !rec.pinned && may(rec) {
        list := list[..it] + list[it + 1..];
        var posted := hashMap.TryErase(rec.key, gotLock(rec));
        if !posted {
          list := list[..it] + [rec] + list[it..];
        } else {
          taken := true;
          filled := filled - rec.size;
        }
      }
    }

    /** Goes over the records from the least recently used on until there is room: the shortest front run of evictable
        ones that makes room goes, or all of them; the others keep their order, those put back included. */
    method DoEvict<V>(hashMap: SimpleHashMap<V>, needed: nat, may: Record -> bool, gotLock: Record -> bool)
      returns (room: bool, ghost evicted: seq<Record>, ghost k: nat)
      requires Valid() && Distinct(list) && hashMap.Valid()
      modifies this, hashMap.buckets
      ensures Valid() && hashMap.Valid()
      ensures var ok := Takes(may, gotLock, old(hashMap.Keys()));
        && IsCut(old(list), k, old(filled), needed, max, ok)
        && list == Survivors(old(list), k, ok) && evicted == Gone(old(list)[..k], ok)
      ensures forall j :: hashMap.Find(j) == if KeyIn(evicted, j) then None else old(hashMap.Find(j))
      ensures filled == old(filled) - Sum(evicted) && (room <==> filled < max)
      ensures forall r :: r in evicted ==> r in old(list) && !r.pinned && may(r) && gotLock(r)
      ensures forall r :: r in old(list) && (r.pinned || !may(r) || !gotLock(r)) ==> r in list
    {
      hide Gone, Kept, Sum, Survivors, FilledAfter, SimpleHashMap.Valid, SimpleHashMap.Find;
      ghost var was := list;
      ghost var ok := Takes(may, gotLock, hashMap.Keys());
      var it := 0;
      k := 0;
      evicted := [];
      PassStart(was, Sum(was), ok);
      while WillFill(needed) && it < |list|
        invariant k <= |was| && it == |Kept(was[..k], ok)| && list == Survivors(was, k, ok)
        invariant |list| - it == |was| - k
        invariant evicted == Gone(was[..k], ok) && filled == FilledAfter(was, k, Sum(was), ok)
        invariant forall j: nat :: j < k ==> FilledAfter(was, j, Sum(was), ok) + needed > max
        invariant hashMap.Valid() &&
          forall j :: hashMap.Find(j) == if KeyIn(evicted, j) then None else old(hashMap.Find(j))
        decreases |was| - k
      {
        PassStep(was, k, Sum(was), ok);
        PassOne(was, k, ok);
        NotYetGone(was, k, ok);
        ghost var rec := list[it];
        var taken := EvictOne(hashMap, it, may, gotLock);
        OneMoreGone(evicted, rec);
        if taken {
          evicted := evicted + [rec];
        } else {
          it := it + 1;
        }
        k := k + 1;
      }
      PassEnd(was, k, Sum(was), ok);
      PassSpares(was, k, may, gotLock, old(hashMap.Keys()));
      room := !IsFull();
    }

    /** Appends the record unless the partition is still full after evicting. */
    method AddRecord<V>(hashMap: SimpleHashMap<V>, record: Record, may: Record -> bool, gotLock: Record -> bool)
      returns (added: bool, ghost evicted: seq<Record>, ghost k: nat)
      requires Valid() && Distinct(list) && hashMap.Valid()
      modifies this, hashMap.buckets
      ensures Valid() && hashMap.Valid()
      ensures var ok := Takes(may, gotLock, old(hashMap.Keys()));
        && IsPass(old(list), k, record.size, max, ok) && k <= |old(list)| && evicted == Gone(old(list)[..k], ok)
        && list == Survivors(old(list), k, ok) + (if added then [record] else [])
        && (added <==> old(filled) + record.size <= max || old(filled) - Sum(evicted) < max)
        && (0 < record.size ==> (added <==> Admits(old(list), record.size, max, ok)))
        && (filled > max <==> Overfills(old(list), record.size, max, ok))
      ensures forall j :: hashMap.Find(j) == if KeyIn(evicted, j) then None else old(hashMap.Find(j))
      ensures forall s :: record.size <= s && Bounded(old(filled), max, s) ==> Bounded(filled, max, s)
      ensures forall r :: r in evicted ==> r in old(list) && !r.pinned && may(r) && gotLock(r)
      ensures forall r :: r in old(list) && (r.pinned || !may(r) || !gotLock(r)) ==> r in list
    {
      hide Gone, Kept, Sum, Survivors, FilledAfter, Admits, Overfills;
      ghost var was := list;
      ghost var ok := Takes(may, gotLock, hashMap.Keys());
      PassStart(was, Sum(was), ok);
      added, evicted, k := true, [], 0;
      if WillFill(record.size) {
        added, evicted, k := DoEvict(hashMap, record.size, may, gotLock);
      }
      PassDecides(was, k, record.size, max, ok);
      PassEnd(was, k, Sum(was), ok);
      if !added { return; }
      SumJoin(list, [record]);
      SumOne(record);
      list := list + [record];
      filled := filled + record.size;
    }

    /** The position of a linked record in the intrusive list. */
    function At(key: int): (i: nat)
      requires Linked(list, key)
      reads this
      ensures i < |list| && list[i].key == key
    {
      IndexOf(list, key)
    }

    method RemoveRecord(record: Record)
      requires Valid() && Distinct(list)
      modifies this
      ensures Valid() && filled <= old(filled)
      ensures list == Without(old(list), record.key)
    {
      if !Linked(list, record.key) {
        NothingWithout(list, record.key);
        return;
      }
      var i := At(record.key);
      WithoutAt(list, i);
      Unlinked(list, i);
      filled := filled - list[i].size;
      list := list[..i] + list[i + 1..];
    }

    /** The most recently used record goes to the end. */
    method RecordAccessed(record: Record)
      requires Valid() && Distinct(list)
      modifies this
      ensures Valid() && filled == old(filled)
      ensures !Linked(old(list), record.key) ==> list == old(list)
      ensures Linked(old(list), record.key) ==>
        list == Without(old(list), record.key) + [old(list)[IndexOf(old(list), record.key)]]
      ensures record in old(list) ==> list == Without(old(list), record.key) + [record]
    {
      if !Linked(list, record.key) { return; }
      var i := At(record.key);
      var rec := list[i];
      WithoutAt(list, i);
      Unlinked(list, i);
      SumJoin(list[..i] + list[i + 1..], [rec]);
      SumOne(rec);
      list := list[..i] + list[i + 1..];
      list := list + [rec];
    }
  }

  /** The bound is reached: nine of ten taken by a pinned record, five more are let in. */
  method Overfill() returns (p: LRUPartition)
    ensures p.Valid() && p.max == 10 && p.list == [Record(1, 9, true), Record(2, 5, false)]
    ensures p.filled == 14 && Bounded(p.filled, p.max, 5) && forall s :: s < 5 ==> !Bounded(p.filled, p.max, s)
  {
    hide SimpleHashMap.Find, SimpleHashMap.Valid, IsPass, Overfills;
    var hashMap := new SimpleHashMap<int>(1, k => 0, v => v);
    p := new LRUPartition(10);
    var any := (r: Record) => true;
    var added;
    ghost var evicted, k;
    added, evicted, k := p.AddRecord(hashMap, Record(1, 9, true), any, any);
    assert p.list == [Record(1, 9, true)];
    ghost var ok := Takes(any, any, hashMap.Keys());
    PinnedStays(ok);
    added, evicted, k := p.AddRecord(hashMap, Record(2, 5, false), any, any);
    assert evicted == [] && p.list == [Record(1, 9, true), Record(2, 5, false)];
    SumJoin([Record(1, 9, true)], [Record(2, 5, false)]);
    SumOne(Record(2, 5, false));
  }

  lemma PinnedStays(ok: Record -> bool)
    requires !ok(Record(1, 9, true))
    ensures var list := [Record(1, 9, true)];
      Sum(list) == 9 && Kept(list, ok) == list && forall k: nat :: k <= 1 ==>
        Gone(list[..k], ok) == [] && Survivors(list, k, ok) == list
  {
    var list := [Record(1, 9, true)];
    SumOne(list[0]);
    assert list[1..] == [];
    forall k: nat | k <= 1 ensures Gone(list[..k], ok) == [] && Survivors(list, k, ok) == list {
      assert k == 0 ==> list[..k] == [];
      assert k == 1 ==> list[..k] == list;
    }
  }

  function IndexOf(list: seq<Record>, key: int): (i: nat)
    requires Linked(list, key)
    ensures i < |list| && list[i].key == key
  {
    if list[0].key == key then 0
    else
      var j :| 0 <= j < |list| && list[j].key == key;
      assert list[1..][j - 1].key == key;
      1 + IndexOf(list[1..], key)
  }

  function Without(list: seq<Record>, key: int): seq<Record> {
    if list == [] then []
    else (if list[0].key == key then [] else [list[0]]) + Without(list[1..], key)
  }

  lemma {:induction false} NothingWithout(list: seq<Record>, key: int)
    requires forall i :: 0 <= i < |list| ==> list[i].key != key
    ensures Without(list, key) == list
  {
    if list != [] { NothingWithout(list[1..], key); }
  }

  lemma {:induction false} WithoutAt(list: seq<Record>, i: nat)
    requires Distinct(list) && i < |list|
    ensures Without(list, list[i].key) == list[..i] + list[i + 1..]
  {
    if i == 0 {
      forall j | 0 <= j < |list[1..]| ensures list[1..][j].key != list[0].key {
        assert list[0].key != list[j + 1].key;
      }
      NothingWithout(list[1..], list[0].key);
    } else {
      assert list[0].key != list[i].key;
      WithoutAt(list[1..], i - 1);
      assert list[..i] == [list[0]] + list[1..][..i - 1];
    }
  }
}
