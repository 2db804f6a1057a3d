/**
  RangeHashMap, its buckets and its nodes (include/sisl/cache/range_hashmap.hpp): nodes hold the entries
  of 256 consecutive offsets of a key, buckets hold nodes in descending order, and the map cuts a range
  of any length into node-sized parts.
 */
module RangeHashMaps {

  import opened Remainders
  import opened Wrappers
  import opened RangeEntries
  import opened RangeRuns

  /** uint32_t offsets; the end of a range must stay below. */
  const OFFSETS: nat := 0x1_0000_0000

  datatype RangeKey = RangeKey(key: int, nth: nat, count: nat) {
    function RoundedNth(): nat { Base(nth) }
    function EndNth(): int { nth + count - 1 }
  }

  /** What get returns for one entry. */
  datatype Piece<V> = Piece(range: RangeKey, val: seq<V>)

  function ToBig<V>(key: int, base: nat, e: Entry<V>): Piece<V> {
    Piece(RangeKey(key, base + e.lo, if e.lo <= e.hi then e.hi - e.lo + 1 else 0), e.val)
  }

  function ToBigAll<V>(key: int, base: nat, es: seq<Entry<V>>): seq<Piece<V>> {
    seq(|es|, i requires 0 <= i < |es| => ToBig(key, base, es[i]))
  }

  class MultiEntryHashNode<V> {
    const key: int
    const base: nat
    var values: seq<Entry<V>>

    constructor (key: int, base: nat)
      ensures this.key == key && this.base == base && values == []
    {
      this.key := key;
      this.base := base;
      values := [];
    }

    /** The range lies in this node. */
    predicate Owns(input: RangeKey) {
      input.key == key && 0 < input.count && base <= input.nth && input.nth + input.count <= base + NODE_SIZE
    }

    method BinarySearch(start: int, end: int, off: nat) returns (idx: int, found: bool)
      requires Sorted(values) && -1 <= start < end <= |values|
      requires forall i :: 0 <= i <= start ==> values[i].hi < off
      requires forall i :: end <= i < |values| ==> off < values[i].lo
      ensures 0 <= idx <= |values| && (found ==> idx < |values| && Covers(values[idx], off))
      ensures forall i :: 0 <= i < idx ==> values[i].hi < off
      ensures forall i :: idx <= i < |values| && (found ==> idx < i) ==> off < values[i].lo
      ensures found <==> Lookup(values, off).Some?
    {
      var s, e := start, end;
      while e - s > 1
        invariant -1 <= s < e <= |values|
        invariant forall i :: 0 <= i <= s ==> values[i].hi < off
        invariant forall i :: e <= i < |values| ==> off < values[i].lo
      {
        var mid := s + (e - s) / 2;
        if Covers(values[mid], off) {
          LookupAt(values, off, mid);
          return mid, true;
        } else if values[mid].hi < off {
          s := mid;
        } else {
          e := mid;
        }
      }
      NotFound(values, off, e);
      return e, false;
    }

    /** Cuts the entry at the left end; a range inside one entry splits it. */
    method MoveLeft(left: nat, right: nat, lo: nat, moveLeft: bool, split: bool) returns (l: nat, r: nat)
      requires left <= right <= |values|
      requires moveLeft ==> left < |values| && Fits(values[left]) && values[left].lo < lo <= values[left].hi
      requires split ==> moveLeft && left == right
      modifies this`values
      ensures l <= |values| && r <= |values|
      ensures values[..l] == old(values)[..left] + if moveLeft then [ExtractLeft(old(values)[left], lo - 1)] else []
      ensures r == right + (if split then 1 else 0) && (|values| - r == |old(values)| - right)
      ensures split || left < right || !moveLeft ==> l <= r && values[r..] == old(values)[right..]
      ensures !split && left == right && moveLeft ==> l == r + 1 && values[l..] == old(values)[right + 1..]
    {
      l, r := left, right;
      var move := moveLeft;
      if split {
        values := values[..l] + [ExtractLeft(values[l], lo - 1)] + values[l..];
        l, r, move := l + 1, r + 1, false;
      }
      if move {
        values := values[l := ExtractLeft(values[l], lo - 1)];
        l := l + 1;
      }
    }

    /** Cuts the entry at the right end, or passes over the entry found there, and removes those between. */
    method MoveRight(l: nat, right: nat, hi: nat, moveRight: bool)
      requires l <= |values| && right <= |values| && (l <= right || (l == right + 1 && !moveRight))
      requires moveRight ==> right < |values| && Fits(values[right]) && values[right].lo <= hi < values[right].hi
      modifies this`values
      ensures l <= |values| && values[..l] == old(values)[..l]
      ensures moveRight ==> values[l..] == [ExtractRight(old(values)[right], hi + 1)] + old(values)[right..][1..]
      ensures !moveRight && right == |old(values)| ==> values[l..] == []
      ensures !moveRight && l <= right < |old(values)| ==> values[l..] == old(values)[right..][1..]
      ensures right < l ==> values == old(values)
    {
      var r := right;
      if moveRight {
        values := values[r := ExtractRight(values[r], hi + 1)];
      } else {
        r := if r + 1 <= |values| then r + 1 else |values|;
      }
      if l < r {
        values := values[..l] + values[r..];
      }
    }

    /** The part insert and erase share. */
    method MakeRoom(lo: nat, hi: nat) returns (l: nat)
      requires Sorted(values) && lo <= hi < NODE_SIZE
      modifies this`values
      ensures l <= |values|
      ensures values[..l] == LeftPart(old(values), lo) && values[l..] == RightPart(old(values), hi)
    {
      var left, leftFound := BinarySearch(-1, |values|, lo);
      var right, rightFound := BinarySearch(-1, |values|, hi);
      SidesByIndex(values, lo, hi, left, right);
      hide LeftPart, RightPart, Sorted, Lookup, ExtractLeft, ExtractRight, Fits;
      var moveLeft := leftFound && values[left].lo < lo;
      var moveRight := rightFound && hi < values[right].hi;
      var r: nat;
      l, r := MoveLeft(left, right, lo, moveLeft, leftFound && rightFound && left == right && moveLeft && moveRight);
      MoveRight(l, r, hi, moveRight);
    }

    method Insert(input: RangeKey, value: seq<V>)
      requires Sorted(values) && Owns(input) && |value| == input.count
      modifies this`values
      ensures values == Inserted(old(values), input.nth - base, input.EndNth() - base, value) && Sorted(values)
    {
      var lo, hi := input.nth - base, input.EndNth() - base;
      InsertMeaning(values, lo, hi, value, 0);
      var l := MakeRoom(lo, hi);
      values := values[..l] + [Entry(lo, hi, value)] + values[l..];
    }

    method Erase(input: RangeKey) returns (left: nat)
      requires Sorted(values) && Owns(input)
      modifies this`values
      ensures values == Erased(old(values), input.nth - base, input.EndNth() - base) && Sorted(values)
      ensures left == |values|
    {
      var lo, hi := input.nth - base, input.EndNth() - base;
      EraseMeaning(values, lo, hi, 0);
      var l := MakeRoom(lo, hi);
      assert values == values[..l] + values[l..];
      left := |values|;
    }

    method Get(input: RangeKey, outValues: seq<Piece<V>>) returns (r: seq<Piece<V>>, count: nat)
      requires Sorted(values) && Owns(input)
      ensures var pieces := Pieces(values, input.nth - base, input.EndNth() - base);
        r == outValues + ToBigAll(key, base, pieces) && count == |pieces|
    {
      var lo, hi := input.nth - base, input.EndNth() - base;
      var idx, found := BinarySearch(-1, |values|, lo);
      SkipsLeft(values, lo, hi, idx);
      NotLeft(values, lo, idx);
      r, count := Collect(idx, lo, hi, outValues);
      AsMany(key, base, Pieces(values, lo, hi));
    }

    /** The loop of get, from the first entry that does not end before lo. */
    method Collect(start: nat, lo: nat, hi: nat, outValues: seq<Piece<V>>) returns (r: seq<Piece<V>>, count: nat)
      requires Sorted(values) && start <= |values| && lo <= hi && Sorted(values[start..])
      requires start < |values| ==> lo <= values[start].hi
      ensures r == outValues + ToBigAll(key, base, Pieces(values[start..], lo, hi))
      ensures count == |ToBigAll(key, base, Pieces(values[start..], lo, hi))|
    {
      hide *;
      var idx, first := start, lo;
      r, count := outValues, 0;
      ghost var all := ToBigAll(key, base, Pieces(values[start..], lo, hi));
      ghost var rest := all;
      NoneYet(outValues, all);
      while idx < |values|
        invariant 0 <= idx <= |values| && Sorted(values[idx..])
        invariant rest == ToBigAll(key, base, Pieces(values[idx..], lo, hi))
        invariant Progress(outValues, all, r, rest, count)
        invariant idx < |values| ==> lo <= values[idx].hi && (first == lo || lo <= first <= values[idx].lo)
      {
        SortedAt(values, lo, idx);
        if hi < values[idx].lo {
          break;
        }
        NextPiece(key, base, values, lo, hi, idx);
        SameMatch(values[idx], first, lo, hi);
        Progressed(outValues, all, r, rest, count);
        rest := rest[1..];
        r := r + [ToBig(key, base, Matched(values[idx], first, hi))];
        // wraps after offset 255, with which the last entry ends
        first := SmallOffset(values[idx].hi + 1);
        idx := idx + 1;
        count := count + 1;
      }
      LastPiece(key, base, values, lo, hi, idx);
      AllDone(outValues, all, r, count);
    }
  }

  /** What a bucket knows of a node. */
  datatype NodeView<V> = NodeView(key: int, base: nat, values: seq<Entry<V>>)

  predicate Above(k: int, b: nat, k': int, b': nat) { k > k' || (k == k' && b > b') }

  /** Nodes stand in descending order of key and base, and their entries are sorted. */
  predicate Descending<V>(list: seq<NodeView<V>>) {
    && (forall i :: 0 <= i < |list| ==> Sorted(list[i].values))
    && (forall i, j :: 0 <= i < j < |list| ==> Above(list[i].key, list[i].base, list[j].key, list[j].base))
  }

  /** The entries of the node of (k, b), none if there is no such node. */
  function StoredIn<V>(list: seq<NodeView<V>>, k: int, b: nat): seq<Entry<V>> {
    if list == [] then []
    else if list[0].key == k && list[0].base == b then list[0].values
    else StoredIn(list[1..], k, b)
  }

  lemma {:induction false} StoredAt<V>(list: seq<NodeView<V>>, i: nat)
    requires Descending(list) && i < |list|
    ensures StoredIn(list, list[i].key, list[i].base) == list[i].values
  {
    if i > 0 {
      assert Above(list[0].key, list[0].base, list[i].key, list[i].base);
      StoredAt(list[1..], i - 1);
    }
  }

  lemma {:induction false} NotStored<V>(list: seq<NodeView<V>>, k: int, b: nat)
    requires forall i :: 0 <= i < |list| ==> list[i].key != k || list[i].base != b
    ensures StoredIn(list, k, b) == []
  {
    if list != [] { NotStored(list[1..], k, b); }
  }

  lemma StoredSorted<V>(list: seq<NodeView<V>>, k: int, b: nat)
    requires Descending(list)
    ensures Sorted(StoredIn(list, k, b))
  {
    if i :| 0 <= i < |list| && list[i].key == k && list[i].base == b {
      StoredAt(list, i);
    } else {
      NotStored(list, k, b);
    }
  }

  /** A node without entries is as good as none. */
  lemma {:induction false} EmptyNode<V>(list: seq<NodeView<V>>, i: nat, k: int, b: nat)
    requires Descending(list) && i < |list| && list[i].values == []
    ensures StoredIn(list[..i] + list[i + 1..], k, b) == StoredIn(list, k, b)
  {
    if i == 0 {
      assert list[..0] + list[1..] == list[1..];
      if list[0].key == k && list[0].base == b {
        forall j | 0 <= j < |list[1..]| ensures list[1..][j].key != k || list[1..][j].base != b {
          assert Above(list[0].key, list[0].base, list[j + 1].key, list[j + 1].base);
        }
        NotStored(list[1..], k, b);
      }
    } else {
      assert (list[..i] + list[i + 1..])[1..] == list[1..][..i - 1] + list[1..][i..];
      EmptyNode(list[1..], i - 1, k, b);
    }
  }

  /** When one node changes, only its key and base see it. */
  lemma {:induction false} OneNodeChanged<V>(list: seq<NodeView<V>>, i: nat, n: NodeView<V>, k: int, b: nat)
    requires i < |list| && n.key == list[i].key && n.base == list[i].base && (k != n.key || b != n.base)
    ensures StoredIn(list[i := n], k, b) == StoredIn(list, k, b)
  {
    if i == 0 {
      assert list[0 := n][1..] == list[1..];
    } else {
      assert list[i := n][1..] == list[1..][i - 1 := n];
      OneNodeChanged(list[1..], i - 1, n, k, b);
    }
  }

  class HashBucket<V> {
    var list: seq<MultiEntryHashNode<V>>

    constructor ()
      ensures list == [] && Valid() && Tidy()
    {
      list := [];
    }

    ghost function View(): (r: seq<NodeView<V>>)
      reads this, list
      ensures |r| == |list|
      ensures forall i :: 0 <= i < |list| ==> r[i] == NodeView(list[i].key, list[i].base, list[i].values)
    {
      seq(|list|, i requires 0 <= i < |list| reads this, list => NodeView(list[i].key, list[i].base, list[i].values))
    }

    ghost predicate Valid()
      reads this, list
    {
      Descending(View()) && forall i, j :: 0 <= i < j < |list| ==> list[i] != list[j]
    }

    /** No node is kept without entries. */
    ghost predicate Tidy()
      reads this, list
    {
      forall n :: n in list ==> n.values != []
    }

    ghost function Stored(k: int, b: nat): (r: seq<Entry<V>>)
      requires Valid()
      reads this, list
      ensures Sorted(r)
    {
      StoredSorted(View(), k, b);
      StoredIn(View(), k, b)
    }

    /** The search loop of insert, get and erase. */
    method Find(k: int, b: nat) returns (i: nat, found: bool)
      requires Valid()
      ensures i <= |list| && (found ==> i < |list| && list[i].key == k && list[i].base == b)
      ensures forall j :: 0 <= j < i ==> Above(list[j].key, list[j].base, k, b)
      ensures !found ==> forall j :: i <= j < |list| ==> Above(k, b, list[j].key, list[j].base)
      ensures Stored(k, b) == if found then list[i].values else []
    {
      i, found := 0, false;
      ghost var view := View();
      while i < |list|
        invariant i <= |list| && view == View()
        invariant forall j :: 0 <= j < i ==> Above(list[j].key, list[j].base, k, b)
      {
        if k > list[i].key {
          break;
        } else if k == list[i].key {
          if b > list[i].base {
            break;
          } else if b == list[i].base {
            StoredAt(view, i);
            return i, true;
          }
        }
        i := i + 1;
      }
      forall j | i <= j < |list| ensures Above(k, b, list[j].key, list[j].base) {
        assert i < j ==> Above(view[i].key, view[i].base, view[j].key, view[j].base);
      }
      NotStored(view, k, b);
    }

    /** The node of (k, b), created if there is none. */
    method NodeFor(k: int, b: nat) returns (n: MultiEntryHashNode<V>, ghost i: nat)
      requires Valid()
      modifies this
      ensures Valid() && i < |list| && list[i] == n && n.key == k && n.base == b && (n in old(list) || fresh(n))
      ensures forall m :: m in list ==> m in old(list) || m == n
      ensures forall k', b' :: Stored(k', b') == old(Stored(k', b'))
    {
      hide Descending, StoredIn, Above, Sorted;
      var at, found := Find(k, b);
      i := at;
      if found {
        n := list[at];
      } else {
        n := new MultiEntryHashNode<V>(k, b);
        ghost var was := View();
        NewNode(was, at, k, b);
        list := list[..at] + [n] + list[at..];
        assert View() == was[..at] + [NodeView(k, b, [])] + was[at..];
      }
    }

    method InsertInto(n: MultiEntryHashNode<V>, ghost i: nat, input: RangeKey, value: seq<V>)
      requires Valid() && i < |list| && list[i] == n && n.Owns(input) && |value| == input.count
      modifies n
      ensures Valid() && n.values != []
      ensures Stored(n.key, n.base) ==
        Inserted(old(Stored(n.key, n.base)), input.nth - n.base, input.EndNth() - n.base, value)
      ensures forall k, b :: k != n.key || b != n.base ==> Stored(k, b) == old(Stored(k, b))
    {
      ghost var was := View();
      StoredAt(was, i);
      n.Insert(input, value);
      NodeWritten(was, View(), i);
    }

    method Insert(input: RangeKey, value: seq<V>)
      requires Valid() && InOneNode(input) && |value| == input.count
      modifies this, list
      ensures Valid() && (old(Tidy()) ==> Tidy())
      ensures forall n :: n in list ==>
        n in old(list) || (fresh(n) && n.key == input.key && n.base == input.RoundedNth())
      ensures var k, b := input.key, input.RoundedNth();
        Stored(k, b) == Inserted(old(Stored(k, b)), input.nth - b, input.EndNth() - b, value)
      ensures forall k, b :: k != input.key || b != input.RoundedNth() ==> Stored(k, b) == old(Stored(k, b))
    {
      hide Descending, StoredIn, Above, Sorted, Inserted, IsBase, Valid, Stored, View;
      var n, i := NodeFor(input.key, input.RoundedNth());
      InsertInto(n, i, input, value);
    }

    method EraseFrom(i: nat, input: RangeKey) returns (size: nat)
      requires Valid() && i < |list| && list[i].Owns(input)
      modifies list[i]
      ensures Valid() && size == |list[i].values|
      ensures var n := list[i];
        Stored(n.key, n.base) == Erased(old(Stored(n.key, n.base)), input.nth - n.base, input.EndNth() - n.base)
      ensures forall k, b :: k != list[i].key || b != list[i].base ==> Stored(k, b) == old(Stored(k, b))
    {
      ghost var was := View();
      StoredAt(was, i);
      size := list[i].Erase(input);
      NodeWritten(was, View(), i);
    }

    method Erase(input: RangeKey)
      requires Valid() && InOneNode(input)
      modifies this, list
      ensures Valid() && (old(Tidy()) ==> Tidy()) && forall n :: n in list ==> n in old(list)
      ensures var k, b := input.key, input.RoundedNth();
        Stored(k, b) == Erased(old(Stored(k, b)), input.nth - b, input.EndNth() - b)
      ensures forall k, b :: k != input.key || b != input.RoundedNth() ==> Stored(k, b) == old(Stored(k, b))
    {
      hide Descending, StoredIn, Above, Base, Sorted, Erased, Stored, Valid, View;
      var i, found := Find(input.key, input.RoundedNth());
      if !found {
        NothingErased<V>(input.nth - input.RoundedNth(), input.EndNth() - input.RoundedNth());
      } else {
        var size := EraseFrom(i, input);
        if size == 0 {
          DropNode(i);
        }
      }
    }

    method DropNode(i: nat)
      requires Valid() && i < |list| && list[i].values == []
      modifies this
      ensures Valid() && list == old(list[..i] + list[i + 1..]) && forall k, b :: Stored(k, b) == old(Stored(k, b))
    {
      hide Descending, StoredIn, Above, Sorted;
      ghost var was := View();
      list := list[..i] + list[i + 1..];
      assert View() == was[..i] + was[i + 1..];
      NodeAdded(View(), was, i);
    }

    method Get(input: RangeKey, outValues: seq<Piece<V>>) returns (r: seq<Piece<V>>, count: nat)
      requires Valid() && InOneNode(input)
      ensures var b := input.RoundedNth();
        var pieces := Pieces(Stored(input.key, b), input.nth - b, input.EndNth() - b);
        r == outValues + ToBigAll(input.key, b, pieces) && count == |pieces|
    {
      hide Descending, StoredIn, Above, Pieces, ToBigAll, Base, Sorted;
      var i, found := Find(input.key, input.RoundedNth());
      if found {
        r, count := list[i].Get(input, outValues);
      } else {
        r, count := outValues, 0;
        ghost var base := input.RoundedNth();
        NothingStored<V>(input.key, base, input.nth - base, input.EndNth() - base);
      }
    }
  }

  lemma NothingErased<V>(lo: nat, hi: nat)
    ensures Erased<V>([], lo, hi) == []
  {}

  lemma NothingStored<V>(key: int, base: nat, lo: nat, hi: nat)
    requires lo <= hi
    ensures Pieces<V>([], lo, hi) == [] && ToBigAll<V>(key, base, []) == []
  {}

  predicate InOneNode(input: RangeKey) {
    0 < input.count && input.nth + input.count <= input.RoundedNth() + NODE_SIZE
  }

  /** Node i of now has been written, the others are as before. */
  lemma NodeWritten<V>(was: seq<NodeView<V>>, now: seq<NodeView<V>>, i: nat)
    requires Descending(was) && i < |was| == |now| && now == was[i := now[i]] && Sorted(now[i].values)
    requires now[i].key == was[i].key && now[i].base == was[i].base
    ensures Descending(now) && StoredIn(now, now[i].key, now[i].base) == now[i].values
    ensures forall k, b :: k != now[i].key || b != now[i].base ==> StoredIn(now, k, b) == StoredIn(was, k, b)
  {
    StoredAt(now, i);
    forall k, b | k != now[i].key || b != now[i].base ensures StoredIn(now, k, b) == StoredIn(was, k, b) {
      OneNodeChanged(was, i, now[i], k, b);
    }
  }

  lemma NewNode<V>(was: seq<NodeView<V>>, i: nat, k: int, b: nat)
    requires Descending(was) && i <= |was|
    requires forall j :: 0 <= j < i ==> Above(was[j].key, was[j].base, k, b)
    requires forall j :: i <= j < |was| ==> Above(k, b, was[j].key, was[j].base)
    ensures var now := was[..i] + [NodeView(k, b, [])] + was[i..];
      Descending(now) && forall k', b' :: StoredIn(now, k', b') == StoredIn(was, k', b')
  {
    hide Descending, Above, StoredIn;
    var now := was[..i] + [NodeView(k, b, [])] + was[i..];
    NewNodeOrder(was, i, k, b);
    assert was == now[..i] + now[i + 1..];
    NodeAdded(was, now, i);
  }

  lemma NewNodeOrder<V>(was: seq<NodeView<V>>, i: nat, k: int, b: nat)
    requires Descending(was) && i <= |was|
    requires forall j :: 0 <= j < i ==> Above(was[j].key, was[j].base, k, b)
    requires forall j :: i <= j < |was| ==> Above(k, b, was[j].key, was[j].base)
    ensures Descending(was[..i] + [NodeView(k, b, [])] + was[i..])
  {
    hide Above;
  }

  /** now is was with an empty node at i. */
  lemma NodeAdded<V>(was: seq<NodeView<V>>, now: seq<NodeView<V>>, i: nat)
    requires Descending(now) && i < |now| && now[i].values == [] && was == now[..i] + now[i + 1..]
    ensures Descending(was) && forall k, b :: StoredIn(now, k, b) == StoredIn(was, k, b)
  {
    forall k, b ensures StoredIn(now, k, b) == StoredIn(was, k, b) { EmptyNode(now, i, k, b); }
  }

  /** Conversion to small_offset_t, an uint8_t. */
  function SmallOffset(x: nat): (r: nat)
    ensures x < NODE_SIZE ==> r == x
  {
    x % 256
  }

  /** Of the pieces all, count have been appended and rest are to come. */
  ghost predicate Progress<T>(start: seq<T>, all: seq<T>, r: seq<T>, rest: seq<T>, count: nat) {
    r + rest == start + all && count + |rest| == |all|
  }

  lemma NoneYet<T>(start: seq<T>, all: seq<T>)
    ensures Progress(start, all, start, all, 0)
  {}

  lemma Progressed<T>(start: seq<T>, all: seq<T>, r: seq<T>, rest: seq<T>, count: nat)
    requires Progress(start, all, r, rest, count) && rest != []
    ensures Progress(start, all, r + [rest[0]], rest[1..], count + 1)
  {
    assert rest == [rest[0]] + rest[1..];
    assert r + rest == (r + [rest[0]]) + rest[1..];
  }

  lemma AllDone<T>(start: seq<T>, all: seq<T>, r: seq<T>, count: nat)
    requires Progress(start, all, r, [], count)
    ensures r == start + all && count == |all|
  {
    assert r + [] == r;
  }

  lemma AsMany<V>(key: int, base: nat, es: seq<Entry<V>>)
    ensures |ToBigAll(key, base, es)| == |es|
  {}

  lemma NotLeft<V>(values: seq<Entry<V>>, lo: nat, idx: nat)
    requires Sorted(values) && idx <= |values| && (idx < |values| ==> Covers(values[idx], lo) || lo < values[idx].lo)
    ensures idx < |values| ==> lo <= values[idx].hi
    ensures Sorted(values[idx..])
  {}

  lemma ConsBig<V>(key: int, base: nat, e: Entry<V>, es: seq<Entry<V>>)
    ensures ToBigAll(key, base, [e] + es) == [ToBig(key, base, e)] + ToBigAll(key, base, es)
  {}

  lemma ConsPieces<V>(values: seq<Entry<V>>, lo: nat, hi: nat)
    requires Sorted(values) && values != [] && lo <= hi && lo <= values[0].hi && values[0].lo <= hi
    ensures Fits(values[0]) && Sorted(values[1..])
    ensures Pieces(values, lo, hi) == [Matched(values[0], lo, hi)] + Pieces(values[1..], lo, hi)
  {}

  lemma SortedAt<V>(values: seq<Entry<V>>, lo: nat, idx: nat)
    requires Sorted(values) && idx < |values| && lo <= values[idx].hi
    ensures Fits(values[idx]) && Sorted(values[idx..]) && Sorted(values[idx + 1..])
    ensures idx + 1 < |values| ==>
      lo <= values[idx + 1].hi && values[idx].hi + 1 < NODE_SIZE && values[idx].hi + 1 <= values[idx + 1].lo
  {}

  lemma NextPiece<V>(key: int, base: nat, values: seq<Entry<V>>, lo: nat, hi: nat, idx: nat)
    requires Sorted(values) && idx < |values| && lo <= values[idx].hi && values[idx].lo <= hi && lo <= hi
    ensures Fits(values[idx]) && Sorted(values[idx..]) && Sorted(values[idx + 1..])
    ensures var rest := ToBigAll(key, base, Pieces(values[idx..], lo, hi));
      && rest != [] && rest[0] == ToBig(key, base, Matched(values[idx], lo, hi))
      && rest[1..] == ToBigAll(key, base, Pieces(values[idx + 1..], lo, hi))
  {
    hide *;
    SortedAt(values, lo, idx);
    assert values[idx..][1..] == values[idx + 1..];
    ConsPieces(values[idx..], lo, hi);
    ConsBig(key, base, Matched(values[idx], lo, hi), Pieces(values[idx + 1..], lo, hi));
  }

  lemma LastPiece<V>(key: int, base: nat, values: seq<Entry<V>>, lo: nat, hi: nat, idx: nat)
    requires Sorted(values) && idx <= |values| && lo <= hi
    requires idx < |values| ==> lo <= values[idx].hi && hi < values[idx].lo
    requires Sorted(values[idx..])
    ensures ToBigAll(key, base, Pieces(values[idx..], lo, hi)) == []
  {}

  lemma SameMatch<V>(e: Entry<V>, first: nat, lo: nat, hi: nat)
    requires Fits(e) && lo <= e.hi && e.lo <= hi && lo <= hi && (first == lo || lo <= first <= e.lo)
    ensures Matched(e, first, hi) == Matched(e, lo, hi)
  {}

  /** The two sides of a range, by the indices the searches return. */
  lemma SidesByIndex<V>(values: seq<Entry<V>>, lo: nat, hi: nat, left: nat, right: nat)
    requires Sorted(values) && lo <= hi && left <= |values| && right <= |values|
    requires forall i :: 0 <= i < left ==> values[i].hi < lo
    requires forall i :: 0 <= i < right ==> values[i].hi < hi
    requires left < |values| ==> lo <= values[left].hi
    requires right < |values| ==> hi <= values[right].hi
    ensures left <= right
    ensures left < |values| ==> Fits(values[left])
    ensures right < |values| ==> Fits(values[right])
    ensures LeftPart(values, lo) ==
      values[..left] + if left < |values| && values[left].lo < lo then [ExtractLeft(values[left], lo - 1)] else []
    ensures right == |values| ==> RightPart(values, hi) == []
    ensures right < |values| && values[right].lo <= hi < values[right].hi ==>
      RightPart(values, hi) == [ExtractRight(values[right], hi + 1)] + values[right..][1..]
    ensures right < |values| && !(values[right].lo <= hi < values[right].hi) ==>
      RightPart(values, hi) == values[right..][1..]
  {
    LeftByIndex(values, lo, left);
    RightByIndex(values, hi, right);
    assert right < |values| ==> values[right..][1..] == values[right + 1..];
  }

  lemma NotFound<V>(values: seq<Entry<V>>, off: nat, k: nat)
    requires Sorted(values) && k <= |values|
    requires forall i :: 0 <= i < k ==> values[i].hi < off
    requires forall i :: k <= i < |values| ==> off < values[i].lo
    ensures Lookup(values, off).None?
  {
    if Lookup(values, off).Some? {
      var i := LookupFinds(values, off);
      assert false;
    }
  }

  lemma {:induction false} SkipsLeft<V>(values: seq<Entry<V>>, lo: nat, hi: nat, k: nat)
    requires Sorted(values) && lo <= hi && k <= |values| && (forall i :: 0 <= i < k ==> values[i].hi < lo)
    ensures Pieces(values[k..], lo, hi) == Pieces(values, lo, hi)
  {
    if k == 0 {
      assert values[0..] == values;
    } else {
      assert values[1..][k - 1..] == values[k..];
      SkipsLeft(values[1..], lo, hi, k - 1);
    }
  }

  // ----- the whole map

  method NewBuckets<V>(n: nat) returns (bs: seq<HashBucket<V>>)
    ensures |bs| == n && fresh(bs)
    ensures forall i :: 0 <= i < |bs| ==> bs[i].list == []
    ensures forall i, j :: 0 <= i < j < |bs| ==> bs[i] != bs[j]
  {
    bs := [];
    while |bs| < n
      invariant |bs| <= n && fresh(bs)
      invariant forall i :: 0 <= i < |bs| ==> bs[i].list == []
      invariant forall i, j :: 0 <= i < j < |bs| ==> bs[i] != bs[j]
    {
      var b := new HashBucket<V>();
      bs := bs + [b];
    }
  }

  lemma NothingStoredYet<V>(t: Table<V>)
    requires Full(t) && forall id: NodeId :: t[id] == []
    ensures t == EmptyTable()
  {}

  class RangeHashMap<V> {
    const buckets: seq<HashBucket<V>>
    const hash: (int, nat) -> nat

    constructor (nBuckets: nat, hash: (int, nat) -> nat)
      requires 0 < nBuckets
      ensures |buckets| == nBuckets && this.hash == hash && fresh(buckets) && Nodes() == {}
      ensures Valid() && Tidy() && Contents() == EmptyTable()
    {
      hide Full, EmptyTable;
      var bs := NewBuckets<V>(nBuckets);
      this.buckets := bs;
      this.hash := hash;
      new;
      assert forall i :: InRange(i) ==> buckets[i].list == [];
      assert forall k, b :: Stored(k, b) == [];
      NothingStoredYet(Contents());
    }

    ghost function Nodes(): set<MultiEntryHashNode<V>>
      reads buckets
    {
      set i, j | 0 <= i < |buckets| && 0 <= j < |buckets[i].list| :: buckets[i].list[j]
    }

    predicate InRange(i: int) { 0 <= i < |buckets| }

    function BucketOf(k: int, b: nat): (i: nat)
      requires buckets != []
      ensures InRange(i) && IsRemainder(hash(k, b), |buckets|, i)
    {
      Remainder(hash(k, b), |buckets|)
    }

    /** Buckets are distinct and every node is in the bucket its key and base hash to. */
    ghost predicate Valid()
      reads buckets, Nodes()
    {
      && buckets != []
      && (forall i, j :: 0 <= i < j < |buckets| ==> buckets[i] != buckets[j])
      && (forall i :: InRange(i) ==> buckets[i].Valid())
      && (forall i, n :: InRange(i) && n in buckets[i].list ==> BucketOf(n.key, n.base) == i)
    }

    /** No node is kept without entries. */
    ghost predicate Tidy()
      reads buckets, Nodes()
    {
      forall i :: InRange(i) ==> buckets[i].Tidy()
    }

    ghost function Stored(k: int, b: nat): (r: seq<Entry<V>>)
      requires Valid()
      reads buckets, Nodes()
      ensures Sorted(r)
    {
      buckets[BucketOf(k, b)].Stored(k, b)
    }

    ghost function Contents(): (t: Table<V>)
      requires Valid()
      reads buckets, Nodes()
      ensures Full(t)
    {
      imap id: NodeId | true :: Stored(id.key, id.base)
    }

    /** No node is in two buckets. */
    lemma NodesApart(at: nat)
      requires Valid() && InRange(at)
      ensures forall n :: n in buckets[at].list ==> n in Nodes()
      ensures forall j, n :: InRange(j) && j != at && n in buckets[j].list ==> n !in buckets[at].list
    {}

    /** One bucket was written; the others and their nodes are as before. */
    twostate predicate OnlyAt(at: nat)
      reads buckets, Nodes()
    {
      && InRange(at)
      && forall j :: InRange(j) && j != at ==>
           buckets[j].list == old(buckets[j].list) && buckets[j].View() == old(buckets[j].View())
    }

    twostate lemma OneBucketWritten(at: nat)
      requires old(Valid()) && OnlyAt(at) && buckets[at].Valid() && (old(buckets[at].Tidy()) ==> buckets[at].Tidy())
      requires forall n :: n in buckets[at].list ==> BucketOf(n.key, n.base) == at
      ensures Valid() && (old(Tidy()) ==> Tidy())
      ensures forall k, b :: BucketOf(k, b) != at ==> Stored(k, b) == old(Stored(k, b))
    {
      hide Descending, StoredIn, Sorted, Above, BucketOf;
      forall j | InRange(j) && j != at
        ensures buckets[j].Valid() && (old(buckets[j].Tidy()) ==> buckets[j].Tidy())
      {
        var was, now := old(buckets[j].View()), buckets[j].View();
        assert forall i :: 0 <= i < |now| ==> now[i] == was[i];
      }
    }

    method InsertNode(part: RangeKey, value: seq<V>)
      requires Valid() && InOneNode(part) && |value| == part.count
      modifies buckets, Nodes()
      ensures Valid() && (old(Tidy()) ==> Tidy()) && forall n :: n in Nodes() ==> n in old(Nodes()) || fresh(n)
      ensures var k, b := part.key, part.RoundedNth();
        Stored(k, b) == Inserted(old(Stored(k, b)), part.nth - b, part.EndNth() - b, value)
      ensures forall k, b :: k != part.key || b != part.RoundedNth() ==> Stored(k, b) == old(Stored(k, b))
    {
      hide Descending, StoredIn, Sorted, Inserted, Base, InOneNode, Above, BucketOf;
      hide HashBucket.Valid, HashBucket.Tidy, HashBucket.Stored;
      var at := BucketOf(part.key, part.RoundedNth());
      NodesApart(at);
      buckets[at].Insert(part, value);
      assert OnlyAt(at);
      assert forall n :: n in buckets[at].list ==> BucketOf(n.key, n.base) == at && (n in old(Nodes()) || fresh(n));
      OneBucketWritten(at);
    }

    method EraseNode(part: RangeKey)
      requires Valid() && InOneNode(part)
      modifies buckets, Nodes()
      ensures Valid() && (old(Tidy()) ==> Tidy()) && forall n :: n in Nodes() ==> n in old(Nodes())
      ensures var k, b := part.key, part.RoundedNth();
        Stored(k, b) == Erased(old(Stored(k, b)), part.nth - b, part.EndNth() - b)
      ensures forall k, b :: k != part.key || b != part.RoundedNth() ==> Stored(k, b) == old(Stored(k, b))
    {
      hide Descending, StoredIn, Sorted, Erased, Base, InOneNode, Above, BucketOf;
      hide HashBucket.Valid, HashBucket.Tidy, HashBucket.Stored;
      var at := BucketOf(part.key, part.RoundedNth());
      NodesApart(at);
      buckets[at].Erase(part);
      assert OnlyAt(at);
      OneBucketWritten(at);
    }

    method InsertPart(part: RangeKey, value: seq<V>)
      requires Valid() && InOneNode(part) && |value| == part.count
      modifies buckets, Nodes()
      ensures Valid() && (old(Tidy()) ==> Tidy()) && forall n :: n in Nodes() ==> n in old(Nodes()) || fresh(n)
      ensures Contents() == PartInserted(part, value, old(Contents()))
    {
      hide Valid, Tidy, Stored, Nodes, Sorted, Inserted, Base, InOneNode;
      InsertNode(part, value);
    }

    method ErasePart(part: RangeKey)
      requires Valid() && InOneNode(part)
      modifies buckets, Nodes()
      ensures Valid() && (old(Tidy()) ==> Tidy()) && forall n :: n in Nodes() ==> n in old(Nodes())
      ensures Contents() == PartErased(part, old(Contents()))
    {
      hide Valid, Tidy, Stored, Nodes, Sorted, Erased, Base, InOneNode;
      EraseNode(part);
    }

    /** Cuts the range into parts of one node each; every node it touches takes the step of the whole insert. */
    method Insert(input: RangeKey, value: seq<V>)
      requires Valid() && 0 < input.nth + input.count < OFFSETS && input.count <= |value|
      modifies buckets, Nodes()
      ensures Valid() && (old(Tidy()) ==> Tidy()) && forall n :: n in Nodes() ==> n in old(Nodes()) || fresh(n)
      ensures Contents() == Wrote(Op.Insert(input.key, input.nth, value[..input.count]), old(Contents()))
    {
      hide WroteUpto, Wrote, PartInserted, AtNode, InOneNode, Base, Touches, Full, Low, High;
      hide Valid, Tidy, Contents, Nodes;
      ghost var op := Op.Insert(input.key, input.nth, value[..input.count]);
      var cur, curVal := input.nth, 0;
      var room: nat := NODE_SIZE - (input.nth - input.RoundedNth());
      NothingWritten(op, Contents());
      while cur <= input.EndNth()
        invariant AtNode(cur, room, input.nth, input.count)
        invariant curVal == cur - input.nth && cur <= input.nth + input.count
        invariant Valid() && (old(Tidy()) ==> Tidy()) && forall n :: n in Nodes() ==> n in old(Nodes()) || fresh(n)
        invariant Contents() == WroteUpto(op, cur, old(Contents()))
        decreases input.nth + input.count - cur
      {
        NextPart(cur, room, input.nth, input.count);
        var count := if room <= input.EndNth() - cur + 1 then room else input.EndNth() - cur + 1;
        var part := RangeKey(input.key, cur, count);
        InsertedUpto(op, cur, room, count, old(Contents()));
        assert op.val[curVal..curVal + count] == value[curVal..curVal + count];
        InsertPart(part, value[curVal..curVal + count]);
        cur := cur + count;
        curVal := curVal + count;
        room := NODE_SIZE;
      }
      AllWritten(op, old(Contents()));
    }

    method Erase(input: RangeKey)
      requires Valid() && 0 < input.nth + input.count < OFFSETS
      modifies buckets, Nodes()
      ensures Valid() && (old(Tidy()) ==> Tidy()) && forall n :: n in Nodes() ==> n in old(Nodes())
      ensures Contents() == Wrote(Op.Erase(input.key, input.nth, input.count), old(Contents()))
    {
      hide WroteUpto, Wrote, PartErased, AtNode, InOneNode, Base, Touches, Full, Low, High;
      hide Valid, Tidy, Contents, Nodes;
      ghost var op: Op<V> := Op.Erase(input.key, input.nth, input.count);
      var cur := input.nth;
      var room: nat := NODE_SIZE - (input.nth - input.RoundedNth());
      NothingWritten(op, Contents());
      while cur <= input.EndNth()
        invariant AtNode(cur, room, input.nth, input.count) && cur <= input.nth + input.count
        invariant Valid() && (old(Tidy()) ==> Tidy()) && forall n :: n in Nodes() ==> n in old(Nodes())
        invariant Contents() == WroteUpto(op, cur, old(Contents()))
        decreases input.nth + input.count - cur
      {
        NextPart(cur, room, input.nth, input.count);
        var count := if room <= input.EndNth() - cur + 1 then room else input.EndNth() - cur + 1;
        var part := RangeKey(input.key, cur, count);
        ErasedUpto(op, cur, room, count, old(Contents()));
        ErasePart(part);
        cur := cur + count;
        room := NODE_SIZE;
      }
      AllWritten(op, old(Contents()));
    }

    /** The pieces cover exactly the stored offsets of the range, in order and with the stored values. */
    method Get(input: RangeKey) returns (r: seq<Piece<V>>)
      requires Valid() && 0 < input.nth + input.count < OFFSETS
      ensures Valid() && Contents() == old(Contents())
      ensures PiecesOf(r, input.key) && Rising(r)
      ensures forall n: nat :: input.nth <= n < input.nth + input.count ==>
        PieceAt(r, n) == ValueIn(Contents(), input.key, n)
      ensures forall n: nat :: !(input.nth <= n < input.nth + input.count) ==> PieceAt(r, n).None?
    {
      hide AtNode, Base, Touches, Full, Low, High, PieceAt, PiecesOf, Rising, ValueIn;
      hide Valid, Tidy, Contents, Nodes;
      r := [];
      var cur := input.nth;
      var room: nat := NODE_SIZE - (input.nth - input.RoundedNth());
      ghost var t := Contents();
      NothingWritten<V>(Op.Erase(input.key, input.nth, input.count), t);
      NothingGot(t, input.key, input.nth);
      while cur <= input.EndNth()
        invariant AtNode(cur, room, input.nth, input.count) && cur <= input.nth + input.count
        invariant Valid() && Contents() == t && Got(r, t, input.key, input.nth, cur)
        decreases input.nth + input.count - cur
      {
        NextPart(cur, room, input.nth, input.count);
        var count := if room <= input.EndNth() - cur + 1 then room else input.EndNth() - cur + 1;
        var part := RangeKey(input.key, cur, count);
        GotMore(r, t, input.key, input.nth, cur, count);
        r := GetPart(part, r, t);
        cur := cur + count;
        room := NODE_SIZE;
      }
    }

    /** After any run, the pieces hold the most recent values: at every offset of the range the latest one, or nothing
        exactly if it was lost or there is none. */
    method GetLatest(ghost ops: seq<Op<V>>, input: RangeKey) returns (r: seq<Piece<V>>)
      requires Valid() && 0 < input.nth + input.count < OFFSETS && Contents() == TableAfter(ops)
      ensures PiecesOf(r, input.key) && Rising(r)
      ensures forall n: nat :: input.nth <= n < input.nth + input.count ==>
        PieceAt(r, n) == if Lost(ops, input.key, n) then None else Latest(ops, input.key, n)
      ensures forall n: nat :: !(input.nth <= n < input.nth + input.count) ==> PieceAt(r, n).None?
    {
      hide PieceAt, PiecesOf, Rising, ValueIn, Lost, Latest, TableAfter, Full;
      hide Valid, Tidy, Contents, Nodes;
      ghost var t := TableAfter(ops);
      forall n: nat
        ensures ValueIn(t, input.key, n) == if Lost(ops, input.key, n) then None else Latest(ops, input.key, n)
      {
        StoredIsLatest(ops, input.key, n);
      }
      r := Get(input);
    }

    method GetPart(part: RangeKey, outValues: seq<Piece<V>>, ghost t: Table<V>) returns (r: seq<Piece<V>>)
      requires Valid() && InOneNode(part) && Contents() == t
      ensures Valid() && Contents() == t && r == outValues + PartPieces(part, t)
    {
      hide Descending, StoredIn, Sorted, Pieces, Base, ToBigAll;
      var count;
      r, count := buckets[BucketOf(part.key, part.RoundedNth())].Get(part, outValues);
      assert forall j :: InRange(j) ==> buckets[j].View() == old(buckets[j].View());
      assert forall k, b :: Stored(k, b) == old(Stored(k, b));
    }
  }

  ghost function ValueIn<V>(t: Table<V>, k: int, n: nat): Option<V>
    requires Full(t)
  {
    Lookup(t[NodeId(k, Base(n))], Offset(n))
  }

  ghost function PartPieces<V>(part: RangeKey, t: Table<V>): seq<Piece<V>>
    requires Full(t) && InOneNode(part)
  {
    var b := part.RoundedNth();
    ToBigAll(part.key, b, Pieces(t[NodeId(part.key, b)], part.nth - b, part.EndNth() - b))
  }

  predicate PieceCovers<V>(p: Piece<V>, n: nat) { p.range.nth <= n < p.range.nth + p.range.count }

  predicate PiecesOf<V>(r: seq<Piece<V>>, key: int) {
    forall i :: 0 <= i < |r| ==> r[i].range.key == key && 0 < r[i].range.count == |r[i].val|
  }

  predicate Rising<V>(r: seq<Piece<V>>) {
    forall i, j :: 0 <= i < j < |r| ==> r[i].range.nth + r[i].range.count <= r[j].range.nth
  }

  function PieceAt<V>(r: seq<Piece<V>>, n: nat): Option<V> {
    if r == [] then None
    else if PieceCovers(r[0], n) && n - r[0].range.nth < |r[0].val| then Some(r[0].val[n - r[0].range.nth])
    else PieceAt(r[1..], n)
  }

  /** r is what get has collected of the offsets nth..cur. */
  ghost predicate Got<V>(r: seq<Piece<V>>, t: Table<V>, key: int, nth: nat, cur: nat)
    requires Full(t)
  {
    && PiecesOf(r, key) && Rising(r)
    && (forall i :: 0 <= i < |r| ==> r[i].range.nth + r[i].range.count <= cur)
    && (forall n: nat :: PieceAt(r, n) == (if nth <= n < cur then ValueIn(t, key, n) else None))
  }

  lemma NothingGot<V>(t: Table<V>, key: int, nth: nat)
    requires Full(t)
    ensures Got([], t, key, nth, nth)
  {}

  lemma {:induction false} PieceAtJoin<V>(p: seq<Piece<V>>, q: seq<Piece<V>>, n: nat)
    ensures PieceAt(p + q, n) == if PieceAt(p, n).Some? then PieceAt(p, n) else PieceAt(q, n)
  {
    if p == [] {
      assert p + q == q;
    } else {
      assert (p + q)[1..] == p[1..] + q;
      PieceAtJoin(p[1..], q, n);
    }
  }

  lemma {:induction false} PieceAtBig<V>(key: int, base: nat, es: seq<Entry<V>>, n: nat)
    requires Sorted(es)
    ensures PieceAt(ToBigAll(key, base, es), n) == if base <= n then Lookup(es, n - base) else None
  {
    if es != [] {
      assert ToBigAll(key, base, es)[1..] == ToBigAll(key, base, es[1..]);
      PieceAtBig(key, base, es[1..], n);
    }
  }

  lemma BigInOrder<V>(key: int, base: nat, es: seq<Entry<V>>)
    requires Sorted(es)
    ensures PiecesOf(ToBigAll(key, base, es), key) && Rising(ToBigAll(key, base, es))
  {}

  lemma PartMeaning<V>(part: RangeKey, t: Table<V>, n: nat)
    requires Full(t) && InOneNode(part)
    ensures PieceAt(PartPieces(part, t), n) ==
      if part.nth <= n < part.nth + part.count then ValueIn(t, part.key, n) else None
  {
    hide Base, Offset, Sorted, Pieces, Lookup, PieceAt, ToBigAll, IsBase;
    var b := part.RoundedNth();
    var lo, hi := part.nth - b, part.EndNth() - b;
    var values := t[NodeId(part.key, b)];
    PiecesSorted(values, lo, hi);
    PieceAtBig(part.key, b, Pieces(values, lo, hi), n);
    if b <= n {
      PiecesMeaning(values, lo, hi, n - b);
      if part.nth <= n < part.nth + part.count { BaseIs(b, n); }
    }
  }

  lemma PartBounds<V>(part: RangeKey, t: Table<V>)
    requires Full(t) && InOneNode(part)
    ensures var r := PartPieces(part, t);
      && PiecesOf(r, part.key) && Rising(r)
      && forall i :: 0 <= i < |r| ==>
           part.nth <= r[i].range.nth && r[i].range.nth + r[i].range.count <= part.nth + part.count
  {
    var b := part.RoundedNth();
    var lo, hi := part.nth - b, part.EndNth() - b;
    var values := t[NodeId(part.key, b)];
    PiecesSorted(values, lo, hi);
    BigInOrder(part.key, b, Pieces(values, lo, hi));
  }

  lemma GotMore<V>(r: seq<Piece<V>>, t: Table<V>, key: int, nth: nat, cur: nat, count: nat)
    requires Full(t) && InOneNode(RangeKey(key, cur, count)) && nth <= cur && Got(r, t, key, nth, cur)
    ensures Got(r + PartPieces(RangeKey(key, cur, count), t), t, key, nth, cur + count)
  {
    var more := PartPieces(RangeKey(key, cur, count), t);
    PartBounds(RangeKey(key, cur, count), t);
    forall n: nat ensures PieceAt(r + more, n) == (if nth <= n < cur + count then ValueIn(t, key, n) else None) {
      PieceAtJoin(r, more, n);
      PartMeaning(RangeKey(key, cur, count), t, n);
    }
  }

  ghost function PartInserted<V>(part: RangeKey, value: seq<V>, t: Table<V>): (r: Table<V>)
    requires Full(t) && InOneNode(part) && |value| == part.count
    ensures Full(r)
  {
    var b := part.RoundedNth();
    InsertMeaning(t[NodeId(part.key, b)], part.nth - b, part.EndNth() - b, value, 0);
    t[NodeId(part.key, b) := Inserted(t[NodeId(part.key, b)], part.nth - b, part.EndNth() - b, value)]
  }

  ghost function PartErased<V>(part: RangeKey, t: Table<V>): (r: Table<V>)
    requires Full(t) && InOneNode(part)
    ensures Full(r)
  {
    var b := part.RoundedNth();
    EraseMeaning(t[NodeId(part.key, b)], part.nth - b, part.EndNth() - b, 0);
    t[NodeId(part.key, b) := Erased(t[NodeId(part.key, b)], part.nth - b, part.EndNth() - b)]
  }

  /** The table when the parts before cur have been written. */
  ghost function WroteUpto<V>(op: Op<V>, cur: nat, t: Table<V>): (r: Table<V>)
    requires Full(t)
    ensures Full(r)
  {
    imap id: NodeId | true ::
      if op.At(id.key, id.base) && id.base < cur && op.nth < cur then NodeStep(op, id.base, t[id]) else t[id]
  }

  /** The loop stands at the start of the range, at the start of a node, or at the end; room is what the node takes. */
  predicate AtNode(cur: nat, room: nat, nth: nat, count: nat) {
    && nth <= cur <= nth + count
    && (cur < nth + count ==> (cur == nth || cur == Base(cur)) && room == Base(cur) + NODE_SIZE - cur)
  }

  /** The next part lies in one node and is all the range has there. */
  lemma NextPart(cur: nat, room: nat, nth: nat, count: nat)
    requires AtNode(cur, room, nth, count) && cur < nth + count
    ensures var part := if room <= nth + count - cur then room else nth + count - cur; var base := Base(cur);
      && 0 < part && cur + part <= base + NODE_SIZE
      && Touches(base, nth, count) && cur - base == Low(base, nth) && cur + part - 1 - base == High(base, nth, count)
      && AtNode(cur + part, NODE_SIZE, nth, count)
      && (forall b: nat :: Touches(b, nth, count) ==> (b < cur + part <==> (b < cur && nth < cur) || b == base))
  {
  }

  lemma NothingWritten<V>(op: Op<V>, t: Table<V>)
    requires Full(t)
    ensures WroteUpto(op, op.nth, t) == t
    ensures AtNode(op.nth, NODE_SIZE - (op.nth - Base(op.nth)), op.nth, op.Count())
  {}

  lemma AllWritten<V>(op: Op<V>, t: Table<V>)
    requires Full(t)
    ensures WroteUpto(op, op.nth + op.Count(), t) == Wrote(op, t)
  {}

  /** One part brings its node to where the whole insert takes it, and no other node. */
  lemma InsertedUpto<V>(op: Op<V>, cur: nat, room: nat, part: nat, t: Table<V>)
    requires op.Insert? && AtNode(cur, room, op.nth, op.Count()) && cur < op.nth + op.Count() && Full(t)
    requires part == if room <= op.nth + op.Count() - cur then room else op.nth + op.Count() - cur
    ensures var range := RangeKey(op.key, cur, part);
      && InOneNode(range)
      && WroteUpto(op, cur + part, t) ==
         PartInserted(range, op.val[cur - op.nth..cur - op.nth + part], WroteUpto(op, cur, t))
  {
    hide Base, Sorted, Inserted, AtNode;
    NextPart(cur, room, op.nth, op.Count());
    var range, b, val := RangeKey(op.key, cur, part), Base(cur), op.val[cur - op.nth..cur - op.nth + part];
    assert NodeId(op.key, b) in t && Sorted(t[NodeId(op.key, b)]);
    StepIsInsert(op, cur, part, t[NodeId(op.key, b)]);
    hide NodeStep;
    var was, now := WroteUpto(op, cur, t), WroteUpto(op, cur + part, t);
    assert was[NodeId(op.key, b)] == t[NodeId(op.key, b)];
    assert now[NodeId(op.key, b)] == NodeStep(op, b, t[NodeId(op.key, b)]);
    forall id: NodeId | id != NodeId(op.key, b) ensures now[id] == was[id] {
      assert op.At(id.key, id.base) ==> (id.base < cur + part <==> id.base < cur && op.nth < cur);
    }
    OneChanged(was, now, op.key, b);
    hide WroteUpto;
    assert now == PartInserted(range, val, was);
  }

  lemma OneChanged<V>(was: Table<V>, now: Table<V>, k: int, b: nat)
    requires Full(was) && Full(now) && forall id: NodeId :: id != NodeId(k, b) ==> now[id] == was[id]
    ensures now == was[NodeId(k, b) := now[NodeId(k, b)]]
  {}

  lemma StepIsInsert<V>(op: Op<V>, cur: nat, part: nat, values: seq<Entry<V>>)
    requires op.Insert? && op.nth <= cur && 0 < part && cur + part <= op.nth + op.Count() && Sorted(values)
    requires Touches(Base(cur), op.nth, op.Count()) && cur - Base(cur) == Low(Base(cur), op.nth)
    requires cur + part - 1 - Base(cur) == High(Base(cur), op.nth, op.Count())
    ensures NodeStep(op, Base(cur), values) ==
      Inserted(values, cur - Base(cur), cur + part - 1 - Base(cur), op.val[cur - op.nth..cur - op.nth + part])
  {
    hide Base, Inserted, Touches, Low, High, Sorted;
  }

  lemma ErasedUpto<V>(op: Op<V>, cur: nat, room: nat, part: nat, t: Table<V>)
    requires op.Erase? && AtNode(cur, room, op.nth, op.Count()) && cur < op.nth + op.Count() && Full(t)
    requires part == if room <= op.nth + op.Count() - cur then room else op.nth + op.Count() - cur
    ensures var range := RangeKey(op.key, cur, part);
      && InOneNode(range)
      && WroteUpto(op, cur + part, t) == PartErased(range, WroteUpto(op, cur, t))
  {
    hide Base, Sorted, Erased, AtNode;
    NextPart(cur, room, op.nth, op.Count());
    var range, b := RangeKey(op.key, cur, part), Base(cur);
    assert NodeId(op.key, b) in t && Sorted(t[NodeId(op.key, b)]);
    var was, now := WroteUpto(op, cur, t), WroteUpto(op, cur + part, t);
    assert was[NodeId(op.key, b)] == t[NodeId(op.key, b)];
    assert now[NodeId(op.key, b)] == NodeStep(op, b, t[NodeId(op.key, b)]);
    forall id: NodeId | id != NodeId(op.key, b) ensures now[id] == was[id] {
      assert op.At(id.key, id.base) ==> (id.base < cur + part <==> id.base < cur && op.nth < cur);
    }
    OneChanged(was, now, op.key, b);
    hide WroteUpto;
    assert now == PartErased(range, was);
  }

  /** After any run from the empty map: what is stored is the latest value, missing exactly where it was lost. */
  lemma StoredIsLatest<V>(ops: seq<Op<V>>, k: int, n: nat)
    ensures ValueIn(TableAfter(ops), k, n) == if Lost(ops, k, n) then None else Latest(ops, k, n)
  {
    TableNodes(ops, k, Base(n));
    RunMeaning(ops, k, n);
  }
}
