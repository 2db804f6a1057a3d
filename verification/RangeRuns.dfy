/**
  Runs of RangeHashMap inserts and erases, node by node (include/sisl/cache/range_hashmap.hpp:595-668).

  The node of (key, base) holds the offsets base..base+255 of a key. What a run leaves in it is compared
  with the value most recently inserted at an offset and not erased since.
 */
module RangeRuns {

  import opened Wrappers
  import opened RangeEntries

  predicate IsBase(b: nat) { b % 256 == 0 }

  /** The base of the node that holds offset n (round_down). */
  function Base(n: nat): (b: nat)
    ensures b <= n < b + NODE_SIZE && IsBase(b)
  {
    n - n % 256
  }

  function Offset(n: nat): (off: nat)
    ensures off < NODE_SIZE && n == Base(n) + off
  {
    n % 256
  }

  lemma BaseIs(base: nat, n: nat)
    requires IsBase(base) && base <= n < base + NODE_SIZE
    ensures Base(n) == base
  {}

  /** The node at base holds some of count offsets from nth on. */
  predicate Touches(base: nat, nth: nat, count: nat) {
    IsBase(base) && base < nth + count && nth < base + NODE_SIZE && 0 < count
  }

  /** The first and the last offset within the node. */
  function Low(base: nat, nth: nat): nat { if nth <= base then 0 else nth - base }

  function High(base: nat, nth: nat, count: nat): nat
    requires Touches(base, nth, count)
  {
    if nth + count - 1 - base < NODE_SIZE then nth + count - 1 - base else NODE_SIZE - 1
  }

  datatype Op<V> =
    | Insert(key: int, nth: nat, val: seq<V>)
    | Erase(key: int, nth: nat, n: nat)
  {
    function Count(): nat { if Insert? then |val| else n }

    predicate At(k: int, base: nat) { k == key && Touches(base, nth, Count()) }

    predicate Has(k: int, m: nat) { k == key && nth <= m < nth + Count() }
  }

  /** What is left in the node at base of the operation's key. */
  function NodeStep<V>(op: Op<V>, base: nat, values: seq<Entry<V>>): (r: seq<Entry<V>>)
    requires Sorted(values) && Touches(base, op.nth, op.Count())
    ensures Sorted(r)
  {
    var lo, hi := Low(base, op.nth), High(base, op.nth, op.Count());
    match op
    case Insert(_, nth, val) =>
      var part := val[base + lo - nth..base + hi - nth + 1];
      InsertMeaning(values, lo, hi, part, 0);
      Inserted(values, lo, hi, part)
    case Erase(_, _, _) =>
      EraseMeaning(values, lo, hi, 0);
      Erased(values, lo, hi)
  }

  datatype NodeId = NodeId(key: int, base: nat)

  /** All nodes of a map; a node that does not exist has no entries. */
  type Table<!V> = imap<NodeId, seq<Entry<V>>>

  ghost predicate Full<V>(t: Table<V>) {
    forall id: NodeId :: id in t && Sorted(t[id])
  }

  /** The table after an operation: every node it touches takes its step. */
  ghost function Wrote<V>(op: Op<V>, t: Table<V>): (r: Table<V>)
    requires Full(t)
    ensures Full(r)
  {
    imap id: NodeId | true :: if op.At(id.key, id.base) then NodeStep(op, id.base, t[id]) else t[id]
  }

  function NoEntries<V>(id: NodeId): seq<Entry<V>> { [] }

  ghost function EmptyTable<V>(): (r: Table<V>)
    ensures Full(r)
  {
    imap id: NodeId | true :: NoEntries(id)
  }

  ghost function TableAfter<V>(ops: seq<Op<V>>): (r: Table<V>)
    ensures Full(r)
  {
    if ops == [] then EmptyTable() else Wrote(ops[|ops| - 1], TableAfter(ops[..|ops| - 1]))
  }

  lemma {:induction false} TableNodes<V>(ops: seq<Op<V>>, k: int, base: nat)
    ensures TableAfter(ops)[NodeId(k, base)] == NodeAfter(ops, k, base)
  {
    if ops != [] { TableNodes(ops[..|ops| - 1], k, base); }
  }

  /** The entries of the node of (k, base) after a run. */
  function NodeAfter<V>(ops: seq<Op<V>>, k: int, base: nat): (r: seq<Entry<V>>)
    ensures Sorted(r)
  {
    if ops == [] then []
    else
      var op, before := ops[|ops| - 1], NodeAfter(ops[..|ops| - 1], k, base);
      if op.At(k, base) then NodeStep(op, base, before) else before
  }

  function ValueAfter<V>(ops: seq<Op<V>>, k: int, n: nat): Option<V> {
    Lookup(NodeAfter(ops, k, Base(n)), Offset(n))
  }

  /** The value most recently inserted at offset n of k and not erased since. */
  function Latest<V>(ops: seq<Op<V>>, k: int, n: nat): Option<V> {
    if ops == [] then None
    else
      var op := ops[|ops| - 1];
      if op.Has(k, n) then (if op.Insert? then Some(op.val[n - op.nth]) else None)
      else Latest(ops[..|ops| - 1], k, n)
  }

  /** Since n was last written, some operation ended in the gap before the entry that holds n. */
  predicate Lost<V>(ops: seq<Op<V>>, k: int, n: nat) {
    ops != [] &&
    var op, before := ops[|ops| - 1], ops[..|ops| - 1];
    !op.Has(k, n) && (Lost(before, k, n) || (op.At(k, Base(n)) && DropsAt(op, n, NodeAfter(before, k, Base(n)))))
  }

  predicate DropsAt<V>(op: Op<V>, n: nat, values: seq<Entry<V>>)
    requires Sorted(values) && Touches(Base(n), op.nth, op.Count())
  {
    Dropped(values, High(Base(n), op.nth, op.Count()), Offset(n))
  }

  /** The operation covers n exactly when n is within its range in n's node. */
  lemma Within(n: nat, nth: nat, count: nat)
    ensures nth <= n < nth + count ==> Touches(Base(n), nth, count)
    ensures Touches(Base(n), nth, count) ==>
      (nth <= n < nth + count <==> Low(Base(n), nth) <= Offset(n) <= High(Base(n), nth, count))
  {
  }

  lemma StepAt<V>(op: Op<V>, base: nat, off: nat, values: seq<Entry<V>>)
    requires Sorted(values) && Touches(base, op.nth, op.Count()) && off < NODE_SIZE
    ensures Lookup(NodeStep(op, base, values), off) ==
      if op.Has(op.key, base + off) then (if op.Insert? then Some(op.val[base + off - op.nth]) else None)
      else if Dropped(values, High(base, op.nth, op.Count()), off) then None
      else Lookup(values, off)
  {
    hide Lookup, Inserted, Erased, Dropped, Sorted;
    var lo, hi := Low(base, op.nth), High(base, op.nth, op.Count());
    assert lo <= off <= hi <==> op.nth <= base + off < op.nth + op.Count();
    DroppedIsRight(values, hi, off);
    match op {
      case Insert(_, nth, val) =>
        var part := val[base + lo - nth..base + hi - nth + 1];
        InsertMeaning(values, lo, hi, part, off);
        assert lo <= off <= hi ==> part[off - lo] == val[base + off - nth];
      case Erase(_, _, _) =>
        EraseMeaning(values, lo, hi, off);
    }
  }

  lemma StepMeaning<V>(op: Op<V>, n: nat, values: seq<Entry<V>>)
    requires Sorted(values) && Touches(Base(n), op.nth, op.Count())
    ensures Lookup(NodeStep(op, Base(n), values), Offset(n)) ==
      if op.Has(op.key, n) then (if op.Insert? then Some(op.val[n - op.nth]) else None)
      else if DropsAt(op, n, values) then None
      else Lookup(values, Offset(n))
  {
    hide Lookup, NodeStep, Dropped, Sorted, Touches, High;
    StepAt(op, Base(n), Offset(n), values);
  }

  /** After any run, an offset holds its latest value unless it was lost to a neighbouring operation. */
  lemma {:induction false} RunMeaning<V>(ops: seq<Op<V>>, k: int, n: nat)
    ensures ValueAfter(ops, k, n) == if Lost(ops, k, n) then None else Latest(ops, k, n)
  {
    if ops != [] {
      var op, before := ops[|ops| - 1], ops[..|ops| - 1];
      RunMeaning(before, k, n);
      Within(n, op.nth, op.Count());
      if op.At(k, Base(n)) {
        StepMeaning(op, n, NodeAfter(before, k, Base(n)));
      }
    }
  }

  /** What the map stores is never stale. */
  lemma NeverStale<V>(ops: seq<Op<V>>, k: int, n: nat)
    requires ValueAfter(ops, k, n).Some?
    ensures Latest(ops, k, n) == ValueAfter(ops, k, n)
  {
    RunMeaning(ops, k, n);
  }

  /** Every operation of the run ends, in each node, at a stored offset or with nothing to its right. */
  ghost predicate Careful<V>(ops: seq<Op<V>>, k: int) {
    forall i, base: nat :: 0 <= i < |ops| && ops[i].At(k, base) ==>
      Safe(NodeAfter(ops[..i], k, base), High(base, ops[i].nth, ops[i].Count()))
  }

  lemma {:induction false} CarefulLosesNothing<V>(ops: seq<Op<V>>, k: int, n: nat)
    requires Careful(ops, k)
    ensures !Lost(ops, k, n)
  {
    if ops != [] {
      var last := |ops| - 1;
      var before := ops[..last];
      forall i, base: nat | 0 <= i < |before| && before[i].At(k, base)
        ensures Safe(NodeAfter(before[..i], k, base), High(base, before[i].nth, before[i].Count()))
      {
        assert before[..i] == ops[..i] && before[i] == ops[i];
      }
      CarefulLosesNothing(before, k, n);
      if ops[last].At(k, Base(n)) {
        assert Safe(NodeAfter(ops[..last], k, Base(n)), High(Base(n), ops[last].nth, ops[last].Count()));
      }
    }
  }

  /** A careful run stores exactly the latest values. */
  lemma CarefulIsExact<V>(ops: seq<Op<V>>, k: int, n: nat)
    requires Careful(ops, k)
    ensures ValueAfter(ops, k, n) == Latest(ops, k, n)
  {
    CarefulLosesNothing(ops, k, n);
    RunMeaning(ops, k, n);
  }

  /** The map is exact throughout a run, at every offset of k, if and only if the run is careful. */
  lemma CarefulIff<V>(ops: seq<Op<V>>, k: int)
    ensures Careful(ops, k) <==> forall i, n: nat :: 0 <= i <= |ops| ==> Exact(ops[..i], k, n)
  {
    if Careful(ops, k) {
      forall i, n: nat | 0 <= i <= |ops| ensures Exact(ops[..i], k, n) {
        CarefulPrefix(ops, k, i);
        CarefulIsExact(ops[..i], k, n);
      }
    }
    if forall i, n: nat :: 0 <= i <= |ops| ==> Exact(ops[..i], k, n) {
      forall i, base: nat | 0 <= i < |ops| && ops[i].At(k, base)
        ensures Safe(NodeAfter(ops[..i], k, base), High(base, ops[i].nth, ops[i].Count()))
      {
        assert ops[..i + 1][..i] == ops[..i];
        ExactIsSafe(ops[..i + 1], k, base);
      }
    }
  }

  ghost predicate Exact<V>(ops: seq<Op<V>>, k: int, n: nat) { ValueAfter(ops, k, n) == Latest(ops, k, n) }

  lemma CarefulPrefix<V>(ops: seq<Op<V>>, k: int, i: nat)
    requires Careful(ops, k) && i <= |ops|
    ensures Careful(ops[..i], k)
  {
    forall j, base: nat | 0 <= j < i && ops[..i][j].At(k, base)
      ensures Safe(NodeAfter(ops[..i][..j], k, base), High(base, ops[..i][j].nth, ops[..i][j].Count()))
    {
      assert ops[..i][..j] == ops[..j] && ops[..i][j] == ops[j];
    }
  }

  /** An operation that is not safe loses an offset that was exact before. */
  lemma ExactIsSafe<V>(ops: seq<Op<V>>, k: int, base: nat)
    requires ops != [] && ops[|ops| - 1].At(k, base)
    requires forall n: nat :: Exact(ops, k, n) && Exact(ops[..|ops| - 1], k, n)
    ensures var op := ops[|ops| - 1]; Safe(NodeAfter(ops[..|ops| - 1], k, base), High(base, op.nth, op.Count()))
  {
    var op, before := ops[|ops| - 1], ops[..|ops| - 1];
    var values, hi := NodeAfter(before, k, base), High(base, op.nth, op.Count());
    DroppedIff(values, hi);
    forall off: nat ensures !Dropped(values, hi, off) {
      if Dropped(values, hi, off) {
        DroppedIsRight(values, hi, off);
        var j := LookupFinds(values, off);
        var n := base + off;
        BaseIs(base, n);
        assert Exact(ops, k, n) && Exact(before, k, n);
        Within(n, op.nth, op.Count());
        StepMeaning(op, n, values);
        assert false;
      }
    }
  }
}
