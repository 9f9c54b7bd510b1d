/**
 The router's index: a chained hash table from space keys to slot numbers. A
 removed key keeps its cell with a negative number, and `Put` refuses as soon as
 any key of the bucket is in use.
 */
module SlotMap {
  import opened Wrappers

  datatype Cell = Cell(idx: int, key: string)

  type Table = t: seq<seq<Cell>> | |t| > 0 witness [[]]

  function Slot(hash: string -> nat, size: nat, key: string): nat
    requires size > 0
  {
    hash(key) % size
  }

  /** The first cell with the key, or the length of the bucket. */
  function Find(bucket: seq<Cell>, key: string): (i: nat)
    ensures i <= |bucket| && (i < |bucket| ==> bucket[i].key == key)
    ensures forall j | 0 <= j < i :: bucket[j].key != key
  {
    if bucket == [] || bucket[0].key == key then 0 else 1 + Find(bucket[1..], key)
  }

  function Lookup(bucket: seq<Cell>, key: string): int {
    var i := Find(bucket, key);
    if i < |bucket| then bucket[i].idx else -1
  }

  predicate InUse(bucket: seq<Cell>) {
    exists i :: 0 <= i < |bucket| && bucket[i].idx >= 0
  }

  function PutCell(bucket: seq<Cell>, key: string, idx: int): seq<Cell> {
    var i := Find(bucket, key);
    if i < |bucket| then bucket[i := Cell(idx, key)] else bucket + [Cell(idx, key)]
  }

  function WriteTo(hash: string -> nat, t: Table, key: string, idx: int): Table {
    var b := Slot(hash, |t|, key);
    t[b := PutCell(t[b], key, idx)]
  }

  // ---- the table and the map it stands for ----

  datatype Op = Put(key: string, idx: int) | Get(key: string) | Delete(key: string)

  datatype Reply = Done(ok: bool) | Found(slot: Option<nat>)

  /** A negative number means that the key is not in use. */
  function InUseAt(idx: int): Option<nat> {
    if idx >= 0 then Some(idx) else None
  }

  function Do(hash: string -> nat, t: Table, op: Op): (Table, Reply) {
    var b := Slot(hash, |t|, op.key);
    match op
    case Put(key, idx) => if InUse(t[b]) then (t, Done(false)) else (WriteTo(hash, t, key, idx), Done(true))
    case Get(key) => (t, Found(InUseAt(Lookup(t[b], key))))
    case Delete(key) =>
      if Lookup(t[b], key) >= 0 then (WriteTo(hash, t, key, -1), Done(true)) else (t, Done(false))
  }

  /** Some key in use shares the bucket. */
  ghost predicate Occupied(hash: string -> nat, size: nat, live: map<string, nat>, key: string)
    requires size > 0
  {
    exists other :: other in live && Slot(hash, size, other) == Slot(hash, size, key)
  }

  /** The same operations on a map from the keys in use to their numbers. */
  ghost function DoMap(hash: string -> nat, size: nat, live: map<string, nat>, op: Op): (map<string, nat>, Reply)
    requires size > 0
  {
    match op
    case Put(key, idx) =>
      if Occupied(hash, size, live, key) then (live, Done(false))
      else (if idx >= 0 then live[key := idx] else live, Done(true))
    case Get(key) => (live, Found(if key in live then Some(live[key]) else None))
    case Delete(key) => (live - {key}, Done(key in live))
  }

  // ---- what holds of every bucket ----

  ghost predicate BucketOk(hash: string -> nat, size: nat, b: nat, bucket: seq<Cell>)
    requires size > 0
  {
    && (forall i | 0 <= i < |bucket| :: Slot(hash, size, bucket[i].key) == b)
    && (forall i, j | 0 <= i < j < |bucket| :: bucket[i].key != bucket[j].key)
    && (forall i, j | 0 <= i < j < |bucket| :: bucket[i].idx < 0 || bucket[j].idx < 0)
  }

  ghost predicate AllOk(hash: string -> nat, t: Table) {
    forall b | 0 <= b < |t| :: BucketOk(hash, |t|, b, t[b])
  }

  /** The bucket says of the key what the map says. */
  ghost predicate Reads(bucket: seq<Cell>, live: map<string, nat>, key: string) {
    InUseAt(Lookup(bucket, key)) == if key in live then Some(live[key]) else None
  }

  ghost predicate Represents(hash: string -> nat, t: Table, live: map<string, nat>) {
    && AllOk(hash, t)
    && (forall key :: Reads(t[Slot(hash, |t|, key)], live, key))
  }

  /** Every cell stays, with its key, in its place. */
  ghost predicate Keeps(t: Table, t': Table) {
    && |t'| == |t|
    && (forall b, i | 0 <= b < |t| && 0 <= i < |t[b]| :: i < |t'[b]| && t'[b][i].key == t[b][i].key)
  }

  lemma FindUnique(bucket: seq<Cell>, key: string, i: nat)
    requires i < |bucket| && bucket[i].key == key
    requires forall j, k | 0 <= j < k < |bucket| :: bucket[j].key != bucket[k].key
    ensures Find(bucket, key) == i
  {
  }

  /** After a cell is written, its key has the number given and every other key is as before. */
  lemma PutCellLookup(bucket: seq<Cell>, key: string, idx: int, other: string)
    requires forall j, k | 0 <= j < k < |bucket| :: bucket[j].key != bucket[k].key
    ensures Lookup(PutCell(bucket, key, idx), other) == if other == key then idx else Lookup(bucket, other)
  {
    var i, after := Find(bucket, other), PutCell(bucket, key, idx);
    if other == key {
      FindUnique(after, key, i);
    } else if i < |bucket| {
      FindUnique(after, other, i);
    }
  }

  lemma PutCellOk(hash: string -> nat, size: nat, b: nat, bucket: seq<Cell>, key: string, idx: int)
    requires size > 0 && BucketOk(hash, size, b, bucket) && Slot(hash, size, key) == b
    requires idx < 0 || !InUse(bucket)
    ensures BucketOk(hash, size, b, PutCell(bucket, key, idx))
  {
    var i := Find(bucket, key);
    if i < |bucket| {
      UpdateOk(hash, size, b, bucket, i, idx);
    } else {
      AppendOk(hash, size, b, bucket, key, idx);
    }
  }

  lemma UpdateOk(hash: string -> nat, size: nat, b: nat, bucket: seq<Cell>, i: nat, idx: int)
    requires size > 0 && BucketOk(hash, size, b, bucket) && i < |bucket|
    requires idx < 0 || !InUse(bucket)
    ensures BucketOk(hash, size, b, bucket[i := Cell(idx, bucket[i].key)])
  {
  }

  lemma AppendOk(hash: string -> nat, size: nat, b: nat, bucket: seq<Cell>, key: string, idx: int)
    requires size > 0 && BucketOk(hash, size, b, bucket) && Slot(hash, size, key) == b
    requires (idx < 0 || !InUse(bucket)) && forall j | 0 <= j < |bucket| :: bucket[j].key != key
    ensures BucketOk(hash, size, b, bucket + [Cell(idx, key)])
  {
  }

  /** A bucket is in use exactly when one of its keys is. */
  lemma InUseIff(hash: string -> nat, t: Table, live: map<string, nat>, key: string)
    requires Represents(hash, t, live)
    ensures InUse(t[Slot(hash, |t|, key)]) <==> Occupied(hash, |t|, live, key)
  {
    var b := Slot(hash, |t|, key);
    var bucket := t[b];
    assert BucketOk(hash, |t|, b, bucket);
    if InUse(bucket) {
      var i :| 0 <= i < |bucket| && bucket[i].idx >= 0;
      FindUnique(bucket, bucket[i].key, i);
      assert Slot(hash, |t|, bucket[i].key) == b;
      assert Reads(bucket, live, bucket[i].key);
    }
    if Occupied(hash, |t|, live, key) {
      var other :| other in live && Slot(hash, |t|, other) == b;
      assert Reads(bucket, live, other);
      assert bucket[Find(bucket, other)].idx >= 0;
    }
  }

  function LiveAfter(live: map<string, nat>, key: string, idx: int): map<string, nat> {
    if idx >= 0 then live[key := idx] else live - {key}
  }

  lemma WriteReads(hash: string -> nat, t: Table, live: map<string, nat>, key: string, idx: int, other: string)
    requires Represents(hash, t, live)
    ensures Reads(WriteTo(hash, t, key, idx)[Slot(hash, |t|, other)], LiveAfter(live, key, idx), other)
  {
    var b := Slot(hash, |t|, key);
    assert BucketOk(hash, |t|, b, t[b]);
    PutCellLookup(t[b], key, idx, other);
    assert Reads(t[Slot(hash, |t|, other)], live, other);
  }

  lemma WriteRefines(hash: string -> nat, t: Table, live: map<string, nat>, key: string, idx: int)
    requires Represents(hash, t, live) && (idx < 0 || !InUse(t[Slot(hash, |t|, key)]))
    ensures Represents(hash, WriteTo(hash, t, key, idx), LiveAfter(live, key, idx))
  {
    var b, t', live' := Slot(hash, |t|, key), WriteTo(hash, t, key, idx), LiveAfter(live, key, idx);
    assert AllOk(hash, t') by {
      assert BucketOk(hash, |t|, b, t[b]);
      PutCellOk(hash, |t|, b, t[b], key, idx);
    }
    forall other
      ensures Reads(t'[Slot(hash, |t'|, other)], live', other)
    {
      WriteReads(hash, t, live, key, idx, other);
    }
  }

  lemma PutRefines(hash: string -> nat, t: Table, live: map<string, nat>, op: Op)
    requires Represents(hash, t, live) && op.Put?
    ensures Do(hash, t, op).1 == DoMap(hash, |t|, live, op).1
    ensures Represents(hash, Do(hash, t, op).0, DoMap(hash, |t|, live, op).0)
  {
    InUseIff(hash, t, live, op.key);
    if !Occupied(hash, |t|, live, op.key) {
      WriteRefines(hash, t, live, op.key, op.idx);
      assert op.key !in live;
      assert live - {op.key} == live;
    }
  }

  lemma DeleteRefines(hash: string -> nat, t: Table, live: map<string, nat>, op: Op)
    requires Represents(hash, t, live) && op.Delete?
    ensures Do(hash, t, op).1 == DoMap(hash, |t|, live, op).1
    ensures Represents(hash, Do(hash, t, op).0, DoMap(hash, |t|, live, op).0)
  {
    assert Reads(t[Slot(hash, |t|, op.key)], live, op.key);
    if op.key in live {
      WriteRefines(hash, t, live, op.key, -1);
    } else {
      assert live - {op.key} == live;
    }
  }

  /** Each operation does to the table what it does to the map. */
  lemma StepRefines(hash: string -> nat, t: Table, live: map<string, nat>, op: Op)
    requires Represents(hash, t, live)
    ensures Do(hash, t, op).1 == DoMap(hash, |t|, live, op).1
    ensures Represents(hash, Do(hash, t, op).0, DoMap(hash, |t|, live, op).0)
  {
    match op {
      case Put(_, _) => PutRefines(hash, t, live, op);
      case Get(key) => assert Reads(t[Slot(hash, |t|, key)], live, key);
      case Delete(_) => DeleteRefines(hash, t, live, op);
    }
  }

  lemma StepKeeps(hash: string -> nat, t: Table, op: Op)
    ensures Keeps(t, Do(hash, t, op).0)
  {
    assert forall idx :: Keeps(t, WriteTo(hash, t, op.key, idx));
  }

  function DoAll(hash: string -> nat, t: Table, ops: seq<Op>): (Table, seq<Reply>)
    decreases |ops|
  {
    if ops == [] then (t, [])
    else
      var (t', reply) := Do(hash, t, ops[0]);
      var (end, replies) := DoAll(hash, t', ops[1..]);
      (end, [reply] + replies)
  }

  ghost function DoAllMap(hash: string -> nat, size: nat, live: map<string, nat>, ops: seq<Op>)
    : (map<string, nat>, seq<Reply>)
    requires size > 0
    decreases |ops|
  {
    if ops == [] then (live, [])
    else
      var (live', reply) := DoMap(hash, size, live, ops[0]);
      var (end, replies) := DoAllMap(hash, size, live', ops[1..]);
      (end, [reply] + replies)
  }

  /**
   Over any run of operations on a table, every reply is the map's; in the end each bucket holds
   no repeated key and at most one key in use, and every cell there ever was is still there.
   */
  lemma {:induction false} RunRefines(hash: string -> nat, t: Table, live: map<string, nat>, ops: seq<Op>)
    requires Represents(hash, t, live)
    ensures DoAll(hash, t, ops).1 == DoAllMap(hash, |t|, live, ops).1
    ensures Represents(hash, DoAll(hash, t, ops).0, DoAllMap(hash, |t|, live, ops).0)
    ensures Keeps(t, DoAll(hash, t, ops).0)
    decreases |ops|
  {
    if ops != [] {
      StepRefines(hash, t, live, ops[0]);
      StepKeeps(hash, t, ops[0]);
      RunRefines(hash, Do(hash, t, ops[0]).0, DoMap(hash, |t|, live, ops[0]).0, ops[1..]);
    }
  }

  // ---- the table as an object ----

  class OneWriterMultiReaderMap {
    const hash: string -> nat
    var buckets: Table
    ghost var live: map<string, nat>

    ghost predicate Valid()
      reads this
    {
      Represents(hash, buckets, live)
    }

    constructor (hash: string -> nat, bucketCount: nat)
      requires bucketCount > 0
      ensures Valid() && live == map[] && |buckets| == bucketCount && this.hash == hash
    {
      this.hash := hash;
      buckets := seq(bucketCount, _ => []);
      live := map[];
    }

    method Put(key: string, idx: int) returns (ok: bool)
      requires Valid()
      modifies this
      ensures Valid() && (buckets, Done(ok)) == Do(hash, old(buckets), Op.Put(key, idx))
      ensures (live, Done(ok)) == DoMap(hash, |buckets|, old(live), Op.Put(key, idx))
    {
      StepRefines(hash, buckets, live, Op.Put(key, idx));
      live := DoMap(hash, |buckets|, live, Op.Put(key, idx)).0;
      var b := Slot(hash, |buckets|, key);
      var used := AnyInUse(buckets[b]);
      if used {
        return false;
      }
      var bucket := SetCell(buckets[b], key, idx);
      buckets := buckets[b := bucket];
      return true;
    }

    /** The second loop of `Put`: the cell of the key if it has one, or a new one at the end. */
    static method SetCell(bucket: seq<Cell>, key: string, idx: int) returns (after: seq<Cell>)
      ensures after == PutCell(bucket, key, idx)
    {
      for i := 0 to |bucket|
        invariant i <= Find(bucket, key)
      {
        if bucket[i].key == key {
          return bucket[i := bucket[i].(idx := idx)];
        }
      }
      return bucket + [Cell(idx, key)];
    }

    /** The first loop of `Put`. */
    static method AnyInUse(bucket: seq<Cell>) returns (used: bool)
      ensures used <==> InUse(bucket)
    {
      for i := 0 to |bucket|
        invariant forall j | 0 <= j < i :: bucket[j].idx < 0
      {
        if bucket[i].idx >= 0 {
          return true;
        }
      }
      return false;
    }

    method Get(key: string) returns (idx: int)
      requires Valid()
      ensures InUseAt(idx) == if key in live then Some(live[key]) else None
    {
      assert Reads(buckets[Slot(hash, |buckets|, key)], live, key);
      var bucket := buckets[Slot(hash, |buckets|, key)];
      for i := 0 to |bucket|
        invariant i <= Find(bucket, key)
      {
        if bucket[i].key == key {
          return bucket[i].idx;
        }
      }
      return -1;
    }

    method Delete(key: string) returns (ok: bool)
      requires Valid()
      modifies this
      ensures Valid() && (buckets, Done(ok)) == Do(hash, old(buckets), Op.Delete(key))
      ensures (live, Done(ok)) == DoMap(hash, |buckets|, old(live), Op.Delete(key))
    {
      StepRefines(hash, buckets, live, Op.Delete(key));
      var b := Slot(hash, |buckets|, key);
      var bucket := buckets[b];
      live := live - {key};
      for i := 0 to |bucket|
        invariant buckets == old(buckets) && live == old(live) - {key}
        invariant i > Find(bucket, key) ==> Lookup(bucket, key) < 0
      {
        if bucket[i].key == key && bucket[i].idx >= 0 {
          FindUnique(bucket, key, i);
          buckets := buckets[b := bucket[i := bucket[i].(idx := -1)]];
          return true;
        }
      }
      return false;
    }
  }
}
