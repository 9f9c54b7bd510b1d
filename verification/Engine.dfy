/**
 The log-structured engine: an append-only data file, a file of 14-byte index
 records, and an index in memory that is rebuilt by replaying the records. A
 write may be cut short at any byte, by an error or by a crash.
 */
module Engine {
  import opened Bytes

  const RECORD_SIZE := 14

  datatype Extent = Extent(off: int, len: int)

  /** One index record: a 32-bit key, a 64-bit offset and a 16-bit length. */
  datatype Record = Record(key: int, off: int, len: int)

  predicate Fits(rec: Record) {
    InInt32(rec.key) && InInt64(rec.off) && InInt16(rec.len)
  }

  function EncodeRecord(rec: Record): (s: seq<Byte>)
    requires Fits(rec)
    ensures |s| == RECORD_SIZE
  {
    Widths();
    EncodeInt(rec.key, 4) + EncodeInt(rec.off, 8) + EncodeInt(rec.len, 2)
  }

  function DecodeRecord(s: seq<Byte>): Record
    requires |s| == RECORD_SIZE
  {
    Record(DecodeInt(s[0..4]), DecodeInt(s[4..12]), DecodeInt(s[12..14]))
  }

  lemma RecordRoundTrip(rec: Record)
    requires Fits(rec)
    ensures DecodeRecord(EncodeRecord(rec)) == rec
  {
    var s := EncodeRecord(rec);
    Widths();
    assert s[0..4] == EncodeInt(rec.key, 4);
    assert s[4..12] == EncodeInt(rec.off, 8);
    assert s[12..14] == EncodeInt(rec.len, 2);
    IntRoundTrip(rec.key, 4);
    IntRoundTrip(rec.off, 8);
    IntRoundTrip(rec.len, 2);
  }

  // ---- files ----

  function Zeros(n: nat): seq<Byte> {
    seq(n, _ => 0)
  }

  /** Writing bytes at an offset: a gap reads as zeros, and what lies beyond stays. */
  function WriteAt(file: seq<Byte>, off: nat, bytes: seq<Byte>): seq<Byte> {
    if bytes == [] then file
    else if off > |file| then file + Zeros(off - |file|) + bytes
    else file[..off] + bytes + (if off + |bytes| < |file| then file[off + |bytes|..] else [])
  }

  /** What `Get` returns for an extent: a short read leaves zeros. */
  function ReadAt(file: seq<Byte>, off: int, len: int): seq<Byte> {
    if len <= 0 then []
    else if off < 0 || off >= |file| then Zeros(len)
    else if off + len <= |file| then file[off..off + len]
    else file[off..] + Zeros(off + len - |file|)
  }

  /** A read gives the bytes of the file from the offset on, and zeros past its end. */
  lemma ReadIs(file: seq<Byte>, off: nat, len: int)
    ensures |ReadAt(file, off, len)| == if len > 0 then len else 0
    ensures forall i | 0 <= i < len :: ReadAt(file, off, len)[i] == if off + i < |file| then file[off + i] else 0
  {
  }

  // ---- the engine as a value ----

  datatype Store = Store(
    data: seq<Byte>,           // the data file
    meta: seq<Byte>,           // the index file
    rawOffset: int,
    metaOffset: int,
    count: int,
    index: map<int, Extent>
  )

  function RecordAt(meta: seq<Byte>, i: nat): Record
    requires RECORD_SIZE * (i + 1) <= |meta|
  {
    DecodeRecord(meta[RECORD_SIZE * i..RECORD_SIZE * (i + 1)])
  }

  /** Replaying the first n records onto an index. */
  function Replay(meta: seq<Byte>, n: nat, index: map<int, Extent>): map<int, Extent>
    requires RECORD_SIZE * n <= |meta|
  {
    if n == 0 then index
    else
      var rec := RecordAt(meta, n - 1);
      Replay(meta, n - 1, index)[rec.key := Extent(rec.off, rec.len)]
  }

  /** Opening the two files: offsets at their ends, a torn last record dropped, the index not cleared first. */
  function Load(data: seq<Byte>, meta: seq<Byte>, index: map<int, Extent>): Store {
    Store(data, meta, |data|, |meta|, |meta| / RECORD_SIZE, Replay(meta, |meta| / RECORD_SIZE, index))
  }

  datatype Entry = Entry(key: int, val: seq<Byte>)

  /** How many bytes of an entry's two writes reach the files. */
  datatype Io = Io(data: nat, meta: nat)

  function Cut(bytes: seq<Byte>, n: nat): seq<Byte> {
    if n < |bytes| then bytes[..n] else bytes
  }

  predicate Whole(entry: Entry, io: Io) {
    io.data >= |entry.val| && io.meta >= RECORD_SIZE
  }

  predicate Addable(st: Store, entry: Entry) {
    && 0 <= st.rawOffset && 0 <= st.metaOffset
    && InInt32(entry.key) && InInt16(|entry.val|) && InInt64(st.rawOffset)
  }

  /** One round of the batch loop. */
  function AddOne(st: Store, entry: Entry, io: Io): Store
    requires Addable(st, entry)
  {
    var st1 := st.(data := WriteAt(st.data, st.rawOffset, Cut(entry.val, io.data)));
    if io.data < |entry.val| then st1
    else
      var rec := EncodeRecord(Record(entry.key, st.rawOffset, |entry.val|));
      var st2 := st1.(meta := WriteAt(st.meta, st.metaOffset, Cut(rec, io.meta)));
      if io.meta < RECORD_SIZE then st2
      else st2.(
        index := st.index[entry.key := Extent(st.rawOffset, |entry.val|)],
        rawOffset := st.rawOffset + |entry.val|,
        metaOffset := st.metaOffset + RECORD_SIZE,
        count := st.count + 1)
  }

  /** The file offsets stay within 64 bits for the whole batch. */
  predicate Admissible(rawOffset: int, entries: seq<Entry>)
    decreases |entries|
  {
    entries != [] ==>
      && InInt32(entries[0].key) && InInt16(|entries[0].val|) && InInt64(rawOffset)
      && Admissible(rawOffset + |entries[0].val|, entries[1..])
  }

  /** The batch loop: it stops at the first write that is cut short. */
  function AddAll(st: Store, entries: seq<Entry>, ios: seq<Io>): (Store, bool)
    requires 0 <= st.rawOffset && 0 <= st.metaOffset && Admissible(st.rawOffset, entries) && |ios| == |entries|
    decreases |entries|
  {
    if entries == [] then (st, true)
    else
      var st' := AddOne(st, entries[0], ios[0]);
      if !Whole(entries[0], ios[0]) then (st', false) else AddAll(st', entries[1..], ios[1..])
  }

  function Get(st: Store, key: int): seq<Byte> {
    if key in st.index then ReadAt(st.data, st.index[key].off, st.index[key].len) else []
  }

  // ---- what the files mean ----

  function EncodeAll(recs: seq<Record>): (s: seq<Byte>)
    requires forall i | 0 <= i < |recs| :: Fits(recs[i])
    ensures |s| == RECORD_SIZE * |recs|
  {
    if recs == [] then [] else EncodeAll(recs[..|recs| - 1]) + EncodeRecord(recs[|recs| - 1])
  }

  function IndexOf(recs: seq<Record>): map<int, Extent> {
    if recs == [] then map[]
    else
      var rec := recs[|recs| - 1];
      IndexOf(recs[..|recs| - 1])[rec.key := Extent(rec.off, rec.len)]
  }

  /** Records in range, their extents one after the other below the limit. */
  ghost predicate Laid(recs: seq<Record>, limit: int) {
    && (forall i | 0 <= i < |recs| ::
          Fits(recs[i]) && 0 <= recs[i].off && 0 <= recs[i].len && recs[i].off + recs[i].len <= limit)
    && (forall i, j | 0 <= i < j < |recs| :: recs[i].off + recs[i].len <= recs[j].off)
  }

  /** The index file holds exactly these records, and perhaps part of one more. */
  ghost predicate Holds(meta: seq<Byte>, recs: seq<Record>)
    requires forall i | 0 <= i < |recs| :: Fits(recs[i])
  {
    && RECORD_SIZE * |recs| <= |meta| < RECORD_SIZE * (|recs| + 1)
    && meta[..RECORD_SIZE * |recs|] == EncodeAll(recs)
  }

  /** An engine whose files, offsets and index agree on the records. */
  ghost predicate Valid(st: Store, recs: seq<Record>) {
    && 0 <= st.rawOffset <= |st.data|
    && Laid(recs, st.rawOffset)
    && Holds(st.meta, recs)
    && st.metaOffset == RECORD_SIZE * |recs|
    && st.count == |recs|
    && st.index == IndexOf(recs)
  }

  lemma {:induction false} RecordAtEncoded(meta: seq<Byte>, recs: seq<Record>, i: nat)
    requires forall k | 0 <= k < |recs| :: Fits(recs[k])
    requires RECORD_SIZE * |recs| <= |meta| && meta[..RECORD_SIZE * |recs|] == EncodeAll(recs) && i < |recs|
    ensures RecordAt(meta, i) == recs[i]
  {
    var n := |recs| - 1;
    var all := EncodeAll(recs);
    if i == n {
      assert meta[RECORD_SIZE * i..RECORD_SIZE * (i + 1)] == all[RECORD_SIZE * i..] == EncodeRecord(recs[n]);
      RecordRoundTrip(recs[n]);
    } else {
      assert meta[..RECORD_SIZE * n] == all[..RECORD_SIZE * n] == EncodeAll(recs[..n]);
      RecordAtEncoded(meta, recs[..n], i);
    }
  }

  /** Replaying the records gives the index they mean, on top of what was there. */
  lemma {:induction false} ReplayEncoded(meta: seq<Byte>, recs: seq<Record>, index: map<int, Extent>)
    requires forall k | 0 <= k < |recs| :: Fits(recs[k])
    requires RECORD_SIZE * |recs| <= |meta| && meta[..RECORD_SIZE * |recs|] == EncodeAll(recs)
    ensures Replay(meta, |recs|, index) == index + IndexOf(recs)
  {
    if recs != [] {
      var n := |recs| - 1;
      assert meta[..RECORD_SIZE * n] == EncodeAll(recs)[..RECORD_SIZE * n] == EncodeAll(recs[..n]);
      ReplayEncoded(meta, recs[..n], index);
      RecordAtEncoded(meta, recs, n);
      MergeUpdate(index, IndexOf(recs[..n]), recs[n].key, Extent(recs[n].off, recs[n].len));
    }
  }

  lemma MergeUpdate<K, V>(a: map<K, V>, b: map<K, V>, k: K, v: V)
    ensures (a + b)[k := v] == a + b[k := v]
  {
  }

  /** Every indexed extent is that of a record. */
  lemma {:induction false} IndexedRecord(recs: seq<Record>, key: int) returns (i: nat)
    requires key in IndexOf(recs)
    ensures i < |recs| && recs[i].key == key && IndexOf(recs)[key] == Extent(recs[i].off, recs[i].len)
  {
    i := |recs| - 1;
    if recs[i].key != key {
      i := IndexedRecord(recs[..i], key);
    }
  }

  // ---- adding entries ----

  /** The map of keys to values that a client sees. */
  function Contents(st: Store): map<int, seq<Byte>> {
    map key | key in st.index :: Get(st, key)
  }

  function PutAll(m: map<int, seq<Byte>>, entries: seq<Entry>): map<int, seq<Byte>>
    decreases |entries|
  {
    if entries == [] then m else PutAll(m[entries[0].key := entries[0].val], entries[1..])
  }

  lemma WriteKeepsPrefix(file: seq<Byte>, off: nat, bytes: seq<Byte>)
    requires off <= |file|
    ensures var file' := WriteAt(file, off, bytes);
            && |file'| >= |file| && |file'| >= off + |bytes|
            && file'[..off] == file[..off] && file'[off..off + |bytes|] == bytes
            && (off + |bytes| >= |file| ==> |file'| == off + |bytes| || (bytes == [] && file' == file))
  {
  }

  lemma ReadBelow(file: seq<Byte>, file': seq<Byte>, limit: nat, off: int, len: int)
    requires limit <= |file| && limit <= |file'| && file[..limit] == file'[..limit]
    requires 0 <= off && 0 <= len && off + len <= limit
    ensures ReadAt(file, off, len) == ReadAt(file', off, len)
  {
    if len > 0 {
      assert file[off..off + len] == file[..limit][off..off + len];
      assert file'[off..off + len] == file'[..limit][off..off + len];
    }
  }

  /** Values in old extents survive any write at or after the raw offset. */
  lemma GetKept(st: Store, recs: seq<Record>, data: seq<Byte>, key: int)
    requires Valid(st, recs) && key in st.index
    requires st.rawOffset <= |data| && data[..st.rawOffset] == st.data[..st.rawOffset]
    ensures ReadAt(data, st.index[key].off, st.index[key].len) == Get(st, key)
  {
    var i := IndexedRecord(recs, key);
    ReadBelow(st.data, data, st.rawOffset, recs[i].off, recs[i].len);
  }

  /** An entry whose write is cut short leaves the engine valid and its contents as they were. */
  lemma AddShort(st: Store, recs: seq<Record>, entry: Entry, io: Io)
    requires Valid(st, recs) && Addable(st, entry) && !Whole(entry, io)
    ensures Valid(AddOne(st, entry, io), recs)
    ensures Contents(AddOne(st, entry, io)) == Contents(st)
  {
    var st' := AddOne(st, entry, io);
    WriteKeepsPrefix(st.data, st.rawOffset, Cut(entry.val, io.data));
    if io.data >= |entry.val| {
      var rec := EncodeRecord(Record(entry.key, st.rawOffset, |entry.val|));
      WriteKeepsPrefix(st.meta, st.metaOffset, Cut(rec, io.meta));
    }
    forall key | key in st.index
      ensures Get(st', key) == Get(st, key)
    {
      GetKept(st, recs, st'.data, key);
    }
  }

  lemma LaidAppend(recs: seq<Record>, limit: nat, rec: Record)
    requires Laid(recs, limit) && Fits(rec) && rec.off == limit && rec.len >= 0
    ensures Laid(recs + [rec], limit + rec.len)
  {
  }

  lemma HoldsAppend(meta: seq<Byte>, recs: seq<Record>, rec: Record)
    requires (forall i | 0 <= i < |recs| :: Fits(recs[i])) && Fits(rec) && Holds(meta, recs)
    ensures Holds(WriteAt(meta, RECORD_SIZE * |recs|, EncodeRecord(rec)), recs + [rec])
    ensures IndexOf(recs + [rec]) == IndexOf(recs)[rec.key := Extent(rec.off, rec.len)]
  {
    var bytes := EncodeRecord(rec);
    WriteKeepsPrefix(meta, RECORD_SIZE * |recs|, bytes);
    var meta' := WriteAt(meta, RECORD_SIZE * |recs|, bytes);
    assert (recs + [rec])[..|recs|] == recs;
    assert meta'[..RECORD_SIZE * (|recs| + 1)] == meta'[..RECORD_SIZE * |recs|] + bytes;
  }

  /** An entry whose writes are whole is added to the contents. */
  lemma AddWhole(st: Store, recs: seq<Record>, entry: Entry, io: Io)
    requires Valid(st, recs) && Addable(st, entry) && Whole(entry, io)
    ensures Valid(AddOne(st, entry, io), recs + [Record(entry.key, st.rawOffset, |entry.val|)])
    ensures Contents(AddOne(st, entry, io)) == Contents(st)[entry.key := entry.val]
  {
    HoldsAppend(st.meta, recs, Record(entry.key, st.rawOffset, |entry.val|));
    LaidAppend(recs, st.rawOffset, Record(entry.key, st.rawOffset, |entry.val|));
    WriteKeepsPrefix(st.data, st.rawOffset, entry.val);
    AddWholeContents(st, recs, entry, io);
  }

  /** The new value is where the index says, and the others are where they were. */
  lemma AddWholeContents(st: Store, recs: seq<Record>, entry: Entry, io: Io)
    requires Valid(st, recs) && Addable(st, entry) && Whole(entry, io)
    ensures Contents(AddOne(st, entry, io)) == Contents(st)[entry.key := entry.val]
  {
    var st' := AddOne(st, entry, io);
    WriteKeepsPrefix(st.data, st.rawOffset, entry.val);
    forall key | key in st.index && key != entry.key
      ensures Get(st', key) == Get(st, key)
    {
      GetKept(st, recs, st'.data, key);
    }
    assert Get(st', entry.key) == entry.val;
  }

  lemma PutAllFirst(m: map<int, seq<Byte>>, entries: seq<Entry>, n: nat)
    requires n < |entries|
    ensures PutAll(m, entries[..n + 1]) == PutAll(m[entries[0].key := entries[0].val], entries[1..][..n])
  {
    assert entries[..n + 1][1..] == entries[1..][..n];
  }

  /** The entries added before the first write that is cut short. */
  function Added(entries: seq<Entry>, ios: seq<Io>): (n: nat)
    requires |ios| == |entries|
    ensures n <= |entries|
    decreases |entries|
  {
    if entries == [] || !Whole(entries[0], ios[0]) then 0 else 1 + Added(entries[1..], ios[1..])
  }

  /**
   A batch, whatever writes are cut short: the engine stays valid, its contents are the old ones
   with the entries before the first short write put in order, and it reports success exactly
   when that is all of them.
   */
  lemma {:induction false} AddAllCorrect(st: Store, recs: seq<Record>, entries: seq<Entry>, ios: seq<Io>)
      returns (recs': seq<Record>)
    requires Valid(st, recs) && Admissible(st.rawOffset, entries) && |ios| == |entries|
    ensures var (st', ok) := AddAll(st, entries, ios);
            && Valid(st', recs')
            && Contents(st') == PutAll(Contents(st), entries[..Added(entries, ios)])
            && (ok <==> Added(entries, ios) == |entries|)
    decreases |entries|
  {
    recs' := recs;
    if entries != [] {
      if Whole(entries[0], ios[0]) {
        var e, st' := entries[0], AddOne(st, entries[0], ios[0]);
        AddWhole(st, recs, e, ios[0]);
        recs' := AddAllCorrect(st', recs + [Record(e.key, st.rawOffset, |e.val|)], entries[1..], ios[1..]);
        PutAllFirst(Contents(st), entries, Added(entries[1..], ios[1..]));
      } else {
        AddShort(st, recs, entries[0], ios[0]);
      }
    }
  }

  ghost predicate Sound(st: Store) {
    exists recs :: Valid(st, recs)
  }

  datatype Batch = Batch(entries: seq<Entry>, ios: seq<Io>)

  /** A run of batches, each started whether or not the one before it succeeded. */
  ghost predicate Runnable(st: Store, batches: seq<Batch>)
    decreases |batches|
  {
    batches != [] ==>
      && 0 <= st.rawOffset && 0 <= st.metaOffset
      && Admissible(st.rawOffset, batches[0].entries) && |batches[0].ios| == |batches[0].entries|
      && Runnable(AddAll(st, batches[0].entries, batches[0].ios).0, batches[1..])
  }

  ghost function RunBatches(st: Store, batches: seq<Batch>): Store
    requires Runnable(st, batches)
    decreases |batches|
  {
    if batches == [] then st
    else RunBatches(AddAll(st, batches[0].entries, batches[0].ios).0, batches[1..])
  }

  /** Everything that was fully added, in order. */
  ghost function AddedBy(batches: seq<Batch>): seq<Entry>
    requires forall b | b in batches :: |b.ios| == |b.entries|
    decreases |batches|
  {
    if batches == [] then []
    else batches[0].entries[..Added(batches[0].entries, batches[0].ios)] + AddedBy(batches[1..])
  }

  lemma {:induction false} PutAllConcat(m: map<int, seq<Byte>>, a: seq<Entry>, b: seq<Entry>)
    ensures PutAll(m, a + b) == PutAll(PutAll(m, a), b)
    decreases |a|
  {
    if a == [] {
      assert a + b == b;
    } else {
      assert (a + b)[1..] == a[1..] + b;
      PutAllConcat(m[a[0].key := a[0].val], a[1..], b);
    }
  }

  /** Over any run of batches with any short writes, the contents are the entries fully added, last one winning. */
  lemma {:induction false} RunCorrect(st: Store, batches: seq<Batch>)
    requires Sound(st) && Runnable(st, batches)
    requires forall b | b in batches :: |b.ios| == |b.entries|
    ensures Sound(RunBatches(st, batches))
    ensures Contents(RunBatches(st, batches)) == PutAll(Contents(st), AddedBy(batches))
    decreases |batches|
  {
    if batches != [] {
      var recs :| Valid(st, recs);
      var b := batches[0];
      var recs' := AddAllCorrect(st, recs, b.entries, b.ios);
      RunCorrect(AddAll(st, b.entries, b.ios).0, batches[1..]);
      PutAllConcat(Contents(st), b.entries[..Added(b.entries, b.ios)], AddedBy(batches[1..]));
    }
  }

  // ---- extents ----

  /** Extents of different keys do not overlap, and all lie below the raw offset. */
  lemma ExtentsDisjoint(st: Store, a: int, b: int)
    requires Sound(st) && a in st.index && b in st.index && a != b
    ensures var x, y := st.index[a], st.index[b];
            && 0 <= x.off && 0 <= x.len && x.off + x.len <= st.rawOffset <= |st.data|
            && (x.off + x.len <= y.off || y.off + y.len <= x.off)
  {
    var recs :| Valid(st, recs);
    var i := IndexedRecord(recs, a);
    var j := IndexedRecord(recs, b);
  }

  // ---- reopening the files ----

  function Reload(st: Store): Store {
    Load(st.data, st.meta, map[])
  }

  /** A fresh engine opened on the files has the same index, so the same contents. */
  lemma ReloadValid(st: Store, recs: seq<Record>)
    requires Valid(st, recs)
    ensures Reload(st).index == st.index && Reload(st).count == st.count
    ensures Contents(Reload(st)) == Contents(st)
  {
    assert |st.meta| / RECORD_SIZE == |recs|;
    ReplayEncoded(st.meta, recs, map[]);
    assert forall key | key in st.index :: Get(Reload(st), key) == Get(st, key);
  }

  /** No bytes beyond the offsets: so after whole writes only, and after loading files without a torn record. */
  predicate Clean(st: Store) {
    st.rawOffset == |st.data| && st.metaOffset == |st.meta|
  }

  lemma {:induction false} WholeBatchStaysClean(st: Store, entries: seq<Entry>, ios: seq<Io>)
    requires Clean(st) && Admissible(st.rawOffset, entries) && |ios| == |entries|
    requires Added(entries, ios) == |entries|
    ensures Clean(AddAll(st, entries, ios).0)
    decreases |entries|
  {
    if entries != [] {
      WriteKeepsPrefix(st.data, st.rawOffset, entries[0].val);
      WriteKeepsPrefix(st.meta, st.metaOffset, EncodeRecord(Record(entries[0].key, st.rawOffset, |entries[0].val|)));
      WholeBatchStaysClean(AddOne(st, entries[0], ios[0]), entries[1..], ios[1..]);
    }
  }

  /** A snapshot, loaded into a fresh engine, is the engine itself exactly when no short write left bytes behind. */
  lemma SnapshotIff(st: Store)
    requires Sound(st)
    ensures Reload(st) == st <==> Clean(st)
  {
    var recs :| Valid(st, recs);
    ReloadValid(st, recs);
  }

  /** Loading on top of a used index keeps its stale keys; it is as good as fresh exactly when there are none. */
  lemma LoadOverIff(st: Store, used: map<int, Extent>)
    requires Sound(st)
    ensures Load(st.data, st.meta, used).index == st.index <==> used.Keys <= st.index.Keys
  {
    var recs :| Valid(st, recs);
    assert |st.meta| / RECORD_SIZE == |recs|;
    ReplayEncoded(st.meta, recs, used);
    assert (used + st.index).Keys == used.Keys + st.index.Keys;
  }

  // ---- a crash after any byte ----

  /** One byte reaching one of the files. */
  datatype ByteWrite = ByteWrite(toMeta: bool, off: nat, byte: Byte)

  function BytesOf(toMeta: bool, off: nat, bytes: seq<Byte>): seq<ByteWrite> {
    seq(|bytes|, i requires 0 <= i < |bytes| => ByteWrite(toMeta, off + i, bytes[i]))
  }

  datatype Disk = Disk(data: seq<Byte>, meta: seq<Byte>)

  function Persist(disk: Disk, writes: seq<ByteWrite>): Disk {
    if writes == [] then disk
    else
      var d, w := Persist(disk, writes[..|writes| - 1]), writes[|writes| - 1];
      if w.toMeta then d.(meta := WriteAt(d.meta, w.off, [w.byte])) else d.(data := WriteAt(d.data, w.off, [w.byte]))
  }

  /** The bytes a batch writes, in the order of its writes, were it never cut short. */
  function BatchBytes(st: Store, entries: seq<Entry>): seq<ByteWrite>
    requires 0 <= st.rawOffset && 0 <= st.metaOffset && Admissible(st.rawOffset, entries)
    decreases |entries|
  {
    if entries == [] then []
    else
      var e := entries[0];
      BytesOf(false, st.rawOffset, e.val)
      + BytesOf(true, st.metaOffset, EncodeRecord(Record(e.key, st.rawOffset, |e.val|)))
      + BatchBytes(AddOne(st, e, Io(|e.val|, RECORD_SIZE)), entries[1..])
  }

  /** The entries all of whose bytes are among the first k. */
  function Survivors(entries: seq<Entry>, k: nat): (n: nat)
    ensures n <= |entries|
    decreases |entries|
  {
    if entries == [] || k < |entries[0].val| + RECORD_SIZE then 0
    else 1 + Survivors(entries[1..], k - |entries[0].val| - RECORD_SIZE)
  }

  lemma {:induction false} PersistConcat(disk: Disk, a: seq<ByteWrite>, b: seq<ByteWrite>)
    ensures Persist(disk, a + b) == Persist(Persist(disk, a), b)
  {
    if b == [] {
      assert a + b == a;
    } else {
      var n := |b| - 1;
      assert (a + b)[..|a + b| - 1] == a + b[..n];
      PersistConcat(disk, a, b[..n]);
    }
  }

  /** Writing to one of the two files. */
  function WriteFile(disk: Disk, toMeta: bool, off: nat, bytes: seq<Byte>): Disk {
    if toMeta then disk.(meta := WriteAt(disk.meta, off, bytes)) else disk.(data := WriteAt(disk.data, off, bytes))
  }

  lemma PersistLast(disk: Disk, toMeta: bool, off: nat, bytes: seq<Byte>, k: nat)
    requires k < |bytes|
    ensures var ws := BytesOf(toMeta, off, bytes);
            Persist(disk, ws[..k + 1]) == WriteFile(Persist(disk, ws[..k]), toMeta, off + k, [bytes[k]])
  {
    var ws := BytesOf(toMeta, off, bytes);
    assert ws[..k + 1][..k] == ws[..k] && ws[..k + 1][k] == ByteWrite(toMeta, off + k, bytes[k]);
  }

  /** A file after the first k bytes were written to it, one at a time. */
  function ByteByByte(file: seq<Byte>, off: nat, bytes: seq<Byte>, k: nat): seq<Byte>
    requires k <= |bytes|
  {
    if k == 0 then file else WriteAt(ByteByByte(file, off, bytes, k - 1), off + k - 1, [bytes[k - 1]])
  }

  lemma {:induction false} ByteByByteAt(file: seq<Byte>, off: nat, bytes: seq<Byte>, k: nat)
    requires off <= |file| && k <= |bytes|
    ensures var file' := ByteByByte(file, off, bytes, k);
            && |file'| == (if off + k < |file| then |file| else off + k)
            && (forall i | 0 <= i < |file'| :: file'[i] == if off <= i < off + k then bytes[i - off] else file[i])
  {
    if k > 0 {
      ByteByByteAt(file, off, bytes, k - 1);
      WriteIs(ByteByByte(file, off, bytes, k - 1), off + k - 1, [bytes[k - 1]]);
    }
  }

  /** Bytes written one by one are the write of their prefix. */
  lemma ByteByByteIs(file: seq<Byte>, off: nat, bytes: seq<Byte>, k: nat)
    requires off <= |file| && k <= |bytes|
    ensures ByteByByte(file, off, bytes, k) == WriteAt(file, off, bytes[..k])
  {
    ByteByByteAt(file, off, bytes, k);
    WriteIs(file, off, bytes[..k]);
  }

  lemma {:induction false} PersistByteByByte(disk: Disk, toMeta: bool, off: nat, bytes: seq<Byte>, k: nat)
    requires k <= |bytes|
    ensures Persist(disk, BytesOf(toMeta, off, bytes)[..k]) ==
              if toMeta then disk.(meta := ByteByByte(disk.meta, off, bytes, k))
              else disk.(data := ByteByByte(disk.data, off, bytes, k))
  {
    if k == 0 {
      assert BytesOf(toMeta, off, bytes)[..0] == [];
    } else {
      PersistByteByByte(disk, toMeta, off, bytes, k - 1);
      PersistLast(disk, toMeta, off, bytes, k - 1);
    }
  }

  lemma PersistBytes(disk: Disk, toMeta: bool, off: nat, bytes: seq<Byte>, k: nat)
    requires off <= (if toMeta then |disk.meta| else |disk.data|) && k <= |bytes|
    ensures Persist(disk, BytesOf(toMeta, off, bytes)[..k]) == WriteFile(disk, toMeta, off, bytes[..k])
  {
    PersistByteByByte(disk, toMeta, off, bytes, k);
    ByteByByteIs(if toMeta then disk.meta else disk.data, off, bytes, k);
  }

  /** A write within or at the end of a file, byte by byte. */
  lemma WriteIs(file: seq<Byte>, off: nat, bytes: seq<Byte>)
    requires off <= |file|
    ensures var file' := WriteAt(file, off, bytes);
            && |file'| == (if off + |bytes| < |file| then |file| else off + |bytes|)
            && (forall i | 0 <= i < |file'| :: file'[i] == if off <= i < off + |bytes| then bytes[i - off] else file[i])
  {
  }

  function DiskOf(st: Store): Disk {
    Disk(st.data, st.meta)
  }

  /** How a crash after k bytes cuts the writes of a batch. */
  function IosUntil(entries: seq<Entry>, k: nat): (ios: seq<Io>)
    ensures |ios| == |entries|
    decreases |entries|
  {
    if entries == [] then []
    else
      var left := if k >= |entries[0].val| then k - |entries[0].val| else 0;
      [Io(k, left)] + IosUntil(entries[1..], if left >= RECORD_SIZE then left - RECORD_SIZE else 0)
  }

  function EntryBytes(st: Store, e: Entry): (ws: seq<ByteWrite>)
    requires Addable(st, e)
    ensures |ws| == |e.val| + RECORD_SIZE
  {
    BytesOf(false, st.rawOffset, e.val)
    + BytesOf(true, st.metaOffset, EncodeRecord(Record(e.key, st.rawOffset, |e.val|)))
  }

  /** Both offsets are within their files. */
  predicate WithinFiles(st: Store) {
    0 <= st.rawOffset <= |st.data| && 0 <= st.metaOffset <= |st.meta|
  }

  lemma AddOneWithinFiles(st: Store, e: Entry, io: Io)
    requires Addable(st, e) && WithinFiles(st)
    ensures WithinFiles(AddOne(st, e, io))
  {
    WriteKeepsPrefix(st.data, st.rawOffset, Cut(e.val, io.data));
    WriteKeepsPrefix(st.meta, st.metaOffset, Cut(EncodeRecord(Record(e.key, st.rawOffset, |e.val|)), io.meta));
  }

  /** The first k bytes of an entry's two writes. */
  lemma EntryCut(st: Store, e: Entry, k: nat)
    requires Addable(st, e) && WithinFiles(st)
    requires k <= |e.val| + RECORD_SIZE
    ensures Persist(DiskOf(st), EntryBytes(st, e)[..k]) ==
              DiskOf(AddOne(st, e, Io(k, if k >= |e.val| then k - |e.val| else 0)))
  {
    var first := BytesOf(false, st.rawOffset, e.val);
    var rec := EncodeRecord(Record(e.key, st.rawOffset, |e.val|));
    var second := BytesOf(true, st.metaOffset, rec);
    if k < |e.val| {
      assert EntryBytes(st, e)[..k] == first[..k];
      PersistBytes(DiskOf(st), false, st.rawOffset, e.val, k);
    } else {
      var m := k - |e.val|;
      assert EntryBytes(st, e)[..k] == first[..|e.val|] + second[..m];
      PersistBytes(DiskOf(st), false, st.rawOffset, e.val, |e.val|);
      assert e.val[..|e.val|] == e.val;
      PersistConcat(DiskOf(st), first[..|e.val|], second[..m]);
      var disk := Disk(WriteAt(st.data, st.rawOffset, e.val), st.meta);
      PersistBytes(disk, true, st.metaOffset, rec, m);
      assert Cut(rec, m) == rec[..m];
    }
  }

  /** A crash within the writes of the first entry. */
  lemma {:induction false} CutInFirst(st: Store, e: Entry, rest: seq<ByteWrite>, k: nat)
    requires Addable(st, e) && WithinFiles(st)
    requires k < |e.val| + RECORD_SIZE
    ensures Persist(DiskOf(st), (EntryBytes(st, e) + rest)[..k]) ==
              DiskOf(AddOne(st, e, Io(k, if k >= |e.val| then k - |e.val| else 0)))
  {
    assert (EntryBytes(st, e) + rest)[..k] == EntryBytes(st, e)[..k];
    EntryCut(st, e, k);
  }

  /** A crash after them: the first entry is added whole. */
  lemma {:induction false} CutAfterFirst(st: Store, e: Entry, rest: seq<ByteWrite>, k: nat)
    requires Addable(st, e) && WithinFiles(st)
    requires |e.val| + RECORD_SIZE <= k <= |e.val| + RECORD_SIZE + |rest|
    ensures Persist(DiskOf(st), (EntryBytes(st, e) + rest)[..k]) ==
              Persist(DiskOf(AddOne(st, e, Io(|e.val|, RECORD_SIZE))), rest[..k - |e.val| - RECORD_SIZE])
  {
    var n, mine := |e.val| + RECORD_SIZE, EntryBytes(st, e);
    EntryCut(st, e, n);
    assert mine[..n] == mine && (mine + rest)[..k] == mine + rest[..k - n];
    PersistConcat(DiskOf(st), mine, rest[..k - n]);
    assert AddOne(st, e, Io(n, RECORD_SIZE)) == AddOne(st, e, Io(|e.val|, RECORD_SIZE));
  }

  /** One entry of a batch, whole or cut. */
  lemma {:induction false} AddAllFirst(st: Store, entries: seq<Entry>, ios: seq<Io>)
    requires WithinFiles(st) && entries != [] && Admissible(st.rawOffset, entries) && |ios| == |entries|
    ensures Addable(st, entries[0])
    ensures AddAll(st, entries, ios).0 ==
              if Whole(entries[0], ios[0])
              then (AddOneWithinFiles(st, entries[0], ios[0]);
                    AddAll(AddOne(st, entries[0], ios[0]), entries[1..], ios[1..]).0)
              else AddOne(st, entries[0], ios[0])
  {
    AddOneWithinFiles(st, entries[0], ios[0]);
  }

  /** What is left of a batch once its first entry is added whole. */
  lemma {:induction false} RestOfBatch(st: Store, entries: seq<Entry>) returns (st': Store)
    requires WithinFiles(st) && entries != [] && Admissible(st.rawOffset, entries)
    ensures Addable(st, entries[0]) && st' == AddOne(st, entries[0], Io(|entries[0].val|, RECORD_SIZE))
    ensures WithinFiles(st') && Admissible(st'.rawOffset, entries[1..])
    ensures BatchBytes(st, entries) == EntryBytes(st, entries[0]) + BatchBytes(st', entries[1..])
    ensures |BatchBytes(st, entries)| == |entries[0].val| + RECORD_SIZE + |BatchBytes(st', entries[1..])|
  {
    st' := AddOne(st, entries[0], Io(|entries[0].val|, RECORD_SIZE));
    AddOneWithinFiles(st, entries[0], Io(|entries[0].val|, RECORD_SIZE));
  }

  /** The files after a batch whose writes are cut after k bytes. */
  function CutBatch(st: Store, entries: seq<Entry>, k: nat): Disk
    requires WithinFiles(st) && Admissible(st.rawOffset, entries)
  {
    DiskOf(AddAll(st, entries, IosUntil(entries, k)).0)
  }

  /** The files after a crash that lets the first k bytes of a batch through. */
  function Crashed(st: Store, entries: seq<Entry>, k: nat): Disk
    requires WithinFiles(st) && Admissible(st.rawOffset, entries) && k <= |BatchBytes(st, entries)|
  {
    Persist(DiskOf(st), BatchBytes(st, entries)[..k])
  }

  /** A crash within the first entry. */
  lemma {:induction false} CrashInFirst(st: Store, entries: seq<Entry>, k: nat)
    requires WithinFiles(st) && entries != [] && Admissible(st.rawOffset, entries) && k <= |BatchBytes(st, entries)|
    requires k < |entries[0].val| + RECORD_SIZE
    ensures CutBatch(st, entries, k) == Crashed(st, entries, k)
  {
    var e, ios := entries[0], IosUntil(entries, k);
    var rest := BatchBytes(AddOne(st, e, Io(|e.val|, RECORD_SIZE)), entries[1..]);
    assert BatchBytes(st, entries) == EntryBytes(st, e) + rest;
    CutInFirst(st, e, rest, k);
    AddAllFirst(st, entries, ios);
    assert ios[0] == Io(k, if k >= |e.val| then k - |e.val| else 0);
  }

  /** Past the first entry, both go on as they do in the rest of the batch. */
  lemma {:induction false} CutBatchRest(st: Store, entries: seq<Entry>, k: nat, st': Store)
    requires WithinFiles(st) && entries != [] && Admissible(st.rawOffset, entries)
    requires Addable(st, entries[0]) && st' == AddOne(st, entries[0], Io(|entries[0].val|, RECORD_SIZE))
    requires k >= |entries[0].val| + RECORD_SIZE && WithinFiles(st') && Admissible(st'.rawOffset, entries[1..])
    ensures CutBatch(st, entries, k) == CutBatch(st', entries[1..], k - |entries[0].val| - RECORD_SIZE)
  {
    var e, ios := entries[0], IosUntil(entries, k);
    AddAllFirst(st, entries, ios);
    assert ios[0] == Io(k, k - |e.val|) && AddOne(st, e, ios[0]) == st';
    assert ios[1..] == IosUntil(entries[1..], k - |e.val| - RECORD_SIZE);
  }

  lemma {:induction false} CrashedRest(st: Store, entries: seq<Entry>, k: nat, st': Store)
    requires WithinFiles(st) && entries != [] && Admissible(st.rawOffset, entries) && k <= |BatchBytes(st, entries)|
    requires Addable(st, entries[0]) && st' == AddOne(st, entries[0], Io(|entries[0].val|, RECORD_SIZE))
    requires k >= |entries[0].val| + RECORD_SIZE && WithinFiles(st') && Admissible(st'.rawOffset, entries[1..])
    requires BatchBytes(st, entries) == EntryBytes(st, entries[0]) + BatchBytes(st', entries[1..])
    ensures Crashed(st, entries, k) == Crashed(st', entries[1..], k - |entries[0].val| - RECORD_SIZE)
  {
    CutAfterFirst(st, entries[0], BatchBytes(st', entries[1..]), k);
  }

  lemma {:induction false} CrashBeforeAny(st: Store, k: nat)
    requires WithinFiles(st)
    ensures BatchBytes(st, []) == [] && CutBatch(st, [], k) == Crashed(st, [], 0) == DiskOf(st)
  {
  }

  /** A crash after k bytes leaves the files as a batch does whose writes were cut short there. */
  lemma {:induction false} CrashIsShortWrite(st: Store, entries: seq<Entry>, k: nat)
    requires WithinFiles(st) && Admissible(st.rawOffset, entries) && k <= |BatchBytes(st, entries)|
    ensures CutBatch(st, entries, k) == Crashed(st, entries, k)
    decreases |entries|, 1
  {
    if entries == [] {
      CrashBeforeAny(st, k);
    } else if k < |entries[0].val| + RECORD_SIZE {
      CrashInFirst(st, entries, k);
    } else {
      CrashLater(st, entries, k);
    }
  }

  lemma {:induction false} CrashLater(st: Store, entries: seq<Entry>, k: nat)
    requires WithinFiles(st) && Admissible(st.rawOffset, entries) && k <= |BatchBytes(st, entries)|
    requires entries != [] && k >= |entries[0].val| + RECORD_SIZE
    ensures CutBatch(st, entries, k) == Crashed(st, entries, k)
    decreases |entries|, 0
  {
    var st' := RestOfBatch(st, entries);
    CutBatchRest(st, entries, k, st');
    CrashedRest(st, entries, k, st');
    CrashIsShortWrite(st', entries[1..], k - |entries[0].val| - RECORD_SIZE);
  }

  /** The entries that such a batch adds are those whose bytes were all written. */
  lemma {:induction false} AddedIsSurvivors(entries: seq<Entry>, k: nat)
    ensures Added(entries, IosUntil(entries, k)) == Survivors(entries, k)
    decreases |entries|
  {
    if entries != [] {
      var n, ios := |entries[0].val| + RECORD_SIZE, IosUntil(entries, k);
      assert ios[0] == Io(k, if k >= |entries[0].val| then k - |entries[0].val| else 0);
      if k >= n {
        assert ios[1..] == IosUntil(entries[1..], k - n);
        AddedIsSurvivors(entries[1..], k - n);
      }
    }
  }

  /**
   A crash after any byte of a batch: a fresh engine opened on what reached the files has
   exactly the earlier contents with the entries put whose bytes all reached them.
   */
  lemma CrashRecovery(st: Store, entries: seq<Entry>, k: nat)
    requires Sound(st) && Admissible(st.rawOffset, entries) && k <= |BatchBytes(st, entries)|
    ensures var disk := Crashed(st, entries, k);
            Contents(Load(disk.data, disk.meta, map[])) == PutAll(Contents(st), entries[..Survivors(entries, k)])
  {
    var recs :| Valid(st, recs);
    CrashIsShortWrite(st, entries, k);
    AddedIsSurvivors(entries, k);
    var recs' := AddAllCorrect(st, recs, entries, IosUntil(entries, k));
    ReloadValid(AddAll(st, entries, IosUntil(entries, k)).0, recs');
  }
}
