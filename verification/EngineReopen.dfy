/**
 Reopening an engine after a torn index record. The torn record is dropped from
 the index but not from the file, and new records are appended after it.
 */
module EngineReopen {
  import opened Bytes
  import opened Engine

  /** What a reopened engine becomes when an entry is added with whole writes. */
  function AddReopened(st: Store, entry: Entry): Store
    requires Addable(Reload(st), entry)
  {
    AddOne(Reload(st), entry, Io(|entry.val|, RECORD_SIZE))
  }

  /** After a reopen, every entry that can be added is found again by the next reopen. */
  ghost predicate Durable(st: Store) {
    forall entry | Addable(Reload(st), entry) ::
      Reload(AddReopened(st, entry)).index == AddReopened(st, entry).index
  }

  lemma AlignedReloadValid(st: Store, recs: seq<Record>)
    requires Valid(st, recs) && |st.meta| % RECORD_SIZE == 0
    ensures Valid(Reload(st), recs)
  {
    ReloadValid(st, recs);
  }

  /** The first byte of an integer is its value modulo 256. */
  lemma DecodeLowByte(s: seq<Byte>)
    requires s != []
    ensures DecodeInt(s) % 256 == s[0]
  {
    var rest := FromLittle(s[1..]);
    var n := FromLittle(s);
    assert n == s[0] + 256 * rest;
    assert Pow256(|s|) == 256 * Pow256(|s| - 1);
    assert n - Pow256(|s|) == s[0] + 256 * (rest - Pow256(|s| - 1));
  }

  /** What the next reopen reads over the torn record: a key with its first byte. */
  lemma TornKey(meta: seq<Byte>, n: nat, rec: seq<Byte>)
    requires RECORD_SIZE * n < |meta| < RECORD_SIZE * (n + 1) && |rec| == RECORD_SIZE
    ensures |meta + rec| / RECORD_SIZE == n + 1
    ensures RecordAt(meta + rec, n).key % 256 == meta[RECORD_SIZE * n]
  {
    var all := meta + rec;
    var torn := all[RECORD_SIZE * n..RECORD_SIZE * (n + 1)];
    assert torn[0..4][0] == torn[0] == all[RECORD_SIZE * n] == meta[RECORD_SIZE * n];
    DecodeLowByte(torn[0..4]);
  }

  /** The index after that reopen: the records before the torn one, and whatever its bytes and the next ones spell. */
  lemma TornIndex(meta: seq<Byte>, recs: seq<Record>, rec: seq<Byte>)
    requires (forall i | 0 <= i < |recs| :: Fits(recs[i])) && Holds(meta, recs)
    requires RECORD_SIZE * |recs| < |meta| && |rec| == RECORD_SIZE
    ensures |meta + rec| / RECORD_SIZE == |recs| + 1
    ensures var read := RecordAt(meta + rec, |recs|);
            Replay(meta + rec, |recs| + 1, map[]) == IndexOf(recs)[read.key := Extent(read.off, read.len)]
  {
    var n, all := |recs|, meta + rec;
    TornKey(meta, n, rec);
    assert all[..RECORD_SIZE * n] == meta[..RECORD_SIZE * n];
    ReplayEncoded(all, recs, map[]);
    assert map[] + IndexOf(recs) == IndexOf(recs);
  }

  /** An indexed extent ends below the raw offset, so a non-empty one at the offset or beyond is not indexed. */
  lemma NotIndexed(st: Store, recs: seq<Record>, key: int, off: int, len: int)
    requires Valid(st, recs) && off >= st.rawOffset && len > 0
    ensures key in IndexOf(recs) ==> IndexOf(recs)[key] != Extent(off, len)
  {
    if key in IndexOf(recs) {
      var i := IndexedRecord(recs, key);
    }
  }

  /** A torn record swallows the start of the next one, whose key then reads differently. */
  lemma TornSwallows(st: Store, recs: seq<Record>, entry: Entry)
    requires Valid(st, recs) && RECORD_SIZE * |recs| < |st.meta| && Addable(Reload(st), entry)
    requires entry.key % 256 != st.meta[RECORD_SIZE * |recs|] && entry.val != []
    ensures Reload(AddReopened(st, entry)).index != AddReopened(st, entry).index
  {
    var after := AddReopened(st, entry);
    var rec := EncodeRecord(Record(entry.key, |st.data|, |entry.val|));
    assert after.meta == st.meta + rec;
    TornKey(st.meta, |recs|, rec);
    TornIndex(st.meta, recs, rec);
    NotIndexed(st, recs, entry.key, |st.data|, |entry.val|);
    assert after.index[entry.key] == Extent(|st.data|, |entry.val|);
  }

  /** A reopened engine keeps what is added to it exactly when the index file ended at a record boundary. */
  lemma DurableIffAligned(st: Store)
    requires Sound(st) && InInt64(|st.data|)
    ensures Durable(st) <==> |st.meta| % RECORD_SIZE == 0
  {
    var recs :| Valid(st, recs);
    if |st.meta| % RECORD_SIZE == 0 {
      AlignedReloadValid(st, recs);
      forall entry | Addable(Reload(st), entry)
        ensures Reload(AddReopened(st, entry)).index == AddReopened(st, entry).index
      {
        AddWhole(Reload(st), recs, entry, Io(|entry.val|, RECORD_SIZE));
        ReloadValid(AddReopened(st, entry), recs + [Record(entry.key, |st.data|, |entry.val|)]);
      }
    } else {
      var key := if st.meta[RECORD_SIZE * |recs|] == 0 then 1 else 0;
      var entry := Entry(key, [0]);
      TornSwallows(st, recs, entry);
    }
  }

  // ---- runs of batches, crashes and reopens ----

  /** An engine that reads its records right: a valid one, or one reopened after a torn record. */
  ghost predicate Opened(st: Store, recs: seq<Record>) {
    && 0 <= st.rawOffset <= |st.data| && Laid(recs, st.rawOffset)
    && Holds(st.meta, recs)
    && (st.metaOffset == RECORD_SIZE * |recs| || st.metaOffset == |st.meta|)
    && st.count == |recs| && st.index == IndexOf(recs)
  }

  ghost predicate Readable(st: Store) {
    exists recs :: Opened(st, recs)
  }

  lemma SoundReadable(st: Store)
    requires Sound(st)
    ensures Readable(st)
  {
    var recs :| Valid(st, recs);
    assert Opened(st, recs);
  }

  /** At a record boundary such an engine is valid. */
  lemma BoundarySound(st: Store)
    requires Readable(st) && st.metaOffset % RECORD_SIZE == 0
    ensures Sound(st)
  {
    var recs :| Opened(st, recs);
    assert Valid(st, recs);
  }

  /** Reopening loses nothing, at a record boundary or not. */
  lemma ReopenKeeps(st: Store)
    requires Readable(st)
    ensures Readable(Reload(st)) && Contents(Reload(st)) == Contents(st)
  {
    var recs :| Opened(st, recs);
    var valid := st.(metaOffset := RECORD_SIZE * |recs|);
    ReloadValid(valid, recs);
    assert Reload(valid) == Reload(st) && Opened(Reload(st), recs);
    assert Contents(valid) == Contents(st);
  }

  /** A batch, a crash that lets k bytes of a batch through, or a stop; the last two are followed by a reopen. */
  datatype Event = Batched(entries: seq<Entry>, ios: seq<Io>) | Crash(entries: seq<Entry>, k: nat) | Stop

  predicate Possible(st: Store, event: Event)
    requires WithinFiles(st)
  {
    match event
    case Batched(entries, ios) => Admissible(st.rawOffset, entries) && |ios| == |entries|
    case Crash(entries, k) => Admissible(st.rawOffset, entries) && k <= |BatchBytes(st, entries)|
    case Stop => true
  }

  function After(st: Store, event: Event): Store
    requires WithinFiles(st) && Possible(st, event)
  {
    match event
    case Batched(entries, ios) => AddAll(st, entries, ios).0
    case Crash(entries, k) => var disk := Crashed(st, entries, k); Load(disk.data, disk.meta, map[])
    case Stop => Reload(st)
  }

  predicate Adds(event: Event) {
    !event.Stop? && event.entries != []
  }

  /** Every event is possible, and every addition starts with the index offset at a record boundary. */
  ghost predicate Aligned(st: Store, events: seq<Event>)
    decreases |events|
  {
    events != [] ==>
      && WithinFiles(st) && Possible(st, events[0])
      && (Adds(events[0]) ==> st.metaOffset % RECORD_SIZE == 0)
      && Aligned(After(st, events[0]), events[1..])
  }

  ghost function RunEvents(st: Store, events: seq<Event>): Store
    requires Aligned(st, events)
    decreases |events|
  {
    if events == [] then st else RunEvents(After(st, events[0]), events[1..])
  }

  /** The entries an event adds for good. */
  function Lasting(event: Event): seq<Entry>
    requires event.Batched? ==> |event.ios| == |event.entries|
  {
    match event
    case Batched(entries, ios) => entries[..Added(entries, ios)]
    case Crash(entries, k) => entries[..Survivors(entries, k)]
    case Stop => []
  }

  ghost function AllLasting(st: Store, events: seq<Event>): seq<Entry>
    requires Aligned(st, events)
    decreases |events|
  {
    if events == [] then [] else Lasting(events[0]) + AllLasting(After(st, events[0]), events[1..])
  }

  lemma BatchedEvent(st: Store, entries: seq<Entry>, ios: seq<Io>)
    requires Sound(st) && Admissible(st.rawOffset, entries) && |ios| == |entries|
    ensures var st' := AddAll(st, entries, ios).0;
            Sound(st') && Contents(st') == PutAll(Contents(st), entries[..Added(entries, ios)])
  {
    var recs :| Valid(st, recs);
    var recs' := AddAllCorrect(st, recs, entries, ios);
  }

  lemma CrashReadable(st: Store, entries: seq<Entry>, k: nat)
    requires Sound(st) && WithinFiles(st) && Admissible(st.rawOffset, entries) && k <= |BatchBytes(st, entries)|
    ensures var disk := Crashed(st, entries, k); Readable(Load(disk.data, disk.meta, map[]))
  {
    CrashIsShortWrite(st, entries, k);
    BatchedEvent(st, entries, IosUntil(entries, k));
    var cut := AddAll(st, entries, IosUntil(entries, k)).0;
    SoundReadable(cut);
    ReopenKeeps(cut);
  }

  /** An event that adds, on a valid engine. */
  lemma AddingEvent(st: Store, event: Event)
    requires Sound(st) && WithinFiles(st) && Possible(st, event) && Adds(event)
    ensures Readable(After(st, event)) && Contents(After(st, event)) == PutAll(Contents(st), Lasting(event))
  {
    if event.Batched? {
      BatchedEvent(st, event.entries, event.ios);
      SoundReadable(After(st, event));
    } else {
      CrashReadable(st, event.entries, event.k);
      CrashRecovery(st, event.entries, event.k);
    }
  }

  /** An event that adds nothing: at most a reopen. */
  lemma IdleEvent(st: Store, event: Event)
    requires Readable(st) && WithinFiles(st) && Possible(st, event) && !Adds(event)
    ensures Readable(After(st, event)) && Contents(After(st, event)) == Contents(st) && Lasting(event) == []
  {
    ReopenKeeps(st);
    if event.Crash? {
      CrashBeforeAny(st, 0);
      assert event.k == 0;
    }
  }

  /**
   Over any run of batches with short writes, crashes after any byte, stops and reopens in which every
   addition starts at a record boundary of the index file, the contents are those of the entries added for
   good, the last one of each key winning.
   */
  lemma {:induction false} EventsCorrect(st: Store, events: seq<Event>)
    requires Readable(st) && Aligned(st, events)
    ensures Readable(RunEvents(st, events))
    ensures Contents(RunEvents(st, events)) == PutAll(Contents(st), AllLasting(st, events))
    decreases |events|
  {
    if events != [] {
      if Adds(events[0]) {
        BoundarySound(st);
        AddingEvent(st, events[0]);
      } else {
        IdleEvent(st, events[0]);
      }
      EventsCorrect(After(st, events[0]), events[1..]);
      PutAllConcat(Contents(st), Lasting(events[0]), AllLasting(After(st, events[0]), events[1..]));
    }
  }
}
