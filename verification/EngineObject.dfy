/**
 The engine object: its methods update two files, two offsets, a counter and the
 index in place, and are proved against the engine as a value.
 */
module EngineObject {
  import opened Bytes
  import opened Engine
  import opened Wrappers

  /** Where the value of entry i starts in the payload. */
  function Start(kvs: seq<(int, nat)>, i: nat): nat
    requires i <= |kvs|
  {
    if i == 0 then 0 else Start(kvs, i - 1) + kvs[i - 1].1
  }

  /** The payload is long enough for the lengths of the batch. */
  predicate Covers(payload: seq<Byte>, kvs: seq<(int, nat)>) {
    forall i: nat | i <= |kvs| :: Start(kvs, i) <= |payload|
  }

  function EntryAt(kvs: seq<(int, nat)>, payload: seq<Byte>, i: nat): Entry
    requires Covers(payload, kvs) && i < |kvs|
  {
    Entry(kvs[i].0, payload[Start(kvs, i)..Start(kvs, i + 1)])
  }

  /** The lengths in a batch cut its payload into values, one after the other. */
  function Entries(kvs: seq<(int, nat)>, payload: seq<Byte>): seq<Entry>
    requires Covers(payload, kvs)
  {
    seq(|kvs|, i requires 0 <= i < |kvs| => EntryAt(kvs, payload, i))
  }

  /** The values of some entries, one after the other. */
  function Payload(entries: seq<Entry>): seq<Byte> {
    if entries == [] then [] else Payload(entries[..|entries| - 1]) + entries[|entries| - 1].val
  }

  /** The entries have the keys and the lengths of the batch. */
  lemma EntriesAre(kvs: seq<(int, nat)>, payload: seq<Byte>, i: nat)
    requires Covers(payload, kvs) && i < |kvs|
    ensures |Entries(kvs, payload)| == |kvs|
    ensures Entries(kvs, payload)[i].key == kvs[i].0 && |Entries(kvs, payload)[i].val| == kvs[i].1
  {
  }

  lemma Taken(payload: seq<Byte>, a: nat, b: nat)
    requires a <= b <= |payload|
    ensures payload[..a] + payload[a..b] == payload[..b]
  {
  }

  /** Their values put together are the payload. */
  lemma {:induction false} EntriesCut(kvs: seq<(int, nat)>, payload: seq<Byte>, n: nat)
    requires Covers(payload, kvs) && n <= |kvs|
    ensures Payload(Entries(kvs, payload)[..n]) == payload[..Start(kvs, n)]
  {
    if n > 0 {
      var entries := Entries(kvs, payload);
      EntriesCut(kvs, payload, n - 1);
      assert entries[..n][..n - 1] == entries[..n - 1] && entries[..n][n - 1] == EntryAt(kvs, payload, n - 1);
      Taken(payload, Start(kvs, n - 1), Start(kvs, n));
    }
  }

  class LogEngine {
    var data: seq<Byte>
    var meta: seq<Byte>
    var rawOffset: int
    var metaOffset: int
    var count: int
    var index: map<int, Extent>

    function State(): Store
      reads this
    {
      Store(data, meta, rawOffset, metaOffset, count, index)
    }

    /** An engine object over the files on disk, not opened yet. */
    constructor (data: seq<Byte>, meta: seq<Byte>)
      ensures State() == Store(data, meta, 0, 0, 0, map[])
    {
      this.data, this.meta := data, meta;
      rawOffset, metaOffset, count, index := 0, 0, 0, map[];
    }

    /**
     A snapshot, if both its files exist, replaces the files; then they are opened and the index records
     are replayed, up to the first that cannot be read.
     */
    method CreatOrLoad(snapshot: Option<Disk>, opensData: bool, opensMeta: bool, readable: nat) returns (ok: bool)
      modifies this
      ensures DiskOf(State()) == if snapshot.Some? then snapshot.value else old(DiskOf(State()))
      ensures !(opensData && opensMeta) ==>
                !ok && State() == old(State()).(data := data, meta := meta)
      ensures opensData && opensMeta ==>
                && (ok <==> |meta| / RECORD_SIZE <= readable)
                && State() == Load(data, meta, old(index)).(
                                index := Replay(meta, if ok then |meta| / RECORD_SIZE else readable, old(index)))
    {
      if snapshot.Some? {
        data, meta := snapshot.value.data, snapshot.value.meta;
      }
      if !opensData || !opensMeta {
        return false;
      }
      rawOffset := |data|;
      metaOffset := |meta|;
      count := metaOffset / RECORD_SIZE;
      ok := ReplayRecords(readable);
    }

    /** The loop over the index records. */
    method ReplayRecords(readable: nat) returns (ok: bool)
      requires count == |meta| / RECORD_SIZE
      modifies this`index
      ensures ok <==> count <= readable
      ensures index == Replay(meta, if ok then count else readable, old(index))
    {
      var i := 0;
      while i < count
        invariant 0 <= i <= count && i <= readable && index == Replay(meta, i, old(index))
      {
        if i >= readable {
          return false;
        }
        var rec := RecordAt(meta, i);
        index := index[rec.key := Extent(rec.off, rec.len)];
        i := i + 1;
      }
      return true;
    }

    /** One batch; what it means for the contents is `AddAllCorrect`. */
    method BatchAdd(kvs: seq<(int, nat)>, payload: seq<Byte>, ios: seq<Io>) returns (ok: bool)
      requires Covers(payload, kvs) && |ios| == |kvs|
      requires 0 <= rawOffset && 0 <= metaOffset && Admissible(rawOffset, Entries(kvs, payload))
      modifies this
      ensures (State(), ok) == AddAll(old(State()), Entries(kvs, payload), ios)
    {
      ghost var entries := Entries(kvs, payload);
      ghost var done := AddAll(State(), entries, ios);
      assert entries[0..] == entries && ios[0..] == ios;
      var i, allLen := 0, 0;
      while i < |kvs|
        invariant 0 <= i <= |kvs| && allLen == Start(kvs, i)
        invariant Left(State(), entries, ios, i, done)
      {
        NextRound(State(), entries, ios, i, done);
        var added := AddEntry(kvs[i].0, payload[allLen..Start(kvs, i + 1)], ios[i]);
        if !added {
          return false;
        }
        allLen := allLen + kvs[i].1;
        i := i + 1;
      }
      return true;
    }

    /** One round of the loop of `BatchAdd`: the data, then its record, then the index. */
    method AddEntry(key: int, bytes: seq<Byte>, io: Io) returns (added: bool)
      requires Addable(State(), Entry(key, bytes))
      modifies this
      ensures State() == AddOne(old(State()), Entry(key, bytes), io)
      ensures added <==> Whole(Entry(key, bytes), io)
    {
      data := WriteAt(data, rawOffset, Cut(bytes, io.data));
      if io.data < |bytes| {
        return false;
      }
      meta := WriteAt(meta, metaOffset, Cut(EncodeRecord(Record(key, rawOffset, |bytes|)), io.meta));
      if io.meta < RECORD_SIZE {
        return false;
      }
      index := index[key := Extent(rawOffset, |bytes|)];
      rawOffset := rawOffset + |bytes|;
      metaOffset := metaOffset + RECORD_SIZE;
      count := count + 1;
      return true;
    }

    /** The value last added under the key, or nothing. */
    method Get(key: int) returns (val: seq<Byte>)
      ensures val == if key in Contents(State()) then Contents(State())[key] else []
    {
      if key !in index {
        return [];
      }
      val := ReadAt(data, index[key].off, index[key].len);
    }

    /** A fresh engine given the snapshot has the same contents, if this engine is sound. */
    method Snapshot() returns (files: Disk)
      ensures files == DiskOf(State())
      ensures Sound(State()) ==> Contents(Load(files.data, files.meta, map[])) == Contents(State())
    {
      files := Disk(data, meta);
      if Sound(State()) {
        ghost var recs :| Valid(State(), recs);
        ReloadValid(State(), recs);
      }
    }

    /** Deleting leaves what opening two empty files gives. */
    method Delete()
      modifies this
      ensures State() == Load([], [], map[])
    {
      index := map[];
      count, metaOffset, rawOffset := 0, 0, 0;
      data, meta := [], [];
    }
  }

  /** The entries from i on are all that is left of a batch that ends as `done`. */
  ghost predicate Left(st: Store, entries: seq<Entry>, ios: seq<Io>, i: nat, done: (Store, bool)) {
    && i <= |entries| == |ios|
    && 0 <= st.rawOffset && 0 <= st.metaOffset && Admissible(st.rawOffset, entries[i..])
    && AddAll(st, entries[i..], ios[i..]) == done
  }

  lemma NextRound(st: Store, entries: seq<Entry>, ios: seq<Io>, i: nat, done: (Store, bool))
    requires Left(st, entries, ios, i, done) && i < |entries|
    ensures Addable(st, entries[i])
    ensures var st' := AddOne(st, entries[i], ios[i]);
            if Whole(entries[i], ios[i]) then Left(st', entries, ios, i + 1, done) else done == (st', false)
  {
    assert entries[i..][1..] == entries[i + 1..] && ios[i..][1..] == ios[i + 1..];
  }
}
