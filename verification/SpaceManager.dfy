/**
 The router's table of spaces: connections in numbered slots, and an index from
 space keys to slots. Writers are serialized by a lock; a reader takes the slot from
 the index and then reads the slot, with writers free to run in between.
 */
module SpaceManager {
  import opened SlotMap
  import opened Text
  import opened Wrappers
  import Keys
  import PsNode

  /** The key under which the router knows a space. */
  function KeyOf(name: PsNode.SpaceName): string {
    Keys.DashKey(name.db, name.space)
  }

  datatype Connection = Connection(key: string, name: PsNode.SpaceName, partitions: nat)

  predicate Proper(conn: Connection) {
    conn.key == KeyOf(conn.name)
  }

  /** A connection knows its database and space, and has their key. */
  type Conn = conn: Connection | Proper(conn) witness Connection("-", PsNode.UNNAMED, 0)

  function Connect(name: PsNode.SpaceName, partitions: nat): Conn {
    Connection(KeyOf(name), name, partitions)
  }

  /** The names of two spaces that the router cannot tell apart. */
  ghost predicate Straddle(a: PsNode.SpaceName, b: PsNode.SpaceName) {
    Keys.Straddles(a.db, a.space, b.db, b.space) || Keys.Straddles(b.db, b.space, a.db, a.space)
  }

  lemma SameKeyIff(a: PsNode.SpaceName, b: PsNode.SpaceName)
    ensures KeyOf(a) == KeyOf(b) <==> a == b || Straddle(a, b)
    ensures Straddle(a, b) ==> a != b
  {
    Keys.DashKeysEqualIff(a.db, a.space, b.db, b.space);
  }

  /** The router's state, with the index as the map it stands for. */
  datatype Manager = Manager(conns: seq<Option<Conn>>, capacity: nat, live: map<string, nat>)

  /** Hash function and number of buckets of the index. */
  datatype Hashing = Hashing(hash: string -> nat, buckets: nat)

  /** The number of buckets of the router's index. */
  const BUCKETS := 500

  const SLOT_LIMIT := 0x1_0000

  /** A slot number as the index stores it, in 16 bits. */
  function ToInt16(i: nat): int {
    var low := i % SLOT_LIMIT;
    if low < 0x8000 then low else low - SLOT_LIMIT
  }

  /** The first empty slot, or the number of slots. */
  function FirstFree(conns: seq<Option<Conn>>): (i: nat)
    ensures i <= |conns| && (i < |conns| ==> conns[i] == None)
    ensures forall j | 0 <= j < i :: conns[j].Some?
  {
    if conns == [] || conns[0] == None then 0 else 1 + FirstFree(conns[1..])
  }

  /** Putting a connection into a slot and its key into the index; the index may refuse, unnoticed. */
  ghost function Store(h: Hashing, m: Manager, i: nat, conn: Conn): Manager
    requires h.buckets > 0 && i <= |m.conns|
  {
    Manager(if i < |m.conns| then m.conns[i := Some(conn)] else m.conns + [Some(conn)], m.capacity,
            DoMap(h.hash, h.buckets, m.live, Put(conn.key, ToInt16(i))).0)
  }

  ghost function Added(h: Hashing, m: Manager, conn: Conn): (Manager, bool)
    requires h.buckets > 0
  {
    var i := FirstFree(m.conns);
    if conn.key in m.live || (i == |m.conns| && i >= m.capacity) then (m, false)
    else (Store(h, m, i, conn), true)
  }

  ghost function Removed(m: Manager, key: string): (Manager, bool) {
    if key !in m.live then (m, false)
    else
      var conns := if m.live[key] < |m.conns| then m.conns[m.live[key] := None] else m.conns;
      (Manager(conns, m.capacity, m.live - {key}), true)
  }

  /** Start-up: every space known to the cluster is pushed, whatever the capacity reserved. */
  ghost function Load(h: Hashing, capacity: nat, spaces: seq<Conn>): Manager
    requires h.buckets > 0
    decreases |spaces|
  {
    if spaces == [] then Manager([], capacity, map[])
    else
      var m := Load(h, capacity, spaces[..|spaces| - 1]);
      Store(h, m, |m.conns|, spaces[|spaces| - 1])
  }

  datatype Change = Add(conn: Conn) | Remove(key: string)

  ghost function Do1(h: Hashing, m: Manager, change: Change): Manager
    requires h.buckets > 0
  {
    match change
    case Add(conn) => Added(h, m, conn).0
    case Remove(key) => Removed(m, key).0
  }

  ghost function Changed(h: Hashing, m: Manager, changes: seq<Change>): Manager
    requires h.buckets > 0
    decreases |changes|
  {
    if changes == [] then m else Changed(h, Do1(h, m, changes[0]), changes[1..])
  }

  // ---- every key in use finds its own connection ----

  ghost predicate Holds(m: Manager, key: string, i: nat) {
    i < |m.conns| && m.conns[i].Some? && m.conns[i].value.key == key
  }

  ghost predicate Sound(m: Manager) {
    && |m.conns| <= m.capacity
    && (forall key | key in m.live :: Holds(m, key, m.live[key]))
  }

  /** Two keys in use never share a slot. */
  lemma SlotsDistinct(m: Manager, a: string, b: string)
    requires Sound(m) && a in m.live && b in m.live && m.live[a] == m.live[b]
    ensures a == b
  {
    assert Holds(m, a, m.live[a]) && Holds(m, b, m.live[b]);
  }

  lemma StoreSound(h: Hashing, m: Manager, i: nat, conn: Conn)
    requires h.buckets > 0 && Sound(m) && i < m.capacity && i < SLOT_LIMIT
    requires i == |m.conns| || (i < |m.conns| && m.conns[i] == None)
    ensures Sound(Store(h, m, i, conn))
  {
    var m' := Store(h, m, i, conn);
    forall key | key in m'.live
      ensures Holds(m', key, m'.live[key])
    {
      if key in m.live && m'.live[key] == m.live[key] {
        assert Holds(m, key, m.live[key]);
      }
    }
  }

  lemma Do1Sound(h: Hashing, m: Manager, change: Change)
    requires h.buckets > 0 && Sound(m) && (change.Add? ==> m.capacity <= SLOT_LIMIT)
    ensures Sound(Do1(h, m, change)) && Do1(h, m, change).capacity == m.capacity
  {
    match change {
      case Add(conn) =>
        if Added(h, m, conn).1 {
          StoreSound(h, m, FirstFree(m.conns), conn);
        }
      case Remove(key) =>
        var m' := Removed(m, key).0;
        forall k | k in m'.live
          ensures Holds(m', k, m'.live[k])
        {
          assert Holds(m, k, m.live[k]);
          if key in m.live && m.live[k] == m.live[key] {
            SlotsDistinct(m, k, key);
          }
        }
    }
  }

  lemma {:induction false} ChangedSound(h: Hashing, m: Manager, changes: seq<Change>)
    requires h.buckets > 0 && Sound(m) && m.capacity <= SLOT_LIMIT
    ensures Sound(Changed(h, m, changes))
    decreases |changes|
  {
    if changes != [] {
      Do1Sound(h, m, changes[0]);
      ChangedSound(h, Do1(h, m, changes[0]), changes[1..]);
    }
  }

  lemma {:induction false} LoadSound(h: Hashing, capacity: nat, spaces: seq<Conn>)
    requires h.buckets > 0 && |spaces| <= capacity <= SLOT_LIMIT
    ensures Sound(Load(h, capacity, spaces))
    ensures |Load(h, capacity, spaces).conns| == |spaces| && Load(h, capacity, spaces).capacity == capacity
    decreases |spaces|
  {
    if spaces != [] {
      LoadSound(h, capacity, spaces[..|spaces| - 1]);
      StoreSound(h, Load(h, capacity, spaces[..|spaces| - 1]), |spaces| - 1, spaces[|spaces| - 1]);
    }
  }

  // ---- what the router can be given ----

  predicate ValidSpace(name: PsNode.SpaceName) {
    Keys.ValidName(name.db) && Keys.ValidName(name.space)
  }

  /** Spaces as etcd lists them: each once, with valid names. */
  ghost predicate Given(spaces: seq<Conn>) {
    && (forall i | 0 <= i < |spaces| :: ValidSpace(spaces[i].name))
    && (forall i, j | 0 <= i < j < |spaces| :: spaces[i].name != spaces[j].name)
  }

  ghost predicate Ordinary(changes: seq<Change>) {
    forall i | 0 <= i < |changes| :: changes[i].Add? ==> ValidSpace(changes[i].conn.name)
  }

  /** Over every start-up with room for its spaces and every later run of additions and removals. */
  ghost predicate AlwaysSound(capacity: nat) {
    forall h: Hashing, spaces: seq<Conn>, changes: seq<Change>
      | h.buckets == BUCKETS && |spaces| <= capacity && Given(spaces) && Ordinary(changes) ::
      Sound(Changed(h, Load(h, capacity, spaces), changes))
  }

  // ---- where 16 bits run out ----

  /** One key in a bucket of its own, all others in another. */
  function Apart(last: string): Hashing {
    Hashing((key: string) => if key == last then 1 else 0, BUCKETS)
  }

  /** When all spaces crowd into one bucket, only the first of them is in the index. */
  lemma {:induction false} LoadCrowded(last: string, capacity: nat, spaces: seq<Conn>)
    requires spaces != [] && forall i | 0 <= i < |spaces| :: spaces[i].key != last
    ensures var m := Load(Apart(last), capacity, spaces);
            |m.conns| == |spaces| && m.conns[0] == Some(spaces[0]) && m.live == map[spaces[0].key := 0]
    decreases |spaces|
  {
    var h, n := Apart(last), |spaces| - 1;
    var before := Load(h, capacity, spaces[..n]);
    if n > 0 {
      LoadCrowded(last, capacity, spaces[..n]);
      assert spaces[0].key in before.live;
      assert Occupied(h.hash, BUCKETS, before.live, spaces[n].key);
    } else {
      assert !Occupied(h.hash, BUCKETS, before.live, spaces[0].key);
    }
  }

  /** The space after the last number that fits takes the slot of the first one. */
  lemma LoadAliases(capacity: nat, all: seq<Conn>)
    requires |all| == SLOT_LIMIT + 1 && forall i | 0 <= i < SLOT_LIMIT :: all[i].key != all[SLOT_LIMIT].key
    ensures !Sound(Load(Apart(all[SLOT_LIMIT].key), capacity, all))
  {
    var last, spaces := all[SLOT_LIMIT], all[..SLOT_LIMIT];
    var h := Apart(last.key);
    LoadCrowded(last.key, capacity, spaces);
    var m, m' := Load(h, capacity, spaces), Load(h, capacity, all);
    assert m' == Store(h, m, SLOT_LIMIT, last);
    assert !Occupied(h.hash, BUCKETS, m.live, last.key);
    assert m'.live[last.key] == 0 && !Holds(m', last.key, 0);
  }

  lemma UnsoundLoad(capacity: nat, h: Hashing, spaces: seq<Conn>)
    requires h.buckets == BUCKETS && |spaces| <= capacity && Given(spaces) && !Sound(Load(h, capacity, spaces))
    ensures !AlwaysSound(capacity)
  {
    assert Ordinary([]);
    assert Changed(h, Load(h, capacity, spaces), []) == Load(h, capacity, spaces);
  }

  /** A supply of different spaces: one database with numbered spaces. */
  function Numbered(i: nat): PsNode.SpaceName {
    PsNode.SpaceName("images", "vector" + Digits(i))
  }

  lemma NumberedValid(i: nat)
    ensures ValidSpace(Numbered(i))
  {
    var space := "vector" + Digits(i);
    assert forall k | 0 <= k < |space| :: Keys.IsNameChar(space[k]);
  }

  lemma NumberedApart(i: nat, j: nat)
    requires i != j
    ensures Numbered(i) != Numbered(j) && KeyOf(Numbered(i)) != KeyOf(Numbered(j))
  {
    var a, b := KeyOf(Numbered(i)), KeyOf(Numbered(j));
    assert a[13..] == Digits(i) && b[13..] == Digits(j);
    assert Numbered(i).space[6..] == Digits(i) && Numbered(j).space[6..] == Digits(j);
    DigitsRoundTrip(i);
    DigitsRoundTrip(j);
  }

  lemma NumberedSpaces(n: nat) returns (spaces: seq<Conn>)
    ensures |spaces| == n && Given(spaces)
    ensures forall i, j | 0 <= i < j < n :: spaces[i].key != spaces[j].key
  {
    spaces := seq(n, i requires 0 <= i < n => Connect(Numbered(i), 1));
    forall i, j | 0 <= i < j < |spaces|
      ensures spaces[i].key != spaces[j].key && spaces[i].name != spaces[j].name
    {
      NumberedApart(i, j);
    }
    forall i | 0 <= i < |spaces|
      ensures ValidSpace(spaces[i].name)
    {
      NumberedValid(i);
    }
  }

  /** With more slots than 16 bits can number, spaces can be loaded so that a key has the slot of another space. */
  lemma AliasedSlot(capacity: nat)
    requires capacity > SLOT_LIMIT
    ensures !AlwaysSound(capacity)
  {
    var all := NumberedSpaces(SLOT_LIMIT + 1);
    LoadAliases(capacity, all);
    UnsoundLoad(capacity, Apart(all[SLOT_LIMIT].key), all);
  }

  /** The table stays sound in every run exactly when it has at most 65536 slots. */
  lemma AlwaysSoundIff(capacity: nat)
    ensures AlwaysSound(capacity) <==> capacity <= SLOT_LIMIT
  {
    if capacity <= SLOT_LIMIT {
      forall h: Hashing, spaces: seq<Conn>, changes: seq<Change>
        | h.buckets == BUCKETS && |spaces| <= capacity && Given(spaces) && Ordinary(changes)
        ensures Sound(Changed(h, Load(h, capacity, spaces), changes))
      {
        LoadSound(h, capacity, spaces);
        ChangedSound(h, Load(h, capacity, spaces), changes);
      }
    } else {
      AliasedSlot(capacity);
    }
  }

  // ---- when a space is added, and where ----

  /** There is a slot for one more space: an empty one, or room for a new one. */
  ghost predicate HasRoom(conns: seq<Option<Conn>>, capacity: nat) {
    |conns| < capacity || exists i | 0 <= i < |conns| :: conns[i] == None
  }

  /** One slot changed, the first empty one or a new last one, and it holds the connection. */
  ghost predicate TookSlot(before: seq<Option<Conn>>, after: seq<Option<Conn>>, i: nat, conn: Conn) {
    && i <= |before| && |after| == (if i < |before| then |before| else |before| + 1)
    && (forall j | 0 <= j < i :: before[j].Some?) && (i < |before| ==> before[i] == None)
    && (forall j | 0 <= j < |after| :: after[j] == if j == i then Some(conn) else before[j])
  }

  /** An addition succeeds exactly for a key not in use with room for it, takes one slot, and else changes nothing. */
  lemma AddedIff(h: Hashing, m: Manager, conn: Conn)
    requires h.buckets > 0
    ensures Added(h, m, conn).1 <==> conn.key !in m.live && HasRoom(m.conns, m.capacity)
    ensures Added(h, m, conn).1 ==> exists i :: TookSlot(m.conns, Added(h, m, conn).0.conns, i, conn)
    ensures !Added(h, m, conn).1 ==> Added(h, m, conn).0 == m
  {
    var i := FirstFree(m.conns);
    if Added(h, m, conn).1 {
      assert TookSlot(m.conns, Added(h, m, conn).0.conns, i, conn);
    }
    if i < |m.conns| {
      assert m.conns[i] == None;
    }
  }

  /** Start-up gives every space its own slot, in the order of the list. */
  lemma {:induction false} LoadedSlots(h: Hashing, capacity: nat, spaces: seq<Conn>)
    requires h.buckets > 0
    ensures var conns := Load(h, capacity, spaces).conns;
            |conns| == |spaces| && forall i | 0 <= i < |spaces| :: conns[i] == Some(spaces[i])
    decreases |spaces|
  {
    if spaces != [] {
      LoadedSlots(h, capacity, spaces[..|spaces| - 1]);
    }
  }

  /** No earlier space of the list has the bucket of space i. */
  ghost predicate FirstOfBucket(h: Hashing, spaces: seq<Conn>, i: nat)
    requires h.buckets > 0 && i < |spaces|
  {
    forall j | 0 <= j < i :: Slot(h.hash, h.buckets, spaces[j].key) != Slot(h.hash, h.buckets, spaces[i].key)
  }

  /** Space i, if it is the first of its bucket and its number has 15 bits, is in the index under that number. */
  ghost predicate Indexed(h: Hashing, live: map<string, nat>, spaces: seq<Conn>, i: nat)
    requires h.buckets > 0 && i < |spaces|
  {
    i < 0x8000 && FirstOfBucket(h, spaces, i) ==> spaces[i].key in live && live[spaces[i].key] == i
  }

  /** A number in the index is that of such a space. */
  ghost predicate Numbers(h: Hashing, i: nat, spaces: seq<Conn>, key: string)
    requires h.buckets > 0
  {
    i < |spaces| && i < 0x8000 && FirstOfBucket(h, spaces, i) && spaces[i].key == key
  }

  /** The index after start-up: the numbers of the spaces that are the first of their buckets. */
  ghost predicate IndexLoaded(h: Hashing, live: map<string, nat>, spaces: seq<Conn>)
    requires h.buckets > 0
  {
    && (forall i | 0 <= i < |spaces| :: Indexed(h, live, spaces, i))
    && (forall key | key in live :: Numbers(h, live[key], spaces, key))
  }

  lemma FrontAgrees(h: Hashing, live: map<string, nat>, spaces: seq<Conn>, n: nat, i: nat)
    requires h.buckets > 0 && i < n < |spaces|
    ensures FirstOfBucket(h, spaces[..n], i) <==> FirstOfBucket(h, spaces, i)
    ensures Indexed(h, live, spaces[..n], i) <==> Indexed(h, live, spaces, i)
  {
    var front := spaces[..n];
    assert forall j | 0 <= j <= i :: front[j] == spaces[j];
  }

  /** What is known of the earlier spaces is known in the longer list. */
  lemma FrontLoaded(h: Hashing, live: map<string, nat>, spaces: seq<Conn>, n: nat)
    requires h.buckets > 0 && n < |spaces| && IndexLoaded(h, live, spaces[..n])
    ensures forall i | 0 <= i < n :: Indexed(h, live, spaces, i)
    ensures forall key | key in live :: Numbers(h, live[key], spaces, key)
  {
    forall i | 0 <= i < n
      ensures Indexed(h, live, spaces, i)
    {
      FrontAgrees(h, live, spaces, n, i);
    }
    forall key | key in live
      ensures Numbers(h, live[key], spaces, key)
    {
      assert Numbers(h, live[key], spaces[..n], key);
      FrontAgrees(h, live, spaces, n, live[key]);
    }
  }

  /** The bucket of the next space is free exactly when no earlier one has it, below the numbers that do not fit. */
  lemma {:induction false} BucketFree(h: Hashing, live: map<string, nat>, spaces: seq<Conn>, n: nat)
    requires h.buckets > 0 && n < |spaces| && n < 0x8000 && IndexLoaded(h, live, spaces[..n])
    ensures Occupied(h.hash, h.buckets, live, spaces[n].key) <==> !FirstOfBucket(h, spaces, n)
  {
    FrontLoaded(h, live, spaces, n);
    if Occupied(h.hash, h.buckets, live, spaces[n].key) {
      var other :| other in live && Slot(h.hash, h.buckets, other) == Slot(h.hash, h.buckets, spaces[n].key);
      assert Numbers(h, live[other], spaces[..n], other);
      assert spaces[live[other]].key == other;
    }
    if !FirstOfBucket(h, spaces, n) {
      var j := EarliestIn(h, spaces, n);
      assert Indexed(h, live, spaces, j);
    }
  }

  /** The first space with the bucket of space n. */
  lemma {:induction false} EarliestIn(h: Hashing, spaces: seq<Conn>, n: nat) returns (j: nat)
    requires h.buckets > 0 && n < |spaces|
    ensures j <= n && FirstOfBucket(h, spaces, j)
    ensures Slot(h.hash, h.buckets, spaces[j].key) == Slot(h.hash, h.buckets, spaces[n].key)
    ensures !FirstOfBucket(h, spaces, n) ==> j < n
  {
    if FirstOfBucket(h, spaces, n) {
      j := n;
    } else {
      var k :| 0 <= k < n && Slot(h.hash, h.buckets, spaces[k].key) == Slot(h.hash, h.buckets, spaces[n].key);
      j := EarliestIn(h, spaces, k);
    }
  }

  /** The next space gets into the index. */
  lemma IndexMore(h: Hashing, live: map<string, nat>, spaces: seq<Conn>, n: nat)
    requires h.buckets > 0 && n == |spaces| - 1 && n < 0x8000 && IndexLoaded(h, live, spaces[..n])
    requires FirstOfBucket(h, spaces, n)
    ensures IndexLoaded(h, live[spaces[n].key := n], spaces)
  {
    FrontLoaded(h, live, spaces, n);
    var more := live[spaces[n].key := n];
    forall i: nat | i < |spaces|
      ensures Indexed(h, more, spaces, i)
    {
      if i < n {
        assert Indexed(h, live, spaces, i) && spaces[i].key != spaces[n].key;
      }
    }
  }

  /** The next space does not get into the index. */
  lemma IndexSame(h: Hashing, live: map<string, nat>, spaces: seq<Conn>, n: nat)
    requires h.buckets > 0 && n == |spaces| - 1 && IndexLoaded(h, live, spaces[..n])
    requires n >= 0x8000 || !FirstOfBucket(h, spaces, n)
    ensures IndexLoaded(h, live, spaces)
  {
    FrontLoaded(h, live, spaces, n);
  }

  lemma IndexNext(h: Hashing, m: Manager, spaces: seq<Conn>)
    requires h.buckets > 0 && 0 < |spaces| <= SLOT_LIMIT && |m.conns| == |spaces| - 1
    requires IndexLoaded(h, m.live, spaces[..|spaces| - 1])
    ensures IndexLoaded(h, Store(h, m, |spaces| - 1, spaces[|spaces| - 1]).live, spaces)
  {
    var n := |spaces| - 1;
    if n < 0x8000 {
      BucketFree(h, m.live, spaces, n);
    }
    if n < 0x8000 && FirstOfBucket(h, spaces, n) {
      IndexMore(h, m.live, spaces, n);
    } else {
      IndexSame(h, m.live, spaces, n);
    }
  }

  lemma {:induction false} LoadedIndex(h: Hashing, capacity: nat, spaces: seq<Conn>)
    requires h.buckets > 0 && |spaces| <= SLOT_LIMIT
    ensures IndexLoaded(h, Load(h, capacity, spaces).live, spaces)
    decreases |spaces|
  {
    if spaces != [] {
      LoadedSlots(h, capacity, spaces[..|spaces| - 1]);
      LoadedIndex(h, capacity, spaces[..|spaces| - 1]);
      IndexNext(h, Load(h, capacity, spaces[..|spaces| - 1]), spaces);
    }
  }

  /** A space loaded at start-up is found exactly when it is the first of its bucket and its number has 15 bits. */
  lemma LoadedFoundIff(h: Hashing, capacity: nat, spaces: seq<Conn>, i: nat)
    requires h.buckets > 0 && |spaces| <= SLOT_LIMIT && Given(spaces) && i < |spaces|
    ensures Finds(Load(h, capacity, spaces), spaces[i]) <==> i < 0x8000 && FirstOfBucket(h, spaces, i)
  {
    LoadedSlots(h, capacity, spaces);
    LoadedIndex(h, capacity, spaces);
    var m := Load(h, capacity, spaces);
    assert Indexed(h, m.live, spaces, i);
    if Finds(m, spaces[i]) {
      assert Numbers(h, m.live[spaces[i].key], spaces, spaces[i].key);
      assert spaces[m.live[spaces[i].key]] == spaces[i];
    }
  }

  // ---- when an added space can be found ----

  ghost predicate Finds(m: Manager, conn: Conn) {
    conn.key in m.live && m.live[conn.key] < |m.conns| && m.conns[m.live[conn.key]] == Some(conn)
  }

  /** An addition that reports success is findable exactly when its bucket was free and its slot has a 15-bit number. */
  lemma AddedFoundIff(h: Hashing, m: Manager, conn: Conn)
    requires h.buckets > 0 && m.capacity <= SLOT_LIMIT && Sound(m) && Added(h, m, conn).1
    ensures Finds(Added(h, m, conn).0, conn) <==>
              !Occupied(h.hash, h.buckets, m.live, conn.key) && FirstFree(m.conns) < 0x8000
  {
  }

  /** A connection in a slot that the index does not give for its key. */
  ghost predicate Stranded(m: Manager, i: nat, conn: Conn) {
    i < |m.conns| && m.conns[i] == Some(conn) && (conn.key in m.live ==> m.live[conn.key] != i)
  }

  lemma AddStrands(h: Hashing, m: Manager, conn: Conn)
    requires h.buckets > 0 && Sound(m) && m.capacity <= SLOT_LIMIT
    requires Added(h, m, conn).1 && !Finds(Added(h, m, conn).0, conn)
    ensures Stranded(Added(h, m, conn).0, FirstFree(m.conns), conn)
  {
  }

  /** A stranded connection keeps its slot whatever is added or removed later: the slot is lost. */
  lemma {:induction false} StrandedForever(h: Hashing, m: Manager, i: nat, conn: Conn, changes: seq<Change>)
    requires h.buckets > 0 && Sound(m) && m.capacity <= SLOT_LIMIT && Stranded(m, i, conn)
    ensures Stranded(Changed(h, m, changes), i, conn)
    decreases |changes|
  {
    if changes != [] {
      var m' := Do1(h, m, changes[0]);
      Do1Sound(h, m, changes[0]);
      if changes[0].Remove? && changes[0].key in m.live {
        assert Holds(m, changes[0].key, m.live[changes[0].key]);
      }
      StrandedForever(h, m', i, conn, changes[1..]);
    }
  }

  // ---- a lookup in two reads ----

  /** The change puts a connection into the slot. */
  ghost predicate Reuses(h: Hashing, m: Manager, change: Change, i: nat)
    requires h.buckets > 0
  {
    change.Add? && Added(h, m, change.conn).1 && FirstFree(m.conns) == i
  }

  ghost predicate NeverReused(h: Hashing, m: Manager, changes: seq<Change>, i: nat)
    requires h.buckets > 0
    decreases |changes|
  {
    changes != [] ==> !Reuses(h, m, changes[0], i) && NeverReused(h, Do1(h, m, changes[0]), changes[1..], i)
  }

  lemma {:induction false} SlotKept(h: Hashing, m: Manager, changes: seq<Change>, i: nat)
    requires h.buckets > 0 && i < |m.conns| && NeverReused(h, m, changes, i)
    ensures i < |Changed(h, m, changes).conns|
    ensures Changed(h, m, changes).conns[i] == m.conns[i] || Changed(h, m, changes).conns[i] == None
    decreases |changes|
  {
    if changes != [] {
      SlotKept(h, Do1(h, m, changes[0]), changes[1..], i);
    }
  }

  /**
   Between a reader's two reads any changes may happen: as long as none of them reuses the slot, the reader
   gets the connection that was there, or none. That connection is of the space it asked for, or of one whose
   names straddle those it asked for.
   */
  lemma LookupSafe(h: Hashing, m: Manager, name: PsNode.SpaceName, changes: seq<Change>)
    requires h.buckets > 0 && Sound(m) && KeyOf(name) in m.live && NeverReused(h, m, changes, m.live[KeyOf(name)])
    ensures var i, conns := m.live[KeyOf(name)], Changed(h, m, changes).conns;
            i < |conns| && (conns[i] == None || conns[i] == m.conns[i])
    ensures Holds(m, KeyOf(name), m.live[KeyOf(name)])
    ensures var found := m.conns[m.live[KeyOf(name)]].value.name; found == name || Straddle(name, found)
  {
    assert Holds(m, KeyOf(name), m.live[KeyOf(name)]);
    SlotKept(h, m, changes, m.live[KeyOf(name)]);
    SameKeyIff(name, m.conns[m.live[KeyOf(name)]].value.name);
  }

  /** What a change does to a slot: nothing, or what it leaves there. */
  ghost function Touch(h: Hashing, m: Manager, change: Change, i: nat): Option<Option<Conn>>
    requires h.buckets > 0
  {
    if Reuses(h, m, change, i) then Some(Some(change.conn))
    else if change.Remove? && change.key in m.live && m.live[change.key] == i then Some(None)
    else None
  }

  /** The last of the changes that touches the slot. */
  ghost function LastTouch(h: Hashing, m: Manager, changes: seq<Change>, i: nat): Option<Option<Conn>>
    requires h.buckets > 0
    decreases |changes|
  {
    if changes == [] then None
    else
      var later := LastTouch(h, Do1(h, m, changes[0]), changes[1..], i);
      if later.Some? then later else Touch(h, m, changes[0], i)
  }

  /** A slot holds what the last change that touched it left there. */
  lemma {:induction false} SlotIsLastTouch(h: Hashing, m: Manager, changes: seq<Change>, i: nat)
    requires h.buckets > 0 && i < |m.conns|
    ensures i < |Changed(h, m, changes).conns|
    ensures var last := LastTouch(h, m, changes, i);
            Changed(h, m, changes).conns[i] == if last.Some? then last.value else m.conns[i]
    decreases |changes|
  {
    if changes != [] {
      SlotIsLastTouch(h, Do1(h, m, changes[0]), changes[1..], i);
    }
  }

  /**
   A reader gets another space exactly when the last change that touched its slot put another space there,
   or none touched it and the space it holds has names that straddle those asked for.
   */
  lemma LookupOtherIff(h: Hashing, m: Manager, name: PsNode.SpaceName, changes: seq<Change>)
    requires h.buckets > 0 && Sound(m) && KeyOf(name) in m.live
    ensures var i := m.live[KeyOf(name)]; Holds(m, KeyOf(name), i) && i < |Changed(h, m, changes).conns|
    ensures var i := m.live[KeyOf(name)];
            var conn, last := Changed(h, m, changes).conns[i], LastTouch(h, m, changes, i);
            conn.Some? && conn.value.name != name <==>
              || (last.Some? && last.value.Some? && last.value.value.name != name)
              || (last.None? && Straddle(name, m.conns[i].value.name))
  {
    var i := m.live[KeyOf(name)];
    assert Holds(m, KeyOf(name), i);
    SlotIsLastTouch(h, m, changes, i);
    SameKeyIff(name, m.conns[i].value.name);
  }

  /** Which happens: a removal and an addition suffice, on a full table. */
  lemma LookupOfReused(h: Hashing, m: Manager, key: string, conn: Conn)
    requires h.buckets > 0 && Sound(m) && key in m.live && conn.key !in m.live && FirstFree(m.conns) == |m.conns|
    ensures var conns := Changed(h, m, [Remove(key), Add(conn)]).conns;
            m.live[key] < |conns| && conns[m.live[key]] == Some(conn) && conn.key != key
  {
    assert Holds(m, key, m.live[key]);
    var m1 := Do1(h, m, Remove(key));
    assert m1.conns[m.live[key]] == None;
    assert FirstFree(m1.conns) == m.live[key];
    assert [Remove(key), Add(conn)][1..] == [Add(conn)];
    assert Changed(h, m1, [Add(conn)]) == Changed(h, Do1(h, m1, Add(conn)), []);
  }

  // ---- spaces that the router takes for each other ----

  /**
   Two spaces whose names straddle, for every hash: with only the first of them loaded, a lookup of the second
   gets the first, adding the second is refused, and deleting it empties the slot of the first.
   */
  lemma StraddlingSpaces(h: Hashing, capacity: nat, a: Conn, b: Conn)
    requires h.buckets > 0 && Straddle(a.name, b.name)
    ensures a.name != b.name
    ensures var m := Load(h, capacity, [a]);
            && b.key in m.live && m.live[b.key] == 0 && m.conns == [Some(a)]
            && Added(h, m, b) == (m, false)
            && Removed(m, b.key).0.conns == [None]
  {
    SameKeyIff(a.name, b.name);
    assert [a][..0] == [];
    assert Load(h, capacity, [a]) == Store(h, Manager([], capacity, map[]), 0, a);
    assert !Occupied(h.hash, h.buckets, map[], a.key);
  }

  /** An uninterrupted lookup finds the space asked for, or none. */
  ghost predicate FindsRight(m: Manager, name: PsNode.SpaceName) {
    KeyOf(name) in m.live ==>
      var i := m.live[KeyOf(name)];
      i < |m.conns| && m.conns[i].Some? && m.conns[i].value.name == name
  }

  ghost predicate DrawnFrom(names: set<PsNode.SpaceName>, spaces: seq<Conn>, changes: seq<Change>) {
    && (forall i | 0 <= i < |spaces| :: spaces[i].name in names)
    && (forall i | 0 <= i < |changes| && changes[i].Add? :: changes[i].conn.name in names)
  }

  ghost predicate AllFrom(names: set<PsNode.SpaceName>, conns: seq<Option<Conn>>) {
    forall i | 0 <= i < |conns| && conns[i].Some? :: conns[i].value.name in names
  }

  lemma {:induction false} LoadFrom(names: set<PsNode.SpaceName>, h: Hashing, capacity: nat, spaces: seq<Conn>)
    requires h.buckets > 0 && forall i | 0 <= i < |spaces| :: spaces[i].name in names
    ensures AllFrom(names, Load(h, capacity, spaces).conns)
    decreases |spaces|
  {
    if spaces != [] {
      LoadFrom(names, h, capacity, spaces[..|spaces| - 1]);
    }
  }

  lemma {:induction false} ChangedFrom(names: set<PsNode.SpaceName>, h: Hashing, m: Manager, changes: seq<Change>)
    requires h.buckets > 0 && AllFrom(names, m.conns)
    requires forall i | 0 <= i < |changes| && changes[i].Add? :: changes[i].conn.name in names
    ensures AllFrom(names, Changed(h, m, changes).conns)
    decreases |changes|
  {
    if changes != [] {
      ChangedFrom(names, h, Do1(h, m, changes[0]), changes[1..]);
    }
  }

  /** Among names that do not straddle, a key in use leads to the space of that name. */
  lemma RightName(names: set<PsNode.SpaceName>, m: Manager, name: PsNode.SpaceName)
    requires Sound(m) && AllFrom(names, m.conns) && forall other | other in names :: !Straddle(name, other)
    ensures FindsRight(m, name)
  {
    if KeyOf(name) in m.live {
      assert Holds(m, KeyOf(name), m.live[KeyOf(name)]);
      SameKeyIff(name, m.conns[m.live[KeyOf(name)]].value.name);
    }
  }

  /** In every run of spaces with these names, every uninterrupted lookup by one of them is right. */
  ghost predicate AlwaysFindsRight(names: set<PsNode.SpaceName>) {
    forall h: Hashing, capacity: nat, spaces: seq<Conn>, changes: seq<Change>, name
      | h.buckets == BUCKETS && |spaces| <= capacity <= SLOT_LIMIT && Given(spaces) && DrawnFrom(names, spaces, changes)
        && name in names ::
      FindsRight(Changed(h, Load(h, capacity, spaces), changes), name)
  }

  lemma WrongLookup(names: set<PsNode.SpaceName>, a: PsNode.SpaceName, b: PsNode.SpaceName)
    requires a in names && b in names && ValidSpace(a) && Straddle(a, b)
    ensures !AlwaysFindsRight(names)
  {
    var h, spaces := Hashing((key: string) => 0, BUCKETS), [Connect(a, 1)];
    var m := Load(h, 1, spaces);
    StraddlingSpaces(h, 1, Connect(a, 1), Connect(b, 1));
    assert Given(spaces) && DrawnFrom(names, spaces, []);
    assert Changed(h, m, []) == m && !FindsRight(m, b);
  }

  /**
   Over every run of spaces drawn from a set of valid names, every uninterrupted lookup returns the space asked
   for or none, exactly when no two names of the set straddle.
   */
  lemma AlwaysFindsRightIff(names: set<PsNode.SpaceName>)
    requires forall name | name in names :: ValidSpace(name)
    ensures AlwaysFindsRight(names) <==> forall a, b | a in names && b in names :: !Straddle(a, b)
  {
    if forall a, b | a in names && b in names :: !Straddle(a, b) {
      forall h: Hashing, capacity: nat, spaces: seq<Conn>, changes: seq<Change>, name
        | h.buckets == BUCKETS && |spaces| <= capacity <= SLOT_LIMIT
          && Given(spaces) && DrawnFrom(names, spaces, changes)
          && name in names
        ensures FindsRight(Changed(h, Load(h, capacity, spaces), changes), name)
      {
        var m := Load(h, capacity, spaces);
        LoadSound(h, capacity, spaces);
        ChangedSound(h, m, changes);
        LoadFrom(names, h, capacity, spaces);
        ChangedFrom(names, h, m, changes);
        RightName(names, Changed(h, m, changes), name);
      }
    } else {
      var a, b :| a in names && b in names && Straddle(a, b);
      WrongLookup(names, a, b);
    }
  }

  // ---- the table as an object ----

  class Spaces {
    const index: OneWriterMultiReaderMap
    var conns: seq<Option<Conn>>
    var capacity: nat

    ghost predicate Valid()
      reads this, index
    {
      index.Valid() && Sound(State())
    }

    ghost function State(): Manager
      reads this, index
    {
      Manager(conns, capacity, index.live)
    }

    ghost function H(): (h: Hashing)
      reads index
      ensures h.buckets > 0
    {
      Hashing(index.hash, |index.buckets|)
    }

    /** An empty table with the room reserved. */
    constructor (hash: string -> nat, capacity: nat)
      ensures fresh(index) && Valid() && State() == Load(H(), capacity, []) && H() == Hashing(hash, BUCKETS)
    {
      index := new OneWriterMultiReaderMap(hash, BUCKETS);
      conns := [];
      this.capacity := capacity;
    }

    method Init(spaces: seq<Conn>)
      requires index.Valid() && State() == Load(H(), capacity, [])
      modifies this, index
      ensures index.Valid() && H() == old(H()) && State() == Load(H(), old(capacity), spaces)
      ensures |spaces| <= capacity <= SLOT_LIMIT ==> Valid()
    {
      for i := 0 to |spaces|
        invariant index.Valid() && H() == old(H()) && capacity == old(capacity) && |conns| == i
        invariant State() == Load(H(), capacity, spaces[..i])
      {
        StoreAt(i, spaces[i]);
        assert spaces[..i + 1][..i] == spaces[..i];
      }
      assert spaces[..|spaces|] == spaces;
      if |spaces| <= capacity <= SLOT_LIMIT {
        LoadSound(H(), capacity, spaces);
      }
    }

    method AddSpace(conn: Conn) returns (ok: bool)
      requires index.Valid()
      modifies this, index
      ensures index.Valid() && H() == old(H()) && (State(), ok) == Added(old(H()), old(State()), conn)
      ensures old(Valid()) && capacity <= SLOT_LIMIT ==> Valid()
      ensures ok <==> conn.key !in old(index.live) && HasRoom(old(conns), old(capacity))
      ensures ok ==> exists i :: TookSlot(old(conns), conns, i, conn)
      ensures !ok ==> conns == old(conns) && index.live == old(index.live)
    {
      AddedIff(H(), State(), conn);
      if Sound(State()) && capacity <= SLOT_LIMIT {
        Do1Sound(H(), State(), Add(conn));
      }
      var known := index.Get(conn.key);
      if known >= 0 {
        return false;
      }
      var i := 0;
      while i < |conns| && conns[i] != None
        invariant i <= FirstFree(conns)
      {
        i := i + 1;
      }
      if i == |conns| && i >= capacity {
        return false;
      }
      StoreAt(i, conn);
      return true;
    }

    /** The reuse of an empty slot, or a new slot at the end; either way the index is told and its answer ignored. */
    method StoreAt(i: nat, conn: Conn)
      requires index.Valid() && i <= |conns|
      modifies this, index
      ensures index.Valid() && H() == old(H()) && State() == Store(old(H()), old(State()), i, conn)
    {
      if i < |conns| {
        conns := conns[i := Some(conn)];
      } else {
        conns := conns + [Some(conn)];
      }
      var _ := index.Put(conn.key, ToInt16(i));
    }

    method DeleteSpace(key: string) returns (ok: bool)
      requires Valid()
      modifies this, index
      ensures Valid() && H() == old(H()) && (State(), ok) == Removed(old(State()), key)
    {
      Do1Sound(H(), State(), Remove(key));
      var idx := index.Get(key);
      if idx < 0 {
        return false;
      }
      assert Holds(State(), key, idx);
      var _ := index.Delete(key);
      conns := conns[idx := None];
      return true;
    }

    /** A lookup that no writer interrupts: a connection with that key, if the key is in use. */
    method GetSpaceConn(key: string) returns (conn: Option<Conn>)
      requires Valid()
      ensures conn.Some? <==> |key| > 1 && key in index.live
      ensures conn.Some? ==> conn.value.key == key && Some(conn.value) == conns[index.live[key]]
    {
      if |key| <= 1 {
        return None;
      }
      var idx := index.Get(key);
      if idx < 0 {
        return None;
      }
      assert Holds(State(), key, idx);
      conn := conns[idx];
    }

    /** The lookup of a request, by names: another space is found exactly when its names straddle those asked for. */
    method GetSpaceByName(name: PsNode.SpaceName) returns (conn: Option<Conn>)
      requires Valid()
      ensures conn.Some? <==> |KeyOf(name)| > 1 && KeyOf(name) in index.live
      ensures conn.Some? ==> (conn.value.name != name <==> Straddle(name, conn.value.name))
    {
      conn := GetSpaceConn(KeyOf(name));
      if conn.Some? {
        SameKeyIff(name, conn.value.name);
      }
    }
  }
}
