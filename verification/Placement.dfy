/**
 Placement of a new space: which nodes are idle, how they are dealt out to
 partitions, and how a failed task index is mapped back to a node.
 */
module Placement {
  import opened Wrappers
  import opened Arithmetic
  import Keys

  datatype Replica = Replica(id: int, ip: string, port: int)

  datatype Partition = Partition(id: nat, replicas: seq<Replica>)

  // ---- idle nodes ----

  /** Some map of the list uses the node name. */
  predicate Used(key: string, busy: seq<map<string, Replica>>) {
    exists i | 0 <= i < |busy| :: key in busy[i]
  }

  ghost predicate DistinctKeys(keys: seq<string>) {
    forall i, j | 0 <= i < j < |keys| :: keys[i] != keys[j]
  }

  /**
   Collects every registered node whose name is in none of the maps, each once. The keys
   are the order in which the map happened to be walked.
   */
  method GetAllIdlePsKeys(nodes: map<string, Replica>, busy: seq<map<string, Replica>>)
    returns (idle: seq<Replica>, keys: seq<string>)
    ensures |idle| == |keys| && DistinctKeys(keys)
    ensures forall key :: key in keys <==> key in nodes && !Used(key, busy)
    ensures forall i | 0 <= i < |keys| :: keys[i] in nodes && idle[i] == nodes[keys[i]]
  {
    idle, keys := [], [];
    var rest := nodes.Keys;
    while rest != {}
      invariant rest <= nodes.Keys
      invariant |idle| == |keys| && DistinctKeys(keys)
      invariant forall key :: key in keys <==> key in nodes && key !in rest && !Used(key, busy)
      invariant forall i | 0 <= i < |keys| :: keys[i] in nodes && idle[i] == nodes[keys[i]]
      decreases rest
    {
      var key :| key in rest;
      rest := rest - {key};
      var ok, i := false, 0;
      while i < |busy| && !ok
        invariant 0 <= i <= |busy|
        invariant ok <==> exists j | 0 <= j < i :: key in busy[j]
      {
        ok := key in busy[i];
        i := i + 1;
      }
      if !ok {
        idle := idle + [nodes[key]];
        keys := keys + [key];
      }
    }
  }

  /** How nodes are named in the maps: as the source calls it, by ip and port. */
  type Naming = Replica -> string

  function ByAddress(): Naming {
    (r: Replica) => Keys.NodeName(r.ip, r.port)
  }

  /** The position of the first node with the name, or the length of the list. */
  function FirstNamed(name: Naming, found: seq<Replica>, key: string): (i: nat)
    ensures i <= |found| && (i < |found| ==> name(found[i]) == key)
    ensures forall j | 0 <= j < i :: name(found[j]) != key
  {
    if found == [] || name(found[0]) == key then 0 else 1 + FirstNamed(name, found[1..], key)
  }

  /** What a list of registrations says of a name: the first node that has it. */
  ghost predicate First(name: Naming, nodes: map<string, Replica>, found: seq<Replica>, key: string) {
    var i := FirstNamed(name, found, key);
    if key in nodes then i < |found| && nodes[key] == found[i] else i == |found|
  }

  /** The map holds the first node of each name in the list, and nothing else. */
  ghost predicate Firsts(name: Naming, nodes: map<string, Replica>, found: seq<Replica>) {
    forall key :: First(name, nodes, found, key)
  }

  lemma FirstNext(name: Naming, nodes: map<string, Replica>, found: seq<Replica>, next: Replica, key: string)
    requires First(name, nodes, found, key)
    ensures First(name, if name(next) in nodes then nodes else nodes[name(next) := next], found + [next], key)
  {
    var more := found + [next];
    var i, j := FirstNamed(name, found, key), FirstNamed(name, more, key);
    assert more[|found|] == next && forall k | 0 <= k < |found| :: more[k] == found[k];
    assert i < |found| ==> j == i;
  }

  lemma FirstsNext(name: Naming, nodes: map<string, Replica>, found: seq<Replica>, next: Replica)
    requires Firsts(name, nodes, found)
    ensures Firsts(name, if name(next) in nodes then nodes else nodes[name(next) := next], found + [next])
  {
    var nodes', more := if name(next) in nodes then nodes else nodes[name(next) := next], found + [next];
    forall key
      ensures First(name, nodes', more, key)
    {
      FirstNext(name, nodes, found, next, key);
    }
  }

  /** The first registration of each node name wins; later ones are skipped. */
  method DeserializeNodes(name: Naming, found: seq<Replica>) returns (nodes: map<string, Replica>)
    ensures Firsts(name, nodes, found)
  {
    nodes := map[];
    for k := 0 to |found|
      invariant Firsts(name, nodes, found[..k])
    {
      var key := name(found[k]);
      FirstsNext(name, nodes, found[..k], found[k]);
      assert found[..k + 1] == found[..k] + [found[k]];
      if key in nodes {
        continue;
      }
      nodes := nodes[key := found[k]];
    }
    assert found[..|found|] == found;
  }

  // ---- partitions ----

  /** Tasks are listed partition by partition, replica by replica. */
  function Flatten(parts: seq<Partition>): seq<Replica> {
    if parts == [] then [] else Flatten(parts[..|parts| - 1]) + parts[|parts| - 1].replicas
  }

  /** Where the nodes of partition k start: k * r. */
  function RowStart(k: nat, r: nat): nat {
    if k == 0 then 0 else RowStart(k - 1, r) + r
  }

  lemma {:induction false} RowStartIsProduct(k: nat, r: nat)
    ensures RowStart(k, r) == k * r
  {
    if k > 0 {
      RowStartIsProduct(k - 1, r);
    }
  }

  lemma {:induction false} RowStartMonotonic(k: nat, p: nat, r: nat)
    requires k <= p
    ensures RowStart(k, r) <= RowStart(p, r)
    decreases p - k
  {
    if k < p {
      RowStartMonotonic(k, p - 1, r);
    }
  }

  ghost predicate Row(part: Partition, idle: seq<Replica>, k: nat, r: nat) {
    RowStart(k + 1, r) <= |idle| && part == Partition(k, idle[RowStart(k, r)..RowStart(k + 1, r)])
  }

  /** Partition k is numbered k and has the idle nodes k*r up to (k+1)*r. */
  ghost predicate Assigned(parts: seq<Partition>, idle: seq<Replica>, r: nat) {
    forall k | 0 <= k < |parts| :: Row(parts[k], idle, k, r)
  }

  /** Refused (None) when there are too few idle nodes; otherwise p partitions take the first p * r of them in turn. */
  method CreatePartitions(idle: seq<Replica>, p: nat, r: nat) returns (res: Option<seq<Partition>>)
    ensures res.Some? <==> |idle| >= p * r
    ensures res.Some? ==> |res.value| == p && Assigned(res.value, idle, r)
  {
    if |idle| < p * r {
      return None;
    }
    RowStartIsProduct(p, r);
    var parts: seq<Partition> := [];
    var node := 0;
    for k := 0 to p
      invariant node == RowStart(k, r)
      invariant |parts| == k && Assigned(parts, idle, r)
    {
      RowStartMonotonic(k + 1, p, r);
      var replicas: seq<Replica> := [];
      for j := 0 to r
        invariant node == RowStart(k, r) + j
        invariant replicas == idle[RowStart(k, r)..RowStart(k, r) + j]
      {
        replicas := replicas + [idle[node]];
        node := node + 1;
      }
      parts := parts + [Partition(k, replicas)];
    }
    return Some(parts);
  }

  method CollectTasks(parts: seq<Partition>) returns (tasks: seq<Replica>)
    ensures tasks == Flatten(parts)
  {
    tasks := [];
    for k := 0 to |parts|
      invariant tasks == Flatten(parts[..k])
    {
      var reps := parts[k].replicas;
      var before := tasks;
      for j := 0 to |reps|
        invariant tasks == before + reps[..j]
      {
        tasks := tasks + [reps[j]];
      }
      assert parts[..k + 1][..k] == parts[..k];
    }
    assert parts[..|parts|] == parts;
  }

  /** The task list of a placed space is exactly the idle nodes it took, in order. */
  lemma {:induction false} FlattenAssigned(parts: seq<Partition>, idle: seq<Replica>, r: nat)
    requires Assigned(parts, idle, r)
    ensures RowStart(|parts|, r) <= |idle| && Flatten(parts) == idle[..RowStart(|parts|, r)]
  {
    if parts != [] {
      var k := |parts| - 1;
      var front, a, b := parts[..k], RowStart(k, r), RowStart(k + 1, r);
      assert Row(parts[k], idle, k, r);
      FlattenAssigned(front, idle, r);
      assert Flatten(parts) == idle[..a] + idle[a..b];
      TakeTwice(idle, a, b);
    }
  }

  lemma TakeTwice<T>(s: seq<T>, a: nat, b: nat)
    requires a <= b <= |s|
    ensures s[..a] + s[a..b] == s[..b]
  {
  }

  // ---- nodes in use ----

  /** The replicas of all spaces. */
  function AllReplicas(spaces: seq<seq<Partition>>): seq<Replica> {
    if spaces == [] then [] else AllReplicas(spaces[..|spaces| - 1]) + Flatten(spaces[|spaces| - 1])
  }

  /** Some partition of some space has the replica. */
  ghost predicate InSpaces(spaces: seq<seq<Partition>>, r: Replica) {
    exists s | 0 <= s < |spaces| :: InParts(spaces[s], r)
  }

  ghost predicate InParts(parts: seq<Partition>, r: Replica) {
    exists k | 0 <= k < |parts| :: r in parts[k].replicas
  }

  lemma {:induction false} InFlattenIff(parts: seq<Partition>, r: Replica)
    ensures r in Flatten(parts) <==> InParts(parts, r)
  {
    if parts != [] {
      var front, last := parts[..|parts| - 1], parts[|parts| - 1];
      InFlattenIff(front, r);
      assert parts == front + [last];
      if InParts(front, r) {
        var k :| 0 <= k < |front| && r in front[k].replicas;
        assert r in parts[k].replicas;
      }
    }
  }

  lemma {:induction false} InAllIff(spaces: seq<seq<Partition>>, r: Replica)
    ensures r in AllReplicas(spaces) <==> InSpaces(spaces, r)
  {
    if spaces != [] {
      var front, last := spaces[..|spaces| - 1], spaces[|spaces| - 1];
      InAllIff(front, r);
      InFlattenIff(last, r);
      assert spaces == front + [last];
      if InSpaces(front, r) {
        var s :| 0 <= s < |front| && InParts(front[s], r);
        assert InParts(spaces[s], r);
      }
    }
  }

  /** The keys of the map are the names of the replicas. */
  ghost predicate NamesOf(name: Naming, busy: map<string, Replica>, replicas: seq<Replica>) {
    && (forall r | r in replicas :: name(r) in busy)
    && (forall key | key in busy :: exists r :: r in replicas && name(r) == key)
  }

  /** Adding the names of a list to the map. */
  method PutNames(name: Naming, busy0: map<string, Replica>, ghost before: seq<Replica>, list: seq<Replica>)
      returns (busy: map<string, Replica>)
    requires NamesOf(name, busy0, before)
    ensures NamesOf(name, busy, before + list)
  {
    busy := busy0;
    assert before + list[..0] == before;
    for j := 0 to |list|
      invariant NamesOf(name, busy, before + list[..j])
    {
      NamesNext(name, busy, before + list[..j], list[j]);
      busy := busy[name(list[j]) := list[j]];
      assert before + list[..j + 1] == before + list[..j] + [list[j]];
    }
    assert list[..|list|] == list;
  }

  lemma NamesNext(name: Naming, busy: map<string, Replica>, replicas: seq<Replica>, r: Replica)
    requires NamesOf(name, busy, replicas)
    ensures NamesOf(name, busy[name(r) := r], replicas + [r])
  {
    var busy', more := busy[name(r) := r], replicas + [r];
    assert more[|replicas|] == r && forall k | 0 <= k < |replicas| :: more[k] == replicas[k];
    forall key | key in busy'
      ensures exists x :: x in more && name(x) == key
    {
      if key == name(r) {
        assert r in more;
      } else {
        var x :| x in replicas && name(x) == key;
        assert x in more;
      }
    }
  }

  /** The names of all replicas of all spaces, and no others. */
  method GetAllPsMap(name: Naming, spaces: seq<seq<Partition>>) returns (busy: map<string, Replica>)
    ensures NamesOf(name, busy, AllReplicas(spaces))
    ensures forall key :: key in busy <==> exists r :: InSpaces(spaces, r) && name(r) == key
  {
    busy := map[];
    for k := 0 to |spaces|
      invariant NamesOf(name, busy, AllReplicas(spaces[..k]))
    {
      var replicas := CollectTasks(spaces[k]);
      busy := PutNames(name, busy, AllReplicas(spaces[..k]), replicas);
      assert spaces[..k + 1][..k] == spaces[..k];
    }
    assert spaces[..|spaces|] == spaces;
    forall r ensures r in AllReplicas(spaces) <==> InSpaces(spaces, r) { InAllIff(spaces, r); }
  }

  // ---- failed task indices ----

  /** Dividing a task index by d: the task meant, or None when the slice index is out of range. */
  function DecodeTask(d: nat, p: nat, r: nat, i: nat): Option<nat> {
    if d == 0 || i / d >= p || i % d >= r then None else Some(i / d * r + i % d)
  }

  /** Replica j of partition k is task k*r + j, and dividing by the replica count finds it again. */
  lemma DecodeInverse(p: nat, r: nat, k: nat, j: nat)
    requires k < p && j < r
    ensures k * r + j < p * r
    ensures DecodeTask(r, p, r, k * r + j) == Some(k * r + j)
    ensures (k * r + j) / r == k && (k * r + j) % r == j
  {
    var above := p - k - 1;
    assert above * r == p * r - k * r - r;
    assert above * r >= 0;
    DivMod(k, j, r);
  }

  lemma DecodeByReplicas(p: nat, r: nat, i: nat)
    requires i < p * r
    ensures DecodeTask(r, p, r, i) == Some(i)
  {
    DivLess(i, p, r);
  }

  /** Task p, divided by the partition count as written, is taken for the first replica of partition 1. */
  lemma DecodeSecondRow(p: nat, r: nat)
    requires p >= 2 && r >= 2
    ensures p < p * r && DecodeTask(p, p, r, p) == Some(r)
  {
    assert p * r >= p * 2;
    DivMod(1, 0, p);
  }

  /** As written, every index is decoded to the right task exactly when partitions and replicas are equal in number. */
  lemma DecodeAsWrittenIff(p: nat, r: nat)
    requires p > 0 && r > 0
    ensures (forall i: nat | i < p * r :: DecodeTask(p, p, r, i) == Some(i)) <==> p == r
  {
    if p == r {
      forall i: nat | i < p * r ensures DecodeTask(p, p, r, i) == Some(i) { DecodeByReplicas(p, r, i); }
    } else if p == 1 {
      assert 1 < p * r && DecodeTask(p, p, r, 1) == None;
    } else if r == 1 {
      assert 1 < p * r && DecodeTask(p, p, r, 1) == None by { assert 1 / p == 0 && 1 % p == 1; }
    } else {
      DecodeSecondRow(p, r);
    }
  }

  lemma DecodeSingle(p: nat, r: nat, i: nat)
    requires i < p * r && (p == 1 || r == 1)
    ensures DecodeTask(p, p, r, i) == None || DecodeTask(p, p, r, i) == Some(i)
  {
    if p == 1 {
      assert i / 1 == i;
    } else {
      assert i / p == 0;
    }
  }

  /** As written, no index is ever taken for another task exactly in these cases. */
  lemma DecodeNeverWrongIff(p: nat, r: nat)
    requires p > 0 && r > 0
    ensures (forall i: nat | i < p * r :: DecodeTask(p, p, r, i) == None || DecodeTask(p, p, r, i) == Some(i))
       <==> p == r || p == 1 || r == 1
  {
    if p == r {
      DecodeAsWrittenIff(p, r);
    } else if p == 1 || r == 1 {
      forall i: nat | i < p * r { DecodeSingle(p, r, i); }
    } else {
      DecodeSecondRow(p, r);
    }
  }
}
