/**
 The scan of a create request: what is read from etcd and the maps built from it
 give exactly the idle nodes that the space protocol chooses from.
 */
module DdlScan {
  import opened Wrappers
  import opened Ddl
  import opened PsNode
  import opened Placement
  import Keys

  /** The list holds the nodes of the set, each as often as it likes, and no others. */
  ghost predicate Lists(found: seq<Replica>, nodes: set<Node>, at: Node -> Replica) {
    && (forall r | r in found :: exists n :: n in nodes && at(n) == r)
    && (forall n | n in nodes :: at(n) in found)
  }

  /** Different nodes have different names. */
  ghost predicate Apart(name: Naming, at: Node -> Replica) {
    forall m: Node, n: Node | name(at(m)) == name(at(n)) :: m == n
  }

  /** A map of the listed nodes has exactly their names, each with its own node. */
  lemma ListedNames(name: Naming, nodes: map<string, Replica>, found: seq<Replica>, listed: set<Node>,
                    at: Node -> Replica, n: Node)
    requires Apart(name, at) && Lists(found, listed, at) && Firsts(name, nodes, found)
    ensures name(at(n)) in nodes <==> n in listed
    ensures name(at(n)) in nodes ==> nodes[name(at(n))] == at(n)
  {
    var key := name(at(n));
    assert First(name, nodes, found, key);
    if key in nodes {
      var r := found[FirstNamed(name, found, key)];
      assert r in found;
      var m :| m in listed && at(m) == r;
    }
  }

  lemma BusyNames(name: Naming, busy: map<string, Replica>, replicas: seq<Replica>, used: set<Node>,
                  at: Node -> Replica, n: Node)
    requires Apart(name, at) && Lists(replicas, used, at) && NamesOf(name, busy, replicas)
    ensures name(at(n)) in busy <==> n in used
  {
    if name(at(n)) in busy {
      var r :| r in replicas && name(r) == name(at(n));
      var m :| m in used && at(m) == r;
    }
  }

  /** Every key of the map is the name of a listed node. */
  lemma NamedNode(name: Naming, nodes: map<string, Replica>, found: seq<Replica>, listed: set<Node>,
                  at: Node -> Replica, key: string)
      returns (n: Node)
    requires Lists(found, listed, at) && Firsts(name, nodes, found) && key in nodes
    ensures n in listed && name(at(n)) == key
  {
    assert First(name, nodes, found, key);
    var r := found[FirstNamed(name, found, key)];
    assert r in found;
    n :| n in listed && at(n) == r;
  }

  lemma UsedByTwo(key: string, busy: map<string, Replica>, bad: map<string, Replica>)
    ensures Used(key, [busy, bad]) <==> key in busy || key in bad
  {
    var maps := [busy, bad];
    assert maps[0] == busy && maps[1] == bad;
  }

  /** The nodes the keys stand for. */
  lemma {:induction false} NodesOf(name: Naming, nodes: map<string, Replica>, found: seq<Replica>,
                                   listed: set<Node>, at: Node -> Replica, keys: seq<string>)
      returns (chosen: seq<Node>)
    requires Lists(found, listed, at) && Firsts(name, nodes, found)
    requires forall i | 0 <= i < |keys| :: keys[i] in nodes
    ensures |chosen| == |keys| && forall i | 0 <= i < |keys| :: name(at(chosen[i])) == keys[i]
  {
    chosen := [];
    if keys != [] {
      var k := |keys| - 1;
      chosen := NodesOf(name, nodes, found, listed, at, keys[..k]);
      var n := NamedNode(name, nodes, found, listed, at, keys[k]);
      chosen := chosen + [n];
    }
  }

  /** Distinct keys, one for every node of the set and no other, stand for an enumeration of the set. */
  lemma EnumeratedBy(name: Naming, at: Node -> Replica, keys: seq<string>, chosen: seq<Node>, idles: set<Node>)
    requires Apart(name, at) && DistinctKeys(keys) && |chosen| == |keys|
    requires forall i | 0 <= i < |keys| :: name(at(chosen[i])) == keys[i]
    requires forall n: Node :: name(at(n)) in keys <==> n in idles
    ensures Enumerates(chosen, idles)
  {
    forall n | n in chosen
      ensures n in idles
    {
      var j :| 0 <= j < |chosen| && chosen[j] == n;
      assert name(at(n)) == keys[j];
    }
    forall n | n in idles
      ensures n in chosen
    {
      assert name(at(n)) in keys;
      var j :| 0 <= j < |keys| && keys[j] == name(at(n));
      assert chosen[j] == n;
    }
  }

  /** The replicas are those of the nodes, in order. */
  ghost predicate StandsFor(idle: seq<Replica>, chosen: seq<Node>, at: Node -> Replica) {
    |idle| == |chosen| && forall i | 0 <= i < |idle| :: idle[i] == at(chosen[i])
  }

  /**
   The three scans, each of its own moment, and the maps built from them: the idle list is an enumeration,
   without repetition, of the nodes that the protocol chooses from.
   */
  method GetIdlePsNodes(name: Naming, ghost at: Node -> Replica, ghost registered: set<Node>, ghost err: set<Node>,
                        ghost meta: map<SpaceName, Space>,
                        found: seq<Replica>, failed: seq<Replica>, spaces: seq<seq<Partition>>)
      returns (idle: seq<Replica>)
    requires Apart(name, at) && Lists(found, registered, at) && Lists(failed, err, at)
    requires Lists(AllReplicas(spaces), Busy(meta), at)
    ensures exists chosen :: StandsFor(idle, chosen, at) && Enumerates(chosen, Idles(registered, meta, err))
  {
    var nodes := DeserializeNodes(name, found);
    var bad := DeserializeNodes(name, failed);
    var busy := GetAllPsMap(name, spaces);
    var keys;
    idle, keys := GetAllIdlePsKeys(nodes, [busy, bad]);
    forall n: Node
      ensures name(at(n)) in keys <==> n in Idles(registered, meta, err)
    {
      ListedNames(name, nodes, found, registered, at, n);
      ListedNames(name, bad, failed, err, at, n);
      BusyNames(name, busy, AllReplicas(spaces), Busy(meta), at, n);
      UsedByTwo(name(at(n)), busy, bad);
    }
    ghost var chosen := NodesOf(name, nodes, found, registered, at, keys);
    EnumeratedBy(name, at, keys, chosen, Idles(registered, meta, err));
    forall i | 0 <= i < |idle|
      ensures idle[i] == at(chosen[i])
    {
      ListedNames(name, nodes, found, registered, at, chosen[i]);
    }
    assert StandsFor(idle, chosen, at);
  }

  /** Nodes with different addresses have different names, so the scan works for every such cluster. */
  lemma AddressesApart(at: Node -> Replica)
    requires forall m: Node, n: Node | at(m).ip == at(n).ip && at(m).port == at(n).port :: m == n
    ensures Apart(ByAddress(), at)
  {
    forall m: Node, n: Node | ByAddress()(at(m)) == ByAddress()(at(n))
      ensures m == n
    {
      Keys.NodeNamesInjective(Keys.Node(at(m).ip, at(m).port, 0), Keys.Node(at(n).ip, at(n).port, 0));
    }
  }
}
