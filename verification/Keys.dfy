/** The keys under which the cluster stores spaces and nodes, and the names the router and raft use. */
module Keys {
  import opened Text
  import opened Wrappers

  // ---- names ----

  predicate IsLetter(c: char) {
    'a' <= c <= 'z' || 'A' <= c <= 'Z'
  }

  predicate IsNameChar(c: char) {
    IsLetter(c) || IsDigit(c) || c == '_' || c == '-'
  }

  /** More than five characters, a letter first, then letters, digits, dashes and underscores. */
  predicate ValidName(s: string) {
    |s| > 5 && IsLetter(s[0]) && forall i | 0 <= i < |s| :: IsNameChar(s[i])
  }

  // ---- spaces ----

  function SlashKey(prefix: string, db: string, space: string): string {
    prefix + "/" + Join(db, '/', space)
  }

  /** The keys of deleted and failed spaces, which carry the id. */
  function SlashIdKey(prefix: string, db: string, space: string, id: int): string {
    prefix + "/" + Join(db, '/', Join(space, '/', Print(id)))
  }

  function ColonName(db: string, space: string): string {
    Join(db, ':', space)
  }

  function GroupName(db: string, space: string, partition: int): string {
    Join(db, ':', Join(space, ':', Print(partition)))
  }

  /** The keys have their parts in this order, and can be taken apart again. */
  lemma SpaceKeyParts(prefix: string, db: string, space: string, n: int)
    requires ValidName(db) && ValidName(space)
    ensures Split(SlashKey(prefix, db, space)[|prefix| + 1..], '/') == [db, space]
    ensures Split(SlashIdKey(prefix, db, space, n)[|prefix| + 1..], '/') == [db, space, Print(n)]
    ensures Split(ColonName(db, space), ':') == [db, space]
    ensures Split(GroupName(db, space, n), ':') == [db, space, Print(n)]
  {
    assert SlashKey(prefix, db, space)[|prefix| + 1..] == Join(db, '/', space);
    assert SlashIdKey(prefix, db, space, n)[|prefix| + 1..] == Join(db, '/', Join(space, '/', Print(n)));
    PartsOf(db, space, n, '/');
    PartsOf(db, space, n, ':');
  }

  lemma PartsOf(db: string, space: string, n: int, c: char)
    requires ValidName(db) && ValidName(space) && !IsNameChar(c)
    ensures Split(Join(db, c, space), c) == [db, space]
    ensures Split(Join(db, c, Join(space, c, Print(n))), c) == [db, space, Print(n)]
  {
    SplitJoin(db, c, space);
    SplitJoin(db, c, Join(space, c, Print(n)));
    SplitJoin(space, c, Print(n));
    SplitPlain(space, c);
    PrintPlain(n, c);
    SplitPlain(Print(n), c);
  }

  lemma SamePrefix(prefix: string, a: string, b: string)
    requires prefix + "/" + a == prefix + "/" + b
    ensures a == b
  {
    assert a == (prefix + "/" + a)[|prefix| + 1..];
    assert b == (prefix + "/" + b)[|prefix| + 1..];
  }

  /** Different spaces with valid names never share an etcd key or a name in the list of spaces. */
  lemma SpaceKeysInjective(prefix: string, db1: string, space1: string, db2: string, space2: string)
    requires ValidName(db1) && ValidName(space1) && ValidName(db2) && ValidName(space2)
    ensures SlashKey(prefix, db1, space1) == SlashKey(prefix, db2, space2) <==> db1 == db2 && space1 == space2
    ensures ColonName(db1, space1) == ColonName(db2, space2) <==> db1 == db2 && space1 == space2
  {
    if SlashKey(prefix, db1, space1) == SlashKey(prefix, db2, space2) {
      SamePrefix(prefix, Join(db1, '/', space1), Join(db2, '/', space2));
      JoinInjective(db1, db2, '/', space1, space2);
    }
    if ColonName(db1, space1) == ColonName(db2, space2) {
      JoinInjective(db1, db2, ':', space1, space2);
    }
  }

  lemma Triple(a1: string, b1: string, n1: int, a2: string, b2: string, n2: int, c: char)
    requires c !in a1 && c !in a2 && c !in b1 && c !in b2
    requires Join(a1, c, Join(b1, c, Print(n1))) == Join(a2, c, Join(b2, c, Print(n2)))
    ensures a1 == a2 && b1 == b2 && n1 == n2
  {
    JoinInjective(a1, a2, c, Join(b1, c, Print(n1)), Join(b2, c, Print(n2)));
    JoinInjective(b1, b2, c, Print(n1), Print(n2));
    PrintInjective(n1, n2);
  }

  /** Nor do partitions share a raft group, or space ids a key of a deleted or failed space. */
  lemma NumberedKeysInjective(prefix: string, db1: string, space1: string, n1: int,
                              db2: string, space2: string, n2: int)
    requires ValidName(db1) && ValidName(space1) && ValidName(db2) && ValidName(space2)
    ensures SlashIdKey(prefix, db1, space1, n1) == SlashIdKey(prefix, db2, space2, n2) <==>
              db1 == db2 && space1 == space2 && n1 == n2
    ensures GroupName(db1, space1, n1) == GroupName(db2, space2, n2) <==> db1 == db2 && space1 == space2 && n1 == n2
  {
    if SlashIdKey(prefix, db1, space1, n1) == SlashIdKey(prefix, db2, space2, n2) {
      SamePrefix(prefix, Join(db1, '/', Join(space1, '/', Print(n1))), Join(db2, '/', Join(space2, '/', Print(n2))));
      Triple(db1, space1, n1, db2, space2, n2, '/');
    }
    if GroupName(db1, space1, n1) == GroupName(db2, space2, n2) {
      Triple(db1, space1, n1, db2, space2, n2, ':');
    }
  }

  // ---- the router's key ----

  function DashKey(db: string, space: string): string {
    Join(db, '-', space)
  }

  /** One database name is the other, a dash and a part that the other space name starts with. */
  ghost predicate Straddles(db1: string, space1: string, db2: string, space2: string) {
    exists t :: db1 == Join(db2, '-', t) && space2 == Join(t, '-', space1)
  }

  /** Exactly when the router takes two spaces for the same. */
  lemma DashKeysEqualIff(db1: string, space1: string, db2: string, space2: string)
    ensures DashKey(db1, space1) == DashKey(db2, space2) <==>
              || (db1 == db2 && space1 == space2)
              || Straddles(db1, space1, db2, space2) || Straddles(db2, space2, db1, space1)
  {
    JoinEqualIff(db1, db2, '-', space1, space2);
  }

  /** The key tells apart the spaces of databases without dashes. */
  lemma DashFreeInjective(db1: string, space1: string, db2: string, space2: string)
    requires '-' !in db1 && '-' !in db2
    ensures DashKey(db1, space1) == DashKey(db2, space2) <==> db1 == db2 && space1 == space2
  {
    if DashKey(db1, space1) == DashKey(db2, space2) {
      JoinInjective(db1, db2, '-', space1, space2);
    }
  }

  /** Names that pass validation can collide. */
  lemma DashCollision()
    ensures ValidName("images-thumbs") && ValidName("vectors") && ValidName("images") && ValidName("thumbs-vectors")
    ensures DashKey("images-thumbs", "vectors") == DashKey("images", "thumbs-vectors")
  {
    var all := "images-thumbs-vectors";
    assert DashKey("images-thumbs", "vectors") == all == DashKey("images", "thumbs-vectors");
  }

  // ---- nodes ----

  const PS_NODES := "/nodes/ps"
  const ERR_NODES := "/error/nodes/ps"

  datatype Node = Node(ip: string, port: int, id: int)

  function Address(node: Node): string {
    Join(node.ip, ':', Print(node.port))
  }

  function NodeName(ip: string, port: int): string {
    ":" + ip + ":" + Print(port) + ":"
  }

  /** The key of a registered node or, under the other prefix, of a failed one. */
  function NodeKey(prefix: string, node: Node): string {
    prefix + "/" + NodeName(node.ip, node.port) + Print(node.id)
  }

  /** The second, third and fourth of the colon-separated parts; fewer parts make the parser panic. */
  function ParseRegisterKey(key: string): Option<Node> {
    var parts := Split(key, ':');
    if |parts| < 4 then None else Some(Node(parts[1], Atoi(parts[2]), Atoi(parts[3])))
  }

  lemma NodeNameIs(ip: string, port: int)
    ensures NodeName(ip, port) == ":" + Address(Node(ip, port, 0)) + ":"
  {
  }

  lemma NodeKeyIs(prefix: string, x: Node)
    ensures NodeKey(prefix, x) == prefix + "/:" + Join(Address(x), ':', Print(x.id))
  {
    NodeNameIs(x.ip, x.port);
  }

  lemma NodeKeyParts(prefix: string, x: Node)
    requires ':' !in prefix
    ensures Split(NodeKey(prefix, x), ':') ==
            [prefix + "/"] + Split(Join(x.ip, ':', Join(Print(x.port), ':', Print(x.id))), ':')
  {
    var tail := Join(x.ip, ':', Join(Print(x.port), ':', Print(x.id)));
    NodeKeyIs(prefix, x);
    assert Join(Address(x), ':', Print(x.id)) == tail;
    assert prefix + "/:" + tail == Join(prefix + "/", ':', tail);
    SplitJoin(prefix + "/", ':', tail);
  }

  lemma SecondPart(ip: string, tail: string)
    requires ':' in ip
    ensures Split(Join(ip, ':', tail), ':')[0] != ip
  {
    var a, b := FirstSeparator(ip, ':');
    assert Join(ip, ':', tail) == Join(a, ':', Join(b, ':', tail));
    SplitJoin(a, ':', Join(b, ':', tail));
  }

  /** Under any prefix without a colon, parsing the key of a node gives it back exactly when its ip has no colon. */
  lemma RegisterRoundTripIff(prefix: string, x: Node)
    requires ':' !in prefix
    ensures ParseRegisterKey(NodeKey(prefix, x)) == Some(x) <==> ':' !in x.ip
  {
    var tail := Join(Print(x.port), ':', Print(x.id));
    NodeKeyParts(prefix, x);
    if ':' in x.ip {
      SecondPart(x.ip, tail);
    } else {
      PrintPlain(x.port, ':');
      PrintPlain(x.id, ':');
      SplitJoin(x.ip, ':', tail);
      SplitJoin(Print(x.port), ':', Print(x.id));
      SplitPlain(Print(x.id), ':');
      PrintRoundTrip(x.port);
      PrintRoundTrip(x.id);
    }
  }

  /** In particular for the keys of registered and of failed nodes. */
  lemma StoredNodesParse(x: Node)
    ensures ParseRegisterKey(NodeKey(PS_NODES, x)) == Some(x) <==> ':' !in x.ip
    ensures ParseRegisterKey(NodeKey(ERR_NODES, x)) == Some(x) <==> ':' !in x.ip
  {
    RegisterRoundTripIff(PS_NODES, x);
    RegisterRoundTripIff(ERR_NODES, x);
  }

  lemma SameNode(x: Node, y: Node)
    requires Address(x) == Address(y)
    ensures x.ip == y.ip && x.port == y.port
  {
    PrintPlain(x.port, ':');
    PrintPlain(y.port, ':');
    JoinInjectiveLast(x.ip, y.ip, ':', Print(x.port), Print(y.port));
    PrintInjective(x.port, y.port);
  }

  /** Node names tell addresses apart, whatever the ips hold. */
  lemma NodeNamesInjective(x: Node, y: Node)
    ensures NodeName(x.ip, x.port) == NodeName(y.ip, y.port) <==> x.ip == y.ip && x.port == y.port
  {
    if NodeName(x.ip, x.port) == NodeName(y.ip, y.port) {
      NodeNameIs(x.ip, x.port);
      NodeNameIs(y.ip, y.port);
      assert Address(x) == NodeName(x.ip, x.port)[1..|Address(x)| + 1] == Address(y);
      SameNode(x, y);
    }
  }

  /** Registration keys tell nodes apart, whatever the ips hold. */
  lemma RegisterKeysInjective(prefix: string, x: Node, y: Node)
    ensures NodeKey(prefix, x) == NodeKey(prefix, y) <==> x == y
  {
    if NodeKey(prefix, x) == NodeKey(prefix, y) {
      NodeKeyIs(prefix, x);
      NodeKeyIs(prefix, y);
      SameTail(prefix + "/:", Join(Address(x), ':', Print(x.id)), Join(Address(y), ':', Print(y.id)));
      PrintPlain(x.id, ':');
      PrintPlain(y.id, ':');
      JoinInjectiveLast(Address(x), Address(y), ':', Print(x.id), Print(y.id));
      PrintInjective(x.id, y.id);
      SameNode(x, y);
    }
  }

  lemma SameTail(p: string, a: string, b: string)
    requires p + a == p + b
    ensures a == b
  {
    assert a == (p + a)[|p|..] && b == (p + b)[|p|..];
  }

  /** A string ending in a separator starts a join exactly when it ends within its first part or at its separator. */
  lemma EndsAtSeparator(a: string, b: string, c: char, last: string)
    requires c !in last
    ensures a + [c] <= Join(b, c, last) <==> a + [c] <= b + [c]
  {
    var whole := Join(b, c, last);
    assert forall k | |b| < k < |whole| :: whole[k] == last[k - |b| - 1];
    assert forall k | 0 <= k <= |b| :: whole[k] == (b + [c])[k];
    assert (a + [c])[|a|] == c;
  }

  lemma PrefixUnder(p: string, a: string, b: string)
    ensures p + a <= p + b <==> a <= b
  {
    if a <= b {
      assert p + b == p + a + b[|a|..];
    }
    if p + a <= p + b {
      assert a == (p + b)[|p|..|p| + |a|] == b[..|a|];
    }
  }

  lemma ScannedPrefixIs(prefix: string, x: Node)
    ensures prefix + "/" + NodeName(x.ip, x.port) == prefix + "/:" + (Address(x) + ":")
  {
    NodeNameIs(x.ip, x.port);
  }

  /** A scan by an address and its colon finds a node exactly when the node's own, with its colon, starts with it. */
  lemma AddressScanIff(prefix: string, x: Node, y: Node)
    ensures prefix + "/" + NodeName(x.ip, x.port) <= NodeKey(prefix, y) <==> Address(x) + ":" <= Address(y) + ":"
  {
    ScannedPrefixIs(prefix, x);
    NodeKeyIs(prefix, y);
    PrefixUnder(prefix + "/:", Address(x) + ":", Join(Address(y), ':', Print(y.id)));
    PrintPlain(y.id, ':');
    EndsAtSeparator(Address(x), Address(y), ':', Print(y.id));
  }

  /** So among ips without colons it finds exactly the nodes of that address. */
  lemma AddressScanPlain(prefix: string, x: Node, y: Node)
    requires ':' !in x.ip && ':' !in y.ip
    ensures prefix + "/" + NodeName(x.ip, x.port) <= NodeKey(prefix, y) <==> x.ip == y.ip && x.port == y.port
  {
    AddressScanIff(prefix, x, y);
    if Address(x) + ":" <= Address(y) + ":" {
      var rest := (Address(y) + ":")[|Address(x)| + 1..];
      assert Address(y) + ":" == Address(x) + ":" + rest;
      assert Address(y) + ":" == Join(y.ip, ':', Join(Print(y.port), ':', ""));
      assert Address(x) + ":" + rest == Join(x.ip, ':', Join(Print(x.port), ':', rest));
      PrintPlain(x.port, ':');
      PrintPlain(y.port, ':');
      JoinInjective(x.ip, y.ip, ':', Join(Print(x.port), ':', rest), Join(Print(y.port), ':', ""));
      JoinInjective(Print(x.port), Print(y.port), ':', rest, "");
      PrintInjective(x.port, y.port);
    }
  }
}
