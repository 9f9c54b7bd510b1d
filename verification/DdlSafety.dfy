/**
 Safety of the space protocol over every run, with crashes at any step and
 requests served late: whenever DDL is enabled, servers and etcd agree.
 */
module DdlSafety {
  import opened Arithmetic
  import opened Wrappers
  import opened PsNode
  import opened Ddl
  import DdlExclusive
  import Placement

  /**
   A failed task index of such a space never marks another node: it is decoded to the node
   that failed, or (with a single partition or replica) to nothing, which leaves DDL disabled.
   */
  predicate SafeCounts(cfg: Config, partitions: nat, replicas: nat) {
    cfg.decodeByReplicas || partitions == replicas || partitions == 1 || replicas == 1
  }

  predicate SafeSpace(cfg: Config, space: Space) {
    && |space.nodes| == space.partitions * space.replicas > 0
    && Distinct(space.nodes)
    && space.name.db != ""
    && SafeCounts(cfg, space.partitions, space.replicas)
  }

  function NodeSet(space: Space): set<Node> {
    set n | n in space.nodes
  }

  function Picked(space: Space, left: set<nat>): set<Node> {
    set i | i in left && i < |space.nodes| :: space.nodes[i]
  }

  /** No request for node n is on the network. */
  predicate Quiet(w: World, n: Node) {
    forall id | id in w.net :: w.net[id].node != n
  }

  /** Servers and etcd agree outside X and the failed nodes, and only those have requests pending. */
  ghost predicate Agree(w: World, X: set<Node>) {
    && (forall n, name | n !in w.err && n !in X :: Held(PsOf(w, n)) == Some(name) <==> Listed(w.meta, n, name))
    && (forall n, name | Listed(w.meta, n, name) :: n !in w.err && n !in X)
    && (forall id | id in w.net :: w.net[id].node in w.err || w.net[id].node in X)
  }

  /** The space is well formed, and none of its nodes is failed or used by a space in etcd. */
  ghost predicate Fresh(cfg: Config, w: World, space: Space) {
    && SafeSpace(cfg, space)
    && space.name !in w.meta
    && (forall n | n in space.nodes :: n !in w.err)
    && (forall n, name | n in space.nodes :: !Listed(w.meta, n, name))
  }

  predicate Stored(w: World, space: Space) {
    space.name in w.meta && w.meta[space.name] == space
  }

  /** The effect an acknowledged call must have had. */
  predicate Done(w: World, op: Op, space: Space, i: nat)
    requires i < |space.nodes|
  {
    Held(PsOf(w, space.nodes[i])) == if op == Creating then Some(space.name) else None
  }

  /** What is known of task i during a round of calls. */
  predicate Slot(w: World, op: Op, space: Space, calls: map<nat, Call>, i: nat)
    requires i < |space.nodes|
  {
    var n := space.nodes[i];
    if i !in calls then Quiet(w, n)
    else
      match calls[i]
      case Returned(ok) => ok ==> Quiet(w, n) && Done(w, op, space, i)
      case Sent(id) =>
        && id < w.nextId
        && (id in w.acks ==> Done(w, op, space, i))
        && (id in w.net ==> w.net[id] == MsgFor(op, space, i))
        && (forall m | m in w.net && w.net[m].node == n :: m == id)
  }

  ghost predicate Slots(w: World, op: Op, space: Space, calls: map<nat, Call>) {
    && (forall i | i in calls :: i < |space.nodes|)
    && (forall i | 0 <= i < |space.nodes| :: Slot(w, op, space, calls, i))
  }

  /** A round of create or delete calls in progress. */
  ghost predicate Round(cfg: Config, w: World, op: Op, space: Space, calls: map<nat, Call>) {
    Fresh(cfg, w, space) && Agree(w, NodeSet(space)) && Slots(w, op, space, calls)
  }

  /** Every create of the space has been acknowledged. */
  ghost predicate Created(cfg: Config, w: World, space: Space) {
    && Fresh(cfg, w, space) && Agree(w, NodeSet(space))
    && (forall i | 0 <= i < |space.nodes| :: Quiet(w, space.nodes[i]) && Done(w, Creating, space, i))
  }

  /** The failed nodes of a delete that are still to be recorded. */
  ghost predicate Unrecorded(cfg: Config, w: World, space: Space, left: set<nat>) {
    && SafeSpace(cfg, space)
    && (forall i | i in left :: i < |space.nodes|)
    && Agree(w, Picked(space, left))
  }

  predicate Critical(pc: Pc) {
    !pc.Idle? && !pc.CreateWait? && !pc.DeleteWait?
  }

  predicate SafeRequest(cfg: Config, pc: Pc) {
    Requesting(pc) ==>
      Accepted(pc.req) && SafeCounts(cfg, pc.req.partitions, pc.req.replicas)
  }

  ghost predicate Settled(w: World, disabled: bool) {
    disabled || Agree(w, {})
  }

  /** What the lock holder relies on at each point of the protocol. */
  ghost predicate Holding(cfg: Config, w: World, disabled: bool, pc: Pc) {
    match pc
    case Idle => false
    case CreateWait(_) => false
    case DeleteWait(_) => false
    case CreateCheck(_) => Settled(w, disabled)
    case DeleteRead(_) => Settled(w, disabled)
    case Leave => Settled(w, disabled)
    case DeleteCheck(space) => Settled(w, disabled) && Stored(w, space)
    case CreateScan(_) => !disabled && Agree(w, {})
    case CreateScanErr(_, _) => !disabled && Agree(w, {})
    case CreateScanMeta(_, _, failed) => !disabled && Agree(w, {}) && failed == w.err
    case CreateMark(space) => !disabled && Agree(w, {}) && Fresh(cfg, w, space)
    case CreateCommit(space) => disabled && Created(cfg, w, space)
    case DeleteMark(space) => !disabled && Agree(w, {}) && Stored(w, space)
    case DeleteMeta(space) => disabled && Agree(w, {}) && Stored(w, space)
    case Enable => disabled && Agree(w, {})
    case Calling(op, space, calls) => disabled && (op != Undoing ==> Round(cfg, w, op, space, calls))
    case Marking(op, space, left) => disabled && (op == Deleting ==> Unrecorded(cfg, w, space, left))
  }

  ghost predicate Ids(w: World) {
    && (forall id | id in w.net :: id < w.nextId && id !in w.acks)
    && (forall id | id in w.acks :: id < w.nextId)
  }

  ghost predicate AllCoherent(w: World) {
    forall n :: Coherent(PsOf(w, n))
  }

  ghost predicate SafeSpaces(cfg: Config, meta: map<SpaceName, Space>) {
    Exclusive(meta) && forall name | name in meta :: SafeSpace(cfg, meta[name])
  }

  ghost predicate Sane(cfg: Config, w: World) {
    SafeSpaces(cfg, w.meta) && Ids(w) && AllCoherent(w)
  }

  /** Only the lock holder is past the lock. */
  ghost predicate Guarded(cfg: Config, s: State) {
    forall c | c in s.pcs :: (Critical(s.pcs[c]) ==> s.lock == Some(c)) && SafeRequest(cfg, s.pcs[c])
  }

  ghost predicate Inv(cfg: Config, s: State) {
    && Sane(cfg, s.w)
    && Guarded(cfg, s)
    && match s.lock
       case None => Settled(s.w, s.disabled)
       case Some(c) => Holding(cfg, s.w, s.disabled, PcOf(s, c))
  }

  // ---- the network and the servers ----

  /** Requests may only disappear, and a server with none pending keeps the space it holds. */
  ghost predicate Calmer(w: World, w': World) {
    && w' == w.(ps := w'.ps, net := w'.net, acks := w'.acks)
    && (forall id | id in w'.net :: id in w.net && w'.net[id] == w.net[id])
    && (forall n | Quiet(w, n) :: Held(PsOf(w', n)) == Held(PsOf(w, n)))
  }

  lemma CalmerAgree(w: World, w': World, X: set<Node>)
    requires Agree(w, X) && Calmer(w, w')
    ensures Agree(w', X)
  {
  }

  /** A served request acts on its own task only, and an acknowledgement means its effect took place. */
  lemma DeliverSlots(w: World, id: MsgId, outcome: Outcome, op: Op, space: Space, calls: map<nat, Call>)
    requires id in w.net && Ids(w) && AllCoherent(w) && Distinct(space.nodes) && space.name.db != ""
    requires op != Undoing && Slots(w, op, space, calls)
    ensures Slots(ServeMsg(w, id, outcome), op, space, calls)
  {
    var w' := ServeMsg(w, id, outcome);
    forall i | 0 <= i < |space.nodes|
      ensures Slot(w', op, space, calls, i)
    {
      assert Slot(w, op, space, calls, i);
    }
  }

  lemma CalmSlots(w: World, w': World, op: Op, space: Space, calls: map<nat, Call>)
    requires Slots(w, op, space, calls) && Calmer(w, w') && w'.acks == w.acks
    requires forall n :: Held(PsOf(w', n)) == Held(PsOf(w, n))
    ensures Slots(w', op, space, calls)
  {
    forall i | 0 <= i < |space.nodes|
      ensures Slot(w', op, space, calls, i)
    {
      assert Slot(w, op, space, calls, i);
    }
  }

  /** What is known of the tasks of a round in progress is kept. */
  ghost predicate RoundKept(w: World, w': World, pc: Pc) {
    pc.Calling? && pc.op != Undoing && Slots(w, pc.op, pc.space, pc.calls) ==> Slots(w', pc.op, pc.space, pc.calls)
  }

  lemma CalmerHolding(cfg: Config, w: World, w': World, disabled: bool, pc: Pc)
    requires Holding(cfg, w, disabled, pc) && Calmer(w, w') && RoundKept(w, w', pc)
    ensures Holding(cfg, w', disabled, pc)
  {
    forall X | Agree(w, X) ensures Agree(w', X) { CalmerAgree(w, w', X); }
    if pc.CreateCommit? {
      forall i | 0 <= i < |pc.space.nodes|
        ensures Quiet(w', pc.space.nodes[i]) && Done(w', Creating, pc.space, i)
      {
        assert Quiet(w, pc.space.nodes[i]);
      }
    }
  }

  lemma CalmerInv(cfg: Config, s: State, w': World)
    requires Inv(cfg, s) && Calmer(s.w, w') && Ids(w') && AllCoherent(w')
    requires s.lock.Some? ==> RoundKept(s.w, w', PcOf(s, s.lock.value))
    ensures Inv(cfg, s.(w := w'))
  {
    if s.lock.Some? {
      CalmerHolding(cfg, s.w, w', s.disabled, PcOf(s, s.lock.value));
    } else if Agree(s.w, {}) {
      CalmerAgree(s.w, w', {});
    }
  }

  lemma ServeCalmer(w: World, id: MsgId, outcome: Outcome)
    requires id in w.net && Ids(w) && AllCoherent(w)
    ensures var w' := ServeMsg(w, id, outcome);
            Calmer(w, w') && Ids(w') && AllCoherent(w')
  {
    var w' := ServeMsg(w, id, outcome);
    forall n
      ensures Coherent(PsOf(w', n))
    {
      assert Coherent(PsOf(w, n));
    }
  }

  lemma DeliverStep(cfg: Config, s: State, id: MsgId, outcome: Outcome)
    requires Inv(cfg, s) && id in s.w.net
    ensures Inv(cfg, s.(w := ServeMsg(s.w, id, outcome)))
  {
    ServeCalmer(s.w, id, outcome);
    if s.lock.Some? {
      var pc := PcOf(s, s.lock.value);
      if pc.Calling? && pc.op != Undoing {
        DeliverSlots(s.w, id, outcome, pc.op, pc.space, pc.calls);
      }
    }
    CalmerInv(cfg, s, ServeMsg(s.w, id, outcome));
  }

  lemma CalmInv(cfg: Config, s: State, w': World)
    requires Inv(cfg, s) && Calmer(s.w, w') && w'.acks == s.w.acks && AllCoherent(w')
    requires forall n :: Held(PsOf(w', n)) == Held(PsOf(s.w, n))
    ensures Inv(cfg, s.(w := w'))
  {
    if s.lock.Some? {
      var pc := PcOf(s, s.lock.value);
      if pc.Calling? && pc.op != Undoing {
        CalmSlots(s.w, w', pc.op, pc.space, pc.calls);
      }
    }
    CalmerInv(cfg, s, w');
  }

  lemma DropStep(cfg: Config, s: State, id: MsgId)
    requires Inv(cfg, s)
    ensures Inv(cfg, s.(w := s.w.(net := s.w.net - {id})))
  {
    var w' := s.w.(net := s.w.net - {id});
    assert forall n :: PsOf(w', n) == PsOf(s.w, n);
    CalmInv(cfg, s, w');
  }

  lemma RestartStep(cfg: Config, s: State, n: Node)
    requires Inv(cfg, s)
    ensures Inv(cfg, s.(w := s.w.(ps := s.w.ps[n := Restart(PsOf(s.w, n))])))
  {
    var w' := s.w.(ps := s.w.ps[n := Restart(PsOf(s.w, n))]);
    forall m
      ensures Coherent(PsOf(w', m)) && Held(PsOf(w', m)) == Held(PsOf(s.w, m))
    {
      assert Coherent(PsOf(s.w, m));
    }
    CalmInv(cfg, s, w');
  }

  // ---- taking and leaving the lock ----

  predicate SafeStep(cfg: Config, step: Step) {
    step.BeginCreate? ==> SafeCounts(cfg, step.req.partitions, step.req.replicas)
  }

  /** At every point the holder may stop: DDL is then disabled, or servers and etcd agree. */
  lemma HoldingSettled(cfg: Config, w: World, disabled: bool, pc: Pc)
    requires Holding(cfg, w, disabled, pc)
    ensures Settled(w, disabled)
  {
  }

  lemma WaitStep(cfg: Config, s: State, c: Client, pc: Pc)
    requires Inv(cfg, s) && c !in s.pcs && !Critical(pc) && SafeRequest(cfg, pc)
    ensures Inv(cfg, At(s, c, pc))
  {
  }

  lemma LeaveStep(cfg: Config, s: State, c: Client)
    requires Inv(cfg, s)
    ensures Inv(cfg, Release(s, c))
  {
    if s.lock == Some(c) {
      HoldingSettled(cfg, s.w, s.disabled, PcOf(s, c));
    }
  }

  lemma LockStep(cfg: Config, s: State, c: Client, pc: Pc)
    requires Inv(cfg, s) && s.lock.None? && SafeRequest(cfg, pc)
    requires pc.CreateCheck? || pc.DeleteRead?
    ensures Inv(cfg, At(s.(lock := Some(c)), c, pc))
  {
  }

  lemma TryLockStep(cfg: Config, s: State, c: Client, got: bool, s': State)
    requires cfg.deleteChecksLock && Inv(cfg, s) && ApplyLock(cfg, s, TryLock(c, got)) == Some(s')
    ensures Inv(cfg, s')
  {
    var pc := PcOf(s, c);
    if got {
      LockStep(cfg, s, c, if pc.CreateWait? then CreateCheck(pc.req) else DeleteRead(pc.name));
    } else {
      LeaveStep(cfg, s, c);
    }
  }

  lemma LockOrWaitStep(cfg: Config, s: State, step: Step, s': State)
    requires !IsEtcdStep(step) && !IsCallStep(step) && !IsServerStep(step)
    requires cfg.deleteChecksLock && SafeStep(cfg, step)
    requires Inv(cfg, s) && ApplyLock(cfg, s, step) == Some(s')
    ensures Inv(cfg, s')
  {
    match step {
      case BeginCreate(c, req) => WaitStep(cfg, s, c, CreateWait(req));
      case BeginDelete(c, name) => WaitStep(cfg, s, c, DeleteWait(name));
      case TryLock(c, got) => TryLockStep(cfg, s, c, got, s');
      case Unlock(c) => LeaveStep(cfg, s, c);
      case Crash(c) => LeaveStep(cfg, s, c);
    }
  }

  // ---- the lock holder ----


  /** What the holder relies on before its next step. */
  ghost predicate Ready(cfg: Config, s: State, c: Client) {
    && SafeRequest(cfg, PcOf(s, c))
    && SafeSpaces(cfg, s.w.meta) && Ids(s.w)
    && Holding(cfg, s.w, s.disabled, PcOf(s, c))
  }

  lemma HolderInv(cfg: Config, s: State, s': State, c: Client)
    requires Inv(cfg, s) && s.lock == Some(c) && Ready(cfg, s', c)
    requires s'.lock == s.lock && s'.pcs == s.pcs[c := PcOf(s', c)] && s'.w.ps == s.w.ps
    ensures Inv(cfg, s')
  {
    forall n
      ensures Coherent(PsOf(s'.w, n))
    {
      assert PsOf(s'.w, n) == PsOf(s.w, n);
    }
  }

  /** The chosen nodes are idle, so the space is fresh. */
  lemma ScanStep(cfg: Config, s: State, step: Step, s': State)
    requires step.Scan? && Ready(cfg, s, step.c) && ApplyEtcd(s, step) == Some(s')
    ensures Ready(cfg, s', step.c)
  {
    var pc, pc' := PcOf(s, step.c), PcOf(s', step.c);
    DdlExclusive.ScanIdle(s, step, s');
    if pc'.CreateMark? {
      ProductPositive(pc.req.partitions, pc.req.replicas);
      assert SafeSpace(cfg, pc'.space);
      forall n, name | n in pc'.space.nodes
        ensures n !in s.w.err && !Listed(s.w.meta, n, name)
      {
        assert n in Idles(pc.nodes, s.w.meta, pc.failed);
      }
    }
  }

  lemma PutDisabledStep(cfg: Config, s: State, step: Step, s': State)
    requires step.PutDisabled? && Ready(cfg, s, step.c) && ApplyEtcd(s, step) == Some(s')
    ensures Ready(cfg, s', step.c)
  {
    var pc := PcOf(s, step.c);
    if pc.CreateMark? {
      forall i | 0 <= i < |pc.space.nodes|
        ensures Slot(s.w, Creating, pc.space, map[], i)
      {
        assert pc.space.nodes[i] !in s.w.err;
      }
    }
  }

  lemma ListedAfterPut(meta: map<SpaceName, Space>, space: Space, n: Node, name: SpaceName)
    requires space.name !in meta
    ensures Listed(meta[space.name := space], n, name) <==>
              Listed(meta, n, name) || (name == space.name && n in space.nodes)
  {
  }

  lemma ListedAfterDelete(meta: map<SpaceName, Space>, gone: SpaceName, n: Node, name: SpaceName)
    ensures Listed(meta - {gone}, n, name) <==> Listed(meta, n, name) && name != gone
  {
  }

  /** Adding a fresh space keeps nodes exclusive. */
  lemma AddSpaceSafe(cfg: Config, w: World, space: Space)
    requires SafeSpaces(cfg, w.meta) && Fresh(cfg, w, space)
    ensures SafeSpaces(cfg, w.meta[space.name := space])
  {
    DdlExclusive.StoredExclusive(w.meta, space);
  }

  lemma CreatedNode(cfg: Config, w: World, space: Space, n: Node)
    requires Created(cfg, w, space) && n in space.nodes
    ensures Quiet(w, n) && Held(PsOf(w, n)) == Some(space.name)
    ensures n !in w.err && forall name :: !Listed(w.meta, n, name)
  {
    var i :| 0 <= i < |space.nodes| && space.nodes[i] == n;
    assert Quiet(w, space.nodes[i]) && Done(w, Creating, space, i);
  }

  /** With every create acknowledged, storing the space makes servers and etcd agree again. */
  lemma CreatedAgree(cfg: Config, w: World, space: Space)
    requires Created(cfg, w, space)
    ensures Agree(w.(meta := w.meta[space.name := space]), {})
  {
    var w' := w.(meta := w.meta[space.name := space]);
    forall n, name
      ensures Listed(w'.meta, n, name) ==> n !in w'.err
      ensures n !in w'.err ==> (Held(PsOf(w', n)) == Some(name) <==> Listed(w'.meta, n, name))
    {
      ListedAfterPut(w.meta, space, n, name);
      assert PsOf(w', n) == PsOf(w, n);
      if n in space.nodes {
        CreatedNode(cfg, w, space, n);
      }
    }
    forall id | id in w'.net
      ensures w'.net[id].node in w'.err
    {
      var n := w.net[id].node;
      if n in space.nodes {
        CreatedNode(cfg, w, space, n);
      }
    }
  }

  lemma PutMetaStep(cfg: Config, s: State, step: Step, s': State)
    requires step.PutMeta? && Ready(cfg, s, step.c) && ApplyEtcd(s, step) == Some(s')
    ensures Ready(cfg, s', step.c)
  {
    var pc := PcOf(s, step.c);
    AddSpaceSafe(cfg, s.w, pc.space);
    CreatedAgree(cfg, s.w, pc.space);
  }

  lemma DeleteSpaceSafe(cfg: Config, meta: map<SpaceName, Space>, gone: SpaceName)
    requires SafeSpaces(cfg, meta)
    ensures SafeSpaces(cfg, meta - {gone})
  {
    DdlExclusive.RemovedExclusive(meta, gone);
  }

  lemma StoredNode(cfg: Config, w: World, space: Space, n: Node)
    requires SafeSpaces(cfg, w.meta) && Agree(w, {}) && Stored(w, space) && n in space.nodes
    ensures n !in w.err && Quiet(w, n)
    ensures forall name | Listed(w.meta, n, name) :: name == space.name
  {
    assert Listed(w.meta, n, space.name);
  }

  /** Once a stored space is deleted from etcd, its nodes are fresh and its delete calls can start. */
  lemma DeletedRound(cfg: Config, w: World, space: Space)
    requires SafeSpaces(cfg, w.meta) && Agree(w, {}) && Stored(w, space)
    ensures Round(cfg, w.(meta := w.meta - {space.name}), Deleting, space, map[])
  {
    var w' := w.(meta := w.meta - {space.name});
    forall n | n in space.nodes
      ensures n !in w'.err && Quiet(w', n)
    {
      StoredNode(cfg, w, space, n);
    }
    forall n, name | n in space.nodes
      ensures !Listed(w'.meta, n, name)
    {
      StoredNode(cfg, w, space, n);
      ListedAfterDelete(w.meta, space.name, n, name);
    }
    assert Fresh(cfg, w', space);
    forall n, name
      ensures Listed(w'.meta, n, name) ==> n !in w'.err && n !in NodeSet(space)
      ensures n !in w'.err && n !in NodeSet(space) ==> (Held(PsOf(w', n)) == Some(name) <==> Listed(w'.meta, n, name))
    {
      ListedAfterDelete(w.meta, space.name, n, name);
      assert PsOf(w', n) == PsOf(w, n);
    }
    assert Agree(w', NodeSet(space));
  }

  lemma DeleteKeyStep(cfg: Config, s: State, step: Step, s': State)
    requires step.DeleteKey? && Ready(cfg, s, step.c) && ApplyEtcd(s, step) == Some(s')
    ensures Ready(cfg, s', step.c)
  {
    var space := PcOf(s, step.c).space;
    if step.applied {
      DeleteSpaceSafe(cfg, s.w.meta, space.name);
      if step.ok {
        DeletedRound(cfg, s.w, space);
      }
    }
  }

  lemma ListsReadStep(cfg: Config, s: State, step: Step, s': State)
    requires step.ScanNodes? || step.ScanErr?
    requires Ready(cfg, s, step.c) && ApplyEtcd(s, step) == Some(s')
    ensures Ready(cfg, s', step.c)
  {
  }

  lemma CheckStep(cfg: Config, s: State, step: Step, s': State)
    requires step.CheckDisabled? && Ready(cfg, s, step.c) && ApplyEtcd(s, step) == Some(s')
    ensures Ready(cfg, s', step.c)
  {
  }

  lemma ReadStep(cfg: Config, s: State, step: Step, s': State)
    requires step.ReadSpace? && Ready(cfg, s, step.c) && ApplyEtcd(s, step) == Some(s')
    ensures Ready(cfg, s', step.c)
  {
  }

  /** Reading a key, and setting and removing the disabled key. */
  lemma KeyStep(cfg: Config, s: State, step: Step, s': State)
    requires !step.Scan? && !step.PutMeta? && !step.DeleteKey? && IsEtcdStep(step)
    requires Ready(cfg, s, step.c) && ApplyEtcd(s, step) == Some(s')
    ensures Ready(cfg, s', step.c)
  {
    if step.PutDisabled? {
      PutDisabledStep(cfg, s, step, s');
    } else if step.ScanNodes? || step.ScanErr? {
      ListsReadStep(cfg, s, step, s');
    } else if step.CheckDisabled? {
      CheckStep(cfg, s, step, s');
    } else if step.ReadSpace? {
      ReadStep(cfg, s, step, s');
    }
  }

  lemma MetaStep(cfg: Config, s: State, step: Step, s': State)
    requires step.PutMeta? || step.DeleteKey?
    requires Ready(cfg, s, step.c) && ApplyEtcd(s, step) == Some(s')
    ensures Ready(cfg, s', step.c)
  {
    if step.PutMeta? {
      PutMetaStep(cfg, s, step, s');
    } else {
      DeleteKeyStep(cfg, s, step, s');
    }
  }

  lemma EtcdStepReady(cfg: Config, s: State, step: Step, s': State)
    requires IsEtcdStep(step) && Ready(cfg, s, step.c) && ApplyEtcd(s, step) == Some(s')
    ensures Ready(cfg, s', step.c)
  {
    if step.Scan? {
      ScanStep(cfg, s, step, s');
    } else if step.PutMeta? || step.DeleteKey? {
      MetaStep(cfg, s, step, s');
    } else {
      KeyStep(cfg, s, step, s');
    }
  }

  // ---- rounds of calls ----

  lemma SendStep(cfg: Config, s: State, step: Step, s': State)
    requires step.Send? && Ready(cfg, s, step.c) && ApplyCalls(cfg, s, step) == Some(s')
    ensures Ready(cfg, s', step.c)
  {
    var pc, pc' := PcOf(s, step.c), PcOf(s', step.c);
    var space := pc.space;
    if pc.op != Undoing {
      assert forall n :: PsOf(s'.w, n) == PsOf(s.w, n);
      assert Agree(s'.w, NodeSet(space));
      forall i | 0 <= i < |space.nodes|
        ensures Slot(s'.w, pc.op, space, pc'.calls, i)
      {
        assert Slot(s.w, pc.op, space, pc.calls, i);
        assert i != step.i ==> space.nodes[i] != space.nodes[step.i];
      }
    }
  }

  lemma ReturnStep(cfg: Config, s: State, step: Step, s': State)
    requires step.Return? && Ready(cfg, s, step.c) && ApplyCalls(cfg, s, step) == Some(s')
    ensures Ready(cfg, s', step.c)
  {
    var pc, pc' := PcOf(s, step.c), PcOf(s', step.c);
    if pc.op != Undoing {
      forall i | 0 <= i < |pc.space.nodes|
        ensures Slot(s'.w, pc.op, pc.space, pc'.calls, i)
      {
        assert Slot(s.w, pc.op, pc.space, pc.calls, i);
      }
    }
  }

  lemma CallOneStep(cfg: Config, s: State, step: Step, s': State)
    requires step.Send? || step.Return?
    requires Ready(cfg, s, step.c) && ApplyCalls(cfg, s, step) == Some(s')
    ensures Ready(cfg, s', step.c)
  {
    if step.Send? {
      SendStep(cfg, s, step, s');
    } else {
      ReturnStep(cfg, s, step, s');
    }
  }

  /** With safe counts, a decoded replica is the task itself. */
  lemma DecodeSelf(cfg: Config, space: Space, i: nat)
    requires SafeSpace(cfg, space) && i < |space.nodes|
    ensures Decode(cfg, space, i) == Some(i) || Decode(cfg, space, i) == None
  {
    Placement.DecodeByReplicas(space.partitions, space.replicas, i);
    if space.partitions == 1 || space.replicas == 1 {
      Placement.DecodeSingle(space.partitions, space.replicas, i);
    }
  }

  /** When every call has returned, a task that did not fail has had its effect and is over. */
  lemma CollectedDone(cfg: Config, w: World, op: Op, space: Space, calls: map<nat, Call>, i: nat)
    requires Round(cfg, w, op, space, calls) && AllReturned(space, calls)
    requires i < |space.nodes| && i !in Failed(calls)
    ensures Quiet(w, space.nodes[i]) && Done(w, op, space, i)
  {
    assert Slot(w, op, space, calls, i);
  }

  lemma CreatesCollected(cfg: Config, w: World, space: Space, calls: map<nat, Call>)
    requires Round(cfg, w, Creating, space, calls) && AllReturned(space, calls) && Failed(calls) == {}
    ensures Created(cfg, w, space)
  {
    forall i | 0 <= i < |space.nodes|
      ensures Quiet(w, space.nodes[i]) && Done(w, Creating, space, i)
    {
      CollectedDone(cfg, w, Creating, space, calls, i);
    }
  }

  lemma DeletesCollected(cfg: Config, w: World, space: Space, calls: map<nat, Call>)
    requires Round(cfg, w, Deleting, space, calls) && AllReturned(space, calls)
    ensures Unrecorded(cfg, w, space, Failed(calls))
  {
    var X := Picked(space, Failed(calls));
    forall n | n in space.nodes && n !in X
      ensures Quiet(w, n) && Held(PsOf(w, n)).None?
    {
      var i :| 0 <= i < |space.nodes| && space.nodes[i] == n;
      CollectedDone(cfg, w, Deleting, space, calls, i);
    }
    assert Agree(w, X);
  }

  lemma CollectStep(cfg: Config, s: State, step: Step, s': State)
    requires step.Collect? && Ready(cfg, s, step.c) && ApplyCalls(cfg, s, step) == Some(s')
    ensures Ready(cfg, s', step.c)
  {
    var Calling(op, space, calls) := PcOf(s, step.c);
    if op == Deleting {
      DeletesCollected(cfg, s.w, space, calls);
      assert Failed(calls) == {} ==> Picked(space, Failed(calls)) == {};
    } else if op == Creating && Failed(calls) == {} {
      CreatesCollected(cfg, s.w, space, calls);
    }
  }

  lemma RecordOne(cfg: Config, w: World, space: Space, left: set<nat>, i: nat)
    requires Unrecorded(cfg, w, space, left) && i in left
    ensures Unrecorded(cfg, w.(err := w.err + {space.nodes[i]}), space, left - {i})
  {
    var w' := w.(err := w.err + {space.nodes[i]});
    assert space.nodes[i] in Picked(space, left);
    assert Picked(space, left) == Picked(space, left - {i}) + {space.nodes[i]};
    assert forall n :: PsOf(w', n) == PsOf(w, n);
  }

  lemma MarkStep(cfg: Config, s: State, step: Step, s': State)
    requires step.MarkOne? || step.MarkDone?
    requires Ready(cfg, s, step.c) && ApplyCalls(cfg, s, step) == Some(s')
    ensures Ready(cfg, s', step.c)
  {
    var Marking(op, space, left) := PcOf(s, step.c);
    if op == Deleting {
      if step.MarkOne? {
        DecodeSelf(cfg, space, step.i);
        RecordOne(cfg, s.w, space, left, step.i);
      } else {
        assert Picked(space, left) == {};
      }
    }
  }

  lemma CallStepReady(cfg: Config, s: State, step: Step, s': State)
    requires IsCallStep(step) && Ready(cfg, s, step.c) && ApplyCalls(cfg, s, step) == Some(s')
    ensures Ready(cfg, s', step.c)
  {
    if step.Send? || step.Return? {
      CallOneStep(cfg, s, step, s');
    } else if step.Collect? {
      CollectStep(cfg, s, step, s');
    } else {
      MarkStep(cfg, s, step, s');
    }
  }

  // ---- runs ----

  predicate HandlerTakes(cfg: Config, s: State, step: Step, s': State) {
    || (IsEtcdStep(step) && ApplyEtcd(s, step) == Some(s'))
    || (IsCallStep(step) && ApplyCalls(cfg, s, step) == Some(s'))
  }

  lemma EtcdTakes(s: State, step: Step, s': State)
    requires IsEtcdStep(step) && ApplyEtcd(s, step) == Some(s')
    ensures Critical(PcOf(s, step.c)) && s'.w.ps == s.w.ps
  {
  }

  lemma CallTakes(cfg: Config, s: State, step: Step, s': State)
    requires IsCallStep(step) && ApplyCalls(cfg, s, step) == Some(s')
    ensures Critical(PcOf(s, step.c)) && s'.w.ps == s.w.ps
  {
  }

  /** Past the lock, only the lock holder takes steps, and it changes no server and no other handler. */
  lemma HandlerFrame(cfg: Config, s: State, step: Step, s': State)
    requires HandlerTakes(cfg, s, step, s')
    ensures Critical(PcOf(s, step.c))
    ensures s'.lock == s.lock && s'.pcs == s.pcs[step.c := PcOf(s', step.c)] && s'.w.ps == s.w.ps
  {
    if IsEtcdStep(step) {
      EtcdTakes(s, step, s');
      DdlExclusive.EtcdFrame(s, step, s');
    } else {
      CallTakes(cfg, s, step, s');
      DdlExclusive.CallFrame(cfg, s, step, s');
    }
  }

  lemma InvReady(cfg: Config, s: State, c: Client)
    requires Inv(cfg, s) && Critical(PcOf(s, c))
    ensures s.lock == Some(c) && Ready(cfg, s, c)
  {
  }

  lemma HandlerStep(cfg: Config, s: State, step: Step, s': State)
    requires Inv(cfg, s) && HandlerTakes(cfg, s, step, s')
    ensures Inv(cfg, s')
  {
    HandlerFrame(cfg, s, step, s');
    InvReady(cfg, s, step.c);
    if IsEtcdStep(step) {
      EtcdStepReady(cfg, s, step, s');
    } else {
      CallStepReady(cfg, s, step, s');
    }
    HolderInv(cfg, s, s', step.c);
  }

  lemma RegisterStep(cfg: Config, s: State, nodes: set<Node>)
    requires Inv(cfg, s)
    ensures Inv(cfg, s.(registered := nodes))
  {
  }

  lemma ServerStep(cfg: Config, s: State, step: Step, s': State)
    requires IsServerStep(step) && Inv(cfg, s) && ApplyServer(s, step) == Some(s')
    ensures Inv(cfg, s')
  {
    match step {
      case Deliver(id, outcome) => DeliverStep(cfg, s, id, outcome);
      case Drop(id) => DropStep(cfg, s, id);
      case RestartPs(n) => RestartStep(cfg, s, n);
      case Register(n) => RegisterStep(cfg, s, s.registered + {n});
      case Deregister(n) => RegisterStep(cfg, s, s.registered - {n});
    }
  }

  /** Every step of every handler, server and the network keeps the invariant. */
  lemma StepInv(cfg: Config, s: State, step: Step, s': State)
    requires cfg.deleteChecksLock && SafeStep(cfg, step)
    requires Inv(cfg, s) && Apply(cfg, s, step) == Some(s')
    ensures Inv(cfg, s')
  {
    if IsEtcdStep(step) || IsCallStep(step) {
      HandlerStep(cfg, s, step, s');
    } else if IsServerStep(step) {
      ServerStep(cfg, s, step, s');
    } else {
      LockOrWaitStep(cfg, s, step, s');
    }
  }

  lemma {:induction false} RunInv(cfg: Config, s: State, steps: seq<Step>)
    requires cfg.deleteChecksLock && Inv(cfg, s) && Run(cfg, s, steps).Some?
    requires forall i | 0 <= i < |steps| :: SafeStep(cfg, steps[i])
    ensures Inv(cfg, Run(cfg, s, steps).value)
    decreases |steps|
  {
    if steps != [] {
      var s' := Apply(cfg, s, steps[0]).value;
      StepInv(cfg, s, steps[0], s');
      RunInv(cfg, s', steps[1..]);
    }
  }

  /**
   Over every run of creates, deletes, crashes, restarts and late requests from an empty
   cluster: whenever DDL is enabled, what the servers hold is what etcd lists.
   */
  lemma DdlSafe(cfg: Config, steps: seq<Step>)
    requires cfg.deleteChecksLock && Run(cfg, INIT, steps).Some?
    requires forall i | 0 <= i < |steps| :: SafeStep(cfg, steps[i])
    ensures var s := Run(cfg, INIT, steps).value;
            !s.disabled ==> Consistent(s.w)
  {
    RunInv(cfg, INIT, steps);
    var s := Run(cfg, INIT, steps).value;
    if s.lock.Some? {
      HoldingSettled(cfg, s.w, s.disabled, PcOf(s, s.lock.value));
    }
  }

  // ---- DDL stays frozen after a failure ----

  /** A handler that has not yet found DDL enabled. */
  predicate Unchecked(pc: Pc) {
    pc.Idle? || pc.CreateWait? || pc.CreateCheck? || pc.DeleteWait? || pc.DeleteRead? || pc.DeleteCheck? || pc.Leave?
  }

  ghost predicate Frozen(s: State) {
    s.disabled && forall c | c in s.pcs :: Unchecked(s.pcs[c])
  }

  lemma UncheckedSteps(cfg: Config, s: State, step: Step)
    requires (IsEtcdStep(step) && ApplyEtcd(s, step).Some?) || (IsCallStep(step) && ApplyCalls(cfg, s, step).Some?)
    requires s.disabled && Unchecked(PcOf(s, step.c))
    ensures IsEtcdStep(step)
    ensures var s' := ApplyEtcd(s, step).value;
            s' == s.(pcs := s.pcs[step.c := PcOf(s', step.c)]) && Unchecked(PcOf(s', step.c))
  {
  }

  lemma FrozenStep(cfg: Config, s: State, step: Step)
    requires Frozen(s) && Apply(cfg, s, step).Some?
    ensures var s' := Apply(cfg, s, step).value;
            Frozen(s') && s'.w.meta == s.w.meta && s'.w.err == s.w.err
  {
    if IsEtcdStep(step) || IsCallStep(step) {
      UncheckedSteps(cfg, s, step);
    }
  }

  /**
   With the disabled key present and no handler past its check, no later step changes the metadata or the
   failed nodes, as written. Registrations still change.
   */
  lemma {:induction false} FrozenForever(cfg: Config, s: State, steps: seq<Step>)
    requires Frozen(s) && Run(cfg, s, steps).Some?
    ensures var s' := Run(cfg, s, steps).value;
            Frozen(s') && s'.w.meta == s.w.meta && s'.w.err == s.w.err
    decreases |steps|
  {
    if steps != [] {
      FrozenStep(cfg, s, steps[0]);
      FrozenForever(cfg, Apply(cfg, s, steps[0]).value, steps[1..]);
    }
  }
}
