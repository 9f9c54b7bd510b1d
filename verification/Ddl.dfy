/**
 The master's create-space and delete-space protocol as a transition system.

 Any number of handlers (clients of etcd) run `createSpace` and `deleteSpace`
 concurrently. Their shared state is the etcd map, the etcd mutex, the
 partition servers and the network between them. A request put on the network
 may be served at any later time, lost, or served after its caller has given up
 or crashed. Every nondeterministic choice is part of the step label, so a run
 is a sequence of steps.
 */
module Ddl {
  import opened Wrappers
  import opened PsNode
  import Placement

  type Client = nat
  type Node = nat
  type MsgId = nat

  /** The two places where the code departs from its intent. As written, both are false. */
  datatype Config = Config(
    deleteChecksLock: bool,  // deleteSpace gives up when TryLock fails
    decodeByReplicas: bool   // a failed task index is divided by the replica count
  )

  const AS_WRITTEN := Config(false, false)

  datatype Request = Request(name: SpaceName, partitions: nat, replicas: nat)

  /** The part of the request check that the protocol depends on. */
  predicate Accepted(req: Request) {
    && |req.name.db| > 5 && |req.name.space| > 5
    && 0 < req.partitions <= 100
    && 0 < req.replicas <= 5 && req.replicas % 2 == 1
  }

  /** A space as stored in etcd: replica r of partition p is nodes[p * replicas + r]. */
  datatype Space = Space(name: SpaceName, partitions: nat, replicas: nat, nodes: seq<Node>)

  datatype Op = Creating | Undoing | Deleting

  datatype Call = Sent(id: MsgId) | Returned(ok: bool)

  /** Where a handler stands: what it will do next. */
  datatype Pc =
    | Idle
    | CreateWait(req: Request)
    | CreateCheck(req: Request)
    | CreateScan(req: Request)
    | CreateScanErr(req: Request, nodes: set<Node>)
    | CreateScanMeta(req: Request, nodes: set<Node>, failed: set<Node>)
    | CreateMark(space: Space)
    | CreateCommit(space: Space)
    | DeleteWait(name: SpaceName)
    | DeleteRead(name: SpaceName)
    | DeleteCheck(space: Space)
    | DeleteMark(space: Space)
    | DeleteMeta(space: Space)
    | Calling(op: Op, space: Space, calls: map<nat, Call>)
    | Marking(op: Op, space: Space, left: set<nat>)
    | Enable
    | Leave

  datatype Msg = CreateMsg(node: Node, name: SpaceName) | DeleteMsg(node: Node, name: SpaceName)

  /** Metadata, servers and network: what the agreement of servers and etcd is about. */
  datatype World = World(
    meta: map<SpaceName, Space>,   // keys under /spaces/mata
    err: set<Node>,                // keys under /error/nodes/ps
    ps: map<Node, Ps>,             // servers whose state is not the initial one
    net: map<MsgId, Msg>,          // requests not yet served
    acks: set<MsgId>,              // requests answered with code 0
    nextId: MsgId
  )

  datatype State = State(
    w: World,
    disabled: bool,                // /cluster/ddl_disabled is present
    registered: set<Node>,         // keys under /nodes/ps
    lock: Option<Client>,          // holder of /ddl/lock
    pcs: map<Client, Pc>           // handlers that are not idle
  )

  const INIT := State(World(map[], {}, map[], map[], {}, 0), false, {}, None, map[])

  function PcOf(s: State, c: Client): Pc {
    if c in s.pcs then s.pcs[c] else Idle
  }

  function PsOf(w: World, n: Node): Ps {
    if n in w.ps then w.ps[n] else EMPTY_PS
  }

  function Busy(meta: map<SpaceName, Space>): set<Node> {
    set name, n | name in meta && n in meta[name].nodes :: n
  }

  /** The nodes a create may choose from, given what it read of nodes, spaces and failed nodes. */
  function Idles(nodes: set<Node>, meta: map<SpaceName, Space>, failed: set<Node>): set<Node> {
    nodes - Busy(meta) - failed
  }

  /** A create handler that has not chosen nodes yet. */
  predicate Requesting(pc: Pc) {
    pc.CreateWait? || pc.CreateCheck? || pc.CreateScan? || pc.CreateScanErr? || pc.CreateScanMeta?
  }

  predicate Enumerates(idle: seq<Node>, nodes: set<Node>) {
    && (forall n | n in idle :: n in nodes)
    && (forall n | n in nodes :: n in idle)
    && (forall i, j :: 0 <= i < j < |idle| ==> idle[i] != idle[j])
  }

  /** The replica that a failed task index is taken to mean; None is an index out of range. */
  function Decode(cfg: Config, space: Space, i: nat): Option<nat> {
    var divisor := if cfg.decodeByReplicas then space.replicas else space.partitions;
    Placement.DecodeTask(divisor, space.partitions, space.replicas, i)
  }

  predicate Decodable(cfg: Config, space: Space, failed: set<nat>) {
    forall i :: i in failed ==> Decode(cfg, space, i).Some? && Decode(cfg, space, i).value < |space.nodes|
  }

  datatype Step =
    | BeginCreate(c: Client, req: Request)
    | BeginDelete(c: Client, name: SpaceName)
    | TryLock(c: Client, got: bool)
    | CheckDisabled(c: Client, readError: bool)
    | ScanNodes(c: Client)
    | ScanErr(c: Client)
    | Scan(c: Client, idle: seq<Node>)
    | ReadSpace(c: Client, readError: bool)
    | PutDisabled(c: Client)
    | Send(c: Client, i: nat)
    | Return(c: Client, i: nat, ok: bool)
    | Collect(c: Client)
    | MarkOne(c: Client, i: nat)
    | MarkDone(c: Client)
    | PutMeta(c: Client, ok: bool, applied: bool)
    | DeleteKey(c: Client, ok: bool, applied: bool)
    | EnableDdl(c: Client, applied: bool)
    | Unlock(c: Client)
    | Crash(c: Client)
    | Deliver(id: MsgId, outcome: Outcome)
    | Drop(id: MsgId)
    | RestartPs(n: Node)
    | Register(n: Node)
    | Deregister(n: Node)

  function At(s: State, c: Client, pc: Pc): State {
    s.(pcs := s.pcs[c := pc])
  }

  function Release(s: State, c: Client): State {
    s.(pcs := s.pcs - {c}, lock := if s.lock == Some(c) then None else s.lock)
  }

  function Failed(calls: map<nat, Call>): set<nat> {
    set i | i in calls && calls[i] == Returned(false)
  }

  predicate AllReturned(space: Space, calls: map<nat, Call>) {
    forall i :: 0 <= i < |space.nodes| ==> i in calls && calls[i].Returned?
  }

  function MsgFor(op: Op, space: Space, i: nat): Msg
    requires i < |space.nodes|
  {
    if op == Creating then CreateMsg(space.nodes[i], space.name) else DeleteMsg(space.nodes[i], space.name)
  }

  /** What follows a round of calls none of which failed. */
  function AfterCalls(op: Op, space: Space): Pc {
    match op
    case Creating => CreateCommit(space)
    case Undoing => Leave
    case Deleting => Enable
  }

  /** What follows once the failed nodes have been recorded. */
  function AfterMarks(op: Op, space: Space): Pc {
    match op
    case Creating => Calling(Undoing, space, map[])
    case Undoing => Leave
    case Deleting => Enable
  }

  function ServeMsg(w: World, id: MsgId, outcome: Outcome): World
    requires id in w.net
  {
    var m := w.net[id];
    var (ps', code) :=
      if m.CreateMsg? then Create(PsOf(w, m.node), m.name, outcome) else Delete(PsOf(w, m.node), m.name);
    w.(ps := w.ps[m.node := ps'], net := w.net - {id}, acks := if code == OK then w.acks + {id} else w.acks)
  }

  predicate IsEtcdStep(step: Step) {
    step.CheckDisabled? || step.ScanNodes? || step.ScanErr? || step.Scan? || step.ReadSpace? || step.PutDisabled?
    || step.PutMeta? || step.DeleteKey? || step.EnableDdl?
  }

  predicate IsCallStep(step: Step) {
    step.Send? || step.Return? || step.Collect? || step.MarkOne? || step.MarkDone?
  }

  predicate IsServerStep(step: Step) {
    step.Deliver? || step.Drop? || step.RestartPs? || step.Register? || step.Deregister?
  }

  /** A request arrives, tries the lock, or is over; a crash releases the lock like a normal exit. */
  function ApplyLock(cfg: Config, s: State, step: Step): Option<State>
    requires !IsEtcdStep(step) && !IsCallStep(step) && !IsServerStep(step)
  {
    var pc := PcOf(s, step.c);
    match step
    case BeginCreate(c, req) =>
      if c in s.pcs || !Accepted(req) then None else Some(At(s, c, CreateWait(req)))
    case BeginDelete(c, name) =>
      if c in s.pcs then None else Some(At(s, c, DeleteWait(name)))
    case TryLock(c, got) =>
      if !pc.CreateWait? && !pc.DeleteWait? then None
      else if got then
        if s.lock.Some? then None
        else Some(At(s.(lock := Some(c)), c, if pc.CreateWait? then CreateCheck(pc.req) else DeleteRead(pc.name)))
      else if pc.CreateWait? || cfg.deleteChecksLock then Some(Release(s, c))
      else Some(At(s, c, DeleteRead(pc.name)))
    case Unlock(c) =>
      if pc != Leave then None else Some(Release(s, c))
    case Crash(c) =>
      Some(Release(s, c))
  }

  /** The network delivers or loses a request, a server restarts, a node registers or expires. */
  function ApplyServer(s: State, step: Step): Option<State>
    requires IsServerStep(step)
  {
    match step
    case Deliver(id, outcome) =>
      if id in s.w.net then Some(s.(w := ServeMsg(s.w, id, outcome))) else None
    case Drop(id) =>
      if id in s.w.net then Some(s.(w := s.w.(net := s.w.net - {id}))) else None
    case RestartPs(n) => Some(s.(w := s.w.(ps := s.w.ps[n := Restart(PsOf(s.w, n))])))
    case Register(n) => Some(s.(registered := s.registered + {n}))
    case Deregister(n) => Some(s.(registered := s.registered - {n}))
  }

  /** Handler steps that read or write etcd. */
  function ApplyEtcd(s: State, step: Step): Option<State>
    requires IsEtcdStep(step)
  {
    var pc := PcOf(s, step.c);
    match step
    case CheckDisabled(c, readError) =>
      if !pc.CreateCheck? && !pc.DeleteCheck? then None
      else if readError || s.disabled then Some(At(s, c, Leave))
      else Some(At(s, c, if pc.CreateCheck? then CreateScan(pc.req) else DeleteMark(pc.space)))
    case ScanNodes(c) =>
      if !pc.CreateScan? then None else Some(At(s, c, CreateScanErr(pc.req, s.registered)))
    case ScanErr(c) =>
      if !pc.CreateScanErr? then None else Some(At(s, c, CreateScanMeta(pc.req, pc.nodes, s.w.err)))
    case Scan(c, idle) =>
      if !pc.CreateScanMeta? || !Enumerates(idle, Idles(pc.nodes, s.w.meta, pc.failed)) then None
      else if pc.req.name in s.w.meta || |idle| < pc.req.partitions * pc.req.replicas then Some(At(s, c, Leave))
      else
        var need := pc.req.partitions * pc.req.replicas;
        Some(At(s, c, CreateMark(Space(pc.req.name, pc.req.partitions, pc.req.replicas, idle[..need]))))
    case ReadSpace(c, readError) =>
      if !pc.DeleteRead? then None
      else if readError || pc.name !in s.w.meta then Some(At(s, c, Leave))
      else Some(At(s, c, DeleteCheck(s.w.meta[pc.name])))
    case PutDisabled(c) =>
      if pc.CreateMark? then Some(At(s.(disabled := true), c, Calling(Creating, pc.space, map[])))
      else if pc.DeleteMark? then Some(At(s.(disabled := true), c, DeleteMeta(pc.space)))
      else None
    case PutMeta(c, ok, applied) =>
      if !pc.CreateCommit? || (ok && !applied) then None
      else
        var s' := if applied then s.(w := s.w.(meta := s.w.meta[pc.space.name := pc.space])) else s;
        Some(At(s', c, if ok then Enable else Calling(Undoing, pc.space, map[])))
    case DeleteKey(c, ok, applied) =>
      if !pc.DeleteMeta? || (ok && (!applied || pc.space.name !in s.w.meta)) then None
      else
        var s' := if applied then s.(w := s.w.(meta := s.w.meta - {pc.space.name})) else s;
        Some(At(s', c, if ok then Calling(Deleting, pc.space, map[]) else Leave))
    case EnableDdl(c, applied) =>
      if !pc.Enable? then None
      else Some(At(s.(disabled := s.disabled && !applied), c, Leave))
  }

  /** Handler steps of a round of server calls and the recording of its failures. */
  function ApplyCalls(cfg: Config, s: State, step: Step): Option<State>
    requires IsCallStep(step)
  {
    var pc := PcOf(s, step.c);
    match step
    case Send(c, i) =>
      if !pc.Calling? || i >= |pc.space.nodes| || i in pc.calls then None
      else
        var id := s.w.nextId;
        var w' := s.w.(net := s.w.net[id := MsgFor(pc.op, pc.space, i)], nextId := id + 1);
        Some(At(s.(w := w'), c, pc.(calls := pc.calls[i := Sent(id)])))
    case Return(c, i, ok) =>
      if !pc.Calling? || i !in pc.calls || !pc.calls[i].Sent? || (ok && pc.calls[i].id !in s.w.acks) then None
      else Some(At(s, c, pc.(calls := pc.calls[i := Returned(ok)])))
    case Collect(c) =>
      if !pc.Calling? || !AllReturned(pc.space, pc.calls) then None
      else if Failed(pc.calls) == {} then Some(At(s, c, AfterCalls(pc.op, pc.space)))
      else if !Decodable(cfg, pc.space, Failed(pc.calls)) then Some(At(s, c, Leave))
      else Some(At(s, c, Marking(pc.op, pc.space, Failed(pc.calls))))
    case MarkOne(c, i) =>
      if !pc.Marking? || i !in pc.left then None
      else
        var k := Decode(cfg, pc.space, i);
        if k.None? || k.value >= |pc.space.nodes| then None
        else Some(At(s.(w := s.w.(err := s.w.err + {pc.space.nodes[k.value]})), c, pc.(left := pc.left - {i})))
    case MarkDone(c) =>
      if !pc.Marking? || pc.left != {} then None
      else Some(At(s, c, AfterMarks(pc.op, pc.space)))
  }

  /** The step's successor state, or None when the step cannot be taken. */
  function Apply(cfg: Config, s: State, step: Step): Option<State> {
    if IsEtcdStep(step) then ApplyEtcd(s, step)
    else if IsCallStep(step) then ApplyCalls(cfg, s, step)
    else if IsServerStep(step) then ApplyServer(s, step)
    else ApplyLock(cfg, s, step)
  }

  function Run(cfg: Config, s: State, steps: seq<Step>): Option<State>
    decreases |steps|
  {
    if steps == [] then Some(s)
    else
      var next := Apply(cfg, s, steps[0]);
      if next.None? then None else Run(cfg, next.value, steps[1..])
  }

  /** Etcd lists node n as a replica of the named space. */
  predicate Listed(meta: map<SpaceName, Space>, n: Node, name: SpaceName) {
    name in meta && n in meta[name].nodes
  }

  /** Servers and etcd agree on every node that is not recorded as failed, and no listed node is. */
  ghost predicate Consistent(w: World) {
    && (forall n, name | n !in w.err :: Held(PsOf(w, n)) == Some(name) <==> Listed(w.meta, n, name))
    && (forall n, name | Listed(w.meta, n, name) :: n !in w.err)
  }

  predicate Distinct(nodes: seq<Node>) {
    forall i, j :: 0 <= i < j < |nodes| ==> nodes[i] != nodes[j]
  }

  /** Every live space has one distinct node per replica, and live spaces share none. */
  ghost predicate Exclusive(meta: map<SpaceName, Space>) {
    && (forall name | name in meta ::
          && meta[name].name == name
          && |meta[name].nodes| == meta[name].partitions * meta[name].replicas > 0
          && Distinct(meta[name].nodes))
    && (forall a, b, n | Listed(meta, n, a) && Listed(meta, n, b) :: a == b)
  }
}
