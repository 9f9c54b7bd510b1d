/**
 The exact condition for the safety of the space protocol: what happens when
 deleteSpace goes on without the lock, and when a failed task is decoded to
 another node. Both are shown by runs built for every partition and replica count.
 */
module DdlExact {
  import opened Arithmetic
  import opened Wrappers
  import opened PsNode
  import opened Ddl
  import opened DdlSafety
  import Placement

  /** Every space the step asks for has these counts. */
  predicate HasCounts(step: Step, p: nat, r: nat) {
    step.BeginCreate? ==> step.req.partitions == p && step.req.replicas == r
  }

  predicate AllHaveCounts(steps: seq<Step>, p: nat, r: nat) {
    forall i | 0 <= i < |steps| :: HasCounts(steps[i], p, r)
  }

  /**
   The protocol under one configuration, restricted to creates with p partitions and r
   replicas. The transition function is kept as a value, and runs are stated with that value
   (`RunWith`), because the runs below are built step by step from facts about single steps: the
   verifier then has no transition to unfold while it puts them together. For the faithful
   setting it is the run of the protocol, which is what `RunWithIsRun` proves.
   */
  datatype Setting = Setting(next: (State, Step) -> Option<State>, cfg: Config, p: nat, r: nat) {
    ghost predicate Faithful() {
      forall s, step {:trigger Apply(cfg, s, step)} :: next(s, step) == Apply(cfg, s, step)
    }
  }

  function RunWith(next: (State, Step) -> Option<State>, s: State, steps: seq<Step>): Option<State>
    decreases |steps|
  {
    if steps == [] then Some(s)
    else
      var t := next(s, steps[0]);
      if t.None? then None else RunWith(next, t.value, steps[1..])
  }

  lemma {:induction false} RunWithIsRun(g: Setting, s: State, steps: seq<Step>)
    requires g.Faithful()
    ensures RunWith(g.next, s, steps) == Run(g.cfg, s, steps)
    decreases |steps|
  {
    if steps != [] {
      var t := Apply(g.cfg, s, steps[0]);
      if t.Some? {
        RunWithIsRun(g, t.value, steps[1..]);
      }
    }
  }

  /** Some run of the setting leads from s to t. */
  ghost predicate Reaches(g: Setting, s: State, t: State) {
    exists steps :: AllHaveCounts(steps, g.p, g.r) && RunWith(g.next, s, steps) == Some(t)
  }

  lemma {:induction false} RunConcat(g: Setting, s: State, a: seq<Step>, b: seq<Step>)
    requires RunWith(g.next, s, a).Some?
    ensures RunWith(g.next, s, a + b) == RunWith(g.next, RunWith(g.next, s, a).value, b)
    decreases |a|
  {
    if a == [] {
      assert [] + b == b;
    } else {
      assert (a + b)[1..] == a[1..] + b;
      RunConcat(g, g.next(s, a[0]).value, a[1..], b);
    }
  }

  lemma ReachesSelf(g: Setting, s: State)
    ensures Reaches(g, s, s)
  {
    assert RunWith(g.next, s, []) == Some(s);
  }

  lemma ReachesTrans(g: Setting, s: State, t: State, u: State)
    requires Reaches(g, s, t) && Reaches(g, t, u)
    ensures Reaches(g, s, u)
  {
    var a :| AllHaveCounts(a, g.p, g.r) && RunWith(g.next, s, a) == Some(t);
    var b :| AllHaveCounts(b, g.p, g.r) && RunWith(g.next, t, b) == Some(u);
    RunConcat(g, s, a, b);
    assert AllHaveCounts(a + b, g.p, g.r);
  }

  lemma Extend(g: Setting, s: State, t: State, step: Step, u: State)
    requires g.Faithful() && Reaches(g, s, t) && Apply(g.cfg, t, step) == Some(u) && HasCounts(step, g.p, g.r)
    ensures Reaches(g, s, u)
  {
    assert [step][1..] == [];
    assert RunWith(g.next, t, [step]) == Some(u);
    assert AllHaveCounts([step], g.p, g.r);
    ReachesTrans(g, s, t, u);
  }

  // ---- one round of calls, each served at once or lost ----

  /** The server's answer to task i. */
  function Acted(w: World, op: Op, space: Space, i: nat): (Ps, int)
    requires i < |space.nodes|
  {
    var ps := PsOf(w, space.nodes[i]);
    if op == Creating then Create(ps, space.name, Started) else Delete(ps, space.name)
  }

  function SentWorld(w: World, m: Msg): World {
    w.(net := w.net[w.nextId := m], nextId := w.nextId + 1)
  }

  /** The world after task i was sent and then acknowledged, or lost. */
  function CallWorld(w: World, op: Op, space: Space, i: nat, ok: bool): World
    requires i < |space.nodes|
  {
    if ok then
      w.(ps := w.ps[space.nodes[i] := Acted(w, op, space, i).0], acks := w.acks + {w.nextId}, nextId := w.nextId + 1)
    else w.(nextId := w.nextId + 1)
  }

  lemma ServeSent(w: World, op: Op, space: Space, i: nat, ok: bool)
    requires i < |space.nodes| && Ids(w)
    requires ok ==> Acted(w, op, space, i).1 == OK
    ensures var w1 := SentWorld(w, MsgFor(op, space, i));
            var w2 := CallWorld(w, op, space, i, ok);
            && Ids(w2)
            && (if ok then ServeMsg(w1, w.nextId, Started) else w1.(net := w1.net - {w.nextId})) == w2
  {
    var m := MsgFor(op, space, i);
    assert w.net[w.nextId := m] - {w.nextId} == w.net;
    assert PsOf(SentWorld(w, m), m.node) == PsOf(w, m.node);
  }

  /** A handler in the middle of a round of calls. */
  function InCalls(s: State, c: Client, w: World, op: Op, space: Space, calls: map<nat, Call>): State {
    At(s.(w := w), c, Calling(op, space, calls))
  }

  /** Moving a handler again replaces its earlier point. */
  lemma AtAgain(s: State, c: Client, a: Pc, b: Pc)
    ensures At(At(s, c, a), c, b) == At(s, c, b)
    ensures PcOf(At(s, c, a), c) == a
  {
    assert s.pcs[c := a][c := b] == s.pcs[c := b];
  }

  lemma SendApplies(cfg: Config, s: State, c: Client, w: World, op: Op, space: Space, calls: map<nat, Call>, i: nat)
    requires i < |space.nodes| && i !in calls
    ensures ApplyCalls(cfg, InCalls(s, c, w, op, space, calls), Send(c, i)) ==
              Some(InCalls(s, c, SentWorld(w, MsgFor(op, space, i)), op, space, calls[i := Sent(w.nextId)]))
  {
    var w1 := SentWorld(w, MsgFor(op, space, i));
    AtAgain(s.(w := w), c, Calling(op, space, calls), Calling(op, space, calls));
    AtAgain(s.(w := w1), c, Calling(op, space, calls), Calling(op, space, calls[i := Sent(w.nextId)]));
  }

  lemma ReturnApplies(cfg: Config, s: State, c: Client, w: World, op: Op, space: Space, calls: map<nat, Call>, i: nat,
                      id: MsgId, ok: bool)
    requires ok ==> id in w.acks
    ensures ApplyCalls(cfg, InCalls(s, c, w, op, space, calls[i := Sent(id)]), Return(c, i, ok)) ==
              Some(InCalls(s, c, w, op, space, calls[i := Returned(ok)]))
  {
    var sent := Calling(op, space, calls[i := Sent(id)]);
    AtAgain(s.(w := w), c, sent, Calling(op, space, calls[i := Returned(ok)]));
    assert calls[i := Sent(id)][i := Returned(ok)] == calls[i := Returned(ok)];
  }

  /** Task i is sent, and served at once or lost. */
  lemma SentAndServed(g: Setting, s: State, c: Client, w: World, op: Op, space: Space,
                      calls: map<nat, Call>, i: nat, ok: bool)
    requires g.Faithful()
    requires i < |space.nodes| && i !in calls && Ids(w)
    requires ok ==> Acted(w, op, space, i).1 == OK
    ensures Reaches(g, InCalls(s, c, w, op, space, calls),
                    InCalls(s, c, CallWorld(w, op, space, i, ok), op, space, calls[i := Sent(w.nextId)]))
  {
    var id := w.nextId;
    ServeSent(w, op, space, i, ok);
    var s0 := InCalls(s, c, w, op, space, calls);
    var s1 := InCalls(s, c, SentWorld(w, MsgFor(op, space, i)), op, space, calls[i := Sent(id)]);
    ReachesSelf(g, s0);
    SendApplies(g.cfg, s, c, w, op, space, calls, i);
    Extend(g, s0, s0, Send(c, i), s1);
    ServedNext(g, s0, s1, id, ok, CallWorld(w, op, space, i, ok));
  }

  /** The request of a state is served, or lost. */
  lemma ServedNext(g: Setting, s0: State, s1: State, id: MsgId, ok: bool, w2: World)
    requires g.Faithful() && Reaches(g, s0, s1) && id in s1.w.net
    requires (if ok then ServeMsg(s1.w, id, Started) else s1.w.(net := s1.w.net - {id})) == w2
    ensures Reaches(g, s0, s1.(w := w2))
  {
    var served := if ok then Deliver(id, Started) else Drop(id);
    assert Apply(g.cfg, s1, served) == Some(s1.(w := w2));
    Extend(g, s0, s1, served, s1.(w := w2));
  }

  lemma OneCall(g: Setting, s: State, c: Client, w: World, op: Op, space: Space,
                calls: map<nat, Call>, i: nat, ok: bool)
    requires g.Faithful()
    requires i < |space.nodes| && i !in calls && Ids(w)
    requires ok ==> Acted(w, op, space, i).1 == OK
    ensures Reaches(g, InCalls(s, c, w, op, space, calls),
                    InCalls(s, c, CallWorld(w, op, space, i, ok), op, space, calls[i := Returned(ok)]))
  {
    var w2 := CallWorld(w, op, space, i, ok);
    SentAndServed(g, s, c, w, op, space, calls, i, ok);
    ReturnApplies(g.cfg, s, c, w2, op, space, calls, i, w.nextId, ok);
    Extend(g, InCalls(s, c, w, op, space, calls), InCalls(s, c, w2, op, space, calls[i := Sent(w.nextId)]),
           Return(c, i, ok), InCalls(s, c, w2, op, space, calls[i := Returned(ok)]));
  }

  /** The world after the first k tasks, where those in `lost` never arrive. */
  function CallsWorld(w: World, op: Op, space: Space, k: nat, lost: set<nat>): World
    requires k <= |space.nodes|
  {
    if k == 0 then w else CallWorld(CallsWorld(w, op, space, k - 1, lost), op, space, k - 1, k - 1 !in lost)
  }

  function CallsMap(k: nat, lost: set<nat>): map<nat, Call> {
    map i: nat | 0 <= i < k :: Returned(i !in lost)
  }

  /** Tasks act on their own nodes: each server that was reached made its transition once. */
  lemma {:induction false} CallsPs(w: World, op: Op, space: Space, k: nat, lost: set<nat>, i: nat)
    requires k <= |space.nodes| && i < |space.nodes| && Distinct(space.nodes)
    ensures PsOf(CallsWorld(w, op, space, k, lost), space.nodes[i]) ==
              if i < k && i !in lost then Acted(w, op, space, i).0 else PsOf(w, space.nodes[i])
  {
    if k > 0 {
      CallsPs(w, op, space, k - 1, lost, i);
      CallsPs(w, op, space, k - 1, lost, k - 1);
      assert i != k - 1 ==> space.nodes[i] != space.nodes[k - 1];
    }
  }

  lemma {:induction false} CallsFrame(w: World, op: Op, space: Space, k: nat, lost: set<nat>)
    requires k <= |space.nodes|
    ensures var w' := CallsWorld(w, op, space, k, lost);
            && w'.meta == w.meta && w'.err == w.err && w'.net == w.net && (Ids(w) ==> Ids(w'))
            && forall n | n !in space.nodes :: PsOf(w', n) == PsOf(w, n)
  {
    if k > 0 {
      CallsFrame(w, op, space, k - 1, lost);
    }
  }

  lemma {:induction false} RunCalls(g: Setting, s: State, c: Client, w: World, op: Op, space: Space,
                                    k: nat, lost: set<nat>)
    requires g.Faithful()
    requires k <= |space.nodes| && Distinct(space.nodes) && Ids(w)
    requires forall i | 0 <= i < |space.nodes| && i !in lost :: Acted(w, op, space, i).1 == OK
    ensures Reaches(g, InCalls(s, c, w, op, space, map[]),
                    InCalls(s, c, CallsWorld(w, op, space, k, lost), op, space, CallsMap(k, lost)))
    decreases k
  {
    if k == 0 {
      assert CallsMap(0, lost) == map[];
      ReachesSelf(g, InCalls(s, c, w, op, space, map[]));
    } else {
      RunCalls(g, s, c, w, op, space, k - 1, lost);
      var v := CallsWorld(w, op, space, k - 1, lost);
      CallsPs(w, op, space, k - 1, lost, k - 1);
      CallsFrame(w, op, space, k - 1, lost);
      var ok := k - 1 !in lost;
      OneCall(g, s, c, v, op, space, CallsMap(k - 1, lost), k - 1, ok);
      assert CallsMap(k - 1, lost)[k - 1 := Returned(ok)] == CallsMap(k, lost);
      ReachesTrans(g, InCalls(s, c, w, op, space, map[]), InCalls(s, c, v, op, space, CallsMap(k - 1, lost)),
                   InCalls(s, c, CallsWorld(w, op, space, k, lost), op, space, CallsMap(k, lost)));
    }
  }

  // ---- single steps of a handler c of L ----

  /** A step that moves the handler from a to b and makes L into M. */
  ghost predicate Moves(cfg: Config, L: State, c: Client, a: Pc, step: Step, M: State, b: Pc) {
    Apply(cfg, At(L, c, a), step) == Some(At(M, c, b))
  }

  lemma Move(g: Setting, s: State, L: State, c: Client, a: Pc, step: Step, M: State, b: Pc)
    requires g.Faithful() && Reaches(g, s, At(L, c, a)) && HasCounts(step, g.p, g.r)
    requires Moves(g.cfg, L, c, a, step, M, b)
    ensures Reaches(g, s, At(M, c, b))
  {
    Extend(g, s, At(L, c, a), step, At(M, c, b));
  }

  lemma LockMoves(cfg: Config, S: State, c: Client, req: Request, name: SpaceName)
    requires S.lock.None?
    ensures Moves(cfg, S, c, CreateWait(req), TryLock(c, true), S.(lock := Some(c)), CreateCheck(req))
    ensures Moves(cfg, S, c, DeleteWait(name), TryLock(c, true), S.(lock := Some(c)), DeleteRead(name))
  {
    AtAgain(S.(lock := Some(c)), c, CreateWait(req), CreateCheck(req));
    AtAgain(S.(lock := Some(c)), c, DeleteWait(name), DeleteRead(name));
  }

  lemma NoLockMoves(cfg: Config, S: State, c: Client, name: SpaceName)
    requires !cfg.deleteChecksLock
    ensures Moves(cfg, S, c, DeleteWait(name), TryLock(c, false), S, DeleteRead(name))
  {
    AtAgain(S, c, DeleteWait(name), DeleteRead(name));
  }

  lemma CheckMoves(cfg: Config, L: State, c: Client, req: Request, space: Space)
    requires !L.disabled
    ensures Moves(cfg, L, c, CreateCheck(req), CheckDisabled(c, false), L, CreateScan(req))
    ensures Moves(cfg, L, c, DeleteCheck(space), CheckDisabled(c, false), L, DeleteMark(space))
  {
    AtAgain(L, c, CreateCheck(req), CreateScan(req));
    AtAgain(L, c, DeleteCheck(space), DeleteMark(space));
  }

  lemma ReadsMove(cfg: Config, L: State, c: Client, req: Request, nodes: set<Node>)
    ensures Moves(cfg, L, c, CreateScan(req), ScanNodes(c), L, CreateScanErr(req, L.registered))
    ensures Moves(cfg, L, c, CreateScanErr(req, nodes), ScanErr(c), L, CreateScanMeta(req, nodes, L.w.err))
  {
    AtAgain(L, c, CreateScan(req), CreateScanErr(req, L.registered));
    AtAgain(L, c, CreateScanErr(req, nodes), CreateScanMeta(req, nodes, L.w.err));
  }

  lemma ScanMoves(cfg: Config, L: State, c: Client, req: Request, nodes: set<Node>, failed: set<Node>, idle: seq<Node>,
                  n: nat)
    requires req.name !in L.w.meta && Enumerates(idle, Idles(nodes, L.w.meta, failed))
    requires req.partitions * req.replicas == n <= |idle|
    ensures Moves(cfg, L, c, CreateScanMeta(req, nodes, failed), Scan(c, idle), L,
                  CreateMark(Space(req.name, req.partitions, req.replicas, idle[..n])))
  {
    AtAgain(L, c, CreateScanMeta(req, nodes, failed),
            CreateMark(Space(req.name, req.partitions, req.replicas, idle[..n])));
  }

  lemma ReadMoves(cfg: Config, L: State, c: Client, name: SpaceName)
    requires name in L.w.meta
    ensures Moves(cfg, L, c, DeleteRead(name), ReadSpace(c, false), L, DeleteCheck(L.w.meta[name]))
  {
    AtAgain(L, c, DeleteRead(name), DeleteCheck(L.w.meta[name]));
  }

  lemma DisableMoves(cfg: Config, L: State, c: Client, space: Space)
    ensures Moves(cfg, L, c, CreateMark(space), PutDisabled(c), L.(disabled := true), Calling(Creating, space, map[]))
    ensures Moves(cfg, L, c, DeleteMark(space), PutDisabled(c), L.(disabled := true), DeleteMeta(space))
  {
    AtAgain(L.(disabled := true), c, CreateMark(space), Calling(Creating, space, map[]));
    AtAgain(L.(disabled := true), c, DeleteMark(space), DeleteMeta(space));
  }

  lemma CommitMoves(cfg: Config, L: State, c: Client, space: Space)
    ensures Moves(cfg, L, c, CreateCommit(space), PutMeta(c, true, true),
                  L.(w := L.w.(meta := L.w.meta[space.name := space])), Enable)
  {
    AtAgain(L.(w := L.w.(meta := L.w.meta[space.name := space])), c, CreateCommit(space), Enable);
  }

  lemma DeleteKeyMoves(cfg: Config, L: State, c: Client, space: Space)
    requires space.name in L.w.meta
    ensures Moves(cfg, L, c, DeleteMeta(space), DeleteKey(c, true, true),
                  L.(w := L.w.(meta := L.w.meta - {space.name})), Calling(Deleting, space, map[]))
  {
    AtAgain(L.(w := L.w.(meta := L.w.meta - {space.name})), c, DeleteMeta(space), Calling(Deleting, space, map[]));
  }

  lemma CollectMoves(cfg: Config, L: State, c: Client, op: Op, space: Space)
    ensures Moves(cfg, L, c, Calling(op, space, CallsMap(|space.nodes|, {})), Collect(c), L, AfterCalls(op, space))
  {
    var calls := CallsMap(|space.nodes|, {});
    assert Failed(calls) == {};
    AtAgain(L, c, Calling(op, space, calls), AfterCalls(op, space));
  }

  lemma CollectLostMoves(cfg: Config, L: State, c: Client, space: Space, i: nat)
    requires i < |space.nodes| && Decodable(cfg, space, {i})
    ensures Moves(cfg, L, c, Calling(Deleting, space, CallsMap(|space.nodes|, {i})), Collect(c),
                  L, Marking(Deleting, space, {i}))
  {
    var calls := CallsMap(|space.nodes|, {i});
    assert Failed(calls) == {i};
    AtAgain(L, c, Calling(Deleting, space, calls), Marking(Deleting, space, {i}));
  }

  lemma MarkMoves(cfg: Config, L: State, c: Client, space: Space, i: nat, k: nat)
    requires Decode(cfg, space, i) == Some(k) && k < |space.nodes|
    ensures Moves(cfg, L, c, Marking(Deleting, space, {i}), MarkOne(c, i),
                  L.(w := L.w.(err := L.w.err + {space.nodes[k]})), Marking(Deleting, space, {}))
  {
    assert {i} - {i} == {};
    AtAgain(L.(w := L.w.(err := L.w.err + {space.nodes[k]})), c,
            Marking(Deleting, space, {i}), Marking(Deleting, space, {}));
  }

  lemma MarkDoneMoves(cfg: Config, L: State, c: Client, space: Space)
    ensures Moves(cfg, L, c, Marking(Deleting, space, {}), MarkDone(c), L, Enable)
  {
    AtAgain(L, c, Marking(Deleting, space, {}), Enable);
  }

  lemma EnableMoves(cfg: Config, L: State, c: Client)
    ensures Moves(cfg, L, c, Enable, EnableDdl(c, true), L.(disabled := false), Leave)
  {
    AtAgain(L.(disabled := false), c, Enable, Leave);
  }

  // ---- whole creates and deletes ----

  /** A create up to the point where it has read nodes and failed nodes, but not yet the spaces. */
  lemma CreateToScan(g: Setting, s: State, S: State, c: Client, name: SpaceName)
    requires g.Faithful() && Reaches(g, s, S) && c !in S.pcs && S.lock.None? && !S.disabled
    requires Accepted(Request(name, g.p, g.r))
    ensures Reaches(g, s, At(S.(lock := Some(c)), c, CreateScanMeta(Request(name, g.p, g.r), S.registered, S.w.err)))
  {
    var L, req := S.(lock := Some(c)), Request(name, g.p, g.r);
    Extend(g, s, S, BeginCreate(c, req), At(S, c, CreateWait(req)));
    LockMoves(g.cfg, S, c, req, name);
    Move(g, s, S, c, CreateWait(req), TryLock(c, true), L, CreateCheck(req));
    CheckMoves(g.cfg, L, c, req, Space(name, 0, 0, []));
    Move(g, s, L, c, CreateCheck(req), CheckDisabled(c, false), L, CreateScan(req));
    ReadsMove(g.cfg, L, c, req, L.registered);
    Move(g, s, L, c, CreateScan(req), ScanNodes(c), L, CreateScanErr(req, L.registered));
    Move(g, s, L, c, CreateScanErr(req, L.registered), ScanErr(c), L, CreateScanMeta(req, L.registered, L.w.err));
  }

  /** A create up to its writes, taking the first n idle nodes. */
  lemma CreateToMark(g: Setting, s: State, S: State, c: Client, name: SpaceName, idle: seq<Node>, n: nat)
    requires g.Faithful() && Reaches(g, s, S) && c !in S.pcs && S.lock.None? && !S.disabled
    requires Accepted(Request(name, g.p, g.r)) && name !in S.w.meta
    requires Enumerates(idle, Idles(S.registered, S.w.meta, S.w.err)) && g.p * g.r == n <= |idle|
    ensures Reaches(g, s, At(S.(lock := Some(c)), c, CreateMark(Space(name, g.p, g.r, idle[..n]))))
  {
    var L, req := S.(lock := Some(c)), Request(name, g.p, g.r);
    CreateToScan(g, s, S, c, name);
    ScanMoves(g.cfg, L, c, req, S.registered, S.w.err, idle, n);
    Move(g, s, L, c, CreateScanMeta(req, S.registered, S.w.err), Scan(c, idle),
         L, CreateMark(Space(name, g.p, g.r, idle[..n])));
  }

  /** Creates on every node, acknowledged at once. */
  lemma CreateCalls(g: Setting, s: State, L: State, c: Client, space: Space)
    requires g.Faithful() && Reaches(g, s, At(L, c, CreateMark(space)))
    requires Distinct(space.nodes) && Ids(L.w)
    requires forall i | 0 <= i < |space.nodes| :: Acted(L.w, Creating, space, i).1 == OK
    ensures var w := CallsWorld(L.w, Creating, space, |space.nodes|, {});
            Reaches(g, s, InCalls(L.(disabled := true), c, w, Creating, space, CallsMap(|space.nodes|, {})))
  {
    var D, n := L.(disabled := true), |space.nodes|;
    DisableMoves(g.cfg, L, c, space);
    Move(g, s, L, c, CreateMark(space), PutDisabled(c), D, Calling(Creating, space, map[]));
    assert D == D.(w := L.w);
    RunCalls(g, D, c, L.w, Creating, space, n, {});
    ReachesTrans(g, s, InCalls(D, c, L.w, Creating, space, map[]),
                 InCalls(D, c, CallsWorld(L.w, Creating, space, n, {}), Creating, space, CallsMap(n, {})));
  }

  /** All creates acknowledged: the metadata write, enabling DDL and leaving the lock. */
  lemma CreateFinish(g: Setting, s: State, L: State, c: Client, space: Space)
    requires g.Faithful() && Reaches(g, s, At(L, c, Calling(Creating, space, CallsMap(|space.nodes|, {}))))
    requires c !in L.pcs && L.lock == Some(c)
    ensures var w := L.w.(meta := L.w.meta[space.name := space]);
            Reaches(g, s, L.(w := w, disabled := false, lock := None))
  {
    var calls := CallsMap(|space.nodes|, {});
    var M := L.(w := L.w.(meta := L.w.meta[space.name := space]));
    CollectMoves(g.cfg, L, c, Creating, space);
    Move(g, s, L, c, Calling(Creating, space, calls), Collect(c), L, CreateCommit(space));
    CommitMoves(g.cfg, L, c, space);
    Move(g, s, L, c, CreateCommit(space), PutMeta(c, true, true), M, Enable);
    EnableMoves(g.cfg, M, c);
    Move(g, s, M, c, Enable, EnableDdl(c, true), M.(disabled := false), Leave);
    LeaveLock(g, s, M.(disabled := false), c);
  }

  lemma LeaveLock(g: Setting, s: State, L: State, c: Client)
    requires g.Faithful() && Reaches(g, s, At(L, c, Leave)) && c !in L.pcs && L.lock == Some(c)
    ensures Reaches(g, s, L.(lock := None))
  {
    assert L.pcs[c := Leave] - {c} == L.pcs;
    Extend(g, s, At(L, c, Leave), Unlock(c), L.(lock := None));
  }

  /** A delete up to its writes, with or without the lock. */
  lemma DeleteToMark(g: Setting, s: State, S: State, c: Client, name: SpaceName, got: bool)
    requires g.Faithful() && Reaches(g, s, S) && c !in S.pcs && !S.disabled && name in S.w.meta
    requires if got then S.lock.None? else !g.cfg.deleteChecksLock
    ensures Reaches(g, s, At(if got then S.(lock := Some(c)) else S, c, DeleteMark(S.w.meta[name])))
  {
    var L, space := if got then S.(lock := Some(c)) else S, S.w.meta[name];
    Extend(g, s, S, BeginDelete(c, name), At(S, c, DeleteWait(name)));
    if got {
      LockMoves(g.cfg, S, c, Request(name, 0, 0), name);
    } else {
      NoLockMoves(g.cfg, S, c, name);
    }
    Move(g, s, S, c, DeleteWait(name), TryLock(c, got), L, DeleteRead(name));
    ReadMoves(g.cfg, L, c, name);
    Move(g, s, L, c, DeleteRead(name), ReadSpace(c, false), L, DeleteCheck(space));
    CheckMoves(g.cfg, L, c, Request(name, 0, 0), space);
    Move(g, s, L, c, DeleteCheck(space), CheckDisabled(c, false), L, DeleteMark(space));
  }

  /** The metadata delete and a round of delete calls, those in `lost` never arriving. */
  lemma DeleteCalls(g: Setting, s: State, L: State, c: Client, space: Space, lost: set<nat>)
    requires g.Faithful() && Reaches(g, s, At(L, c, DeleteMark(space)))
    requires space.name in L.w.meta && Distinct(space.nodes) && Ids(L.w)
    requires forall i | 0 <= i < |space.nodes| && i !in lost :: PsOf(L.w, space.nodes[i]).name == space.name
    ensures var w := CallsWorld(L.w.(meta := L.w.meta - {space.name}), Deleting, space, |space.nodes|, lost);
            Reaches(g, s, InCalls(L.(disabled := true), c, w, Deleting, space, CallsMap(|space.nodes|, lost)))
  {
    var D, n := L.(disabled := true), |space.nodes|;
    var v := L.w.(meta := L.w.meta - {space.name});
    DisableMoves(g.cfg, L, c, space);
    Move(g, s, L, c, DeleteMark(space), PutDisabled(c), D, DeleteMeta(space));
    DeleteKeyMoves(g.cfg, D, c, space);
    Move(g, s, D, c, DeleteMeta(space), DeleteKey(c, true, true), D.(w := v), Calling(Deleting, space, map[]));
    forall i | 0 <= i < n && i !in lost
      ensures Acted(v, Deleting, space, i).1 == OK
    {
      assert PsOf(v, space.nodes[i]) == PsOf(L.w, space.nodes[i]);
    }
    RunCalls(g, D, c, v, Deleting, space, n, lost);
    ReachesTrans(g, s, InCalls(D, c, v, Deleting, space, map[]),
                 InCalls(D, c, CallsWorld(v, Deleting, space, n, lost), Deleting, space, CallsMap(n, lost)));
  }

  /** All deletes acknowledged. */
  lemma DeleteFinish(g: Setting, s: State, L: State, c: Client, space: Space)
    requires g.Faithful() && Reaches(g, s, At(L, c, Calling(Deleting, space, CallsMap(|space.nodes|, {}))))
    ensures Reaches(g, s, At(L.(disabled := false), c, Leave))
  {
    CollectMoves(g.cfg, L, c, Deleting, space);
    Move(g, s, L, c, Calling(Deleting, space, CallsMap(|space.nodes|, {})), Collect(c), L, Enable);
    EnableMoves(g.cfg, L, c);
    Move(g, s, L, c, Enable, EnableDdl(c, true), L.(disabled := false), Leave);
  }

  /** The delete of task i is lost, and the node of task k is recorded as failed. */
  lemma DeleteFinishLost(g: Setting, s: State, L: State, c: Client, space: Space, i: nat, k: nat)
    requires g.Faithful() && Reaches(g, s, At(L, c, Calling(Deleting, space, CallsMap(|space.nodes|, {i}))))
    requires i < |space.nodes| && Decode(g.cfg, space, i) == Some(k) && k < |space.nodes|
    ensures Reaches(g, s, At(L.(disabled := false, w := L.w.(err := L.w.err + {space.nodes[k]})), c, Leave))
  {
    var M := L.(w := L.w.(err := L.w.err + {space.nodes[k]}));
    CollectLostMoves(g.cfg, L, c, space, i);
    Move(g, s, L, c, Calling(Deleting, space, CallsMap(|space.nodes|, {i})), Collect(c),
         L, Marking(Deleting, space, {i}));
    MarkMoves(g.cfg, L, c, space, i, k);
    Move(g, s, L, c, Marking(Deleting, space, {i}), MarkOne(c, i), M, Marking(Deleting, space, {}));
    MarkDoneMoves(g.cfg, M, c, space);
    Move(g, s, M, c, Marking(Deleting, space, {}), MarkDone(c), M, Enable);
    EnableMoves(g.cfg, M, c);
    Move(g, s, M, c, Enable, EnableDdl(c, true), M.(disabled := false), Leave);
  }

  /** A create reaches its first server and then crashes. */
  lemma CreateThenCrash(g: Setting, s: State, X: State, c: Client, space: Space)
    requires g.Faithful() && Reaches(g, s, At(X, c, CreateMark(space)))
    requires c !in X.pcs && X.lock == Some(c) && Ids(X.w)
    requires |space.nodes| > 0 && Acted(X.w, Creating, space, 0).1 == OK
    ensures Reaches(g, s, X.(w := CallWorld(X.w, Creating, space, 0, true), disabled := true, lock := None))
  {
    var D := X.(disabled := true);
    var w1 := CallWorld(X.w, Creating, space, 0, true);
    var calls := map[0 := Returned(true)];
    DisableMoves(g.cfg, X, c, space);
    Move(g, s, X, c, CreateMark(space), PutDisabled(c), D, Calling(Creating, space, map[]));
    assert D == D.(w := X.w);
    OneCall(g, D, c, X.w, Creating, space, map[], 0, true);
    ReachesTrans(g, s, InCalls(D, c, X.w, Creating, space, map[]), InCalls(D, c, w1, Creating, space, calls));
    CrashRelease(g, s, D.(w := w1), c, Calling(Creating, space, calls));
  }

  lemma CrashRelease(g: Setting, s: State, L: State, c: Client, pc: Pc)
    requires g.Faithful() && Reaches(g, s, At(L, c, pc)) && c !in L.pcs && L.lock == Some(c)
    ensures Reaches(g, s, L.(lock := None))
  {
    assert L.pcs[c := pc] - {c} == L.pcs;
    Extend(g, s, At(L, c, pc), Crash(c), L.(lock := None));
  }

  // ---- a cluster of registered nodes with one live space on the first n ----

  function Range(lo: nat, hi: nat): seq<Node>
    requires lo <= hi
  {
    seq(hi - lo, i requires 0 <= i < hi - lo => lo + i)
  }

  lemma InRange(lo: nat, hi: nat, i: nat)
    requires lo <= hi
    ensures i in Range(lo, hi) <==> lo <= i < hi
  {
    if lo <= i < hi {
      assert Range(lo, hi)[i - lo] == i;
    }
  }

  function NodesBelow(n: nat): set<Node> {
    set i | i in Range(0, n)
  }

  function Registered(n: nat): State {
    INIT.(registered := NodesBelow(n))
  }

  lemma {:induction false} RegisterAll(g: Setting, n: nat)
    requires g.Faithful()
    ensures Reaches(g, INIT, Registered(n))
  {
    if n == 0 {
      assert Registered(0) == INIT;
      ReachesSelf(g, INIT);
    } else {
      RegisterAll(g, n - 1);
      assert Range(0, n) == Range(0, n - 1) + [n - 1];
      assert NodesBelow(n) == NodesBelow(n - 1) + {n - 1};
      Extend(g, INIT, Registered(n - 1), Register(n - 1), Registered(n));
    }
  }

  const NAME_A := SpaceName("first_db", "space_a")
  const NAME_B := SpaceName("first_db", "space_b")

  function SpaceA(g: Setting, n: nat): Space {
    Space(NAME_A, g.p, g.r, Range(0, n))
  }

  function LiveWorld(g: Setting, n: nat): World {
    var w := CallsWorld(INIT.w, Creating, SpaceA(g, n), n, {});
    w.(meta := w.meta[NAME_A := SpaceA(g, n)])
  }

  /** Space A is live on the first n of m registered nodes; every handler is idle. */
  function Live(g: Setting, n: nat, m: nat): State {
    Registered(m).(w := LiveWorld(g, n))
  }

  lemma LiveFacts(g: Setting, n: nat)
    ensures var w := LiveWorld(g, n);
            && w.meta == map[NAME_A := SpaceA(g, n)] && w.err == {} && Ids(w)
            && (forall i: nat | i < n :: PsOf(w, i) == Ps(true, NAME_A, Some(NAME_A)))
            && (forall i: nat | i >= n :: PsOf(w, i) == EMPTY_PS)
  {
    var space := SpaceA(g, n);
    var v := CallsWorld(INIT.w, Creating, space, n, {});
    CallsFrame(INIT.w, Creating, space, n, {});
    forall i: nat
      ensures PsOf(LiveWorld(g, n), i) == if i < n then Ps(true, NAME_A, Some(NAME_A)) else EMPTY_PS
    {
      if i < n {
        CallsPs(INIT.w, Creating, space, n, {}, i);
        assert space.nodes[i] == i;
      } else {
        assert PsOf(v, i) == PsOf(INIT.w, i);
      }
    }
  }

  lemma LiveReached(g: Setting, n: nat, m: nat)
    requires g.Faithful() && Accepted(Request(NAME_A, g.p, g.r)) && g.p * g.r == n <= m
    ensures Reaches(g, INIT, Live(g, n, m))
  {
    var S := Registered(m);
    var L, space := S.(lock := Some(0)), SpaceA(g, n);
    RegisterAll(g, m);
    assert Idles(S.registered, S.w.meta, S.w.err) == NodesBelow(m);
    assert Enumerates(Range(0, m), NodesBelow(m));
    assert Range(0, m)[..n] == space.nodes;
    CreateToMark(g, INIT, S, 0, NAME_A, Range(0, m), n);
    CreateCalls(g, INIT, L, 0, space);
    CreateFinish(g, INIT, L.(disabled := true, w := CallsWorld(INIT.w, Creating, space, n, {})), 0, space);
  }

  // ---- the two ways to lose agreement ----

  ghost predicate Broken(g: Setting) {
    exists t :: Reaches(g, INIT, t) && !t.disabled && !Consistent(t.w)
  }

  /** A server holds a space that etcd does not list, and is not recorded as failed. */
  lemma OrphanBreaks(g: Setting, t: State, n: Node, name: SpaceName)
    requires Reaches(g, INIT, t) && !t.disabled
    requires n !in t.w.err && Held(PsOf(t.w, n)) == Some(name) && name !in t.w.meta
    ensures Broken(g)
  {
    assert !Listed(t.w.meta, n, name);
    assert !Consistent(t.w);
  }

  /**
   A delete whose task p is lost records the node of task r as failed instead, and enables
   DDL again: the node of task p still holds the deleted space and nothing says so.
   */
  lemma MisdecodedDelete(g: Setting)
    requires g.Faithful() && Accepted(Request(NAME_A, g.p, g.r)) && !SafeCounts(g.cfg, g.p, g.r)
    ensures Broken(g)
  {
    var n := g.p * g.r;
    UnsafeCounts(g, n);
    LiveReached(g, n, n);
    WrongNodeRecorded(g, n);
  }

  /** With unsafe counts, task p exists, and is taken for task r. */
  lemma UnsafeCounts(g: Setting, n: nat)
    requires g.p > 0 && g.r > 0 && !SafeCounts(g.cfg, g.p, g.r) && n == g.p * g.r
    ensures g.p < n && g.r < n && g.p != g.r && Decode(g.cfg, SpaceA(g, n), g.p) == Some(g.r)
  {
    Placement.DecodeSecondRow(g.p, g.r);
    Placement.DecodeSecondRow(g.r, g.p);
  }

  lemma WrongNodeRecorded(g: Setting, n: nat)
    requires g.Faithful() && Reaches(g, INIT, Live(g, n, n))
    requires g.p < n && g.r < n && g.p != g.r && Decode(g.cfg, SpaceA(g, n), g.p) == Some(g.r)
    ensures Broken(g)
  {
    LiveFacts(g, n);
    var S, space := Live(g, n, n), SpaceA(g, n);
    var L := S.(lock := Some(0));
    var v := L.w.(meta := L.w.meta - {NAME_A});
    var w := CallsWorld(v, Deleting, space, n, {g.p});
    DeleteToMark(g, INIT, S, 0, NAME_A, true);
    DeleteCalls(g, INIT, L, 0, space, {g.p});
    DeleteFinishLost(g, INIT, L.(disabled := true, w := w), 0, space, g.p, g.r);
    CallsPs(v, Deleting, space, n, {g.p}, g.p);
    CallsFrame(v, Deleting, space, n, {g.p});
    assert space.nodes[g.p] == g.p && space.nodes[g.r] == g.r;
    var t := At(L.(disabled := false, w := w.(err := w.err + {space.nodes[g.r]})), 0, Leave);
    assert PsOf(t.w, g.p) == PsOf(L.w, g.p);
    OrphanBreaks(g, t, g.p, NAME_A);
  }

  /** Space B on the next n nodes. */
  function SpaceB(g: Setting, n: nat): Space {
    Space(NAME_B, g.p, g.r, Range(n, n + n))
  }

  lemma RacingIdle(g: Setting, n: nat)
    ensures var S := Live(g, n, n + n); Enumerates(Range(n, n + n), Idles(S.registered, S.w.meta, S.w.err))
  {
    var S := Live(g, n, n + n);
    LiveFacts(g, n);
    forall i: nat
      ensures i in Idles(S.registered, S.w.meta, S.w.err) <==> i in Range(n, n + n)
    {
      InRange(0, n, i);
      InRange(0, n + n, i);
      InRange(n, n + n, i);
      assert i in Busy(S.w.meta) <==> i in S.w.meta[NAME_A].nodes;
    }
  }

  /** Handler 1 is about to write space B; handler 2 has read space A and goes on without the lock. */
  lemma Racing(g: Setting, n: nat)
    requires g.Faithful() && Accepted(Request(NAME_B, g.p, g.r)) && !g.cfg.deleteChecksLock
    requires g.p * g.r == n && Reaches(g, INIT, Live(g, n, n + n))
    ensures var L := Live(g, n, n + n).(lock := Some(1));
            Reaches(g, INIT, At(At(L, 2, DeleteMark(SpaceA(g, n))), 1, CreateMark(SpaceB(g, n))))
  {
    var S, idle := Live(g, n, n + n), Range(n, n + n);
    var L := S.(lock := Some(1));
    LiveFacts(g, n);
    RacingIdle(g, n);
    assert idle[..n] == idle;
    CreateToMark(g, INIT, S, 1, NAME_B, idle, n);
    DeleteToMark(g, INIT, At(L, 1, CreateMark(SpaceB(g, n))), 2, NAME_A, false);
    AtSwap(L, 1, CreateMark(SpaceB(g, n)), 2, DeleteMark(SpaceA(g, n)));
  }

  lemma AtSwap(s: State, a: Client, pa: Pc, b: Client, pb: Pc)
    requires a != b
    ensures At(At(s, a, pa), b, pb) == At(At(s, b, pb), a, pa)
  {
    assert s.pcs[a := pa][b := pb] == s.pcs[b := pb][a := pa];
  }

  /** A delete that goes on without the lock can enable DDL under a crashed create. */
  lemma UnlockedDelete(g: Setting)
    requires g.Faithful() && Accepted(Request(NAME_A, g.p, g.r)) && !g.cfg.deleteChecksLock
    ensures Broken(g)
  {
    var n := g.p * g.r;
    ProductPositive(g.p, g.r);
    LiveReached(g, n, n + n);
    Racing(g, n);
    LiveFacts(g, n);
    var L := Live(g, n, n + n).(lock := Some(1));
    assert SpaceB(g, n).nodes[0] == n;
    CreateThenCrash(g, INIT, At(L, 2, DeleteMark(SpaceA(g, n))), 1, SpaceB(g, n));
    OrphanLeft(g, n);
  }

  lemma OrphanLeft(g: Setting, n: nat)
    requires g.Faithful() && n > 0
    requires var w := CallWorld(LiveWorld(g, n), Creating, SpaceB(g, n), 0, true);
             Reaches(g, INIT, At(Live(g, n, n + n).(w := w, disabled := true), 2, DeleteMark(SpaceA(g, n))))
    ensures Broken(g)
  {
    LiveFacts(g, n);
    var A, B := SpaceA(g, n), SpaceB(g, n);
    var w := CallWorld(LiveWorld(g, n), Creating, B, 0, true);
    var L := Live(g, n, n + n).(w := w, disabled := true);
    assert B.nodes[0] == n;
    assert forall i | 0 <= i < n :: A.nodes[i] == i && PsOf(w, i) == PsOf(LiveWorld(g, n), i);
    DeleteCalls(g, INIT, L, 2, A, {});
    var v := w.(meta := w.meta - {NAME_A});
    var w' := CallsWorld(v, Deleting, A, n, {});
    DeleteFinish(g, INIT, L.(w := w'), 2, A);
    CallsFrame(v, Deleting, A, n, {});
    InRange(0, n, n);
    assert PsOf(w', n) == PsOf(v, n) == PsOf(w, n) == Ps(true, NAME_B, Some(NAME_B));
    OrphanBreaks(g, At(L.(w := w', disabled := false), 2, Leave), n, NAME_B);
  }

  /** Every run that creates spaces with these counts keeps servers and etcd in agreement while DDL is enabled. */
  ghost predicate AlwaysAgrees(cfg: Config, p: nat, r: nat) {
    forall steps | AllHaveCounts(steps, p, r) && Run(cfg, INIT, steps).Some? ::
      var s := Run(cfg, INIT, steps).value;
      !s.disabled ==> Consistent(s.w)
  }

  /**
   The protocol is safe for exactly the counts whose failed tasks are never taken for another
   node, and only if deleteSpace stops when it cannot take the lock.
   */
  lemma DdlSafeIff(cfg: Config, p: nat, r: nat)
    requires Accepted(Request(NAME_A, p, r))
    ensures AlwaysAgrees(cfg, p, r) <==> cfg.deleteChecksLock && SafeCounts(cfg, p, r)
  {
    if cfg.deleteChecksLock && SafeCounts(cfg, p, r) {
      forall steps | AllHaveCounts(steps, p, r) && Run(cfg, INIT, steps).Some?
        ensures var s := Run(cfg, INIT, steps).value;
                !s.disabled ==> Consistent(s.w)
      {
        assert forall i | 0 <= i < |steps| :: HasCounts(steps[i], p, r);
        DdlSafe(cfg, steps);
      }
    } else {
      var g := Setting((s, step) => Apply(cfg, s, step), cfg, p, r);
      assert g.Faithful();
      if !cfg.deleteChecksLock {
        UnlockedDelete(g);
      } else {
        MisdecodedDelete(g);
      }
      var t :| Reaches(g, INIT, t) && !t.disabled && !Consistent(t.w);
      var steps :| AllHaveCounts(steps, p, r) && RunWith(g.next, INIT, steps) == Some(t);
      RunWithIsRun(g, INIT, steps);
    }
  }

  /** With the code as written, no choice of counts is safe. */
  lemma AsWrittenUnsafe(p: nat, r: nat)
    requires Accepted(Request(NAME_A, p, r))
    ensures !AlwaysAgrees(AS_WRITTEN, p, r)
  {
    DdlSafeIff(AS_WRITTEN, p, r);
  }
}
