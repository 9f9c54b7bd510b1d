/**
 Whether a create can choose a node that is recorded as failed. It reads the failed nodes before it
 reads the spaces: a delete in between, which takes its space out of etcd and then fails on a node,
 makes that node look idle. Only the lock keeps such a delete out.
 */
module DdlFailed {
  import opened Arithmetic
  import opened Wrappers
  import opened PsNode
  import opened Ddl
  import opened DdlSafety
  import opened DdlExact
  import DdlExclusive
  import Placement

  // ---- with the lock ----

  /** Only the lock holder is past the lock, and what it has read of failed nodes is still so. */
  ghost predicate HandlerOk(lock: Option<Client>, err: set<Node>, c: Client, pc: Pc) {
    (Critical(pc) ==> lock == Some(c)) && (pc.CreateScanMeta? ==> pc.failed == err)
  }

  ghost predicate Current(s: State) {
    forall c | c in s.pcs :: HandlerOk(s.lock, s.w.err, c, s.pcs[c])
  }

  lemma EtcdOwn(s: State, step: Step, s': State)
    requires IsEtcdStep(step) && ApplyEtcd(s, step) == Some(s')
    ensures s'.w.err == s.w.err && Critical(PcOf(s, step.c))
    ensures var pc := PcOf(s', step.c); pc.CreateScanMeta? ==> pc.failed == s.w.err
  {
  }

  lemma CallOwn(cfg: Config, s: State, step: Step, s': State)
    requires IsCallStep(step) && ApplyCalls(cfg, s, step) == Some(s')
    ensures Critical(PcOf(s, step.c)) && !PcOf(s', step.c).CreateScanMeta?
  {
  }

  lemma EtcdCurrent(s: State, step: Step, s': State)
    requires Current(s) && IsEtcdStep(step) && ApplyEtcd(s, step) == Some(s')
    ensures Current(s')
  {
    DdlExclusive.EtcdFrame(s, step, s');
    EtcdOwn(s, step, s');
    assert HandlerOk(s.lock, s.w.err, step.c, s.pcs[step.c]);
  }

  /** Failed nodes are recorded by the lock holder, and no one else is then in the middle of a scan. */
  lemma CallCurrent(cfg: Config, s: State, step: Step, s': State)
    requires Current(s) && IsCallStep(step) && ApplyCalls(cfg, s, step) == Some(s')
    ensures Current(s')
  {
    DdlExclusive.CallFrame(cfg, s, step, s');
    CallOwn(cfg, s, step, s');
    assert HandlerOk(s.lock, s.w.err, step.c, s.pcs[step.c]);
    forall c | c in s'.pcs
      ensures HandlerOk(s'.lock, s'.w.err, c, s'.pcs[c])
    {
      if c != step.c {
        assert HandlerOk(s.lock, s.w.err, c, s.pcs[c]) && !Critical(s.pcs[c]);
      }
    }
  }

  lemma LockCurrent(cfg: Config, s: State, step: Step, s': State)
    requires cfg.deleteChecksLock && Current(s) && !IsEtcdStep(step) && !IsCallStep(step) && !IsServerStep(step)
    requires ApplyLock(cfg, s, step) == Some(s')
    ensures Current(s')
  {
    forall c | c in s'.pcs
      ensures HandlerOk(s'.lock, s'.w.err, c, s'.pcs[c])
    {
      assert c in s.pcs ==> HandlerOk(s.lock, s.w.err, c, s.pcs[c]);
    }
  }

  lemma StepCurrent(cfg: Config, s: State, step: Step, s': State)
    requires cfg.deleteChecksLock && Current(s) && Apply(cfg, s, step) == Some(s')
    ensures Current(s')
  {
    if IsEtcdStep(step) {
      EtcdCurrent(s, step, s');
    } else if IsCallStep(step) {
      CallCurrent(cfg, s, step, s');
    } else if !IsServerStep(step) {
      LockCurrent(cfg, s, step, s');
    }
  }

  lemma {:induction false} RunCurrent(cfg: Config, s: State, steps: seq<Step>)
    requires cfg.deleteChecksLock && Current(s) && Run(cfg, s, steps).Some?
    ensures Current(Run(cfg, s, steps).value)
    decreases |steps|
  {
    if steps != [] {
      var s' := Apply(cfg, s, steps[0]).value;
      StepCurrent(cfg, s, steps[0], s');
      RunCurrent(cfg, s', steps[1..]);
    }
  }

  // ---- exactly then ----

  /** The handler has chosen a node that is recorded as failed. */
  predicate ChoseFailed(s: State, c: Client) {
    PcOf(s, c).CreateMark? && exists n | n in PcOf(s, c).space.nodes :: n in s.w.err
  }

  /** In no run that creates spaces with these counts does a scan choose a failed node. */
  ghost predicate NeverChoosesFailed(cfg: Config, p: nat, r: nat) {
    forall steps, c, idle | AllHaveCounts(steps, p, r) && Run(cfg, INIT, steps).Some? ::
      var next := ApplyEtcd(Run(cfg, INIT, steps).value, Scan(c, idle));
      next.Some? ==> !ChoseFailed(next.value, c)
  }

  lemma ScanHealthy(s: State, c: Client, idle: seq<Node>, s': State)
    requires Current(s) && ApplyEtcd(s, Scan(c, idle)) == Some(s')
    ensures !ChoseFailed(s', c)
  {
    DdlExclusive.EtcdFrame(s, Scan(c, idle), s');
    DdlExclusive.ScanIdle(s, Scan(c, idle), s');
    assert HandlerOk(s.lock, s.w.err, c, s.pcs[c]);
    EtcdOwn(s, Scan(c, idle), s');
  }

  /** Where handler 1 is about to read the spaces, and handler 2 goes on deleting space A without the lock. */
  function Overtaken(g: Setting, n: nat): State {
    At(Live(g, n, n).(lock := Some(1)), 1, CreateScanMeta(Request(NAME_B, g.p, g.r), NodesBelow(n), {}))
  }

  lemma OvertakenReached(g: Setting, n: nat)
    requires g.Faithful() && Accepted(Request(NAME_B, g.p, g.r)) && !g.cfg.deleteChecksLock && g.p * g.r == n
    ensures Reaches(g, INIT, At(Overtaken(g, n), 2, DeleteMark(SpaceA(g, n))))
  {
    var S, req := Live(g, n, n), Request(NAME_B, g.p, g.r);
    LiveReached(g, n, n);
    LiveFacts(g, n);
    DeleteToMark(g, INIT, S, 2, NAME_A, false);
    CreateToScan(g, INIT, At(S, 2, DeleteMark(SpaceA(g, n))), 1, NAME_B);
    AtSwap(S.(lock := Some(1)), 2, DeleteMark(SpaceA(g, n)), 1, CreateScanMeta(req, S.registered, S.w.err));
  }

  /** The world once the delete has taken space A out of etcd, failed on node 0 and recorded it. */
  function FailedWorld(g: Setting, n: nat): World
    requires n > 0
  {
    var w := LiveWorld(g, n);
    var v := CallsWorld(w.(meta := w.meta - {NAME_A}), Deleting, SpaceA(g, n), n, {0});
    v.(err := v.err + {0})
  }

  lemma FailedWorldFacts(g: Setting, n: nat)
    requires n > 0
    ensures FailedWorld(g, n).meta == map[] && FailedWorld(g, n).err == {0}
    ensures Held(PsOf(FailedWorld(g, n), 0)) == Some(NAME_A)
  {
    LiveFacts(g, n);
    var A, w := SpaceA(g, n), LiveWorld(g, n);
    var v := w.(meta := w.meta - {NAME_A});
    CallsFrame(v, Deleting, A, n, {0});
    CallsPs(v, Deleting, A, n, {0}, 0);
    assert A.nodes[0] == 0;
    assert PsOf(v, 0) == PsOf(w, 0);
  }

  lemma FailureReached(g: Setting, n: nat)
    requires g.Faithful() && Accepted(Request(NAME_B, g.p, g.r)) && !g.cfg.deleteChecksLock && g.p * g.r == n > 0
    ensures Reaches(g, INIT, At(Overtaken(g, n).(w := FailedWorld(g, n)), 2, Leave))
  {
    var X, A := Overtaken(g, n), SpaceA(g, n);
    OvertakenReached(g, n);
    LiveFacts(g, n);
    assert forall i | 0 <= i < n :: A.nodes[i] == i;
    DeleteCalls(g, INIT, X, 2, A, {0});
    var v := X.w.(meta := X.w.meta - {NAME_A});
    var w := CallsWorld(v, Deleting, A, n, {0});
    assert Decode(g.cfg, A, 0) == Some(0);
    DeleteFinishLost(g, INIT, X.(disabled := true, w := w), 2, A, 0, 0);
    assert X.(disabled := false) == X;
  }

  /** The create then takes every node, the failed one among them, which still holds the old space. */
  lemma FailedChosen(g: Setting, n: nat) returns (s: State, s': State)
    requires g.Faithful() && Accepted(Request(NAME_B, g.p, g.r)) && !g.cfg.deleteChecksLock && g.p * g.r == n > 0
    ensures Reaches(g, INIT, s) && ApplyEtcd(s, Scan(1, Range(0, n))) == Some(s') && ChoseFailed(s', 1)
    ensures Held(PsOf(s'.w, 0)) == Some(NAME_A)
  {
    var req, space := Request(NAME_B, g.p, g.r), Space(NAME_B, g.p, g.r, Range(0, n));
    var L := At(Live(g, n, n).(lock := Some(1), w := FailedWorld(g, n)), 2, Leave);
    FailureReached(g, n);
    FailedWorldFacts(g, n);
    AtSwap(Live(g, n, n).(lock := Some(1), w := FailedWorld(g, n)), 1,
           CreateScanMeta(req, NodesBelow(n), {}), 2, Leave);
    s := At(L, 1, CreateScanMeta(req, NodesBelow(n), {}));
    assert Idles(NodesBelow(n), L.w.meta, {}) == NodesBelow(n);
    assert Enumerates(Range(0, n), NodesBelow(n));
    assert Range(0, n)[..n] == Range(0, n);
    ScanMoves(g.cfg, L, 1, req, NodesBelow(n), {}, Range(0, n), n);
    s' := At(L, 1, CreateMark(space));
    assert space.nodes[0] == 0 && 0 in space.nodes;
  }

  /** A scan never chooses a failed node, in any run, exactly when deletes need the lock. */
  lemma NeverChoosesFailedIff(cfg: Config, p: nat, r: nat)
    requires Accepted(Request(NAME_A, p, r))
    ensures NeverChoosesFailed(cfg, p, r) <==> cfg.deleteChecksLock
  {
    if cfg.deleteChecksLock {
      forall steps, c, idle | AllHaveCounts(steps, p, r) && Run(cfg, INIT, steps).Some?
        ensures var next := ApplyEtcd(Run(cfg, INIT, steps).value, Scan(c, idle));
                next.Some? ==> !ChoseFailed(next.value, c)
      {
        RunCurrent(cfg, INIT, steps);
        var s := Run(cfg, INIT, steps).value;
        var next := ApplyEtcd(s, Scan(c, idle));
        if next.Some? {
          ScanHealthy(s, c, idle, next.value);
        }
      }
    } else {
      var g := Setting((s, step) => Apply(cfg, s, step), cfg, p, r);
      ProductPositive(p, r);
      var s, s' := FailedChosen(g, p * r);
      var steps :| AllHaveCounts(steps, p, r) && RunWith(g.next, INIT, steps) == Some(s);
      RunWithIsRun(g, INIT, steps);
    }
  }
}
