/**
 Exclusive use of nodes. This holds of the space protocol in every configuration,
 as written included: a create never goes on without the lock, and whatever a delete
 does without it only takes metadata away.
 */
module DdlExclusive {
  import opened Arithmetic
  import opened Wrappers
  import opened PsNode
  import opened Ddl

  /** The space a create handler has chosen nodes for and may still store. */
  function Chosen(pc: Pc): Option<Space> {
    match pc
    case CreateMark(space) => Some(space)
    case CreateCommit(space) => Some(space)
    case Calling(op, space, _) => if op == Creating then Some(space) else None
    case _ => None
  }

  /** A create handler between the lock and the metadata. */
  predicate Choosing(pc: Pc) {
    (Requesting(pc) && !pc.CreateWait?) || Chosen(pc).Some?
  }

  predicate AcceptedAt(pc: Pc) {
    Requesting(pc) ==> Accepted(pc.req)
  }

  predicate WellFormed(space: Space) {
    |space.nodes| == space.partitions * space.replicas > 0 && Distinct(space.nodes)
  }

  /** No space in etcd has the name or any of the nodes. */
  ghost predicate Free(meta: map<SpaceName, Space>, space: Space) {
    space.name !in meta && forall n, name | n in space.nodes :: !Listed(meta, n, name)
  }

  ghost predicate HandlerOk(meta: map<SpaceName, Space>, lock: Option<Client>, c: Client, pc: Pc) {
    && AcceptedAt(pc)
    && (Choosing(pc) ==> lock == Some(c))
    && (Chosen(pc).Some? ==> WellFormed(Chosen(pc).value) && Free(meta, Chosen(pc).value))
  }

  ghost predicate Inv(s: State) {
    Exclusive(s.w.meta) && forall c | c in s.pcs :: HandlerOk(s.w.meta, s.lock, c, s.pcs[c])
  }

  // ---- metadata ----

  lemma StoredExclusive(meta: map<SpaceName, Space>, space: Space)
    requires Exclusive(meta) && WellFormed(space) && Free(meta, space)
    ensures Exclusive(meta[space.name := space])
  {
    var meta' := meta[space.name := space];
    forall a, b, n | Listed(meta', n, a) && Listed(meta', n, b)
      ensures a == b
    {
      assert a != space.name ==> Listed(meta, n, a);
      assert b != space.name ==> Listed(meta, n, b);
    }
  }

  lemma RemovedExclusive(meta: map<SpaceName, Space>, gone: SpaceName)
    requires Exclusive(meta)
    ensures Exclusive(meta - {gone})
  {
    forall a, b, n | Listed(meta - {gone}, n, a) && Listed(meta - {gone}, n, b)
      ensures a == b
    {
      assert Listed(meta, n, a) && Listed(meta, n, b);
    }
  }

  lemma RemovedFree(meta: map<SpaceName, Space>, gone: SpaceName, space: Space)
    requires Free(meta, space)
    ensures Free(meta - {gone}, space)
  {
    assert forall n, name | Listed(meta - {gone}, n, name) :: Listed(meta, n, name);
  }

  // ---- steps ----

  /**
   The nodes chosen by a scan are distinct, were registered when nodes were read and not failed when failed
   nodes were read, and are used by no space in etcd now.
   */
  lemma ScanIdle(s: State, step: Step, s': State)
    requires step.Scan? && ApplyEtcd(s, step) == Some(s')
    ensures var before, pc := PcOf(s, step.c), PcOf(s', step.c);
            pc.CreateMark? ==>
              && pc.space.name !in s.w.meta && Distinct(pc.space.nodes) && pc.space.nodes <= step.idle
              && |pc.space.nodes| == pc.space.partitions * pc.space.replicas
              && forall n | n in pc.space.nodes :: n in Idles(before.nodes, s.w.meta, before.failed)
  {
    var before, pc := PcOf(s, step.c), PcOf(s', step.c);
    if pc.CreateMark? {
      forall n | n in pc.space.nodes
        ensures n in Idles(before.nodes, s.w.meta, before.failed)
      {
        assert n in step.idle;
      }
    }
  }

  lemma ScanOk(s: State, step: Step, s': State)
    requires step.Scan? && ApplyEtcd(s, step) == Some(s') && HandlerOk(s.w.meta, s.lock, step.c, PcOf(s, step.c))
    ensures HandlerOk(s.w.meta, s.lock, step.c, PcOf(s', step.c))
  {
    var pc, pc' := PcOf(s, step.c), PcOf(s', step.c);
    if pc'.CreateMark? {
      ScanIdle(s, step, s');
      ProductPositive(pc.req.partitions, pc.req.replicas);
      forall n, name | n in pc'.space.nodes
        ensures !Listed(s.w.meta, n, name)
      {
        assert n in Idles(pc.nodes, s.w.meta, pc.failed);
      }
    }
  }

  /** A step that stores or removes metadata leaves its handler with no chosen space. */
  lemma EtcdOwn(s: State, step: Step, s': State)
    requires IsEtcdStep(step) && ApplyEtcd(s, step) == Some(s')
    requires HandlerOk(s.w.meta, s.lock, step.c, PcOf(s, step.c))
    ensures HandlerOk(s'.w.meta, s.lock, step.c, PcOf(s', step.c))
  {
    if step.Scan? {
      ScanOk(s, step, s');
    }
  }

  lemma CallOwn(cfg: Config, s: State, step: Step, s': State)
    requires IsCallStep(step) && ApplyCalls(cfg, s, step) == Some(s')
    requires HandlerOk(s.w.meta, s.lock, step.c, PcOf(s, step.c))
    ensures HandlerOk(s'.w.meta, s.lock, step.c, PcOf(s', step.c)) && s'.w.meta == s.w.meta
  {
  }

  lemma EtcdFrame(s: State, step: Step, s': State)
    requires IsEtcdStep(step) && ApplyEtcd(s, step) == Some(s')
    ensures step.c in s.pcs && s'.pcs == s.pcs[step.c := PcOf(s', step.c)] && s'.lock == s.lock
  {
  }

  lemma CallFrame(cfg: Config, s: State, step: Step, s': State)
    requires IsCallStep(step) && ApplyCalls(cfg, s, step) == Some(s')
    ensures step.c in s.pcs && s'.pcs == s.pcs[step.c := PcOf(s', step.c)] && s'.lock == s.lock
  {
  }

  /** Storing or removing metadata, the first under the lock, keeps it exclusive and the spaces of others free. */
  lemma EtcdMeta(s: State, step: Step, s': State, c: Client)
    requires IsEtcdStep(step) && ApplyEtcd(s, step) == Some(s') && Exclusive(s.w.meta)
    requires HandlerOk(s.w.meta, s.lock, step.c, PcOf(s, step.c))
    requires c in s.pcs && c != step.c && HandlerOk(s.w.meta, s.lock, c, s.pcs[c])
    ensures HandlerOk(s'.w.meta, s.lock, c, s.pcs[c])
  {
    var pc := PcOf(s, step.c);
    if step.DeleteKey? && step.applied && Chosen(s.pcs[c]).Some? {
      RemovedFree(s.w.meta, pc.space.name, Chosen(s.pcs[c]).value);
    }
  }

  lemma EtcdExclusive(s: State, step: Step, s': State)
    requires IsEtcdStep(step) && ApplyEtcd(s, step) == Some(s') && Exclusive(s.w.meta)
    requires HandlerOk(s.w.meta, s.lock, step.c, PcOf(s, step.c))
    ensures Exclusive(s'.w.meta)
  {
    var pc := PcOf(s, step.c);
    if step.PutMeta? && step.applied {
      StoredExclusive(s.w.meta, pc.space);
    } else if step.DeleteKey? && step.applied {
      RemovedExclusive(s.w.meta, pc.space.name);
    }
  }

  lemma EtcdStep(s: State, step: Step, s': State)
    requires Inv(s) && IsEtcdStep(step) && ApplyEtcd(s, step) == Some(s')
    ensures Inv(s')
  {
    EtcdFrame(s, step, s');
    EtcdOwn(s, step, s');
    EtcdExclusive(s, step, s');
    forall c | c in s'.pcs
      ensures HandlerOk(s'.w.meta, s'.lock, c, s'.pcs[c])
    {
      if c != step.c {
        EtcdMeta(s, step, s', c);
      }
    }
  }

  lemma CallStep(cfg: Config, s: State, step: Step, s': State)
    requires Inv(s) && IsCallStep(step) && ApplyCalls(cfg, s, step) == Some(s')
    ensures Inv(s')
  {
    CallFrame(cfg, s, step, s');
    CallOwn(cfg, s, step, s');
  }

  /** A handler starts, tries the lock, or is over; none of this touches the metadata. */
  lemma LockStep(cfg: Config, s: State, step: Step, s': State)
    requires Inv(s) && !IsEtcdStep(step) && !IsCallStep(step) && !IsServerStep(step)
    requires ApplyLock(cfg, s, step) == Some(s')
    ensures Inv(s')
  {
    forall c | c in s'.pcs
      ensures HandlerOk(s'.w.meta, s'.lock, c, s'.pcs[c])
    {
      assert c in s.pcs ==> HandlerOk(s.w.meta, s.lock, c, s.pcs[c]);
    }
  }

  lemma ServerStep(s: State, step: Step, s': State)
    requires Inv(s) && IsServerStep(step) && ApplyServer(s, step) == Some(s')
    ensures Inv(s')
  {
  }

  lemma StepInv(cfg: Config, s: State, step: Step, s': State)
    requires Inv(s) && Apply(cfg, s, step) == Some(s')
    ensures Inv(s')
  {
    if IsEtcdStep(step) {
      EtcdStep(s, step, s');
    } else if IsCallStep(step) {
      CallStep(cfg, s, step, s');
    } else if IsServerStep(step) {
      ServerStep(s, step, s');
    } else {
      LockStep(cfg, s, step, s');
    }
  }

  lemma {:induction false} RunInv(cfg: Config, s: State, steps: seq<Step>)
    requires Inv(s) && Run(cfg, s, steps).Some?
    ensures Inv(Run(cfg, s, steps).value)
    decreases |steps|
  {
    if steps != [] {
      var s' := Apply(cfg, s, steps[0]).value;
      StepInv(cfg, s, steps[0], s');
      RunInv(cfg, s', steps[1..]);
    }
  }

  /**
   Over every run in every configuration, with crashes, late requests and deletes that go on without
   the lock: every live space has its own distinct nodes, and no two live spaces share one.
   */
  lemma ExclusiveAlways(cfg: Config, steps: seq<Step>)
    requires Run(cfg, INIT, steps).Some?
    ensures Exclusive(Run(cfg, INIT, steps).value.w.meta)
  {
    RunInv(cfg, INIT, steps);
  }
}
