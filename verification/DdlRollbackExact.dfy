/**
 When every failed create is rolled back. A failed task index that is out of range stops the handler before it
 has undone anything, so this depends on the counts.
 */
module DdlRollbackExact {
  import opened Arithmetic
  import opened Wrappers
  import opened Ddl
  import opened DdlExact
  import opened DdlRollback
  import DdlExclusive
  import Placement

  /** A create fails: some of its calls did, or the metadata could not be written. */
  ghost predicate FailsAnyhow(s: State, step: Step, c: Client, space: Space) {
    var pc := PcOf(s, c);
    || (step == Collect(c) && pc.Calling? && pc.op == Creating && pc.space == space && Failed(pc.calls) != {})
    || (step.PutMeta? && step.c == c && !step.ok && pc == CreateCommit(space))
  }

  /** From here, a create that fails with this step has sent all its deletes when its handler reaches its end. */
  ghost predicate UndoneFrom(cfg: Config, s: State, step: Step, steps: seq<Step>, c: Client, space: Space) {
    FailsAnyhow(s, step, c, space) && Run(cfg, s, [step] + steps).Some? && Stays(steps, c)
    && PcOf(Run(cfg, s, [step] + steps).value, c) == Leave
    ==> AllDeletesSent(space, SentBy(cfg, s, [step] + steps, c))
  }

  /** In every run that creates spaces with these counts, every failed create is undone. */
  ghost predicate AlwaysUndone(cfg: Config, p: nat, r: nat) {
    forall before, step, steps, c, space | AllHaveCounts(before, p, r) && Run(cfg, INIT, before).Some? ::
      UndoneFrom(cfg, Run(cfg, INIT, before).value, step, steps, c, space)
  }

  // ---- the shape of what a handler works on ----

  predicate ShapedSpace(p: nat, r: nat, space: Space) {
    space.partitions == p && space.replicas == r && |space.nodes| == p * r
  }

  /** The space of a create has the counts asked for and as many nodes, and its calls are to those. */
  ghost predicate Shaped(p: nat, r: nat, pc: Pc) {
    && (Requesting(pc) ==> pc.req.partitions == p && pc.req.replicas == r)
    && (pc.CreateMark? || pc.CreateCommit? ==> ShapedSpace(p, r, pc.space))
    && (pc.Calling? && pc.op != Deleting ==> ShapedSpace(p, r, pc.space))
    && (pc.Calling? ==> forall i | i in pc.calls :: i < |pc.space.nodes|)
    && (pc.Marking? && pc.op != Deleting ==> ShapedSpace(p, r, pc.space))
  }

  ghost predicate AllShaped(p: nat, r: nat, s: State) {
    forall c | c in s.pcs :: Shaped(p, r, s.pcs[c])
  }

  lemma ShapedEtcd(p: nat, r: nat, s: State, step: Step, s': State)
    requires IsEtcdStep(step) && ApplyEtcd(s, step) == Some(s') && Shaped(p, r, PcOf(s, step.c))
    ensures Shaped(p, r, PcOf(s', step.c))
  {
  }

  lemma ShapedCall(cfg: Config, p: nat, r: nat, s: State, step: Step, s': State)
    requires IsCallStep(step) && ApplyCalls(cfg, s, step) == Some(s') && Shaped(p, r, PcOf(s, step.c))
    ensures Shaped(p, r, PcOf(s', step.c))
  {
  }

  lemma ShapedLock(cfg: Config, p: nat, r: nat, s: State, step: Step, s': State)
    requires !IsEtcdStep(step) && !IsCallStep(step) && !IsServerStep(step) && HasCounts(step, p, r)
    requires ApplyLock(cfg, s, step) == Some(s') && AllShaped(p, r, s)
    ensures AllShaped(p, r, s')
  {
  }

  lemma ShapedStep(cfg: Config, p: nat, r: nat, s: State, step: Step, s': State)
    requires HasCounts(step, p, r) && Apply(cfg, s, step) == Some(s') && AllShaped(p, r, s)
    ensures AllShaped(p, r, s')
  {
    if IsEtcdStep(step) {
      DdlExclusive.EtcdFrame(s, step, s');
      ShapedEtcd(p, r, s, step, s');
    } else if IsCallStep(step) {
      DdlExclusive.CallFrame(cfg, s, step, s');
      ShapedCall(cfg, p, r, s, step, s');
    } else if !IsServerStep(step) {
      ShapedLock(cfg, p, r, s, step, s');
    }
  }

  lemma {:induction false} ShapedRun(cfg: Config, p: nat, r: nat, s: State, steps: seq<Step>)
    requires AllHaveCounts(steps, p, r) && Run(cfg, s, steps).Some? && AllShaped(p, r, s)
    ensures AllShaped(p, r, Run(cfg, s, steps).value)
    decreases |steps|
  {
    if steps != [] {
      var s' := Apply(cfg, s, steps[0]).value;
      assert HasCounts(steps[0], p, r);
      ShapedStep(cfg, p, r, s, steps[0], s');
      assert AllHaveCounts(steps[1..], p, r);
      ShapedRun(cfg, p, r, s', steps[1..]);
    }
  }

  // ---- when every index is in range ----

  predicate InRangeCounts(cfg: Config, p: nat, r: nat) {
    cfg.decodeByReplicas || p == r
  }

  lemma AllDecodable(cfg: Config, p: nat, r: nat, space: Space, failed: set<nat>)
    requires InRangeCounts(cfg, p, r) && ShapedSpace(p, r, space) && forall i | i in failed :: i < |space.nodes|
    ensures Decodable(cfg, space, failed)
  {
    forall i | i in failed
      ensures Decode(cfg, space, i) == Some(i)
    {
      Placement.DecodeByReplicas(p, r, i);
    }
  }

  lemma UndoneInRange(cfg: Config, p: nat, r: nat, s: State, step: Step, steps: seq<Step>, c: Client, space: Space)
    requires InRangeCounts(cfg, p, r) && AllShaped(p, r, s)
    ensures UndoneFrom(cfg, s, step, steps, c, space)
  {
    if FailsAnyhow(s, step, c, space) && Run(cfg, s, [step] + steps).Some? && Stays(steps, c)
       && PcOf(Run(cfg, s, [step] + steps).value, c) == Leave {
      assert Shaped(p, r, s.pcs[c]);
      if step.Collect? {
        AllDecodable(cfg, p, r, space, Failed(PcOf(s, c).calls));
      }
      RolledBack(cfg, s, step, steps, c, space);
    }
  }

  // ---- when one is not ----

  lemma OutOfRange(p: nat, r: nat) returns (i: nat)
    requires p > 0 && r > 0 && p != r
    ensures i < p * r && Placement.DecodeTask(p, p, r, i) == None
  {
    if r < p {
      i := r;
      assert r * 2 <= p * r;
      DivMod(0, r, p);
    } else {
      i := p * p;
      var more := r - p;
      assert p * r == p * p + p * more && p * more > 0;
      DivMod(p, 0, p);
    }
  }

  /** Where a create on n registered nodes has had all its calls answered, all but task i well. */
  function OneLost(g: Setting, n: nat, i: nat): State {
    var space := SpaceA(g, n);
    InCalls(Registered(n).(lock := Some(0), disabled := true), 0, CallsWorld(INIT.w, Creating, space, n, {i}),
            Creating, space, CallsMap(n, {i}))
  }

  lemma OneLostReached(g: Setting, n: nat, i: nat)
    requires g.Faithful() && Accepted(Request(NAME_A, g.p, g.r)) && g.p * g.r == n
    ensures Reaches(g, INIT, OneLost(g, n, i))
  {
    var S, space := Registered(n), SpaceA(g, n);
    var L := S.(lock := Some(0));
    var D := L.(disabled := true);
    RegisterAll(g, n);
    assert Idles(S.registered, S.w.meta, S.w.err) == NodesBelow(n);
    assert Enumerates(Range(0, n), NodesBelow(n));
    assert Range(0, n)[..n] == space.nodes;
    CreateToMark(g, INIT, S, 0, NAME_A, Range(0, n), n);
    DisableMoves(g.cfg, L, 0, space);
    Move(g, INIT, L, 0, CreateMark(space), PutDisabled(0), D, Calling(Creating, space, map[]));
    assert D == D.(w := INIT.w);
    RunCalls(g, D, 0, INIT.w, Creating, space, n, {i});
    ReachesTrans(g, INIT, InCalls(D, 0, INIT.w, Creating, space, map[]), OneLost(g, n, i));
  }

  /** The handler stops there, with nothing sent. */
  lemma StopsThere(cfg: Config, g: Setting, n: nat, i: nat)
    requires 0 <= i < n && Decode(cfg, SpaceA(g, n), i) == None
    ensures var s := OneLost(g, n, i);
            && Run(cfg, s, [Collect(0)]).Some? && PcOf(Run(cfg, s, [Collect(0)]).value, 0) == Leave
            && FailsAnyhow(s, Collect(0), 0, SpaceA(g, n)) && SentBy(cfg, s, [Collect(0)], 0) == {}
  {
    var s, calls := OneLost(g, n, i), CallsMap(n, {i});
    assert PcOf(s, 0) == Calling(Creating, SpaceA(g, n), calls);
    assert Failed(calls) == {i};
    assert !Decodable(cfg, SpaceA(g, n), Failed(calls)) by { assert i in Failed(calls); }
    assert Apply(cfg, s, Collect(0)) == Some(At(s, 0, Leave));
    assert [Collect(0)][1..] == [];
  }

  lemma NotUndone(cfg: Config, p: nat, r: nat)
    requires Accepted(Request(NAME_A, p, r)) && !InRangeCounts(cfg, p, r)
    ensures !AlwaysUndone(cfg, p, r)
  {
    var g, n := Setting((s, step) => Apply(cfg, s, step), cfg, p, r), p * r;
    var i := OutOfRange(p, r);
    var space := SpaceA(g, n);
    OneLostReached(g, n, i);
    StopsThere(cfg, g, n, i);
    var before :| AllHaveCounts(before, p, r) && RunWith(g.next, INIT, before) == Some(OneLost(g, n, i));
    RunWithIsRun(g, INIT, before);
    assert space.nodes[0] == 0 && 0 in space.nodes;
    assert [Collect(0)] + [] == [Collect(0)];
    assert !UndoneFrom(cfg, OneLost(g, n, i), Collect(0), [], 0, space);
  }

  /** Every failed create is undone, in every run, exactly when every failed task index is in range. */
  lemma AlwaysUndoneIff(cfg: Config, p: nat, r: nat)
    requires Accepted(Request(NAME_A, p, r))
    ensures AlwaysUndone(cfg, p, r) <==> cfg.decodeByReplicas || p == r
  {
    if InRangeCounts(cfg, p, r) {
      forall before, step, steps, c, space | AllHaveCounts(before, p, r) && Run(cfg, INIT, before).Some?
        ensures UndoneFrom(cfg, Run(cfg, INIT, before).value, step, steps, c, space)
      {
        ShapedRun(cfg, p, r, INIT, before);
        UndoneInRange(cfg, p, r, Run(cfg, INIT, before).value, step, steps, c, space);
      }
    } else {
      NotUndone(cfg, p, r);
    }
  }
}
