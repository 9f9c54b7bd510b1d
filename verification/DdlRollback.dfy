/**
 What becomes of a create that fails: every server it chose is asked to delete the space, every failure is
 recorded, and no server that acknowledged its delete holds the space ever after.
 */
module DdlRollback {
  import opened Wrappers
  import opened PsNode
  import opened Ddl
  import opened DdlSafety
  import DdlExclusive

  // ---- what a handler has sent ----

  /** The request that a step of handler c puts on the network. */
  function SentNow(s: State, step: Step, s': State, c: Client): set<Msg> {
    if step.Send? && step.c == c && s.w.nextId in s'.w.net then {s'.w.net[s.w.nextId]} else {}
  }

  /** The requests that handler c puts on the network during a run. */
  function SentBy(cfg: Config, s: State, steps: seq<Step>, c: Client): set<Msg>
    requires Run(cfg, s, steps).Some?
    decreases |steps|
  {
    if steps == [] then {}
    else
      var s' := Apply(cfg, s, steps[0]).value;
      SentNow(s, steps[0], s', c) + SentBy(cfg, s', steps[1..], c)
  }

  /** The handler neither crashes nor finishes. */
  predicate Stays(steps: seq<Step>, c: Client) {
    forall k | 0 <= k < |steps| :: steps[k] != Crash(c) && steps[k] != Unlock(c)
  }

  /** A create fails: some of its calls did, and they can be decoded, or the metadata could not be written. */
  ghost predicate CreateFails(cfg: Config, s: State, step: Step, c: Client, space: Space) {
    var pc := PcOf(s, c);
    || (step == Collect(c) && pc.Calling? && pc.op == Creating && pc.space == space
        && Failed(pc.calls) != {} && Decodable(cfg, space, Failed(pc.calls)))
    || (step.PutMeta? && step.c == c && !step.ok && pc == CreateCommit(space))
  }

  /** The nodes of these tasks have been sent the delete of the space. */
  predicate DeletesSent(space: Space, tasks: set<nat>, sent: set<Msg>) {
    forall i | i in tasks :: i < |space.nodes| && DeleteMsg(space.nodes[i], space.name) in sent
  }

  predicate AllDeletesSent(space: Space, sent: set<Msg>) {
    forall n | n in space.nodes :: DeleteMsg(n, space.name) in sent
  }

  /** How far the handler is with undoing the create, given what it has sent. */
  ghost predicate Undone(space: Space, pc: Pc, sent: set<Msg>) {
    || (pc.Marking? && pc.op == Creating && pc.space == space)
    || (pc.Calling? && pc.op == Undoing && pc.space == space && DeletesSent(space, pc.calls.Keys, sent))
    || (pc.Marking? && pc.op == Undoing && pc.space == space && AllDeletesSent(space, sent))
    || (pc.Leave? && AllDeletesSent(space, sent))
  }

  lemma UndoneMore(space: Space, pc: Pc, sent: set<Msg>, more: set<Msg>)
    requires Undone(space, pc, sent)
    ensures Undone(space, pc, sent + more)
  {
  }

  lemma UndoneCall(cfg: Config, s: State, step: Step, s': State, space: Space, sent: set<Msg>)
    requires IsCallStep(step) && ApplyCalls(cfg, s, step) == Some(s') && Undone(space, PcOf(s, step.c), sent)
    ensures Undone(space, PcOf(s', step.c), sent + SentNow(s, step, s', step.c))
  {
    var pc := PcOf(s, step.c);
    UndoneMore(space, pc, sent, SentNow(s, step, s', step.c));
    if step.Collect? {
      forall n | n in space.nodes
        ensures DeleteMsg(n, space.name) in sent
      {
        var i :| 0 <= i < |space.nodes| && space.nodes[i] == n;
        assert i in pc.calls.Keys;
      }
    }
  }

  lemma LockKept(cfg: Config, s: State, step: Step, s': State, c: Client)
    requires !IsEtcdStep(step) && !IsCallStep(step) && !IsServerStep(step) && step.c != c
    requires ApplyLock(cfg, s, step) == Some(s')
    ensures PcOf(s', c) == PcOf(s, c)
  {
  }

  /** The steps of the network, the servers and other handlers leave a handler where it is. */
  lemma HandlerKept(cfg: Config, s: State, step: Step, s': State, c: Client)
    requires Apply(cfg, s, step) == Some(s') && (IsServerStep(step) || step.c != c)
    ensures PcOf(s', c) == PcOf(s, c)
  {
    if IsCallStep(step) {
      DdlExclusive.CallFrame(cfg, s, step, s');
    } else if IsEtcdStep(step) {
      DdlExclusive.EtcdFrame(s, step, s');
    } else if !IsServerStep(step) {
      LockKept(cfg, s, step, s', c);
    }
  }

  /** A handler with calls or failures to see to takes no other steps. */
  lemma OnlyCalls(cfg: Config, s: State, step: Step)
    requires !IsServerStep(step) && Apply(cfg, s, step).Some? && step != Crash(step.c) && step != Unlock(step.c)
    requires PcOf(s, step.c).Calling? || PcOf(s, step.c).Marking? || PcOf(s, step.c).Leave?
    ensures IsCallStep(step)
  {
  }

  lemma UndoneStep(cfg: Config, s: State, step: Step, s': State, c: Client, space: Space, sent: set<Msg>)
    requires Apply(cfg, s, step) == Some(s') && step != Crash(c) && step != Unlock(c)
    requires Undone(space, PcOf(s, c), sent)
    ensures Undone(space, PcOf(s', c), sent + SentNow(s, step, s', c))
  {
    if IsServerStep(step) || step.c != c {
      HandlerKept(cfg, s, step, s', c);
      UndoneMore(space, PcOf(s, c), sent, SentNow(s, step, s', c));
    } else {
      OnlyCalls(cfg, s, step);
      UndoneCall(cfg, s, step, s', space, sent);
    }
  }

  lemma {:induction false} UndoneRun(cfg: Config, s: State, steps: seq<Step>, c: Client, space: Space, sent: set<Msg>)
    requires Run(cfg, s, steps).Some? && Stays(steps, c) && Undone(space, PcOf(s, c), sent)
    ensures Undone(space, PcOf(Run(cfg, s, steps).value, c), sent + SentBy(cfg, s, steps, c))
    decreases |steps|
  {
    if steps != [] {
      var s' := Apply(cfg, s, steps[0]).value;
      var now := SentNow(s, steps[0], s', c);
      assert steps[0] != Crash(c) && steps[0] != Unlock(c);
      UndoneStep(cfg, s, steps[0], s', c, space, sent);
      UndoneRun(cfg, s', steps[1..], c, space, sent + now);
      assert sent + SentBy(cfg, s, steps, c) == sent + now + SentBy(cfg, s', steps[1..], c);
    } else {
      assert sent + {} == sent;
    }
  }

  /**
   In every configuration and from every state: a create that fails and whose handler reaches its end has by
   then asked every node of the space to delete it.
   */
  lemma RolledBack(cfg: Config, s: State, step: Step, steps: seq<Step>, c: Client, space: Space)
    requires CreateFails(cfg, s, step, c, space) && Run(cfg, s, [step] + steps).Some? && Stays(steps, c)
    requires PcOf(Run(cfg, s, [step] + steps).value, c) == Leave
    ensures forall n | n in space.nodes :: DeleteMsg(n, space.name) in SentBy(cfg, s, [step] + steps, c)
  {
    var s' := Apply(cfg, s, step).value;
    assert ([step] + steps)[1..] == steps;
    assert Undone(space, PcOf(s', c), {});
    UndoneRun(cfg, s', steps, c, space, {});
    assert {} + SentBy(cfg, s', steps, c) == SentBy(cfg, s', steps, c);
  }

  // ---- failures are recorded ----

  /** The node that the failed task is taken for is recorded as failed. */
  predicate RecordedFor(cfg: Config, err: set<Node>, space: Space, i: nat) {
    var k := Decode(cfg, space, i);
    k.Some? && k.value < |space.nodes| && space.nodes[k.value] in err
  }

  /** The failed tasks that are no longer to be recorded are recorded. */
  ghost predicate Recording(cfg: Config, s: State, c: Client, op: Op, space: Space, failed: set<nat>) {
    var pc := PcOf(s, c);
    || (pc.Marking? && pc.op == op && pc.space == space
        && forall i | i in failed && i !in pc.left :: RecordedFor(cfg, s.w.err, space, i))
    || (forall i | i in failed :: RecordedFor(cfg, s.w.err, space, i))
  }

  lemma EtcdErr(s: State, step: Step, s': State)
    requires IsEtcdStep(step) && ApplyEtcd(s, step) == Some(s')
    ensures s'.w.err == s.w.err
  {
  }

  lemma CallErr(cfg: Config, s: State, step: Step, s': State)
    requires IsCallStep(step) && ApplyCalls(cfg, s, step) == Some(s')
    ensures s.w.err <= s'.w.err
  {
  }

  /** No step takes a failed node off the record. */
  lemma ErrGrows(cfg: Config, s: State, step: Step, s': State)
    requires Apply(cfg, s, step) == Some(s')
    ensures s.w.err <= s'.w.err
  {
    if IsEtcdStep(step) {
      EtcdErr(s, step, s');
    } else if IsCallStep(step) {
      CallErr(cfg, s, step, s');
    }
  }

  lemma RecordingCall(cfg: Config, s: State, step: Step, s': State, op: Op, space: Space, failed: set<nat>)
    requires IsCallStep(step) && ApplyCalls(cfg, s, step) == Some(s')
    requires PcOf(s, step.c).Marking? && Recording(cfg, s, step.c, op, space, failed)
    ensures Recording(cfg, s', step.c, op, space, failed)
  {
    CallErr(cfg, s, step, s');
  }

  lemma RecordingStep(cfg: Config, s: State, step: Step, s': State, c: Client, op: Op, space: Space, failed: set<nat>)
    requires Apply(cfg, s, step) == Some(s') && step != Crash(c) && step != Unlock(c)
    requires Recording(cfg, s, c, op, space, failed)
    ensures Recording(cfg, s', c, op, space, failed)
  {
    ErrGrows(cfg, s, step, s');
    if IsServerStep(step) || step.c != c {
      HandlerKept(cfg, s, step, s', c);
    } else if PcOf(s, c).Marking? {
      OnlyCalls(cfg, s, step);
      RecordingCall(cfg, s, step, s', op, space, failed);
    }
  }

  lemma {:induction false} RecordingRun(cfg: Config, s: State, steps: seq<Step>, c: Client,
                                        op: Op, space: Space, failed: set<nat>)
    requires Run(cfg, s, steps).Some? && Stays(steps, c) && Recording(cfg, s, c, op, space, failed)
    ensures Recording(cfg, Run(cfg, s, steps).value, c, op, space, failed)
    decreases |steps|
  {
    if steps != [] {
      var s' := Apply(cfg, s, steps[0]).value;
      assert steps[0] != Crash(c) && steps[0] != Unlock(c);
      RecordingStep(cfg, s, steps[0], s', c, op, space, failed);
      RecordingRun(cfg, s', steps[1..], c, op, space, failed);
    }
  }

  /**
   In every configuration and from every state: when a round of calls ends with failures that can be decoded,
   each of them is recorded by the time the handler reaches its end.
   */
  lemma FailuresRecorded(cfg: Config, s: State, steps: seq<Step>, c: Client)
    requires PcOf(s, c).Calling? && Decodable(cfg, PcOf(s, c).space, Failed(PcOf(s, c).calls))
    requires Run(cfg, s, [Collect(c)] + steps).Some? && Stays(steps, c)
    requires PcOf(Run(cfg, s, [Collect(c)] + steps).value, c) == Leave
    ensures var space, end := PcOf(s, c).space, Run(cfg, s, [Collect(c)] + steps).value;
            forall i | i in Failed(PcOf(s, c).calls) :: RecordedFor(cfg, end.w.err, space, i)
  {
    var Calling(op, space, calls) := PcOf(s, c);
    var s' := Apply(cfg, s, Collect(c)).value;
    assert ([Collect(c)] + steps)[1..] == steps;
    RecordingRun(cfg, s', steps, c, op, space, Failed(calls));
  }

  // ---- what is left on the servers ----

  /** A create of the space is still on its way to the node. */
  ghost predicate Pending(w: World, n: Node, name: SpaceName) {
    exists id | id in w.net :: w.net[id] == CreateMsg(n, name)
  }

  /** The node does not hold the space and will not. */
  ghost predicate Gone(w: World, n: Node, name: SpaceName) {
    Held(PsOf(w, n)) != Some(name) && !Pending(w, n, name)
  }

  /** At most one create of the space is on its way to the node, and then the node does not hold it. */
  ghost predicate Single(w: World, n: Node, name: SpaceName) {
    && (Pending(w, n, name) ==> Held(PsOf(w, n)) != Some(name))
    && (forall a, b | a in w.net && b in w.net && w.net[a] == w.net[b] == CreateMsg(n, name) :: a == b)
  }

  lemma ServeHeld(w: World, id: MsgId, outcome: Outcome, n: Node, name: SpaceName)
    requires id in w.net && AllCoherent(w)
    ensures var held := Held(PsOf(ServeMsg(w, id, outcome), n));
            held == Some(name) ==> Held(PsOf(w, n)) == Some(name) || w.net[id] == CreateMsg(n, name)
  {
    assert Coherent(PsOf(w, n));
  }

  lemma ServeGone(w: World, id: MsgId, outcome: Outcome, n: Node, name: SpaceName)
    requires id in w.net && AllCoherent(w) && Gone(w, n, name)
    ensures Gone(ServeMsg(w, id, outcome), n, name)
  {
    ServeHeld(w, id, outcome, n, name);
    var w' := ServeMsg(w, id, outcome);
    assert forall m | m in w'.net :: m in w.net && w'.net[m] == w.net[m];
  }

  lemma ServeSingle(w: World, id: MsgId, outcome: Outcome, n: Node, name: SpaceName)
    requires id in w.net && AllCoherent(w) && Single(w, n, name)
    ensures Single(ServeMsg(w, id, outcome), n, name)
  {
    ServeHeld(w, id, outcome, n, name);
    var w' := ServeMsg(w, id, outcome);
    assert forall m | m in w'.net :: m in w.net && m != id && w'.net[m] == w.net[m];
    if Pending(w', n, name) {
      var m :| m in w'.net && w'.net[m] == CreateMsg(n, name);
      assert w.net[m] == CreateMsg(n, name);
      assert Pending(w, n, name);
    }
  }

  /** An acknowledged delete took the space off the node, and no create of it was still to come. */
  lemma ServeDelete(w: World, id: MsgId, outcome: Outcome, n: Node, name: SpaceName)
    requires id in w.net && id !in w.acks && name.db != "" && Single(w, n, name) && w.net[id] == DeleteMsg(n, name)
    ensures id in ServeMsg(w, id, outcome).acks ==> Gone(ServeMsg(w, id, outcome), n, name)
  {
    var w' := ServeMsg(w, id, outcome);
    if id in w'.acks {
      assert Held(PsOf(w, n)) == Some(name) && !Pending(w, n, name);
      assert forall m | m in w'.net :: m in w.net && w'.net[m] == w.net[m];
    }
  }

  /** What is known of task i while the create is undone. */
  ghost predicate UndoSlot(w: World, space: Space, calls: map<nat, Call>, i: nat)
    requires i < |space.nodes|
  {
    var n := space.nodes[i];
    && Single(w, n, space.name)
    && (i in calls ==>
          match calls[i]
          case Returned(ok) => ok ==> Gone(w, n, space.name)
          case Sent(id) =>
            && id < w.nextId
            && (id in w.net ==> w.net[id] == DeleteMsg(n, space.name))
            && (id in w.acks ==> Gone(w, n, space.name)))
  }

  /** What is known of task i while the space is created. */
  ghost predicate CreateSlot(w: World, space: Space, calls: map<nat, Call>, i: nat)
    requires i < |space.nodes|
  {
    if i in calls then Single(w, space.nodes[i], space.name) else Gone(w, space.nodes[i], space.name)
  }

  ghost predicate AllSingle(w: World, space: Space) {
    forall i | 0 <= i < |space.nodes| :: Single(w, space.nodes[i], space.name)
  }

  /** Of the tasks that are no longer to be recorded, the node is free of the space or recorded as failed. */
  ghost predicate Settling(w: World, space: Space, left: set<nat>) {
    forall i | 0 <= i < |space.nodes| && i !in left :: Gone(w, space.nodes[i], space.name) || space.nodes[i] in w.err
  }

  /** What is known of the nodes of a space that is created, or whose create is undone. */
  ghost predicate Track(cfg: Config, w: World, pc: Pc) {
    match pc
    case CreateCommit(space) => SafeSpace(cfg, space) && AllSingle(w, space)
    case Calling(op, space, calls) =>
      && (op == Creating ==>
            SafeSpace(cfg, space) && forall i | 0 <= i < |space.nodes| :: CreateSlot(w, space, calls, i))
      && (op == Undoing ==>
            SafeSpace(cfg, space) && forall i | 0 <= i < |space.nodes| :: UndoSlot(w, space, calls, i))
    case Marking(op, space, left) =>
      && (op == Creating ==> SafeSpace(cfg, space) && AllSingle(w, space))
      && (op == Undoing ==> SafeSpace(cfg, space) && Decodable(cfg, space, left) && Settling(w, space, left))
    case _ => true
  }

  ghost predicate Tracked(cfg: Config, s: State) {
    s.lock.Some? ==> Track(cfg, s.w, PcOf(s, s.lock.value))
  }

  // ---- the network and the servers ----

  lemma ServeUndoSlot(w: World, id: MsgId, outcome: Outcome, space: Space, calls: map<nat, Call>, i: nat)
    requires id in w.net && Ids(w) && AllCoherent(w) && space.name.db != ""
    requires i < |space.nodes| && UndoSlot(w, space, calls, i)
    ensures UndoSlot(ServeMsg(w, id, outcome), space, calls, i)
  {
    var n := space.nodes[i];
    ServeSingle(w, id, outcome, n, space.name);
    if Gone(w, n, space.name) {
      ServeGone(w, id, outcome, n, space.name);
    }
    if i in calls && calls[i] == Sent(id) {
      ServeDelete(w, id, outcome, n, space.name);
    }
  }

  lemma ServeCreateSlot(w: World, id: MsgId, outcome: Outcome, space: Space, calls: map<nat, Call>, i: nat)
    requires id in w.net && AllCoherent(w) && i < |space.nodes| && CreateSlot(w, space, calls, i)
    ensures CreateSlot(ServeMsg(w, id, outcome), space, calls, i)
  {
    if i in calls {
      ServeSingle(w, id, outcome, space.nodes[i], space.name);
    } else {
      ServeGone(w, id, outcome, space.nodes[i], space.name);
    }
  }

  lemma ServeCalls(cfg: Config, w: World, id: MsgId, outcome: Outcome, pc: Pc)
    requires id in w.net && Ids(w) && AllCoherent(w) && pc.Calling? && Track(cfg, w, pc)
    ensures Track(cfg, ServeMsg(w, id, outcome), pc)
  {
    forall i | 0 <= i < |pc.space.nodes|
      ensures pc.op == Creating ==> CreateSlot(ServeMsg(w, id, outcome), pc.space, pc.calls, i)
      ensures pc.op == Undoing ==> UndoSlot(ServeMsg(w, id, outcome), pc.space, pc.calls, i)
    {
      if pc.op == Creating {
        ServeCreateSlot(w, id, outcome, pc.space, pc.calls, i);
      } else if pc.op == Undoing {
        ServeUndoSlot(w, id, outcome, pc.space, pc.calls, i);
      }
    }
  }

  lemma ServeTrack(cfg: Config, w: World, id: MsgId, outcome: Outcome, pc: Pc)
    requires id in w.net && Ids(w) && AllCoherent(w) && Track(cfg, w, pc)
    ensures Track(cfg, ServeMsg(w, id, outcome), pc)
  {
    if pc.Calling? {
      ServeCalls(cfg, w, id, outcome, pc);
    } else if pc.CreateCommit? || pc.Marking? {
      forall i | 0 <= i < |pc.space.nodes|
        ensures Single(w, pc.space.nodes[i], pc.space.name) ==>
                  Single(ServeMsg(w, id, outcome), pc.space.nodes[i], pc.space.name)
        ensures Gone(w, pc.space.nodes[i], pc.space.name) ==>
                  Gone(ServeMsg(w, id, outcome), pc.space.nodes[i], pc.space.name)
      {
        if Single(w, pc.space.nodes[i], pc.space.name) {
          ServeSingle(w, id, outcome, pc.space.nodes[i], pc.space.name);
        }
        if Gone(w, pc.space.nodes[i], pc.space.name) {
          ServeGone(w, id, outcome, pc.space.nodes[i], pc.space.name);
        }
      }
    }
  }

  /** Requests may be lost; servers keep what they hold. */
  ghost predicate Lossy(w: World, w': World) {
    && w' == w.(ps := w'.ps, net := w'.net)
    && (forall id | id in w'.net :: id in w.net && w'.net[id] == w.net[id])
    && (forall n :: Held(PsOf(w', n)) == Held(PsOf(w, n)))
  }

  lemma LossyNode(w: World, w': World, n: Node, name: SpaceName)
    requires Lossy(w, w')
    ensures Gone(w, n, name) ==> Gone(w', n, name)
    ensures Single(w, n, name) ==> Single(w', n, name)
  {
    assert Pending(w', n, name) ==> Pending(w, n, name);
  }

  lemma LossyTrack(cfg: Config, w: World, w': World, pc: Pc)
    requires Lossy(w, w') && Track(cfg, w, pc)
    ensures Track(cfg, w', pc)
  {
    forall n, name
      ensures Gone(w, n, name) ==> Gone(w', n, name)
      ensures Single(w, n, name) ==> Single(w', n, name)
    {
      LossyNode(w, w', n, name);
    }
    if pc.Calling? {
      forall i | 0 <= i < |pc.space.nodes|
        ensures CreateSlot(w, pc.space, pc.calls, i) ==> CreateSlot(w', pc.space, pc.calls, i)
        ensures UndoSlot(w, pc.space, pc.calls, i) ==> UndoSlot(w', pc.space, pc.calls, i)
      {
      }
    }
  }

  /** A server step serves a request, or is lossy. */
  lemma ServerStepIs(s: State, step: Step, s': State)
    requires IsServerStep(step) && ApplyServer(s, step) == Some(s') && AllCoherent(s.w)
    ensures step.Deliver? ==> step.id in s.w.net && s'.w == ServeMsg(s.w, step.id, step.outcome)
    ensures !step.Deliver? ==> Lossy(s.w, s'.w)
    ensures s'.lock == s.lock && s'.pcs == s.pcs
  {
    if step.RestartPs? {
      assert Coherent(PsOf(s.w, step.n));
    }
  }

  lemma ServerTrack(cfg: Config, s: State, step: Step, s': State)
    requires IsServerStep(step) && ApplyServer(s, step) == Some(s') && Inv(cfg, s) && Tracked(cfg, s)
    ensures Tracked(cfg, s')
  {
    ServerStepIs(s, step, s');
    if s.lock.Some? {
      if step.Deliver? {
        ServeTrack(cfg, s.w, step.id, step.outcome, PcOf(s, s.lock.value));
      } else {
        LossyTrack(cfg, s.w, s'.w, PcOf(s, s.lock.value));
      }
    }
  }

  // ---- the lock holder ----

  /** The chosen nodes hold nothing, and nothing is on its way to them. */
  lemma PutDisabledTrack(cfg: Config, s: State, step: Step, s': State)
    requires step.PutDisabled? && Ready(cfg, s, step.c) && ApplyEtcd(s, step) == Some(s')
    ensures Track(cfg, s'.w, PcOf(s', step.c))
  {
    var pc := PcOf(s, step.c);
    if pc.CreateMark? {
      forall i | 0 <= i < |pc.space.nodes|
        ensures CreateSlot(s.w, pc.space, map[], i)
      {
        var n := pc.space.nodes[i];
        assert n !in s.w.err && !Listed(s.w.meta, n, pc.space.name);
      }
    }
  }

  lemma SameServers(w: World, w': World, n: Node, name: SpaceName)
    requires w'.ps == w.ps && w'.net == w.net
    ensures Single(w, n, name) <==> Single(w', n, name)
    ensures Gone(w, n, name) <==> Gone(w', n, name)
  {
    assert PsOf(w', n) == PsOf(w, n);
  }

  lemma PutMetaTrack(cfg: Config, s: State, step: Step, s': State)
    requires step.PutMeta? && Track(cfg, s.w, PcOf(s, step.c)) && ApplyEtcd(s, step) == Some(s')
    ensures Track(cfg, s'.w, PcOf(s', step.c))
  {
    var space := PcOf(s, step.c).space;
    forall i | 0 <= i < |space.nodes|
      ensures UndoSlot(s'.w, space, map[], i)
    {
      SameServers(s.w, s'.w, space.nodes[i], space.name);
    }
  }

  lemma EtcdTrack(cfg: Config, s: State, step: Step, s': State)
    requires IsEtcdStep(step) && ApplyEtcd(s, step) == Some(s')
    requires Ready(cfg, s, step.c) && Track(cfg, s.w, PcOf(s, step.c))
    ensures Track(cfg, s'.w, PcOf(s', step.c))
  {
    if step.PutDisabled? {
      PutDisabledTrack(cfg, s, step, s');
    } else if step.PutMeta? {
      PutMetaTrack(cfg, s, step, s');
    }
  }

  /** A new request. */
  lemma SendNode(w: World, w': World, msg: Msg, n: Node, name: SpaceName)
    requires Ids(w) && w'.ps == w.ps && w'.net == w.net[w.nextId := msg]
    ensures msg != CreateMsg(n, name) && Gone(w, n, name) ==> Gone(w', n, name)
    ensures msg != CreateMsg(n, name) && Single(w, n, name) ==> Single(w', n, name)
    ensures Gone(w, n, name) ==> Single(w', n, name)
  {
    assert PsOf(w', n) == PsOf(w, n);
    assert w.nextId !in w.net;
    assert Pending(w', n, name) && msg != CreateMsg(n, name) ==> Pending(w, n, name) by {
      if Pending(w', n, name) && msg != CreateMsg(n, name) {
        var id :| id in w'.net && w'.net[id] == CreateMsg(n, name);
        assert w.net[id] == CreateMsg(n, name);
      }
    }
  }

  lemma SendTrack(cfg: Config, s: State, step: Step, s': State)
    requires step.Send? && ApplyCalls(cfg, s, step) == Some(s')
    requires Ids(s.w) && Track(cfg, s.w, PcOf(s, step.c))
    ensures Track(cfg, s'.w, PcOf(s', step.c))
  {
    var pc, pc' := PcOf(s, step.c), PcOf(s', step.c);
    var space := pc.space;
    forall i | 0 <= i < |space.nodes| && pc.op != Deleting
      ensures if pc.op == Creating then CreateSlot(s'.w, space, pc'.calls, i) else UndoSlot(s'.w, space, pc'.calls, i)
    {
      SendNode(s.w, s'.w, MsgFor(pc.op, space, step.i), space.nodes[i], space.name);
      assert i != step.i ==> space.nodes[i] != space.nodes[step.i];
      if pc.op == Creating {
        assert CreateSlot(s.w, space, pc.calls, i);
      } else {
        assert UndoSlot(s.w, space, pc.calls, i);
      }
    }
  }

  lemma ReturnTrack(cfg: Config, s: State, step: Step, s': State)
    requires step.Return? && ApplyCalls(cfg, s, step) == Some(s') && Track(cfg, s.w, PcOf(s, step.c))
    ensures Track(cfg, s'.w, PcOf(s', step.c))
  {
    var pc, pc' := PcOf(s, step.c), PcOf(s', step.c);
    forall i | 0 <= i < |pc.space.nodes|
      ensures pc.op == Creating ==> CreateSlot(s'.w, pc.space, pc'.calls, i)
      ensures pc.op == Undoing ==> UndoSlot(s'.w, pc.space, pc'.calls, i)
    {
      if pc.op == Creating {
        assert CreateSlot(s.w, pc.space, pc.calls, i);
      } else if pc.op == Undoing {
        assert UndoSlot(s.w, pc.space, pc.calls, i);
      }
    }
  }

  lemma CollectTrack(cfg: Config, s: State, step: Step, s': State)
    requires step.Collect? && ApplyCalls(cfg, s, step) == Some(s') && Track(cfg, s.w, PcOf(s, step.c))
    ensures Track(cfg, s'.w, PcOf(s', step.c))
  {
    var Calling(op, space, calls) := PcOf(s, step.c);
    forall i | 0 <= i < |space.nodes|
      ensures op == Creating ==> Single(s.w, space.nodes[i], space.name)
      ensures op == Undoing ==> i in Failed(calls) || Gone(s.w, space.nodes[i], space.name)
    {
      if op == Creating {
        assert CreateSlot(s.w, space, calls, i);
      } else if op == Undoing {
        assert UndoSlot(s.w, space, calls, i);
      }
    }
  }

  lemma MarkTrack(cfg: Config, s: State, step: Step, s': State)
    requires step.MarkOne? || step.MarkDone?
    requires ApplyCalls(cfg, s, step) == Some(s') && Track(cfg, s.w, PcOf(s, step.c))
    ensures Track(cfg, s'.w, PcOf(s', step.c))
  {
    var Marking(op, space, left) := PcOf(s, step.c);
    forall i | 0 <= i < |space.nodes|
      ensures Single(s.w, space.nodes[i], space.name) <==> Single(s'.w, space.nodes[i], space.name)
      ensures Gone(s.w, space.nodes[i], space.name) <==> Gone(s'.w, space.nodes[i], space.name)
    {
      SameServers(s.w, s'.w, space.nodes[i], space.name);
    }
    if op == Undoing && step.MarkOne? && step.i < |space.nodes| {
      DecodeSelf(cfg, space, step.i);
    }
  }

  lemma CallTrack(cfg: Config, s: State, step: Step, s': State)
    requires IsCallStep(step) && ApplyCalls(cfg, s, step) == Some(s')
    requires Ids(s.w) && Track(cfg, s.w, PcOf(s, step.c))
    ensures Track(cfg, s'.w, PcOf(s', step.c))
  {
    if step.Send? {
      SendTrack(cfg, s, step, s');
    } else if step.Return? {
      ReturnTrack(cfg, s, step, s');
    } else if step.Collect? {
      CollectTrack(cfg, s, step, s');
    } else {
      MarkTrack(cfg, s, step, s');
    }
  }

  lemma HandlerTrack(cfg: Config, s: State, step: Step, s': State)
    requires Inv(cfg, s) && Tracked(cfg, s) && HandlerTakes(cfg, s, step, s')
    ensures Tracked(cfg, s')
  {
    HandlerFrame(cfg, s, step, s');
    InvReady(cfg, s, step.c);
    if IsEtcdStep(step) {
      EtcdTrack(cfg, s, step, s');
    } else {
      CallTrack(cfg, s, step, s');
    }
  }

  // ---- runs ----

  lemma LockTrack(cfg: Config, s: State, step: Step, s': State)
    requires !IsEtcdStep(step) && !IsCallStep(step) && !IsServerStep(step)
    requires cfg.deleteChecksLock && Inv(cfg, s) && Tracked(cfg, s) && ApplyLock(cfg, s, step) == Some(s')
    ensures Tracked(cfg, s')
  {
  }

  /** Every step keeps what is known of the nodes of a space that is created or whose create is undone. */
  lemma StepTrack(cfg: Config, s: State, step: Step, s': State)
    requires cfg.deleteChecksLock && Inv(cfg, s) && Tracked(cfg, s) && Apply(cfg, s, step) == Some(s')
    ensures Tracked(cfg, s')
  {
    if IsEtcdStep(step) || IsCallStep(step) {
      HandlerTrack(cfg, s, step, s');
    } else if IsServerStep(step) {
      ServerTrack(cfg, s, step, s');
    } else {
      LockTrack(cfg, s, step, s');
    }
  }

  lemma {:induction false} RunTrack(cfg: Config, s: State, steps: seq<Step>)
    requires cfg.deleteChecksLock && Inv(cfg, s) && Tracked(cfg, s) && Run(cfg, s, steps).Some?
    requires forall i | 0 <= i < |steps| :: SafeStep(cfg, steps[i])
    ensures Inv(cfg, Run(cfg, s, steps).value) && Tracked(cfg, Run(cfg, s, steps).value)
    decreases |steps|
  {
    if steps != [] {
      var s' := Apply(cfg, s, steps[0]).value;
      StepInv(cfg, s, steps[0], s');
      StepTrack(cfg, s, steps[0], s');
      RunTrack(cfg, s', steps[1..]);
    }
  }

  lemma GoneServer(s: State, step: Step, s': State, n: Node, name: SpaceName)
    requires IsServerStep(step) && ApplyServer(s, step) == Some(s') && AllCoherent(s.w) && Gone(s.w, n, name)
    ensures AllCoherent(s'.w) && Gone(s'.w, n, name)
  {
    ServerStepIs(s, step, s');
    if step.Deliver? {
      ServeGone(s.w, step.id, step.outcome, n, name);
    } else {
      LossyNode(s.w, s'.w, n, name);
    }
    forall m
      ensures Coherent(PsOf(s'.w, m))
    {
      assert Coherent(PsOf(s.w, m));
    }
  }

  /** With DDL frozen, no create is sent, so a node that is free of the space stays so. */
  lemma GoneStep(cfg: Config, s: State, step: Step, s': State, n: Node, name: SpaceName)
    requires Frozen(s) && AllCoherent(s.w) && Gone(s.w, n, name) && Apply(cfg, s, step) == Some(s')
    ensures Frozen(s') && AllCoherent(s'.w) && Gone(s'.w, n, name)
  {
    FrozenStep(cfg, s, step);
    if IsServerStep(step) {
      GoneServer(s, step, s', n, name);
    } else if IsEtcdStep(step) || IsCallStep(step) {
      UncheckedSteps(cfg, s, step);
    }
  }

  lemma {:induction false} GoneForever(cfg: Config, s: State, steps: seq<Step>, n: Node, name: SpaceName)
    requires Frozen(s) && AllCoherent(s.w) && Gone(s.w, n, name) && Run(cfg, s, steps).Some?
    ensures Gone(Run(cfg, s, steps).value.w, n, name)
    decreases |steps|
  {
    if steps != [] {
      var s' := Apply(cfg, s, steps[0]).value;
      GoneStep(cfg, s, steps[0], s', n, name);
      GoneForever(cfg, s', steps[1..], n, name);
    }
  }

  /** The step ends the undoing of a create: no delete failed, or the last failure has been recorded. */
  ghost predicate EndsUndo(s: State, step: Step, c: Client, space: Space) {
    var pc := PcOf(s, c);
    || (step == Collect(c) && pc.Calling? && pc.op == Undoing && pc.space == space && Failed(pc.calls) == {})
    || (step == MarkDone(c) && pc.Marking? && pc.op == Undoing && pc.space == space)
  }

  lemma UndoEnded(cfg: Config, s: State, step: Step, s': State, c: Client, space: Space)
    requires Inv(cfg, s) && Tracked(cfg, s) && EndsUndo(s, step, c, space) && Apply(cfg, s, step) == Some(s')
    ensures forall n | n in space.nodes :: Gone(s'.w, n, space.name) || (step.MarkDone? && n in s'.w.err)
    ensures Frozen(s') && AllCoherent(s'.w)
  {
    InvReady(cfg, s, c);
    assert s'.w == s.w;
    forall n | n in space.nodes
      ensures Gone(s'.w, n, space.name) || (step.MarkDone? && n in s'.w.err)
    {
      var i :| 0 <= i < |space.nodes| && space.nodes[i] == n;
      if step.Collect? {
        assert UndoSlot(s.w, space, PcOf(s, c).calls, i) && i !in Failed(PcOf(s, c).calls);
      } else {
        assert i !in PcOf(s, c).left;
      }
    }
  }

  /**
   With deletes that need the lock and safe counts: once a failed create has been undone, then and in every
   later state a node of the space that is not recorded as failed does not hold it. When every delete was
   acknowledged that is true of all its nodes.
   */
  lemma RollbackClean(cfg: Config, steps: seq<Step>, step: Step, more: seq<Step>, c: Client, space: Space)
    requires cfg.deleteChecksLock && Run(cfg, INIT, steps).Some?
    requires forall i | 0 <= i < |steps| :: SafeStep(cfg, steps[i])
    requires EndsUndo(Run(cfg, INIT, steps).value, step, c, space)
    requires Run(cfg, Run(cfg, INIT, steps).value, [step] + more).Some?
    ensures var end := Run(cfg, Run(cfg, INIT, steps).value, [step] + more).value;
            forall n | n in space.nodes && !(step.MarkDone? && n in end.w.err) ::
              Held(PsOf(end.w, n)) != Some(space.name)
  {
    RunTrack(cfg, INIT, steps);
    var s := Run(cfg, INIT, steps).value;
    var s' := Apply(cfg, s, step).value;
    assert ([step] + more)[1..] == more;
    UndoEnded(cfg, s, step, s', c, space);
    FrozenForever(cfg, s', more);
    forall n | n in space.nodes && Gone(s'.w, n, space.name)
      ensures Gone(Run(cfg, s', more).value.w, n, space.name)
    {
      GoneForever(cfg, s', more, n, space.name);
    }
  }
}
