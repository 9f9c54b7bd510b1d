/**
 Replication of documents: the leader frames a request and its data into a log
 entry, and every replica applies the committed entries in order. The node that
 proposed an entry takes the data from its closure; every other node, and that node
 after a restart, parses the frame.
 */
module RaftApply {
  import opened Bytes
  import opened Wrappers

  // ---- frames ----

  /** Request length in network order, request, data. A length of 2^32 or more is cut to 32 bits. */
  function Frame(request: seq<Byte>, data: seq<Byte>): seq<Byte> {
    BigEndian(|request|, 4) + request + data
  }

  datatype Parts = Parts(request: seq<Byte>, data: seq<Byte>)

  function Take(s: seq<Byte>, n: nat): seq<Byte> {
    if n < |s| then s[..n] else s
  }

  function Drop(s: seq<Byte>, n: nat): seq<Byte> {
    if n < |s| then s[n..] else []
  }

  /** The length as read into a zeroed 32-bit integer, then the request, then whatever is left. */
  function Parse(log: seq<Byte>): Parts {
    var head := Take(log, 4);
    var size := FromBig(head + seq(4 - |head|, _ => 0));
    Parts(Take(Drop(log, 4), size), Drop(Drop(log, 4), size))
  }

  const MAX_FRAMED := 0x1_0000_0000

  /** A frame is parsed into its length, cut to 32 bits, and what follows it. */
  lemma ParseFrame(request: seq<Byte>, data: seq<Byte>)
    ensures var size := |request| % MAX_FRAMED;
            Parse(Frame(request, data)) == Parts(Take(request + data, size), Drop(request + data, size))
  {
    var log, head := Frame(request, data), BigEndian(|request|, 4);
    assert Take(log, 4) == head && head + seq(0, _ => 0) == head;
    assert Drop(log, 4) == request + data;
    BigRoundTrip(|request|, 4);
    Widths();
  }

  /** Parsing undoes framing exactly for requests of less than 2^32 bytes; beyond that the data is wrong as well. */
  lemma FrameRoundTripIff(request: seq<Byte>, data: seq<Byte>)
    ensures Parse(Frame(request, data)) == Parts(request, data) <==> |request| < MAX_FRAMED
    ensures Parse(Frame(request, data)).data == data <==> |request| < MAX_FRAMED
  {
    ParseFrame(request, data);
    var size := |request| % MAX_FRAMED;
    assert Drop(request + data, size) == request[size..] + data;
    if |request| < MAX_FRAMED {
      assert Take(request + data, size) == request;
    }
  }

  // ---- one replica ----

  /** The engine and the message formats, as functions of their inputs. */
  datatype Machine<!E, !D> = Machine(
    init: E,
    parsesAsRequest: seq<Byte> -> bool,
    parseDoc: seq<Byte> -> Option<D>,
    add: (E, D) -> (E, bool),
    maxRequest: nat                    // longer requests fail to serialize
  )

  datatype Status = Running | Halted | Aborted

  datatype Node<E> = Node(
    term: int,                         // below zero when not the leader
    engine: E,
    applied: nat,                      // entries applied
    status: Status,
    closures: map<nat, seq<Byte>>      // data kept for the entries this node proposed
  )

  /** What applying some data does to an engine, and whether it succeeds. */
  function AddData<E, D>(m: Machine<E, D>, engine: E, data: seq<Byte>): (E, bool) {
    match m.parseDoc(data)
    case None => (engine, false)
    case Some(doc) => m.add(engine, doc)
  }

  function DataFor<E>(node: Node<E>, log: seq<seq<Byte>>): seq<Byte>
    requires node.applied < |log|
  {
    if node.applied in node.closures then node.closures[node.applied] else Parse(log[node.applied]).data
  }

  /** One round of the apply loop: a failure halts the node before the entry; an unreadable request aborts it. */
  function ApplyNext<E, D>(m: Machine<E, D>, node: Node<E>, log: seq<seq<Byte>>): Node<E>
    requires node.applied < |log|
  {
    if node.applied !in node.closures && !m.parsesAsRequest(Parse(log[node.applied]).request) then
      node.(status := Aborted)
    else
      var (engine, ok) := AddData(m, node.engine, DataFor(node, log));
      if ok then node.(engine := engine, applied := node.applied + 1)
      else node.(engine := engine, status := Halted)
  }

  /** The apply loop over the committed entries below k. */
  function ApplyUpTo<E, D>(m: Machine<E, D>, node: Node<E>, log: seq<seq<Byte>>, k: nat): Node<E>
    requires k <= |log|
    decreases k - node.applied
  {
    if node.applied >= k || node.status != Running then node
    else
      var next := ApplyNext(m, node, log);
      if next.status == Running then ApplyUpTo(m, next, log, k) else next
  }

  // ---- what applying amounts to ----

  /** Adding the data from i up to k, one after the other, until one fails. */
  function Fold<E>(add: (E, seq<Byte>) -> (E, bool), engine: E, data: nat -> seq<Byte>, i: nat, k: nat): (E, bool)
    decreases k
  {
    if k <= i then (engine, true)
    else
      var (before, ok) := Fold(add, engine, data, i, k - 1);
      if ok then add(before, data(k - 1)) else (before, false)
  }

  /** What one data does to an engine: its document is added, if it is one. */
  function Adding<E, D>(m: Machine<E, D>): (E, seq<Byte>) -> (E, bool) {
    (engine, data) =>
      match m.parseDoc(data)
      case None => (engine, false)
      case Some(doc) => m.add(engine, doc)
  }

  /** Only the data from i up to k counts. */
  lemma {:induction false} FoldSame<E>(add: (E, seq<Byte>) -> (E, bool), engine: E,
                                       a: nat -> seq<Byte>, b: nat -> seq<Byte>, i: nat, k: nat)
    requires forall j: nat | i <= j < k :: a(j) == b(j)
    ensures Fold(add, engine, a, i, k) == Fold(add, engine, b, i, k)
    decreases k
  {
    if i < k {
      FoldSame(add, engine, a, b, i, k - 1);
    }
  }

  /** Success up to k is success up to every earlier point. */
  lemma {:induction false} FoldDown<E>(add: (E, seq<Byte>) -> (E, bool), engine: E, data: nat -> seq<Byte>,
                                       i: nat, j: nat, k: nat)
    requires j <= k && Fold(add, engine, data, i, k).1
    ensures Fold(add, engine, data, i, j).1
    decreases k
  {
    if i < k && j < k {
      FoldDown(add, engine, data, i, j, k - 1);
    }
  }

  /** The first of the data is added first. */
  lemma {:induction false} FoldFront<E>(add: (E, seq<Byte>) -> (E, bool), engine: E, data: nat -> seq<Byte>,
                                        next: E, i: nat, k: nat)
    requires i < k && add(engine, data(i)) == (next, true)
    ensures Fold(add, engine, data, i, k) == Fold(add, next, data, i + 1, k)
    decreases k
  {
    if i + 1 < k {
      FoldFront(add, engine, data, next, i, k - 1);
    } else {
      assert Fold(add, engine, data, i, i) == (engine, true);
    }
  }

  /**
   A batch adds the entries from i on in order to the engine there was. It ends at k, at an entry whose request
   cannot be read, or at the first that fails.
   */
  ghost predicate Added<E>(add: (E, seq<Byte>) -> (E, bool), data: nat -> seq<Byte>, readable: nat -> bool,
                           engine: E, i: nat, k: nat, after: Node<E>)
  {
    && i <= after.applied <= k
    && (forall j: nat | i <= j < after.applied :: readable(j))
    && var done := Fold(add, engine, data, i, after.applied);
       match after.status
       case Running => after.applied == k && done == (after.engine, true)
       case Aborted => after.applied < k && !readable(after.applied) && done == (after.engine, true)
       case Halted =>
         && after.applied < k && readable(after.applied) && done.1
         && add(done.0, data(after.applied)) == (after.engine, false)
  }

  lemma {:induction false} AddedMore<E>(add: (E, seq<Byte>) -> (E, bool), data: nat -> seq<Byte>, readable: nat -> bool,
                                        engine: E, next: E, i: nat, k: nat, after: Node<E>)
    requires i < k && readable(i) && add(engine, data(i)) == (next, true)
    requires Added(add, data, readable, next, i + 1, k, after)
    ensures Added(add, data, readable, engine, i, k, after)
  {
    FoldFront(add, engine, data, next, i, after.applied);
  }

  lemma {:induction false} AddedNothing<E>(add: (E, seq<Byte>) -> (E, bool), data: nat -> seq<Byte>,
                                           readable: nat -> bool, engine: E, i: nat, k: nat, after: Node<E>)
    requires i <= k && after.applied == i
    requires match after.status
             case Running => i == k && after.engine == engine
             case Aborted => i < k && !readable(i) && after.engine == engine
             case Halted => i < k && readable(i) && add(engine, data(i)) == (after.engine, false)
    ensures Added(add, data, readable, engine, i, k, after)
  {
    assert Fold(add, engine, data, i, i) == (engine, true);
  }

  /** Where a node with these closures takes the data of an entry from. */
  function DataOf(closures: map<nat, seq<Byte>>, log: seq<seq<Byte>>): nat -> seq<Byte> {
    (i: nat) => if i in closures then closures[i] else if i < |log| then Parse(log[i]).data else []
  }

  /** Whether it can read the request of an entry, if it has to. */
  function ReadableBy<E, D>(m: Machine<E, D>, closures: map<nat, seq<Byte>>, log: seq<seq<Byte>>): nat -> bool {
    (i: nat) => i in closures || (i < |log| && m.parsesAsRequest(Parse(log[i]).request))
  }

  ghost predicate Batch<E, D>(m: Machine<E, D>, node: Node<E>, log: seq<seq<Byte>>, k: nat, after: Node<E>)
    requires node.applied <= k <= |log|
  {
    && after.term == node.term && after.closures == node.closures
    && Added(Adding(m), DataOf(node.closures, log), ReadableBy(m, node.closures, log),
             node.engine, node.applied, k, after)
  }

  /** One entry, in these terms. */
  lemma {:induction false} ApplyNextIs<E, D>(m: Machine<E, D>, node: Node<E>, log: seq<seq<Byte>>)
    requires node.status == Running && node.applied < |log|
    ensures var next, data := ApplyNext(m, node, log), DataOf(node.closures, log)(node.applied);
            && next.term == node.term && next.closures == node.closures
            && match next.status
               case Aborted => next == node.(status := Aborted) && !ReadableBy(m, node.closures, log)(node.applied)
               case Running =>
                 && ReadableBy(m, node.closures, log)(node.applied) && next.applied == node.applied + 1
                 && Adding(m)(node.engine, data) == (next.engine, true)
               case Halted =>
                 && ReadableBy(m, node.closures, log)(node.applied) && next.applied == node.applied
                 && Adding(m)(node.engine, data) == (next.engine, false)
  {
  }

  /** The first entry is added, and the batch goes on from there. */
  lemma {:induction false} BatchMore<E, D>(m: Machine<E, D>, node: Node<E>, log: seq<seq<Byte>>, k: nat,
                                           next: Node<E>, after: Node<E>)
    requires node.applied < k <= |log| && next.applied == node.applied + 1
    requires next.term == node.term && next.closures == node.closures
    requires ReadableBy(m, node.closures, log)(node.applied)
    requires Adding(m)(node.engine, DataOf(node.closures, log)(node.applied)) == (next.engine, true)
    requires Batch(m, next, log, k, after)
    ensures Batch(m, node, log, k, after)
  {
    AddedMore(Adding(m), DataOf(node.closures, log), ReadableBy(m, node.closures, log), node.engine, next.engine,
              node.applied, k, after);
  }

  /** The first entry ends the batch. */
  lemma {:induction false} BatchStops<E, D>(m: Machine<E, D>, node: Node<E>, log: seq<seq<Byte>>, k: nat)
    requires node.status == Running && node.applied < k <= |log| && ApplyNext(m, node, log).status != Running
    ensures Batch(m, node, log, k, ApplyNext(m, node, log))
  {
    ApplyNextIs(m, node, log);
    AddedNothing(Adding(m), DataOf(node.closures, log), ReadableBy(m, node.closures, log), node.engine, node.applied, k,
                 ApplyNext(m, node, log));
  }

  lemma {:induction false} ApplyUpToBatch<E, D>(m: Machine<E, D>, node: Node<E>, log: seq<seq<Byte>>, k: nat)
    requires node.status == Running && node.applied <= k <= |log|
    ensures Batch(m, node, log, k, ApplyUpTo(m, node, log, k))
    decreases k - node.applied
  {
    if node.applied == k {
      AddedNothing(Adding(m), DataOf(node.closures, log), ReadableBy(m, node.closures, log), node.engine, k, k, node);
    } else if ApplyNext(m, node, log).status == Running {
      var next := ApplyNext(m, node, log);
      ApplyNextIs(m, node, log);
      ApplyUpToBatch(m, next, log, k);
      BatchMore(m, node, log, k, next, ApplyUpTo(m, next, log, k));
    } else {
      BatchStops(m, node, log, k);
    }
  }

  /** The replica as an object, its apply loop as written. */
  class Block<E, D> {
    const machine: Machine<E, D>
    var leaderTerm: int
    var engine: E
    var applied: nat
    var status: Status
    var closures: map<nat, seq<Byte>>

    constructor (machine: Machine<E, D>)
      ensures this.machine == machine && State() == Fresh(machine)
    {
      this.machine := machine;
      leaderTerm, engine, applied, status, closures := -1, machine.init, 0, Running, map[];
    }

    function State(): Node<E>
      reads this
    {
      Node(leaderTerm, engine, applied, status, closures)
    }

    /** The frame proposed to the group, or nothing when this node redirects or cannot serialize the request. */
    method Write(request: seq<Byte>, data: seq<Byte>) returns (task: Option<seq<Byte>>)
      ensures task == Proposal(machine, State(), request, data)
      ensures task.Some? && machine.maxRequest < MAX_FRAMED ==> Parse(task.value) == Parts(request, data)
    {
      if leaderTerm < 0 {
        return None;
      }
      var log := BigEndian(|request|, 4);
      if |request| > machine.maxRequest {
        return None;
      }
      log := log + request;
      log := log + data;
      FrameRoundTripIff(request, data);
      return Some(log);
    }

    /** Applies the committed entries below k, stopping at the first that fails. */
    method OnApply(log: seq<seq<Byte>>, k: nat)
      requires k <= |log| && status == Running
      modifies this
      ensures State() == ApplyUpTo(machine, old(State()), log, k)
      ensures old(applied) <= k ==> Batch(machine, old(State()), log, k, State())
    {
      if applied <= k {
        ApplyUpToBatch(machine, State(), log, k);
      }
      while applied < k
        invariant status == Running && leaderTerm == old(leaderTerm) && closures == old(closures)
        invariant ApplyUpTo(machine, State(), log, k) == ApplyUpTo(machine, old(State()), log, k)
      {
        ghost var before := State();
        var data: seq<Byte>;
        if applied in closures {
          data := closures[applied];
        } else {
          var parts := Parse(log[applied]);
          if !machine.parsesAsRequest(parts.request) {
            status := Aborted;
            return;
          }
          data := parts.data;
        }
        match machine.parseDoc(data) {
          case None =>
            status := Halted;
            return;
          case Some(doc) =>
            var (engine', ok) := machine.add(engine, doc);
            engine := engine';
            if !ok {
              status := Halted;
              return;
            }
        }
        applied := applied + 1;
        assert State() == ApplyNext(machine, before, log);
      }
    }
  }

  // ---- the group ----

  datatype Group<E> = Group(
    log: seq<seq<Byte>>,               // the committed entries
    nodes: seq<Node<E>>,
    acked: set<nat>                    // entries whose client was told of success
  )

  datatype Step =
    | LeaderStart(n: nat, term: int)
    | LeaderStop(n: nat)
    | Write(n: nat, request: seq<Byte>, data: seq<Byte>, committed: bool)
    | Apply(n: nat, k: nat)
    | Forget(n: nat, i: nat)
    | Restart(n: nat)

  function Fresh<E, D>(m: Machine<E, D>): Node<E> {
    Node(-1, m.init, 0, Running, map[])
  }

  function Init<E, D>(m: Machine<E, D>, size: nat): Group<E> {
    Group([], seq(size, _ => Fresh(m)), {})
  }

  function Proposal<E, D>(m: Machine<E, D>, node: Node<E>, request: seq<Byte>, data: seq<Byte>): Option<seq<Byte>> {
    if node.term < 0 || |request| > m.maxRequest then None else Some(Frame(request, data))
  }

  /** The entries acknowledged while a node went from one state to another. */
  function AckedBy<E>(node: Node<E>, after: Node<E>): set<nat> {
    set i | i in node.closures && node.applied <= i < after.applied
  }

  /**
   One event. Any node may propose whenever it believes it leads; a proposal may be lost; a node
   may lose its closure, as a leader does that steps down, and later apply the entry from its frame; a
   restart forgets everything but the log. A request on the wire is one that parses.
   */
  function Next<E, D>(m: Machine<E, D>, s: Group<E>, step: Step): Option<Group<E>> {
    if step.n >= |s.nodes| then None
    else
      var node := s.nodes[step.n];
      match step
      case LeaderStart(n, term) => Some(s.(nodes := s.nodes[n := node.(term := term)]))
      case LeaderStop(n) => Some(s.(nodes := s.nodes[n := node.(term := -1)]))
      case Write(n, request, data, committed) =>
        var task := Proposal(m, node, request, data);
        if !m.parsesAsRequest(request) then None
        else if task.None? || !committed then Some(s)
        else Some(s.(log := s.log + [task.value],
                     nodes := s.nodes[n := node.(closures := node.closures[|s.log| := data])]))
      case Apply(n, k) =>
        if k > |s.log| then None
        else
          var after := ApplyUpTo(m, node, s.log, k);
          Some(s.(nodes := s.nodes[n := after], acked := s.acked + AckedBy(node, after)))
      case Forget(n, i) => Some(s.(nodes := s.nodes[n := node.(closures := node.closures - {i})]))
      case Restart(n) => Some(s.(nodes := s.nodes[n := Fresh(m)]))
  }

  ghost predicate Run<E(!new), D>(m: Machine<E, D>, s: Group<E>, steps: seq<Step>, end: Group<E>)
    decreases |steps|
  {
    if steps == [] then s == end
    else
      var next := Next(m, s, steps[0]);
      next.Some? && Run(m, next.value, steps[1..], end)
  }

  // ---- agreement ----

  function Parsed(log: seq<seq<Byte>>): nat -> seq<Byte> {
    (i: nat) => if i < |log| then Parse(log[i]).data else []
  }

  /** The engine after the first k entries, each parsed from the log, and whether all of them succeeded. */
  function After<E, D>(m: Machine<E, D>, log: seq<seq<Byte>>, k: nat): (E, bool)
    requires k <= |log|
  {
    Fold(Adding(m), m.init, Parsed(log), 0, k)
  }

  /** One more entry. */
  lemma {:induction false} AfterNext<E, D>(m: Machine<E, D>, log: seq<seq<Byte>>, k: nat)
    requires k < |log|
    ensures var (engine, ok) := After(m, log, k);
            After(m, log, k + 1) == if ok then AddData(m, engine, Parse(log[k]).data) else (engine, false)
  {
  }

  /** A node is where replaying the log takes it. */
  ghost predicate InStep<E, D>(m: Machine<E, D>, log: seq<seq<Byte>>, node: Node<E>) {
    && node.applied <= |log|
    && (match node.status
        case Running => After(m, log, node.applied) == (node.engine, true)
        case Halted => node.applied < |log| && After(m, log, node.applied + 1) == (node.engine, false)
                       && After(m, log, node.applied).1
        case Aborted => false)
    && (forall i | i in node.closures :: i < |log| && node.closures[i] == Parse(log[i]).data)
  }

  ghost predicate Readable<E, D>(m: Machine<E, D>, log: seq<seq<Byte>>) {
    forall i | 0 <= i < |log| :: m.parsesAsRequest(Parse(log[i]).request)
  }

  ghost predicate Inv<E, D>(m: Machine<E, D>, s: Group<E>) {
    && Readable(m, s.log)
    && (forall n | 0 <= n < |s.nodes| :: InStep(m, s.log, s.nodes[n]))
    && (forall i | i in s.acked :: i < |s.log| && After(m, s.log, i + 1).1)
  }

  lemma {:induction false} AfterMore<E, D>(m: Machine<E, D>, log: seq<seq<Byte>>, entry: seq<Byte>, k: nat)
    requires k <= |log|
    ensures After(m, log + [entry], k) == After(m, log, k)
  {
    assert forall j: nat | j < k :: (log + [entry])[j] == log[j];
    FoldSame(Adding(m), m.init, Parsed(log + [entry]), Parsed(log), 0, k);
  }

  /** Success up to k means success up to every earlier entry. */
  lemma {:induction false} AfterDown<E, D>(m: Machine<E, D>, log: seq<seq<Byte>>, j: nat, k: nat)
    requires j <= k <= |log| && After(m, log, k).1
    ensures After(m, log, j).1
  {
    FoldDown(Adding(m), m.init, Parsed(log), 0, j, k);
  }

  lemma {:induction false} InStepMore<E, D>(m: Machine<E, D>, log: seq<seq<Byte>>, entry: seq<Byte>, node: Node<E>)
    requires InStep(m, log, node)
    ensures InStep(m, log + [entry], node)
  {
    AfterMore(m, log, entry, node.applied);
    if node.status == Halted {
      AfterMore(m, log, entry, node.applied + 1);
    }
  }

  /** Applying one entry, from the closure or from the frame, is one step of replaying the log. */
  lemma {:induction false} ApplyNextInStep<E, D>(m: Machine<E, D>, log: seq<seq<Byte>>, node: Node<E>)
    requires InStep(m, log, node) && Readable(m, log) && node.status == Running && node.applied < |log|
    ensures InStep(m, log, ApplyNext(m, node, log))
  {
    assert DataFor(node, log) == Parse(log[node.applied]).data;
    AfterNext(m, log, node.applied);
  }

  lemma {:induction false} ApplyUpToInStep<E, D>(m: Machine<E, D>, log: seq<seq<Byte>>, node: Node<E>, k: nat)
    requires InStep(m, log, node) && Readable(m, log) && k <= |log|
    ensures InStep(m, log, ApplyUpTo(m, node, log, k))
    ensures ApplyUpTo(m, node, log, k).applied >= node.applied
    decreases k - node.applied
  {
    if node.applied < k && node.status == Running {
      ApplyNextInStep(m, log, node);
      var next := ApplyNext(m, node, log);
      if next.status == Running {
        ApplyUpToInStep(m, log, next, k);
      }
    }
  }

  /** The node that proposed an entry keeps its data in a closure, which is the data of the frame. */
  lemma {:induction false} ProposerInStep<E, D>(m: Machine<E, D>, log: seq<seq<Byte>>, entry: seq<Byte>,
                                                node: Node<E>, data: seq<Byte>)
    requires InStep(m, log, node) && Parse(entry).data == data
    ensures InStep(m, log + [entry], node.(closures := node.closures[|log| := data]))
  {
    InStepMore(m, log, entry, node);
  }

  lemma {:induction false} AckedMore<E, D>(m: Machine<E, D>, s: Group<E>, entry: seq<Byte>)
    requires Inv(m, s)
    ensures forall i | i in s.acked :: i < |s.log| + 1 && After(m, s.log + [entry], i + 1).1
  {
    forall i | i in s.acked
      ensures After(m, s.log + [entry], i + 1).1
    {
      AfterMore(m, s.log, entry, i + 1);
    }
  }

  lemma {:induction false} WriteInv<E, D>(m: Machine<E, D>, s: Group<E>, step: Step, s': Group<E>)
    requires m.maxRequest < MAX_FRAMED && Inv(m, s) && step.Write? && Next(m, s, step) == Some(s')
    ensures Inv(m, s')
  {
    if s' != s {
      var entry := Frame(step.request, step.data);
      FrameRoundTripIff(step.request, step.data);
      assert s'.log == s.log + [entry];
      AckedMore(m, s, entry);
      forall n | 0 <= n < |s'.nodes|
        ensures InStep(m, s'.log, s'.nodes[n])
      {
        if n == step.n {
          ProposerInStep(m, s.log, entry, s.nodes[n], step.data);
        } else {
          InStepMore(m, s.log, entry, s.nodes[n]);
        }
      }
    }
  }

  /** The entries acknowledged by a batch were applied with success. */
  lemma {:induction false} AckedApplied<E, D>(m: Machine<E, D>, log: seq<seq<Byte>>,
                                              node: Node<E>, after: Node<E>, i: nat)
    requires InStep(m, log, after) && i in AckedBy(node, after)
    ensures i < |log| && After(m, log, i + 1).1
  {
    AfterDown(m, log, i + 1, after.applied);
  }

  lemma {:induction false} ApplyInv<E, D>(m: Machine<E, D>, s: Group<E>, step: Step, s': Group<E>)
    requires Inv(m, s) && step.Apply? && Next(m, s, step) == Some(s')
    ensures Inv(m, s')
  {
    var node := s.nodes[step.n];
    ApplyUpToInStep(m, s.log, node, step.k);
    var after := ApplyUpTo(m, node, s.log, step.k);
    assert s'.nodes == s.nodes[step.n := after] && s'.log == s.log;
    forall i | i in s'.acked
      ensures i < |s.log| && After(m, s.log, i + 1).1
    {
      if i !in s.acked {
        AckedApplied(m, s.log, node, after, i);
      }
    }
  }

  lemma {:induction false} StepInv<E, D>(m: Machine<E, D>, s: Group<E>, step: Step, s': Group<E>)
    requires m.maxRequest < MAX_FRAMED && Inv(m, s) && Next(m, s, step) == Some(s')
    ensures Inv(m, s')
  {
    match step {
      case Write(_, _, _, _) => WriteInv(m, s, step, s');
      case Apply(_, _) => ApplyInv(m, s, step, s');
      case LeaderStart(_, _) =>
      case LeaderStop(_) =>
      case Forget(_, _) =>
      case Restart(_) =>
    }
  }

  lemma {:induction false} RunInv<E(!new), D>(m: Machine<E, D>, s: Group<E>, steps: seq<Step>, end: Group<E>)
    requires m.maxRequest < MAX_FRAMED && Inv(m, s) && Run(m, s, steps, end)
    ensures Inv(m, end)
    decreases |steps|
  {
    if steps != [] {
      var next := Next(m, s, steps[0]).value;
      StepInv(m, s, steps[0], next);
      RunInv(m, next, steps[1..], end);
    }
  }

  /** At the same point of the log two nodes look equal to a client; where one halted, the other goes no further. */
  ghost predicate AgreeOn<E>(x: Node<E>, y: Node<E>, acked: set<nat>) {
    && x.status != Aborted
    && (x.applied == y.applied && x.status == y.status ==> x.engine == y.engine)
    && (x.status == Halted ==> y.applied <= x.applied && x.applied !in acked)
  }

  ghost predicate Agree<E>(s: Group<E>) {
    forall a, b | 0 <= a < |s.nodes| && 0 <= b < |s.nodes| :: AgreeOn(s.nodes[a], s.nodes[b], s.acked)
  }

  /** Everything a node has applied succeeded. */
  lemma {:induction false} AppliedSucceeded<E, D>(m: Machine<E, D>, log: seq<seq<Byte>>, node: Node<E>)
    requires InStep(m, log, node)
    ensures node.applied <= |log| && After(m, log, node.applied).1
  {
  }

  /** No success reaches past an entry that fails. */
  lemma {:induction false} FailureBound<E, D>(m: Machine<E, D>, log: seq<seq<Byte>>, h: nat, k: nat)
    requires h < |log| && k <= |log| && !After(m, log, h + 1).1 && After(m, log, k).1
    ensures k <= h
  {
    if k > h {
      AfterDown(m, log, h + 1, k);
    }
  }

  lemma {:induction false} HaltedBound<E, D>(m: Machine<E, D>, log: seq<seq<Byte>>, x: Node<E>, y: Node<E>)
    requires InStep(m, log, x) && InStep(m, log, y) && x.status == Halted
    ensures y.applied <= x.applied < |log| && !After(m, log, x.applied + 1).1
  {
    AppliedSucceeded(m, log, y);
    FailureBound(m, log, x.applied, y.applied);
  }

  lemma {:induction false} SameEngine<E, D>(m: Machine<E, D>, log: seq<seq<Byte>>, x: Node<E>, y: Node<E>)
    requires InStep(m, log, x) && InStep(m, log, y) && x.applied == y.applied && x.status == y.status
    ensures x.engine == y.engine
  {
  }

  lemma {:induction false} FailedNotAcked<E, D>(m: Machine<E, D>, log: seq<seq<Byte>>, acked: set<nat>, h: nat)
    requires h < |log| && !After(m, log, h + 1).1
    requires forall i | i in acked :: i < |log| && After(m, log, i + 1).1
    ensures h !in acked
  {
  }

  lemma {:induction false} InStepAgree<E, D>(m: Machine<E, D>, log: seq<seq<Byte>>, acked: set<nat>,
                                             x: Node<E>, y: Node<E>)
    requires InStep(m, log, x) && InStep(m, log, y)
    requires forall i | i in acked :: i < |log| && After(m, log, i + 1).1
    ensures AgreeOn(x, y, acked)
  {
    if x.applied == y.applied && x.status == y.status {
      SameEngine(m, log, x, y);
    }
    if x.status == Halted {
      HaltedBound(m, log, x, y);
      FailedNotAcked(m, log, acked, x.applied);
    }
  }

  /**
   Over every run of leader changes, writes, lost proposals, batches and restarts: replicas that
   applied the same number of entries have equal engines, no replica passes an entry at which
   another one halted, and no acknowledged entry fails on any replica.
   */
  lemma {:induction false} ReplicasAgree<E(!new), D>(m: Machine<E, D>, size: nat, steps: seq<Step>, end: Group<E>)
    requires m.maxRequest < MAX_FRAMED && Run(m, Init(m, size), steps, end)
    ensures Agree(end)
  {
    RunInv(m, Init(m, size), steps, end);
    forall a, b | 0 <= a < |end.nodes| && 0 <= b < |end.nodes|
      ensures AgreeOn(end.nodes[a], end.nodes[b], end.acked)
    {
      InStepAgree(m, end.log, end.acked, end.nodes[a], end.nodes[b]);
    }
  }

  // ---- what the engines hold ----

  /** The step commits an entry: a node that leads proposes a request that serializes, and it is not lost. */
  predicate Commits<E, D>(m: Machine<E, D>, s: Group<E>, step: Step) {
    && step.Write? && step.committed && step.n < |s.nodes|
    && s.nodes[step.n].term >= 0 && |step.request| <= m.maxRequest
  }

  /** The data written by the committed writes of a run, in order. */
  function Committed<E, D>(m: Machine<E, D>, s: Group<E>, steps: seq<Step>): seq<seq<Byte>>
    decreases |steps|
  {
    if steps == [] then []
    else
      var next, rest := Next(m, s, steps[0]), steps[1..];
      if next.None? then []
      else (if Commits(m, s, steps[0]) then [steps[0].data] else []) + Committed(m, next.value, rest)
  }

  /** Every entry of the log is the frame of the data written for it. */
  ghost predicate Carries(log: seq<seq<Byte>>, datas: seq<seq<Byte>>) {
    |log| == |datas| && forall i | 0 <= i < |log| :: Parse(log[i]).data == datas[i]
  }

  lemma {:induction false} CarriesStep<E, D>(m: Machine<E, D>, s: Group<E>, step: Step, s': Group<E>,
                                             datas: seq<seq<Byte>>)
    requires m.maxRequest < MAX_FRAMED && Carries(s.log, datas) && Next(m, s, step) == Some(s')
    ensures Carries(s'.log, datas + (if Commits(m, s, step) then [step.data] else []))
  {
    if Commits(m, s, step) {
      FrameRoundTripIff(step.request, step.data);
    } else {
      assert datas + [] == datas;
    }
  }

  lemma Regroup(a: seq<seq<Byte>>, b: seq<seq<Byte>>, c: seq<seq<Byte>>)
    ensures a + (b + c) == a + b + c
  {
  }

  lemma {:induction false} CarriesRun<E(!new), D>(m: Machine<E, D>, s: Group<E>, steps: seq<Step>, end: Group<E>,
                                                  datas: seq<seq<Byte>>)
    requires m.maxRequest < MAX_FRAMED && Carries(s.log, datas) && Run(m, s, steps, end)
    ensures Carries(end.log, datas + Committed(m, s, steps))
    decreases |steps|
  {
    if steps == [] {
      assert datas + [] == datas;
    } else {
      var next, now := Next(m, s, steps[0]).value, if Commits(m, s, steps[0]) then [steps[0].data] else [];
      CarriesStep(m, s, steps[0], next, datas);
      CarriesRun(m, next, steps[1..], end, datas + now);
      Regroup(datas, now, Committed(m, next, steps[1..]));
    }
  }

  function Entry(datas: seq<seq<Byte>>): nat -> seq<Byte> {
    (i: nat) => if i < |datas| then datas[i] else []
  }

  /** Replaying the log is adding what was written. */
  lemma {:induction false} AfterIsWritten<E, D>(m: Machine<E, D>, log: seq<seq<Byte>>, datas: seq<seq<Byte>>, k: nat)
    requires Carries(log, datas) && k <= |log|
    ensures After(m, log, k) == Fold(Adding(m), m.init, Entry(datas), 0, k)
  {
    FoldSame(Adding(m), m.init, Parsed(log), Entry(datas), 0, k);
  }

  /** The node has added what was written first, in order, to an empty engine, and halted only at a failure. */
  ghost predicate HoldsWritten<E, D>(m: Machine<E, D>, datas: seq<seq<Byte>>, node: Node<E>) {
    && node.applied <= |datas|
    && match node.status
       case Running => Fold(Adding(m), m.init, Entry(datas), 0, node.applied) == (node.engine, true)
       case Halted =>
         && node.applied < |datas| && Fold(Adding(m), m.init, Entry(datas), 0, node.applied).1
         && Fold(Adding(m), m.init, Entry(datas), 0, node.applied + 1) == (node.engine, false)
       case Aborted => false
  }

  lemma {:induction false} RunningHolds<E, D>(m: Machine<E, D>, log: seq<seq<Byte>>, datas: seq<seq<Byte>>,
                                              node: Node<E>)
    requires Carries(log, datas) && node.applied <= |log| && node.status == Running
    requires After(m, log, node.applied) == (node.engine, true)
    ensures HoldsWritten(m, datas, node)
  {
    AfterIsWritten(m, log, datas, node.applied);
  }

  lemma {:induction false} HaltedHolds<E, D>(m: Machine<E, D>, log: seq<seq<Byte>>, datas: seq<seq<Byte>>,
                                             node: Node<E>)
    requires Carries(log, datas) && node.applied < |log| && node.status == Halted
    requires After(m, log, node.applied).1 && After(m, log, node.applied + 1) == (node.engine, false)
    ensures HoldsWritten(m, datas, node)
  {
    AfterIsWritten(m, log, datas, node.applied);
    AfterIsWritten(m, log, datas, node.applied + 1);
  }

  lemma {:induction false} InStepHolds<E, D>(m: Machine<E, D>, log: seq<seq<Byte>>, datas: seq<seq<Byte>>,
                                             node: Node<E>)
    requires Carries(log, datas) && InStep(m, log, node)
    ensures HoldsWritten(m, datas, node)
  {
    if node.status == Running {
      RunningHolds(m, log, datas, node);
    } else {
      HaltedHolds(m, log, datas, node);
    }
  }

  /**
   Over every run: a running node holds exactly the documents of the first writes committed, as many as it
   has applied, each added in order; a halted node stopped at the first write that is no document or fails.
   */
  lemma {:induction false} EnginesHoldWrites<E(!new), D>(m: Machine<E, D>, size: nat, steps: seq<Step>, end: Group<E>)
    requires m.maxRequest < MAX_FRAMED && Run(m, Init(m, size), steps, end)
    ensures forall n | 0 <= n < |end.nodes| :: HoldsWritten(m, Committed(m, Init(m, size), steps), end.nodes[n])
    ensures |end.log| == |Committed(m, Init(m, size), steps)|
  {
    var datas := Committed(m, Init(m, size), steps);
    RunInv(m, Init(m, size), steps, end);
    CarriesRun(m, Init(m, size), steps, end, []);
    assert [] + datas == datas;
    forall n | 0 <= n < |end.nodes|
      ensures HoldsWritten(m, datas, end.nodes[n])
    {
      InStepHolds(m, end.log, datas, end.nodes[n]);
    }
  }

  // ---- the bound on requests is needed ----

  /** An engine that remembers the data applied to it. */
  function Recorder(maxRequest: nat): Machine<seq<seq<Byte>>, seq<Byte>> {
    Machine([], _ => true, data => Some(data), (engine, data) => (engine + [data], true), maxRequest)
  }

  ghost predicate AlwaysAgree(maxRequest: nat) {
    forall size: nat, steps: seq<Step>, end: Group<seq<seq<Byte>>> |
      Run(Recorder(maxRequest), Init(Recorder(maxRequest), size), steps, end) :: Agree(end)
  }

  function Oversize(maxRequest: nat, request: seq<Byte>, i: nat): Group<seq<seq<Byte>>> {
    var idle := Fresh(Recorder(maxRequest));
    var leader := idle.(term := 1);
    var proposer := leader.(closures := map[0 := []]);
    var log := [Frame(request, [])];
    var done := proposer.(engine := [[]], applied := 1);
    var other := idle.(engine := [Parse(log[0]).data], applied := 1);
    if i == 0 then Group([], [idle, idle], {})
    else if i == 1 then Group([], [leader, idle], {})
    else if i == 2 then Group(log, [proposer, idle], {})
    else if i == 3 then Group(log, [done, idle], {0})
    else Group(log, [done, other], {0})
  }

  function OversizeStep(request: seq<Byte>, i: nat): Step {
    if i == 0 then LeaderStart(0, 1)
    else if i == 1 then Write(0, request, [], true)
    else if i == 2 then Apply(0, 1)
    else Apply(1, 1)
  }

  lemma OversizeNext(maxRequest: nat, request: seq<Byte>, i: nat)
    requires |request| <= maxRequest && i < 4
    ensures Next(Recorder(maxRequest), Oversize(maxRequest, request, i), OversizeStep(request, i))
              == Some(Oversize(maxRequest, request, i + 1))
  {
    var m, s, next := Recorder(maxRequest), Oversize(maxRequest, request, i), Oversize(maxRequest, request, i + 1);
    var n := OversizeStep(request, i).n;
    assert next.nodes == s.nodes[n := next.nodes[n]];
    if i >= 2 {
      assert DataFor(s.nodes[n], s.log) == if i == 2 then [] else Parse(s.log[0]).data;
      assert [] + [DataFor(s.nodes[n], s.log)] == next.nodes[n].engine;
      assert ApplyNext(m, s.nodes[n], s.log) == next.nodes[n];
      assert ApplyUpTo(m, next.nodes[n], s.log, 1) == next.nodes[n];
      assert AckedBy(s.nodes[n], next.nodes[n]) == if i == 2 then {0} else {};
      assert s.acked + AckedBy(s.nodes[n], next.nodes[n]) == next.acked;
    } else if i == 1 {
      assert s.nodes[0].closures[0 := []] == next.nodes[0].closures;
      assert s.log + next.log == next.log;
    }
  }

  lemma {:induction false} OversizeRun(maxRequest: nat, request: seq<Byte>, i: nat) returns (steps: seq<Step>)
    requires |request| <= maxRequest && i <= 4
    ensures Run(Recorder(maxRequest), Oversize(maxRequest, request, i), steps, Oversize(maxRequest, request, 4))
    decreases 4 - i
  {
    steps := [];
    if i < 4 {
      OversizeNext(maxRequest, request, i);
      var rest := OversizeRun(maxRequest, request, i + 1);
      steps := [OversizeStep(request, i)] + rest;
      assert steps[1..] == rest;
    }
  }

  /** Replicas always agree exactly when no request of 2^32 bytes or more can be framed. */
  lemma AlwaysAgreeIff(maxRequest: nat)
    ensures AlwaysAgree(maxRequest) <==> maxRequest < MAX_FRAMED
  {
    var m := Recorder(maxRequest);
    if maxRequest < MAX_FRAMED {
      forall size: nat, steps: seq<Step>, end: Group<seq<seq<Byte>>> | Run(m, Init(m, size), steps, end)
        ensures Agree(end)
      {
        ReplicasAgree(m, size, steps, end);
      }
    } else {
      var request := seq(MAX_FRAMED, _ => 0);
      var steps := OversizeRun(maxRequest, request, 0);
      var end := Oversize(maxRequest, request, 4);
      assert Init(m, 2) == Oversize(maxRequest, request, 0);
      FrameRoundTripIff(request, []);
      assert end.nodes[0].engine[0] != end.nodes[1].engine[0];
      assert !AgreeOn(end.nodes[0], end.nodes[1], end.acked);
      assert Run(m, Init(m, 2), steps, end);
    }
  }
}
