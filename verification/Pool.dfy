/**
 The bounded worker pool that runs one call per list element and returns the
 outcomes in list order: the main goroutine and its workers as interleaved steps
 over a buffered channel of indices.
 */
module Pool {
  import opened Wrappers

  /** One use of the pool: the arguments of the calls to make, and what fills slices before they are made. */
  datatype Job<T, R, E> = Job(args: seq<T>, limit: int, zeroR: R, zeroE: E)

  datatype Worker<R, E> =
    | Ready
    | Running(i: nat)
    | Called(i: nat, res: R, err: E)
    | Wrote(i: nat, err: E)
    | Exited

  datatype State<R, E> = State(
    workers: seq<Worker<R, E>>,  // started so far
    sent: nat,                   // indices sent so far
    closed: bool,
    queue: seq<nat>,             // the channel buffer
    results: seq<R>,
    errors: seq<E>,
    calls: seq<nat>,             // indices whose call was made, in order
    outcomes: map<nat, (R, E)>,  // what the call for each of them came back with
    returned: bool
  )

  /** What a call comes back with is a choice of its step. */
  datatype Step<R, E> =
    | Start
    | SendIndex
    | CloseChannel
    | Finish
    | Take(k: nat)
    | Call(k: nat, res: R, err: E)
    | WriteResult(k: nat)
    | WriteError(k: nat)
    | Quit(k: nat)

  function Count<T, R, E>(job: Job<T, R, E>): nat {
    |job.args|
  }

  /** The number of workers started: the limit, but no more than the tasks. */
  function WorkerCount<T, R, E>(job: Job<T, R, E>): nat {
    if job.limit <= 0 then 0 else if job.limit < |job.args| then job.limit else |job.args|
  }

  function Init<T, R, E>(job: Job<T, R, E>): State<R, E> {
    var n := Count(job);
    State([], 0, false, [], seq(n, _ => job.zeroR), seq(n, _ => job.zeroE), [], map[], n == 0)
  }

  function MainStep<T, R, E>(job: Job<T, R, E>, s: State<R, E>, step: Step<R, E>): Option<State<R, E>>
    requires step.Start? || step.SendIndex? || step.CloseChannel? || step.Finish?
  {
    var n, w := Count(job), WorkerCount(job);
    match step
    case Start =>
      if |s.workers| >= w || s.returned then None else Some(s.(workers := s.workers + [Ready]))
    case SendIndex =>
      if |s.workers| < w || s.sent >= n || |s.queue| >= n then None
      else Some(s.(sent := s.sent + 1, queue := s.queue + [s.sent]))
    case CloseChannel =>
      if |s.workers| < w || s.sent < n || s.closed then None else Some(s.(closed := true))
    case Finish =>
      if !s.closed || s.returned || exists k | 0 <= k < |s.workers| :: !s.workers[k].Exited? then None
      else Some(s.(returned := true))
  }

  function WorkerStep<T, R, E>(job: Job<T, R, E>, s: State<R, E>, step: Step<R, E>): Option<State<R, E>>
    requires step.Take? || step.Call? || step.WriteResult? || step.WriteError? || step.Quit?
  {
    if step.k >= |s.workers| then None
    else
      var worker := s.workers[step.k];
      match step
      case Take(k) =>
        if !worker.Ready? || s.queue == [] then None
        else Some(s.(queue := s.queue[1..], workers := s.workers[k := Running(s.queue[0])]))
      case Quit(k) =>
        if !worker.Ready? || s.queue != [] || !s.closed then None else Some(s.(workers := s.workers[k := Exited]))
      case Call(k, res, err) =>
        if !worker.Running? || worker.i >= Count(job) then None
        else Some(s.(workers := s.workers[k := Called(worker.i, res, err)], calls := s.calls + [worker.i],
                     outcomes := s.outcomes[worker.i := (res, err)]))
      case WriteResult(k) =>
        if !worker.Called? || worker.i >= |s.results| then None
        else Some(s.(workers := s.workers[k := Wrote(worker.i, worker.err)],
                     results := s.results[worker.i := worker.res]))
      case WriteError(k) =>
        if !worker.Wrote? || worker.i >= |s.errors| then None
        else Some(s.(workers := s.workers[k := Ready], errors := s.errors[worker.i := worker.err]))
  }

  function Apply<T, R, E>(job: Job<T, R, E>, s: State<R, E>, step: Step<R, E>): Option<State<R, E>> {
    match step
    case Start => MainStep(job, s, step)
    case SendIndex => MainStep(job, s, step)
    case CloseChannel => MainStep(job, s, step)
    case Finish => MainStep(job, s, step)
    case _ => WorkerStep(job, s, step)
  }

  function Run<T, R, E>(job: Job<T, R, E>, s: State<R, E>, steps: seq<Step<R, E>>): Option<State<R, E>>
    decreases |steps|
  {
    if steps == [] then Some(s)
    else
      var next := Apply(job, s, steps[0]);
      if next.None? then None else Run(job, next.value, steps[1..])
  }

  // ---- the invariant ----

  predicate Holds<R, E>(worker: Worker<R, E>, i: nat) {
    (worker.Running? || worker.Called? || worker.Wrote?) && worker.i == i
  }

  predicate Taken<R, E>(s: State<R, E>, i: nat) {
    i < s.sent - |s.queue|
  }

  /** The buffer holds the indices sent and not yet taken, in order. */
  ghost predicate Fifo<T, R, E>(job: Job<T, R, E>, s: State<R, E>) {
    && |s.queue| <= s.sent <= Count(job)
    && (forall j | 0 <= j < |s.queue| :: s.queue[j] == s.sent - |s.queue| + j)
    && (s.closed ==> s.sent == Count(job))
    && (s.sent > 0 || s.closed ==> |s.workers| == WorkerCount(job))
    && |s.workers| <= WorkerCount(job)
  }

  /** What a worker knows of the index it holds. */
  ghost predicate WorkerOk<T, R, E>(job: Job<T, R, E>, s: State<R, E>, worker: Worker<R, E>) {
    match worker
    case Ready => true
    case Exited => s.closed && s.queue == []
    case Running(i) => Taken(s, i) && i !in s.calls
    case Called(i, res, err) => Taken(s, i) && i < Count(job) && i in s.outcomes && (res, err) == s.outcomes[i]
    case Wrote(i, err) =>
      Taken(s, i) && i < Count(job) && i in s.outcomes && i < |s.results| && (s.results[i], err) == s.outcomes[i]
  }

  /** Index i was called once and its outcome is in its place. */
  ghost predicate Stored<T, R, E>(job: Job<T, R, E>, s: State<R, E>, i: nat) {
    && i < Count(job) && i < |s.results| && i < |s.errors|
    && i in s.outcomes && (s.results[i], s.errors[i]) == s.outcomes[i]
  }

  ghost predicate Inv<T, R, E>(job: Job<T, R, E>, s: State<R, E>) {
    && |s.results| == |s.errors| == Count(job)
    && Fifo(job, s)
    && (forall k | 0 <= k < |s.workers| :: WorkerOk(job, s, s.workers[k]))
    && (forall k, j, i | 0 <= k < j < |s.workers| && Holds(s.workers[k], i) :: !Holds(s.workers[j], i))
    && (forall i: nat | Taken(s, i) && !Stored(job, s, i) :: exists k | 0 <= k < |s.workers| :: Holds(s.workers[k], i))
    && (forall i | i in s.calls :: Taken(s, i))
    && (forall i :: i in s.outcomes <==> i in s.calls)
    && (forall a, b | 0 <= a < b < |s.calls| :: s.calls[a] != s.calls[b])
    && (s.returned && Count(job) > 0 ==> s.closed && forall k | 0 <= k < |s.workers| :: s.workers[k].Exited?)
  }

  lemma InitInv<T, R, E>(job: Job<T, R, E>)
    ensures Inv(job, Init(job))
  {
  }

  /** Indices that are taken and not stored keep their worker. */
  lemma KeptHolders<T, R, E>(job: Job<T, R, E>, s: State<R, E>, s': State<R, E>)
    requires forall i: nat | Taken(s, i) && !Stored(job, s, i) ::
               exists k | 0 <= k < |s.workers| :: Holds(s.workers[k], i)
    requires forall i: nat | Taken(s', i) && !Stored(job, s', i) :: Taken(s, i) && !Stored(job, s, i)
    requires |s.workers| <= |s'.workers|
    requires forall k, i: nat | 0 <= k < |s.workers| && Holds(s.workers[k], i) && !Stored(job, s', i) ::
               Holds(s'.workers[k], i)
    ensures forall i: nat | Taken(s', i) && !Stored(job, s', i) ::
              exists k | 0 <= k < |s'.workers| :: Holds(s'.workers[k], i)
  {
    forall i: nat | Taken(s', i) && !Stored(job, s', i)
      ensures exists k | 0 <= k < |s'.workers| :: Holds(s'.workers[k], i)
    {
      var k :| 0 <= k < |s.workers| && Holds(s.workers[k], i);
      assert Holds(s'.workers[k], i);
    }
  }

  lemma MainStepInv<T, R, E>(job: Job<T, R, E>, s: State<R, E>, step: Step<R, E>, s': State<R, E>)
    requires step.Start? || step.SendIndex? || step.CloseChannel? || step.Finish?
    requires Inv(job, s) && MainStep(job, s, step) == Some(s')
    ensures Inv(job, s')
  {
    assert forall i: nat :: Stored(job, s', i) <==> Stored(job, s, i);
    assert forall k | 0 <= k < |s.workers| ::
        s'.workers[k] == s.workers[k] && (WorkerOk(job, s, s.workers[k]) ==> WorkerOk(job, s', s'.workers[k]));
    KeptHolders(job, s, s');
  }

  /** Taking the next index: no other worker has it, since they only have earlier ones. */
  lemma TakeInv<T, R, E>(job: Job<T, R, E>, s: State<R, E>, step: Step<R, E>, s': State<R, E>)
    requires step.Take?
    requires Inv(job, s) && WorkerStep(job, s, step) == Some(s')
    ensures Inv(job, s')
  {
    var k := step.k;
    assert WorkerOk(job, s, s.workers[k]);
    forall j | 0 <= j < |s'.workers|
      ensures WorkerOk(job, s', s'.workers[j])
    {
      assert WorkerOk(job, s, s.workers[j]);
    }
    forall i: nat | Taken(s', i) && !Stored(job, s', i)
      ensures exists j | 0 <= j < |s'.workers| :: Holds(s'.workers[j], i)
    {
      if Taken(s, i) {
        assert !Stored(job, s, i);
        var j :| 0 <= j < |s.workers| && Holds(s.workers[j], i);
        assert Holds(s'.workers[j], i);
      } else {
        assert Holds(s'.workers[k], i);
      }
    }
  }

  /** The index of a call was not called before. */
  lemma CallInv<T, R, E>(job: Job<T, R, E>, s: State<R, E>, step: Step<R, E>, s': State<R, E>)
    requires step.Call?
    requires Inv(job, s) && WorkerStep(job, s, step) == Some(s')
    ensures Inv(job, s')
  {
    var k := step.k;
    assert WorkerOk(job, s, s.workers[k]);
    forall j | 0 <= j < |s'.workers|
      ensures WorkerOk(job, s', s'.workers[j])
    {
      assert WorkerOk(job, s, s.workers[j]);
    }
    KeptHolders(job, s, s');
  }

  lemma QuitInv<T, R, E>(job: Job<T, R, E>, s: State<R, E>, step: Step<R, E>, s': State<R, E>)
    requires step.Quit?
    requires Inv(job, s) && WorkerStep(job, s, step) == Some(s')
    ensures Inv(job, s')
  {
    var k := step.k;
    assert WorkerOk(job, s, s.workers[k]);
    forall j | 0 <= j < |s'.workers|
      ensures WorkerOk(job, s', s'.workers[j])
    {
      assert WorkerOk(job, s, s.workers[j]);
    }
    KeptHolders(job, s, s');
  }

  /** A write goes to the place of the index that only this worker holds. */
  lemma WriteResultInv<T, R, E>(job: Job<T, R, E>, s: State<R, E>, step: Step<R, E>, s': State<R, E>)
    requires step.WriteResult?
    requires Inv(job, s) && WorkerStep(job, s, step) == Some(s')
    ensures Inv(job, s')
  {
    var k := step.k;
    assert WorkerOk(job, s, s.workers[k]);
    forall j | 0 <= j < |s'.workers|
      ensures WorkerOk(job, s', s'.workers[j])
    {
      assert WorkerOk(job, s, s.workers[j]);
    }
    KeptHolders(job, s, s');
  }

  lemma WriteErrorInv<T, R, E>(job: Job<T, R, E>, s: State<R, E>, step: Step<R, E>, s': State<R, E>)
    requires step.WriteError?
    requires Inv(job, s) && WorkerStep(job, s, step) == Some(s')
    ensures Inv(job, s')
  {
    var k := step.k;
    assert WorkerOk(job, s, s.workers[k]);
    forall j | 0 <= j < |s'.workers|
      ensures WorkerOk(job, s', s'.workers[j])
    {
      assert WorkerOk(job, s, s.workers[j]);
    }
    KeptHolders(job, s, s');
  }

  lemma StepInv<T, R, E>(job: Job<T, R, E>, s: State<R, E>, step: Step<R, E>, s': State<R, E>)
    requires Inv(job, s) && Apply(job, s, step) == Some(s')
    ensures Inv(job, s')
  {
    if step.Start? || step.SendIndex? || step.CloseChannel? || step.Finish? {
      MainStepInv(job, s, step, s');
    } else if step.Take? {
      TakeInv(job, s, step, s');
    } else if step.WriteResult? {
      WriteResultInv(job, s, step, s');
    } else if step.WriteError? {
      WriteErrorInv(job, s, step, s');
    } else if step.Call? {
      CallInv(job, s, step, s');
    } else {
      QuitInv(job, s, step, s');
    }
  }

  // ---- termination ----

  function Weight<R, E>(worker: Worker<R, E>): nat {
    match worker
    case Exited => 0
    case Ready => 1
    case Wrote(_, _) => 2
    case Called(_, _, _) => 3
    case Running(_) => 4
  }

  function Weights<R, E>(workers: seq<Worker<R, E>>): nat {
    if workers == [] then 0 else Weights(workers[..|workers| - 1]) + Weight(workers[|workers| - 1])
  }

  lemma {:induction false} WeightsUpdate<R, E>(workers: seq<Worker<R, E>>, k: nat, worker: Worker<R, E>)
    requires k < |workers|
    ensures Weights(workers[k := worker]) == Weights(workers) - Weight(workers[k]) + Weight(worker)
  {
    var n := |workers| - 1;
    if k < n {
      assert workers[k := worker][..n] == workers[..n][k := worker];
      WeightsUpdate(workers[..n], k, worker);
    } else {
      assert workers[k := worker][..n] == workers[..n];
    }
  }

  /** What is left to do; every step of every goroutine makes it smaller. */
  function Measure<T, R, E>(job: Job<T, R, E>, s: State<R, E>): int {
    2 * (WorkerCount(job) - |s.workers|) + 6 * (Count(job) - s.sent) + 5 * |s.queue| + Weights(s.workers)
    + (if s.closed then 0 else 1) + (if s.returned then 0 else 1)
  }

  lemma MainMeasure<T, R, E>(job: Job<T, R, E>, s: State<R, E>, step: Step<R, E>, s': State<R, E>)
    requires step.Start? || step.SendIndex? || step.CloseChannel? || step.Finish?
    requires MainStep(job, s, step) == Some(s')
    ensures Measure(job, s') < Measure(job, s)
  {
    if step.Start? {
      assert s'.workers[..|s.workers|] == s.workers;
    }
  }

  lemma WorkerMeasure<T, R, E>(job: Job<T, R, E>, s: State<R, E>, step: Step<R, E>, s': State<R, E>)
    requires step.Take? || step.Call? || step.WriteResult? || step.WriteError? || step.Quit?
    requires WorkerStep(job, s, step) == Some(s')
    ensures Measure(job, s') < Measure(job, s)
  {
    WeightsUpdate(s.workers, step.k, s'.workers[step.k]);
  }

  lemma StepMeasure<T, R, E>(job: Job<T, R, E>, s: State<R, E>, step: Step<R, E>, s': State<R, E>)
    requires Apply(job, s, step) == Some(s')
    ensures Measure(job, s') < Measure(job, s)
  {
    if step.Start? || step.SendIndex? || step.CloseChannel? || step.Finish? {
      MainMeasure(job, s, step, s');
    } else {
      WorkerMeasure(job, s, step, s');
    }
  }

  // ---- progress ----

  /** Until the pool has returned, some goroutine can take a step. */
  lemma NeverStuck<T, R(!new), E(!new)>(job: Job<T, R, E>, s: State<R, E>)
    requires Inv(job, s) && !s.returned
    ensures exists step :: Apply(job, s, step).Some?
  {
    if |s.workers| < WorkerCount(job) {
      assert Apply(job, s, Start).Some?;
    } else if s.sent < Count(job) && |s.queue| < Count(job) {
      assert Apply(job, s, SendIndex).Some?;
    } else if !s.closed {
      assert Apply(job, s, CloseChannel).Some?;
    } else if forall k | 0 <= k < |s.workers| :: s.workers[k].Exited? {
      assert Apply(job, s, Finish).Some?;
    } else {
      var k: nat :| k < |s.workers| && !s.workers[k].Exited?;
      assert WorkerOk(job, s, s.workers[k]);
      WorkerCanStep(job, s, k);
    }
  }

  /** A worker that has not exited can go on, once the channel is closed. */
  lemma WorkerCanStep<T, R(!new), E(!new)>(job: Job<T, R, E>, s: State<R, E>, k: nat)
    requires Inv(job, s) && s.closed && k < |s.workers| && !s.workers[k].Exited? && WorkerOk(job, s, s.workers[k])
    ensures exists step :: Apply(job, s, step).Some?
  {
    match s.workers[k] {
      case Ready => assert Apply(job, s, if s.queue != [] then Take(k) else Quit(k)).Some?;
      case Running(_) => assert Apply(job, s, Call(k, job.zeroR, job.zeroE)).Some?;
      case Called(_, _, _) => assert Apply(job, s, WriteResult(k)).Some?;
      case Wrote(_, _) => assert Apply(job, s, WriteError(k)).Some?;
    }
  }

  // ---- the whole pool ----

  lemma {:induction false} RunInv<T, R, E>(job: Job<T, R, E>, s: State<R, E>, steps: seq<Step<R, E>>)
    requires Inv(job, s) && Run(job, s, steps).Some?
    ensures var s' := Run(job, s, steps).value;
            Inv(job, s') && |steps| <= Measure(job, s) - Measure(job, s')
    decreases |steps|
  {
    if steps != [] {
      var s' := Apply(job, s, steps[0]).value;
      StepInv(job, s, steps[0], s');
      StepMeasure(job, s, steps[0], s');
      RunInv(job, s', steps[1..]);
    }
  }

  /** Calls that have started and not yet come back. */
  function InFlight<R, E>(s: State<R, E>): set<nat> {
    set k | 0 <= k < |s.workers| && s.workers[k].Running? :: k
  }

  lemma {:induction false} SetBelow(a: set<nat>, n: nat)
    requires forall k | k in a :: k < n
    ensures |a| <= n
  {
    if n == 0 {
      assert a == {};
    } else {
      SetBelow(a - {n - 1}, n - 1);
      assert a <= (a - {n - 1}) + {n - 1};
    }
  }

  /** Every call was made once, and each slot holds what the call for its index came back with. */
  ghost predicate Complete<T, R, E>(job: Job<T, R, E>, s: State<R, E>) {
    && |s.results| == |s.errors| == Count(job)
    && (forall i: nat | i < Count(job) :: i in s.outcomes && (s.results[i], s.errors[i]) == s.outcomes[i])
    && |s.calls| == Count(job)
    && (forall i: nat | i < Count(job) :: i in s.calls)
  }

  /**
   For every job and every interleaving: a run has at most Measure(Init) steps, never has more
   than min(limit, n) calls in flight, makes no call twice, and can always go on until the pool
   has returned; with a limit of at least 1 every slice is then complete.
   */
  lemma PoolCorrect<T, R(!new), E(!new)>(job: Job<T, R, E>, steps: seq<Step<R, E>>)
    requires Run(job, Init(job), steps).Some?
    ensures var s := Run(job, Init(job), steps).value;
            && |steps| <= Measure(job, Init(job))
            && |InFlight(s)| <= |job.args| && (job.limit >= 1 ==> |InFlight(s)| <= job.limit)
            && (forall a, b | 0 <= a < b < |s.calls| :: s.calls[a] != s.calls[b])
            && (s.returned || exists step :: Apply(job, s, step).Some?)
            && (s.returned && job.limit >= 1 ==> Complete(job, s))
  {
    InitInv(job);
    RunInv(job, Init(job), steps);
    var s := Run(job, Init(job), steps).value;
    assert Measure(job, s) >= 0;
    SetBelow(InFlight(s), |s.workers|);
    if !s.returned {
      NeverStuck(job, s);
    } else if job.limit >= 1 {
      ReturnedComplete(job, s);
    }
  }

  lemma ReturnedComplete<T, R, E>(job: Job<T, R, E>, s: State<R, E>)
    requires Inv(job, s) && s.returned && job.limit >= 1
    ensures Complete(job, s)
  {
    if Count(job) > 0 {
      assert WorkerOk(job, s, s.workers[0]);
    }
    forall i: nat | i < Count(job)
      ensures i in s.calls && i in s.outcomes && (s.results[i], s.errors[i]) == s.outcomes[i]
    {
      assert Taken(s, i);
      assert Stored(job, s, i);
    }
    DistinctCover(s.calls, Count(job));
  }

  lemma {:induction false} DistinctCover(calls: seq<nat>, n: nat)
    requires forall i | i in calls :: i < n
    requires forall a, b | 0 <= a < b < |calls| :: calls[a] != calls[b]
    requires forall i: nat | i < n :: i in calls
    ensures |calls| == n
  {
    if calls == [] {
      assert n > 0 ==> n - 1 in calls;
    } else {
      assert calls[0] in calls && n - 1 in calls;
      var j :| 0 <= j < |calls| && calls[j] == n - 1;
      var rest := calls[..j] + calls[j + 1..];
      assert forall i | i in rest :: i in calls && i != n - 1;
      forall i: nat | i < n - 1
        ensures i in rest
      {
        assert i in calls;
        var m :| 0 <= m < |calls| && calls[m] == i;
        assert rest[if m < j then m else m - 1] == i;
      }
      DistinctCover(rest, n - 1);
    }
  }

  /** A limit below 1 starts no worker: the pool returns with nothing called and nothing filled in. */
  lemma {:induction false} NoWorkers<T, R, E>(job: Job<T, R, E>, s: State<R, E>, steps: seq<Step<R, E>>)
    requires job.limit < 1 && Run(job, s, steps).Some?
    requires s.workers == []
    ensures var s' := Run(job, s, steps).value;
            s'.workers == [] && s'.calls == s.calls && s'.results == s.results && s'.errors == s.errors
    decreases |steps|
  {
    if steps != [] {
      NoWorkers(job, Apply(job, s, steps[0]).value, steps[1..]);
    }
  }

  // ---- the limit is used ----

  lemma {:induction false} RunSnoc<T, R, E>(job: Job<T, R, E>, s: State<R, E>, steps: seq<Step<R, E>>, step: Step<R, E>)
    requires Run(job, s, steps).Some?
    ensures Run(job, s, steps + [step]) == Apply(job, Run(job, s, steps).value, step)
    decreases |steps|
  {
    if steps == [] {
      assert [] + [step] == [step];
      assert [step][1..] == [];
    } else {
      assert (steps + [step])[1..] == steps[1..] + [step];
      RunSnoc(job, Apply(job, s, steps[0]).value, steps[1..], step);
    }
  }

  /** Workers started, none of which has taken an index. */
  function Started<R, E>(n: nat): seq<Worker<R, E>> {
    seq(n, _ => Ready)
  }

  /** Of w workers the first j have each taken an index. */
  function Busy<R, E>(w: nat, j: nat): seq<Worker<R, E>> {
    seq(w, k requires 0 <= k => if k < j then Running(k) else Ready)
  }

  function Indices(from: nat, to: nat): seq<nat>
    requires from <= to
  {
    seq(to - from, k requires 0 <= k => from + k)
  }

  /** The run that starts all workers, sends an index for each, and lets each take one, at three kinds of points. */
  function Filled<T, R, E>(job: Job<T, R, E>, w: nat, started: nat, sent: nat, busy: nat): State<R, E>
    requires busy <= sent
  {
    Init(job).(workers := if busy == 0 then Started(started) else Busy(w, busy),
               sent := sent, queue := Indices(busy, sent))
  }

  lemma StartNext<T, R, E>(job: Job<T, R, E>, w: nat, j: nat)
    requires w == WorkerCount(job) && j < w
    ensures Apply(job, Filled(job, w, j, 0, 0), Start) == Some(Filled(job, w, j + 1, 0, 0))
  {
    assert Started<R, E>(j) + [Ready] == Started(j + 1);
  }

  lemma SendNext<T, R, E>(job: Job<T, R, E>, w: nat, j: nat)
    requires w == WorkerCount(job) && j < w
    ensures Apply(job, Filled(job, w, w, j, 0), SendIndex) == Some(Filled(job, w, w, j + 1, 0))
  {
    assert Indices(0, j) + [j] == Indices(0, j + 1);
  }

  lemma TakeNext<T, R, E>(job: Job<T, R, E>, w: nat, j: nat)
    requires w == WorkerCount(job) && j < w
    ensures Apply(job, Filled(job, w, w, w, j), Take(j)) == Some(Filled(job, w, w, w, j + 1))
  {
    var before: seq<Worker<R, E>> := if j == 0 then Started(w) else Busy(w, j);
    assert before[j := Running(j)] == Busy(w, j + 1);
    assert Indices(j, w)[0] == j && Indices(j, w)[1..] == Indices(j + 1, w);
  }

  /** The step of the run after i steps, and the state it leads to. */
  function FillStep<R, E>(w: nat, i: nat): Step<R, E> {
    if i < w then Start else if i < 2 * w then SendIndex else Take(i - 2 * w)
  }

  function FillState<T, R, E>(job: Job<T, R, E>, w: nat, i: nat): State<R, E>
    requires i <= 3 * w
  {
    if i <= w then Filled(job, w, i, 0, 0)
    else if i <= 2 * w then Filled(job, w, w, i - w, 0)
    else Filled(job, w, w, w, i - 2 * w)
  }

  lemma FillNext<T, R, E>(job: Job<T, R, E>, w: nat, i: nat)
    requires w == WorkerCount(job) && i < 3 * w
    ensures Apply(job, FillState(job, w, i), FillStep(w, i)) == Some(FillState(job, w, i + 1))
  {
    if i < w {
      StartNext(job, w, i);
    } else if i < 2 * w {
      SendNext(job, w, i - w);
    } else {
      TakeNext(job, w, i - 2 * w);
    }
  }

  lemma {:induction false} FillRun<T, R, E>(job: Job<T, R, E>, w: nat, i: nat) returns (steps: seq<Step<R, E>>)
    requires w == WorkerCount(job) && i <= 3 * w
    ensures Run(job, Init(job), steps) == Some(FillState(job, w, i))
  {
    if i == 0 {
      steps := [];
      assert Started<R, E>(0) == [] && Indices(0, 0) == [];
    } else {
      steps := FillRun(job, w, i - 1);
      FillNext(job, w, i - 1);
      RunSnoc(job, Init(job), steps, FillStep(w, i - 1));
      steps := steps + [FillStep(w, i - 1)];
    }
  }

  lemma {:induction false} SizeOfRange(a: set<nat>, n: nat)
    requires forall k: nat :: k in a <==> k < n
    ensures |a| == n
  {
    if n == 0 {
      assert a == {};
    } else {
      SizeOfRange(a - {n - 1}, n - 1);
    }
  }

  /** With a limit of at least 1 some run has exactly min(limit, n) calls in flight. */
  lemma LimitReached<T, R, E>(job: Job<T, R, E>) returns (steps: seq<Step<R, E>>)
    requires job.limit >= 1
    ensures Run(job, Init(job), steps).Some?
    ensures |InFlight(Run(job, Init(job), steps).value)| == if job.limit < |job.args| then job.limit else |job.args|
  {
    var w := WorkerCount(job);
    steps := FillRun(job, w, 3 * w);
    var s := FillState(job, w, 3 * w);
    assert |s.workers| == w && forall k: nat | k < w :: s.workers[k] == Running(k);
    forall k: nat
      ensures k in InFlight(s) <==> k < w
    {
      if k < w {
        assert s.workers[k].Running?;
      }
    }
    SizeOfRange(InFlight(s), w);
  }
}
