/**
 Node identities: the master counts them in one etcd key, and a partition server
 adopts the first usable one it is given by writing it to its own file.
 */
module Identity {
  import opened Text
  import opened Wrappers

  const ID_BASE := 0

  // ---- the counter ----

  /** The counter transaction: the base for a missing value, one more for a number, an error for anything else. */
  function NextId(value: string): Option<int> {
    if value == "" then Some(ID_BASE)
    else
      var n := ParseInt(value);
      if n.Some? then Some(n.value + 1) else None
  }

  /** An etcd key that counts, and its transaction, which may fail before or after it takes effect. */
  class Counter {
    var value: string

    method NewIDGenerate(commits: bool, replies: bool) returns (id: int, ok: bool)
      modifies this
      ensures ok <==> commits && replies && NextId(old(value)).Some?
      ensures id == if ok then NextId(old(value)).value else 0
      ensures value == if commits && NextId(old(value)).Some? then Print(NextId(old(value)).value) else old(value)
    {
      var nextId := 0;
      if value == "" {
        nextId := ID_BASE;
      } else {
        var n := ParseInt(value);
        if n.None? {
          return 0, false;
        }
        nextId := n.value + 1;
      }
      if !commits {
        return 0, false;
      }
      value := Print(nextId);
      if !replies {
        return 0, false;
      }
      return nextId, true;
    }
  }

  // ---- masters and servers ----

  /** The counter, the ids it gave out without error, the answer each starting server has, and each server's file. */
  datatype Cluster = Cluster(counter: string, issued: seq<int>, pending: seq<Option<int>>, files: seq<Option<int>>)

  /** The steps of different servers and masters come in any order. */
  datatype Step =
    | Seed(missing: bool, commits: bool, replies: bool)  // a master starts
    | Ask(n: nat, commits: bool, replies: bool)          // a starting server gets an answer to its request
    | Save(n: nat, saved: bool)                          // it writes its file, or fails to
    | Lose(n: nat)                                       // the answer is lost, or the server stops

  function Generate(c: Cluster, commits: bool, replies: bool): (Cluster, int) {
    var next := NextId(c.counter);
    if next.None? || !commits then (c, 0)
    else
      var c' := c.(counter := Print(next.value));
      if replies then (c'.(issued := c.issued + [next.value]), next.value) else (c', 0)
  }

  /** The smallest id a server saves: neither the base nor the 0 of a failed request. */
  const LEAST_ID := 1

  predicate Server(c: Cluster, n: nat) {
    n < |c.pending| && n < |c.files|
  }

  /** A server without an identity asks for one, and saves the answer if it is large enough and can be written. */
  function Next(least: int, c: Cluster, step: Step): Cluster {
    match step
    case Seed(missing, commits, replies) => if missing then Generate(c, commits, replies).0 else c
    case Ask(n, commits, replies) =>
      if !Server(c, n) || c.files[n].Some? || c.pending[n].Some? then c
      else
        var (c', id) := Generate(c, commits, replies);
        c'.(pending := c.pending[n := Some(id)])
    case Save(n, saved) =>
      if !Server(c, n) || c.files[n].Some? || c.pending[n].None? then c
      else
        var id := c.pending[n].value;
        c.(pending := c.pending[n := None],
           files := if saved && id >= 0 && id >= least then c.files[n := Some(id)] else c.files)
    case Lose(n) => if Server(c, n) then c.(pending := c.pending[n := None]) else c
  }

  function Run(least: int, c: Cluster, steps: seq<Step>): Cluster
    decreases |steps|
  {
    if steps == [] then c else Run(least, Next(least, c, steps[0]), steps[1..])
  }

  function Init(size: nat): Cluster {
    Cluster("", [], seq(size, _ => None), seq(size, _ => None))
  }

  // ---- what holds in every state ----

  ghost predicate Increasing(ids: seq<int>) {
    forall i, j | 0 <= i < j < |ids| :: ids[i] < ids[j]
  }

  /** The counter is a number no smaller than any id given out, or missing when there is none. */
  ghost predicate Ahead(counter: string, issued: seq<int>) {
    if counter == "" then issued == []
    else
      var n := ParseInt(counter);
      n.Some? && n.value >= ID_BASE && forall i | 0 <= i < |issued| :: ID_BASE <= issued[i] <= n.value
  }

  /** An answer that could be adopted. */
  predicate Usable(id: Option<int>) {
    id.Some? && id.value >= 1
  }

  ghost predicate Adopted(files: seq<Option<int>>, issued: seq<int>) {
    forall n | 0 <= n < |files| && files[n].Some? :: Usable(files[n]) && files[n].value in issued
  }

  ghost predicate Answered(pending: seq<Option<int>>, issued: seq<int>) {
    forall n | 0 <= n < |pending| && Usable(pending[n]) :: pending[n].value in issued
  }

  ghost predicate Unique(files: seq<Option<int>>) {
    forall m, n | 0 <= m < n < |files| && files[m].Some? :: files[m] != files[n]
  }

  /** No two servers are about to adopt the same id, and none an id that is adopted already. */
  ghost predicate Reserved(pending: seq<Option<int>>, files: seq<Option<int>>) {
    && (forall m, n | 0 <= m < n < |pending| && Usable(pending[m]) :: pending[m] != pending[n])
    && (forall m, n | 0 <= m < |pending| && 0 <= n < |files| && Usable(pending[m]) :: pending[m] != files[n])
  }

  ghost predicate Inv(c: Cluster) {
    && Increasing(c.issued) && Ahead(c.counter, c.issued)
    && Adopted(c.files, c.issued) && Answered(c.pending, c.issued)
    && Unique(c.files) && Reserved(c.pending, c.files)
  }

  /** The next id is larger than every id given out. */
  lemma GenerateInv(c: Cluster, commits: bool, replies: bool)
    requires Inv(c)
    ensures var (c', id) := Generate(c, commits, replies);
            && Inv(c') && c'.files == c.files && c'.pending == c.pending
            && (id >= 1 ==> id in c'.issued && id !in c.issued)
  {
    var next := NextId(c.counter).value;
    PrintRoundTrip(next);
    assert next !in c.issued;
  }

  lemma AskInv(c: Cluster, n: nat, id: int, before: seq<int>)
    requires Inv(c) && n < |c.pending|
    requires Adopted(c.files, before) && Answered(c.pending, before) && (id >= 1 ==> id in c.issued && id !in before)
    ensures Inv(c.(pending := c.pending[n := Some(id)]))
  {
  }

  lemma NextInv(least: int, c: Cluster, step: Step)
    requires Inv(c) && least >= 1
    ensures Inv(Next(least, c, step))
  {
    match step {
      case Seed(_, commits, replies) => GenerateInv(c, commits, replies);
      case Ask(n, commits, replies) =>
        GenerateInv(c, commits, replies);
        var (c', id) := Generate(c, commits, replies);
        if Server(c, n) {
          AskInv(c', n, id, c.issued);
        }
      case Save(n, saved) => SaveInv(least, c, n, saved);
      case Lose(n) =>
    }
  }

  /** Saving moves an answer that no other server has into the file. */
  lemma SaveInv(least: int, c: Cluster, n: nat, saved: bool)
    requires Inv(c) && least >= 1
    ensures Inv(Next(least, c, Save(n, saved)))
  {
  }

  lemma {:induction false} RunInv(least: int, c: Cluster, steps: seq<Step>)
    requires Inv(c) && least >= 1
    ensures Inv(Run(least, c, steps))
    decreases |steps|
  {
    if steps != [] {
      NextInv(least, c, steps[0]);
      RunInv(least, Next(least, c, steps[0]), steps[1..]);
    }
  }

  /**
   Over every interleaving of master starts, requests of starting servers, lost answers, failed
   transactions and failed writes, with any number of servers between asking and saving: the ids given
   out without error increase strictly, every identity adopted is one of them and at least 1, and no two
   servers have the same.
   */
  lemma IdentitiesUnique(size: nat, steps: seq<Step>)
    ensures var c := Run(LEAST_ID, Init(size), steps);
            && Increasing(c.issued) && Unique(c.files)
            && (forall n | 0 <= n < |c.files| && c.files[n].Some? ::
                  c.files[n].value >= 1 && c.files[n].value in c.issued)
  {
    RunInv(LEAST_ID, Init(size), steps);
  }

  ghost predicate AlwaysUnique(least: int) {
    forall size: nat, steps: seq<Step> :: Unique(Run(least, Init(size), steps).files)
  }

  /** Two servers whose requests both failed. */
  function BothFail(i: nat): Step {
    if i == 0 then Ask(0, false, false) else if i == 1 then Ask(1, false, false)
    else if i == 2 then Save(0, true) else Save(1, true)
  }

  lemma ZeroAdoptedTwice(least: int)
    requires least <= 0
    ensures Run(least, Init(2), [BothFail(0), BothFail(1), BothFail(2), BothFail(3)]).files == [Some(0), Some(0)]
  {
    var c0 := Init(2);
    var c1 := Next(least, c0, BothFail(0));
    var c2 := Next(least, c1, BothFail(1));
    var c3 := Next(least, c2, BothFail(2));
    var c4 := Next(least, c3, BothFail(3));
    assert c2.pending == [Some(0), Some(0)] && c2.files == [None, None];
    assert c4.files == [Some(0), Some(0)];
    RunFour(least, c0, BothFail(0), BothFail(1), BothFail(2), BothFail(3));
  }

  lemma RunFour(least: int, c: Cluster, s0: Step, s1: Step, s2: Step, s3: Step)
    ensures Run(least, c, [s0, s1, s2, s3]) == Next(least, Next(least, Next(least, Next(least, c, s0), s1), s2), s3)
  {
    var c1 := Next(least, c, s0);
    var c2 := Next(least, c1, s1);
    assert [s0, s1, s2, s3][1..] == [s1, s2, s3] && [s1, s2, s3][1..] == [s2, s3];
    assert [s2, s3][1..] == [s3] && [s3][1..] == [];
    assert Run(least, c2, [s2, s3]) == Run(least, Next(least, c2, s2), [s3]);
    assert Run(least, Next(least, c2, s2), [s3]) == Run(least, Next(least, Next(least, c2, s2), s3), []);
  }

  /** Identities are unique in every run exactly because a server refuses the 0 that a failure returns. */
  lemma AlwaysUniqueIff(least: int)
    ensures AlwaysUnique(least) <==> least >= 1
  {
    if least >= 1 {
      forall size: nat, steps: seq<Step>
        ensures Unique(Run(least, Init(size), steps).files)
      {
        RunInv(least, Init(size), steps);
      }
    } else {
      ZeroAdoptedTwice(least);
      var steps := [BothFail(0), BothFail(1), BothFail(2), BothFail(3)];
      var files := Run(least, Init(2), steps).files;
      assert files[0] == files[1] == Some(0);
      assert !Unique(files);
    }
  }

  /** A server keeps the identity it has adopted, whatever comes later. */
  lemma {:induction false} IdentityKept(least: int, c: Cluster, steps: seq<Step>, n: nat)
    requires n < |c.files| && c.files[n].Some?
    ensures n < |Run(least, c, steps).files| && Run(least, c, steps).files[n] == c.files[n]
    decreases |steps|
  {
    if steps != [] {
      IdentityKept(least, Next(least, c, steps[0]), steps[1..], n);
    }
  }

  // ---- an answer is adopted ----

  /** The step neither saves nor loses the answer that server n has. */
  predicate Leaves(step: Step, n: nat) {
    !(step.Save? && step.n == n) && !(step.Lose? && step.n == n)
  }

  lemma {:induction false} PendingKept(least: int, c: Cluster, steps: seq<Step>, n: nat)
    requires Server(c, n) && c.files[n].None? && c.pending[n].Some?
    requires forall k | 0 <= k < |steps| :: Leaves(steps[k], n)
    ensures var c' := Run(least, c, steps); Server(c', n) && c'.files[n].None? && c'.pending[n] == c.pending[n]
    decreases |steps|
  {
    if steps != [] {
      assert Leaves(steps[0], n);
      PendingKept(least, Next(least, c, steps[0]), steps[1..], n);
    }
  }

  /**
   A server without an identity that asks, gets an id of at least 1 and saves it, whatever others do in between,
   has that id as its identity and keeps it through every later run.
   */
  lemma AnswerAdopted(c: Cluster, n: nat, between: seq<Step>, later: seq<Step>)
    requires Server(c, n) && c.files[n].None? && c.pending[n].None?
    requires NextId(c.counter).Some? && NextId(c.counter).value >= LEAST_ID
    requires forall k | 0 <= k < |between| :: Leaves(between[k], n)
    ensures var asked := Next(LEAST_ID, c, Ask(n, true, true));
            var saved := Next(LEAST_ID, Run(LEAST_ID, asked, between), Save(n, true));
            var end := Run(LEAST_ID, saved, later);
            n < |end.files| && end.files[n] == Some(NextId(c.counter).value)
  {
    var asked := Next(LEAST_ID, c, Ask(n, true, true));
    PendingKept(LEAST_ID, asked, between, n);
    var saved := Next(LEAST_ID, Run(LEAST_ID, asked, between), Save(n, true));
    IdentityKept(LEAST_ID, saved, later, n);
  }

  /** A failed request, an answer of 0 and a failed write leave a server without an identity. */
  lemma NothingAdopted(c: Cluster, n: nat, saved: bool)
    requires Server(c, n) && c.files[n].None?
    requires !saved || c.pending[n].None? || c.pending[n].value < LEAST_ID
    ensures Next(LEAST_ID, c, Save(n, saved)).files[n].None?
  {
  }

  // ---- the counter counts ----

  /** The step runs a transaction on the counter that takes effect, whether or not its answer arrives. */
  predicate Counts(c: Cluster, step: Step) {
    match step
    case Seed(missing, commits, _) => missing && commits
    case Ask(n, commits, _) => commits && Server(c, n) && c.files[n].None? && c.pending[n].None?
    case Save(_, _) => false
    case Lose(_) => false
  }

  function Counted(least: int, c: Cluster, steps: seq<Step>): nat
    decreases |steps|
  {
    if steps == [] then 0
    else (if Counts(c, steps[0]) then 1 else 0) + Counted(least, Next(least, c, steps[0]), steps[1..])
  }

  /** The value of the counter after so many transactions. */
  predicate CountedTo(counter: string, count: nat) {
    if count == 0 then counter == "" else ParseInt(counter) == Some(ID_BASE + count - 1)
  }

  lemma CountNext(least: int, c: Cluster, step: Step, count: nat)
    requires CountedTo(c.counter, count)
    ensures CountedTo(Next(least, c, step).counter, count + if Counts(c, step) then 1 else 0)
    ensures var issued := Next(least, c, step).issued;
            issued == c.issued || (Counts(c, step) && issued == c.issued + [ID_BASE + count])
  {
    var next := NextId(c.counter);
    assert next == Some(ID_BASE + count) by {
      if count > 0 {
        assert ParseInt("") == None;
      }
    }
    PrintRoundTrip(next.value);
    assert Print(next.value) != "" by {
      assert ParseInt("") == None;
    }
  }

  lemma {:induction false} CountRun(least: int, c: Cluster, steps: seq<Step>, count: nat)
    requires CountedTo(c.counter, count)
    ensures CountedTo(Run(least, c, steps).counter, count + Counted(least, c, steps))
    decreases |steps|
  {
    if steps != [] {
      CountNext(least, c, steps[0], count);
      CountRun(least, Next(least, c, steps[0]), steps[1..], count + if Counts(c, steps[0]) then 1 else 0);
    }
  }

  /**
   Over every run the counter holds the number of transactions that took effect, less one, from the base up; and
   a step that gives out an id gives out that number, the next one.
   */
  lemma IdsConsecutive(least: int, size: nat, steps: seq<Step>, step: Step)
    ensures var c, count := Run(least, Init(size), steps), Counted(least, Init(size), steps);
            && CountedTo(c.counter, count)
            && (Next(least, c, step).issued == c.issued || Next(least, c, step).issued == c.issued + [ID_BASE + count])
  {
    CountRun(least, Init(size), steps, 0);
    CountNext(least, Run(least, Init(size), steps), step, Counted(least, Init(size), steps));
  }
}
