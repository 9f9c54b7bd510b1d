/**
 The space state of one partition server: the `_has_space` flag and the create
 request held in memory, and the request file that a restart reads back.
 */
module PsNode {
  import opened Wrappers

  datatype SpaceName = SpaceName(db: string, space: string)

  /** The name read back from a cleared create request. */
  const UNNAMED := SpaceName("", "")

  datatype Ps = Ps(hasSpace: bool, name: SpaceName, file: Option<SpaceName>)

  const EMPTY_PS := Ps(false, UNNAMED, None)

  /** How far a create gets once the server has accepted the request. */
  datatype Outcome = Started | TableFailed(code: int) | RaftFailed | DumpFailed

  const OK := 0
  const EXISTS := 201
  const RAFT_FAILED := 202
  const DUMP_FAILED := 203

  /** The space a server answers for, if any. */
  function Held(ps: Ps): Option<SpaceName> {
    if ps.name.db != "" then Some(ps.name) else None
  }

  /** Memory and file agree, and a held space sets the flag. */
  predicate Coherent(ps: Ps) {
    && ps.file == Held(ps)
    && (ps.name.db == "" ==> ps.name == UNNAMED)
    && (Held(ps).Some? ==> ps.hasSpace)
  }

  function SetRequest(ps: Ps, name: SpaceName): Ps {
    Ps(ps.hasSpace || name.db != "", name, ps.file)
  }

  function Create(ps: Ps, name: SpaceName, outcome: Outcome): (Ps, int) {
    if ps.hasSpace then (ps, EXISTS)
    else
      var asked := SetRequest(ps, name);
      match outcome
      case TableFailed(code) => if code != OK then (SetRequest(asked, UNNAMED), code) else Dump(asked, name, true)
      case RaftFailed => (SetRequest(asked, UNNAMED), RAFT_FAILED)
      case DumpFailed => Dump(asked, name, false)
      case Started => Dump(asked, name, true)
  }

  /** The last part of a create: writing the request file. */
  function Dump(ps: Ps, name: SpaceName, written: bool): (Ps, int) {
    if name.db != "" && written then (ps.(file := Some(name)), OK)
    else (SetRequest(ps, UNNAMED), DUMP_FAILED)
  }

  function Delete(ps: Ps, name: SpaceName): (Ps, int) {
    if ps.name != name then (ps, EXISTS) else (EMPTY_PS, OK)
  }

  function Restart(ps: Ps): Ps {
    match ps.file
    case None => EMPTY_PS
    case Some(name) => Ps(true, name, ps.file)
  }

  datatype Event = CreateCall(name: SpaceName, outcome: Outcome) | DeleteCall(name: SpaceName) | Restarted

  function Serve(ps: Ps, call: Event): Ps {
    match call
    case CreateCall(name, outcome) => Create(ps, name, outcome).0
    case DeleteCall(name) => Delete(ps, name).0
    case Restarted => Restart(ps)
  }

  function ServeAll(ps: Ps, calls: seq<Event>): Ps
    decreases |calls|
  {
    if calls == [] then ps else ServeAll(Serve(ps, calls[0]), calls[1..])
  }

  /** Every call a client can name: space names that pass validation are not empty. */
  ghost predicate Named(calls: seq<Event>) {
    forall i :: 0 <= i < |calls| ==> calls[i].Restarted? || calls[i].name.db != ""
  }

  /** Over every sequence of calls, the file is exactly the held space, so a restart never changes what is held. */
  lemma {:induction false} ServeKeepsCoherent(ps: Ps, calls: seq<Event>)
    requires Coherent(ps)
    requires Named(calls)
    ensures Coherent(ServeAll(ps, calls))
    ensures Held(Restart(ServeAll(ps, calls))) == Held(ServeAll(ps, calls))
    decreases |calls|
  {
    if calls != [] {
      ServeKeepsCoherent(Serve(ps, calls[0]), calls[1..]);
    }
  }

  /** A create reports success exactly when the server ends up newly holding the space. */
  lemma CreateAckMeansHeld(ps: Ps, name: SpaceName, outcome: Outcome)
    requires Coherent(ps) && name.db != ""
    ensures var (ps', code) := Create(ps, name, outcome);
            && (code == OK <==> !ps.hasSpace && Held(ps') == Some(name))
            && (code == OK ==> ps' == Ps(true, name, Some(name)))
            && (code != OK ==> Held(ps') == Held(ps))
  {
  }

  /** Every answer of a create says what became of it. */
  lemma CreateAnswers(ps: Ps, name: SpaceName, outcome: Outcome)
    requires name.db != ""
    ensures var (ps', code) := Create(ps, name, outcome);
            && (ps.hasSpace ==> code == EXISTS && ps' == ps)
            && (!ps.hasSpace && outcome.RaftFailed? ==> code == RAFT_FAILED)
            && (!ps.hasSpace && outcome.DumpFailed? ==> code == DUMP_FAILED)
            && (!ps.hasSpace && outcome.TableFailed? ==> code == outcome.code)
            && (!ps.hasSpace && code != OK ==> ps'.hasSpace && Held(ps') == None && ps'.file == ps.file)
  {
  }

  /** A delete succeeds exactly on a server that answers to the name, and frees it; otherwise nothing changes. */
  lemma DeleteAnswers(ps: Ps, name: SpaceName)
    ensures var (ps', code) := Delete(ps, name);
            && (code == OK <==> ps.name == name)
            && (code == OK ==> !ps'.hasSpace && Held(ps') == None && ps'.file == None)
            && (code != OK ==> code == EXISTS && ps' == ps)
  {
  }

  /** A server that holds nothing refuses the delete of every named space, so a delete is answered 0 at most once. */
  lemma DeletedOnce(ps: Ps, name: SpaceName)
    requires Coherent(ps) && name.db != ""
    ensures Delete(ps, name).1 == OK <==> Held(ps) == Some(name)
    ensures Delete(Delete(ps, name).0, name).1 != OK
  {
  }

  /** A create that failed after being accepted: the request is gone but the flag stays set. */
  predicate Stuck(ps: Ps) {
    ps.hasSpace && ps.name == UNNAMED && ps.file.None?
  }

  /** Exactly the accepted creates that then fail leave the server stuck. */
  lemma FailedCreateSticks(ps: Ps, name: SpaceName, outcome: Outcome)
    requires Coherent(ps) && !Stuck(ps) && name.db != ""
    ensures Stuck(Create(ps, name, outcome).0) <==> !ps.hasSpace && Create(ps, name, outcome).1 != OK
  {
  }

  /** A stuck server refuses every named create and delete, and only a restart frees it. */
  lemma {:induction false} StuckUntilRestart(ps: Ps, calls: seq<Event>)
    requires Stuck(ps) && Named(calls)
    requires forall i :: 0 <= i < |calls| ==> !calls[i].Restarted?
    ensures ServeAll(ps, calls) == ps
    ensures ServeAll(ps, calls + [Restarted]) == EMPTY_PS
  {
    ServeAppend(ps, calls, Restarted);
    if calls != [] {
      StuckUntilRestart(ps, calls[1..]);
    }
  }

  lemma {:induction false} ServeAppend(ps: Ps, calls: seq<Event>, last: Event)
    ensures ServeAll(ps, calls + [last]) == Serve(ServeAll(ps, calls), last)
    decreases |calls|
  {
    if calls == [] {
      assert [] + [last] == [last];
      assert [last][1..] == [];
    } else {
      assert (calls + [last])[1..] == calls[1..] + [last];
      ServeAppend(Serve(ps, calls[0]), calls[1..], last);
    }
  }

  /** The server object: each handler is proved to make the transition above. */
  class Server {
    var hasSpace: bool
    var name: SpaceName
    var file: Option<SpaceName>

    function State(): Ps
      reads this
    {
      Ps(hasSpace, name, file)
    }

    /** Process start: a server with an identity rebuilds its memory from the request file; one without does not. */
    constructor (hasIdentity: bool, file: Option<SpaceName>)
      ensures State() == if hasIdentity then Restart(Ps(false, UNNAMED, file)) else Ps(false, UNNAMED, file)
    {
      this.file := file;
      hasSpace := hasIdentity && file.Some?;
      name := if hasIdentity && file.Some? then file.value else UNNAMED;
    }

    method SetCreateSpaceReq(req: SpaceName)
      modifies this
      ensures State() == SetRequest(old(State()), req)
    {
      name := req;
      if name.db != "" {
        hasSpace := true;
      }
    }

    method DumpCreateSpaceReq(written: bool) returns (ok: bool)
      modifies this
      ensures ok <==> name.db != "" && written
      ensures State() == if ok then old(State()).(file := Some(old(name))) else old(State())
    {
      ok := false;
      if name.db != "" && written {
        file := Some(name);
        ok := true;
      }
    }

    method CreateSpace(req: SpaceName, outcome: Outcome) returns (code: int)
      modifies this
      ensures (State(), code) == Create(old(State()), req, outcome)
    {
      if hasSpace {
        return EXISTS;
      }
      SetCreateSpaceReq(req);
      if outcome.TableFailed? && outcome.code != OK {
        SetCreateSpaceReq(UNNAMED);
        return outcome.code;
      }
      if outcome.RaftFailed? {
        SetCreateSpaceReq(UNNAMED);
        return RAFT_FAILED;
      }
      var ok := DumpCreateSpaceReq(!outcome.DumpFailed?);
      if !ok {
        SetCreateSpaceReq(UNNAMED);
        return DUMP_FAILED;
      }
      return OK;
    }

    method DeleteSpace(req: SpaceName) returns (code: int)
      modifies this
      ensures (State(), code) == Delete(old(State()), req)
    {
      if name != req {
        return EXISTS;
      }
      name := UNNAMED;
      file := None;
      hasSpace := false;
      return OK;
    }
  }
}
