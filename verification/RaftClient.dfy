/**
 The router's writes to a raft group. The client keeps two connection buffers and an
 index of the active one; it rebuilds only the other buffer, and switches to it only
 once it is usable.
 */
module RaftClient {
  import opened Wrappers

  datatype Buffer = Buffer(ok: bool, leader: string, group: string, conf: string)

  const NO_BUFFER := Buffer(false, "", "", "")

  /** What an attempt to connect meets: a shutdown, the leader found if any, and whether the channel builds. */
  datatype Lookup = Lookup(quit: bool, leader: Option<string>, builds: bool)

  predicate Connects(lookup: Lookup) {
    !lookup.quit && lookup.leader.Some? && lookup.builds
  }

  datatype Rpc = Lost(error: string) | Refused(redirect: string, msg: string) | Acked

  /** What one round of a write meets: the outcome of the RPC, if one is sent, and of the reconnection, if any. */
  datatype Round = Round(rpc: Rpc, lookup: Lookup)

  const ROUNDS := 3

  // ---- the two buffers as a value ----

  datatype Link = Link(bufs: seq<Buffer>, idx: nat)

  predicate Valid(link: Link) {
    |link.bufs| == 2 && link.idx < 2
  }

  function Active(link: Link): Buffer
    requires Valid(link)
  {
    link.bufs[link.idx]
  }

  /** Rebuilding buffer k: it becomes the active one only when it is usable. */
  function Connect(link: Link, group: string, conf: string, k: nat, lookup: Lookup): (link': Link)
    requires Valid(link) && k < 2
    ensures Valid(link')
  {
    var buf := Buffer(false, link.bufs[k].leader, group, conf);
    if lookup.quit || lookup.leader.None? then link.(bufs := link.bufs[k := buf])
    else
      var found := buf.(leader := lookup.leader.value);
      if !lookup.builds then link.(bufs := link.bufs[k := found])
      else Link(link.bufs[k := found.(ok := true)], k)
  }

  /** A write rebuilds the buffer that is not active, for the group of the one that is. */
  function Reconnect(link: Link, lookup: Lookup): (link': Link)
    requires Valid(link)
    ensures Valid(link')
  {
    Connect(link, Active(link).group, Active(link).conf, (link.idx + 1) % 2, lookup)
  }

  /** The message of a write: none, or the leader asked and how its last RPC failed. */
  datatype Note = Quiet | Failure(leader: string, rpc: Rpc)

  function Text(note: Note): (text: string)
    ensures text == "" <==> note == Quiet
  {
    match note
    case Quiet => ""
    case Failure(leader, rpc) =>
      "Fail to send request to " + leader +
      match rpc
      case Lost(error) => " : " + error
      case Refused(redirect, _) => ", redirecting to " + (if redirect != "" then redirect else "nowhere")
      case Acked => ""
  }

  /** An RPC, the leader it was sent to, and what came of it. */
  datatype Sent = Sent(to: string, rpc: Rpc)

  /** The outcome of a write: the buffers, the message, and the RPCs sent. */
  datatype Written = Written(link: Link, note: Note, sent: seq<Sent>)

  /** A round whose RPC failed. */
  function Failed(w: Written, round: Round): (w': Written)
    requires Valid(w.link)
    ensures Valid(w'.link)
  {
    var leader := Active(w.link).leader;
    Written(Reconnect(w.link, round.lookup), Failure(leader, round.rpc), w.sent + [Sent(leader, round.rpc)])
  }

  /** The round is acknowledged, which ends the write. */
  predicate Ends(w: Written, round: Round)
    requires Valid(w.link)
  {
    Active(w.link).ok && round.rpc == Acked
  }

  /** One round: without a usable connection nothing is sent. */
  function OneRound(w: Written, round: Round): (w': Written)
    requires Valid(w.link)
    ensures Valid(w'.link)
  {
    if !Active(w.link).ok then w.(link := Reconnect(w.link, round.lookup))
    else if round.rpc == Acked then Written(w.link, Quiet, w.sent + [Sent(Active(w.link).leader, Acked)])
    else Failed(w, round)
  }

  /** The rounds from i on, until one ends the write. */
  function WriteFrom(w: Written, rounds: seq<Round>, i: nat): (w': Written)
    requires Valid(w.link) && i <= |rounds|
    ensures Valid(w'.link)
    decreases |rounds| - i
  {
    if i == |rounds| then w
    else
      var next := OneRound(w, rounds[i]);
      if Ends(w, rounds[i]) then next else WriteFrom(next, rounds, i + 1)
  }

  function WriteAll(link: Link, rounds: seq<Round>): (w: Written)
    requires Valid(link)
    ensures Valid(w.link)
  {
    WriteFrom(Written(link, Quiet, []), rounds, 0)
  }

  /** The last RPC sent was acknowledged. */
  predicate AckedIn(sent: seq<Sent>) {
    sent != [] && sent[|sent| - 1].rpc == Acked
  }

  /** Nothing to tell of a write that sent nothing or was acknowledged; else the last RPC. */
  function NoteOf(sent: seq<Sent>): Note {
    if sent == [] || AckedIn(sent) then Quiet else Failure(sent[|sent| - 1].to, sent[|sent| - 1].rpc)
  }

  lemma LastSent(sent: seq<Sent>, to: string, rpc: Rpc)
    ensures AckedIn(sent + [Sent(to, rpc)]) <==> rpc == Acked
    ensures NoteOf(sent + [Sent(to, rpc)]) == if rpc == Acked then Quiet else Failure(to, rpc)
  {
    assert (sent + [Sent(to, rpc)])[|sent|] == Sent(to, rpc);
  }

  // ---- what a write sends ----

  /** The first round from i on with a usable connection: i, or the one after the first reconnection that works. */
  function FirstUsable(ok: bool, rounds: seq<Round>, i: nat): (k: nat)
    requires i <= |rounds|
    ensures i <= k <= |rounds|
    decreases |rounds| - i
  {
    if ok || i == |rounds| then i else FirstUsable(Connects(rounds[i].lookup), rounds, i + 1)
  }

  /** The leader found by the last lookup before round i that connected, or the one there was. */
  function LeaderAt(leader: string, rounds: seq<Round>, i: nat): string
    requires i <= |rounds|
  {
    if i == 0 then leader
    else if Connects(rounds[i - 1].lookup) then rounds[i - 1].lookup.leader.value
    else LeaderAt(leader, rounds, i - 1)
  }

  /** The RPCs of the rounds from i on, up to the first acknowledgement, each to the leader known by then. */
  function UntilAck(leader: string, rounds: seq<Round>, i: nat): (sent: seq<Sent>)
    requires i <= |rounds|
    ensures |sent| <= |rounds| - i
    decreases |rounds| - i
  {
    if i == |rounds| then []
    else
      var first := Sent(LeaderAt(leader, rounds, i), rounds[i].rpc);
      if rounds[i].rpc == Acked then [first] else [first] + UntilAck(leader, rounds, i + 1)
  }

  /** One RPC for each round, until the first that is acknowledged. */
  lemma {:induction false} UntilAckIs(leader: string, rounds: seq<Round>, i: nat)
    requires i <= |rounds|
    ensures var sent := UntilAck(leader, rounds, i);
            && (forall j | 0 <= j < |sent| :: sent[j] == Sent(LeaderAt(leader, rounds, i + j), rounds[i + j].rpc))
            && (forall j | 0 <= j < |sent| - 1 :: sent[j].rpc != Acked)
            && (|sent| == |rounds| - i || AckedIn(sent))
    decreases |rounds| - i
  {
    if i < |rounds| && rounds[i].rpc != Acked {
      UntilAckIs(leader, rounds, i + 1);
    }
  }

  predicate AnyConnects(rounds: seq<Round>, i: nat)
    requires i <= |rounds|
    decreases |rounds| - i
  {
    i < |rounds| && (Connects(rounds[i].lookup) || AnyConnects(rounds, i + 1))
  }

  /** A reconnection keeps the group, and a usable connection is never lost. */
  lemma ReconnectKeeps(link: Link, lookup: Lookup)
    requires Valid(link)
    ensures Active(Reconnect(link, lookup)).ok <==> Active(link).ok || Connects(lookup)
    ensures Active(Reconnect(link, lookup)).group == Active(link).group
    ensures Active(Reconnect(link, lookup)).conf == Active(link).conf
    ensures Active(Reconnect(link, lookup)).leader ==
            if Connects(lookup) then lookup.leader.value else Active(link).leader
  {
  }

  lemma {:induction false} WriteFromLink(w: Written, rounds: seq<Round>, i: nat)
    requires Valid(w.link) && i <= |rounds|
    ensures var link := WriteFrom(w, rounds, i).link;
            && (Active(link).ok <==> Active(w.link).ok || AnyConnects(rounds, i))
            && Active(link).group == Active(w.link).group && Active(link).conf == Active(w.link).conf
    decreases |rounds| - i
  {
    if i < |rounds| {
      ReconnectKeeps(w.link, rounds[i].lookup);
      if !Ends(w, rounds[i]) {
        WriteFromLink(OneRound(w, rounds[i]), rounds, i + 1);
      }
    }
  }

  lemma Regroup(a: seq<Sent>, one: Sent, b: seq<Sent>)
    ensures a + [one] + b == a + ([one] + b)
  {
  }

  /** What is sent from round i on, once a connection is usable. */
  lemma {:induction false} WriteFromSends(w: Written, rounds: seq<Round>, i: nat, leader: string)
    requires Valid(w.link) && i <= |rounds| && Active(w.link).leader == LeaderAt(leader, rounds, i)
    ensures WriteFrom(w, rounds, i).sent == w.sent + UntilAck(leader, rounds, FirstUsable(Active(w.link).ok, rounds, i))
    decreases |rounds| - i
  {
    if i < |rounds| {
      ReconnectKeeps(w.link, rounds[i].lookup);
      if !Ends(w, rounds[i]) {
        WriteFromSends(OneRound(w, rounds[i]), rounds, i + 1, leader);
        Regroup(w.sent, Sent(Active(w.link).leader, rounds[i].rpc), UntilAck(leader, rounds, i + 1));
      }
    }
  }

  lemma {:induction false} WriteFromNote(w: Written, rounds: seq<Round>, i: nat)
    requires Valid(w.link) && i <= |rounds| && w.note == NoteOf(w.sent)
    ensures WriteFrom(w, rounds, i).note == NoteOf(WriteFrom(w, rounds, i).sent)
    decreases |rounds| - i
  {
    if i < |rounds| {
      LastSent(w.sent, Active(w.link).leader, rounds[i].rpc);
      if !Ends(w, rounds[i]) {
        WriteFromNote(OneRound(w, rounds[i]), rounds, i + 1);
      }
    }
  }

  /** The RPCs go to the leader there was, and after a lookup that connects to the leader it found. */
  ghost predicate FollowsLeaders(leader: string, rounds: seq<Round>, first: nat, sent: seq<Sent>) {
    && first + |sent| <= |rounds|
    && (first == 0 && sent != [] ==> sent[0].to == leader)
    && (forall j | 0 <= j < |sent| && first + j > 0 ::
          var lookup := rounds[first + j - 1].lookup;
          if Connects(lookup) then sent[j].to == lookup.leader.value else j > 0 && sent[j].to == sent[j - 1].to)
  }

  lemma SentToLeaders(leader: string, ok: bool, rounds: seq<Round>)
    ensures var first := FirstUsable(ok, rounds, 0);
            FollowsLeaders(leader, rounds, first, UntilAck(leader, rounds, first))
  {
    UsableAfter(ok, rounds, 0);
    UntilAckIs(leader, rounds, FirstUsable(ok, rounds, 0));
  }

  /** Without a connection to begin with, the round before the first usable one is the one that connected. */
  lemma {:induction false} UsableAfter(ok: bool, rounds: seq<Round>, i: nat)
    requires i <= |rounds|
    ensures var first := FirstUsable(ok, rounds, i); i < first < |rounds| ==> Connects(rounds[first - 1].lookup)
    decreases |rounds| - i
  {
    if !ok && i < |rounds| {
      UsableAfter(Connects(rounds[i].lookup), rounds, i + 1);
    }
  }

  /**
   A write sends exactly the RPCs from the first round with a usable connection to the first
   acknowledgement, each to the leader found last. Its message is empty after an acknowledgement or when nothing
   was sent, and otherwise tells of the last RPC. A usable client stays usable, and the group never changes.
   */
  lemma WriteMeaning(link: Link, rounds: seq<Round>)
    requires Valid(link)
    ensures var w, first := WriteAll(link, rounds), FirstUsable(Active(link).ok, rounds, 0);
            && w.sent == UntilAck(Active(link).leader, rounds, first)
            && FollowsLeaders(Active(link).leader, rounds, first, w.sent)
            && |w.sent| <= |rounds|
            && w.note == NoteOf(w.sent)
            && (Active(w.link).ok <==> Active(link).ok || AnyConnects(rounds, 0))
            && Active(w.link).group == Active(link).group && Active(w.link).conf == Active(link).conf
  {
    WriteFromSends(Written(link, Quiet, []), rounds, 0, Active(link).leader);
    assert [] + WriteAll(link, rounds).sent == WriteAll(link, rounds).sent;
    SentToLeaders(Active(link).leader, Active(link).ok, rounds);
    WriteFromLink(Written(link, Quiet, []), rounds, 0);
    WriteFromNote(Written(link, Quiet, []), rounds, 0);
  }

  // ---- the client as an object ----

  class Client {
    var bufs: seq<Buffer>
    var idx: nat

    function State(): Link
      reads this
    {
      Link(bufs, idx)
    }

    constructor ()
      ensures State() == Link([NO_BUFFER, NO_BUFFER], 0)
    {
      bufs, idx := [NO_BUFFER, NO_BUFFER], 0;
    }

    /** Rebuilds one buffer; the active one is untouched unless it is the one rebuilt. */
    method CreateRaftConnection(group: string, conf: string, k: nat, lookup: Lookup) returns (ok: bool)
      requires Valid(State()) && k < 2
      modifies this
      ensures Valid(State()) && State() == Connect(old(State()), group, conf, k, lookup)
      ensures ok == Connects(lookup)
      ensures forall j | 0 <= j < 2 && j != k :: bufs[j] == old(bufs[j])
      ensures bufs[k].ok == ok && idx == if ok then k else old(idx)
    {
      bufs := bufs[k := Buffer(false, bufs[k].leader, group, conf)];
      if lookup.quit {
        return false;
      }
      if lookup.leader.None? {
        return false;
      }
      bufs := bufs[k := bufs[k].(leader := lookup.leader.value)];
      if !lookup.builds {
        return false;
      }
      idx := k;
      bufs := bufs[k := bufs[k].(ok := true)];
      return true;
    }

    /** Start-up connects both buffers; the client is usable if the first of them connects, even when this fails. */
    method Init(group: string, conf: string, configured: bool, lookups: seq<Lookup>) returns (ok: bool)
      requires |lookups| == 2
      modifies this
      ensures Valid(State()) && (ok <==> configured && Connects(lookups[0]) && Connects(lookups[1]))
      ensures Active(State()).ok <==> configured && Connects(lookups[0])
      ensures configured ==> Active(State()).group == group && Active(State()).conf == conf
      ensures configured && Connects(lookups[0]) ==>
                Active(State()).leader == lookups[if Connects(lookups[1]) then 1 else 0].leader.value
    {
      bufs, idx := [NO_BUFFER, NO_BUFFER], 0;
      if !configured {
        return false;
      }
      for i := 0 to 2
        invariant Valid(State()) && forall j | 0 <= j < i :: Connects(lookups[j])
        invariant if i == 0 then idx == 0 && !bufs[0].ok else idx == i - 1 && bufs[idx].ok
        invariant i > 0 ==> bufs[idx].group == group && bufs[idx].conf == conf
        invariant i > 0 ==> bufs[idx].leader == lookups[idx].leader.value
      {
        var connected := CreateRaftConnection(group, conf, i, lookups[i]);
        if !connected {
          return false;
        }
      }
      return true;
    }

    /** One round of the loop of `Write`: at most one RPC, and a reconnection unless it was acknowledged. */
    method WriteRound(round: Round, note: Note, sent: seq<Sent>) returns (note': Note, sent': seq<Sent>, ends: bool)
      requires Valid(State())
      modifies this
      ensures Valid(State()) && Written(State(), note', sent') == OneRound(Written(old(State()), note, sent), round)
      ensures ends == Ends(Written(old(State()), note, sent), round)
      ensures ends ==> note' == Quiet && AckedIn(sent')
      ensures !ends && !AckedIn(sent) ==> !AckedIn(sent')
    {
      var active, rpc := bufs[idx], round.rpc;
      note', sent', ends := note, sent, false;
      if !active.ok {
        var _ := CreateRaftConnection(active.group, active.conf, (idx + 1) % 2, round.lookup);
        return;
      }
      LastSent(sent, active.leader, rpc);
      sent' := sent + [Sent(active.leader, rpc)];
      if rpc == Acked {
        return Quiet, sent', true;
      }
      note' := Failure(active.leader, rpc);
      var _ := CreateRaftConnection(active.group, active.conf, (idx + 1) % 2, round.lookup);
    }

    /** At most three rounds, exactly as `WriteAll` goes through them. */
    method Write(rounds: seq<Round>) returns (note: Note, success: bool, sent: seq<Sent>)
      requires Valid(State()) && |rounds| == ROUNDS
      modifies this
      ensures Valid(State()) && Written(State(), note, sent) == WriteAll(old(State()), rounds)
      ensures success == AckedIn(sent)
    {
      ghost var done := WriteAll(State(), rounds);
      note, sent := Quiet, [];
      for i := 0 to ROUNDS
        invariant Valid(State()) && !AckedIn(sent)
        invariant WriteFrom(Written(State(), note, sent), rounds, i) == done
      {
        var ends;
        note, sent, ends := WriteRound(rounds[i], note, sent);
        if ends {
          return note, true, sent;
        }
      }
      success := false;
    }
  }

  // ---- writing a group of documents ----

  datatype Item = Item(key: string, serializes: bool, rounds: seq<Round>)

  /** The write of one document: nothing is sent for one that does not serialize. */
  function WriteItem(link: Link, item: Item): (w: Written)
    requires Valid(link)
    ensures Valid(w.link)
  {
    if item.serializes then WriteAll(link, item.rounds) else Written(link, Quiet, [])
  }

  /** The writes of a group of documents, each starting from the buffers the one before it left. */
  ghost predicate Chain(link: Link, items: seq<Item>, writes: seq<Written>) {
    ChainOf(Following(), link, items, writes)
  }

  /** The same for any relation between the buffers before, the document and the write. */
  ghost predicate ChainOf(follows: (Link, Item, Written) -> bool, link: Link, items: seq<Item>, writes: seq<Written>) {
    && |writes| == |items|
    && (forall i | 0 <= i < |items| :: follows(Before(link, writes, i), items[i], writes[i]))
  }

  function Following(): (Link, Item, Written) -> bool {
    (link, item, w) => Follows(link, item, w)
  }

  predicate Follows(link: Link, item: Item, w: Written) {
    Valid(link) && w == WriteItem(link, item)
  }

  function Before(link: Link, writes: seq<Written>, i: nat): Link
    requires i <= |writes|
  {
    if i == 0 then link else writes[i - 1].link
  }

  /** The message of a write that was not acknowledged, with what the last response says. */
  function Report(note: Note, sent: seq<Sent>): (err: string)
    ensures err != ""
  {
    var last := if sent == [] then Acked else sent[|sent| - 1].rpc;
    Text(note) + ", ret_msg:" + (if last.Refused? then last.msg else "")
  }

  /** What is told of a document whose write was not acknowledged. */
  function ErrorOf(item: Item, w: Written): (err: string)
    ensures err != ""
  {
    if item.serializes then Report(w.note, w.sent) else "SerializeToString Document failed"
  }

  /** What is told of a document, if anything. */
  function Outcome(item: Item, w: Written): Option<string> {
    if AckedIn(w.sent) then None else Some(ErrorOf(item, w))
  }

  /** Document i is the last one with the key of which something is told, and this is it. */
  ghost predicate LastTold(keys: seq<string>, outcomes: seq<Option<string>>, key: string, i: nat, err: string)
    requires |outcomes| == |keys|
  {
    && i < |keys| && keys[i] == key && outcomes[i] == Some(err)
    && forall j | i < j < |keys| && keys[j] == key :: outcomes[j] == None
  }

  ghost predicate ToldOf(keys: seq<string>, outcomes: seq<Option<string>>, key: string, err: string)
    requires |outcomes| == |keys|
  {
    exists i: nat :: LastTold(keys, outcomes, key, i, err)
  }

  /** The map has an entry exactly for the keys with a document of which something is told: that of the last. */
  ghost predicate Told(keys: seq<string>, outcomes: seq<Option<string>>, errs: map<string, string>)
    requires |outcomes| == |keys|
  {
    && (forall key | key in errs :: ToldOf(keys, outcomes, key, errs[key]))
    && (forall i | 0 <= i < |keys| && outcomes[i].Some? :: keys[i] in errs)
  }

  function KeysOf(items: seq<Item>): seq<string> {
    seq(|items|, i requires 0 <= i < |items| => items[i].key)
  }

  function OutcomesOf(items: seq<Item>, writes: seq<Written>): seq<Option<string>>
    requires |writes| == |items|
  {
    seq(|items|, i requires 0 <= i < |items| => Outcome(items[i], writes[i]))
  }

  /** Some document with the key was not acknowledged. */
  ghost predicate Unacked(items: seq<Item>, writes: seq<Written>, key: string)
    requires |writes| == |items|
  {
    exists i :: 0 <= i < |items| && items[i].key == key && !AckedIn(writes[i].sent)
  }

  lemma FollowsMeaning(link: Link, item: Item, w: Written)
    requires Follows(link, item, w)
    ensures |w.sent| <= |item.rounds| && Valid(w.link)
    ensures w.note == NoteOf(w.sent)
    ensures Active(link).ok ==> Active(w.link).ok
    ensures Active(link).ok && item.serializes && item.rounds != [] ==> w.sent != []
  {
    WriteMeaning(link, item.rounds);
  }

  lemma UsableNext(link: Link, item: Item, w: Written)
    requires Follows(link, item, w) && Active(link).ok
    ensures Valid(w.link) && Active(w.link).ok
  {
    FollowsMeaning(link, item, w);
  }

  predicate UsableLink(link: Link) {
    Valid(link) && Active(link).ok
  }

  lemma {:induction false} ChainKeeps(follows: (Link, Item, Written) -> bool, link: Link,
                                      items: seq<Item>, writes: seq<Written>, i: nat)
    requires forall l, item, w | UsableLink(l) && follows(l, item, w) :: UsableLink(w.link)
    requires UsableLink(link) && ChainOf(follows, link, items, writes) && i <= |items|
    ensures UsableLink(Before(link, writes, i))
  {
    if i > 0 {
      ChainKeeps(follows, link, items, writes, i - 1);
      assert follows(Before(link, writes, i - 1), items[i - 1], writes[i - 1]);
    }
  }

  /** A client that is usable before a group of documents is usable before every one of them. */
  lemma ChainUsable(link: Link, items: seq<Item>, writes: seq<Written>, i: nat)
    requires UsableLink(link) && Chain(link, items, writes) && i <= |items|
    ensures UsableLink(Before(link, writes, i))
  {
    forall l, item, w | UsableLink(l) && Following()(l, item, w)
      ensures UsableLink(w.link)
    {
      UsableNext(l, item, w);
    }
    ChainKeeps(Following(), link, items, writes, i);
  }

  /** No document is sent more than its rounds, and with a client that was usable each of them is sent. */
  lemma ChainMeaning(link: Link, items: seq<Item>, writes: seq<Written>, i: nat)
    requires Valid(link) && Chain(link, items, writes) && i < |items|
    ensures |writes[i].sent| <= |items[i].rounds|
    ensures Active(link).ok && items[i].serializes && items[i].rounds != [] ==> writes[i].sent != []
  {
    assert Following()(Before(link, writes, i), items[i], writes[i]);
    FollowsMeaning(Before(link, writes, i), items[i], writes[i]);
    if Active(link).ok {
      ChainUsable(link, items, writes, i);
    }
  }

  /**
   The documents of one partition, one write each, in a chain. A key is in the error map exactly when,
   for some document with that key, nothing was sent or the last RPC sent was not acknowledged.
   */
  method UpsertDocs(client: Client, items: seq<Item>) returns (errs: map<string, string>, writes: seq<Written>)
    requires Valid(client.State()) && forall i | 0 <= i < |items| :: |items[i].rounds| == ROUNDS
    modifies client
    ensures Valid(client.State()) && Chain(old(client.State()), items, writes)
    ensures client.State() == Before(old(client.State()), writes, |items|)
    ensures forall i | 0 <= i < |items| :: |writes[i].sent| <= ROUNDS
    ensures forall key :: key in errs <==> Unacked(items, writes, key)
    ensures Told(KeysOf(items), OutcomesOf(items, writes), errs)
  {
    errs, writes := map[], [];
    ghost var link := client.State();
    for i := 0 to |items|
      invariant Valid(client.State()) && |writes| == i && client.State() == Before(link, writes, i)
      invariant Chain(link, items[..i], writes)
      invariant Told(KeysOf(items[..i]), OutcomesOf(items[..i], writes), errs)
    {
      var err, w := UpsertOne(client, items[i]);
      ChainNext(Following(), link, items, writes, i, w);
      OutcomesNext(items, writes, i, w);
      ToldNext(KeysOf(items[..i]), OutcomesOf(items[..i], writes), items[i].key, Outcome(items[i], w), errs);
      if err != "" {
        errs := errs[items[i].key := err];
      }
      writes := writes + [w];
    }
    assert items[..|items|] == items;
    forall i | 0 <= i < |items|
      ensures |writes[i].sent| <= ROUNDS
    {
      ChainMeaning(link, items, writes, i);
    }
    forall key
      ensures key in errs <==> Unacked(items, writes, key)
    {
      ToldIff(items, writes, errs, key);
    }
  }

  /** One document: an error exactly when its write is not acknowledged. */
  method UpsertOne(client: Client, item: Item) returns (err: string, w: Written)
    requires Valid(client.State()) && |item.rounds| == ROUNDS
    modifies client
    ensures Valid(client.State()) && w == WriteItem(old(client.State()), item) && w.link == client.State()
    ensures err == if AckedIn(w.sent) then "" else ErrorOf(item, w)
  {
    if !item.serializes {
      return "SerializeToString Document failed", Written(Link(client.bufs, client.idx), Quiet, []);
    }
    FollowsMeaning(client.State(), item, WriteItem(client.State(), item));
    var note, success, sent := client.Write(item.rounds);
    w := Written(Link(client.bufs, client.idx), note, sent);
    if note != Quiet || !success {
      err := Report(note, sent);
    } else {
      err := "";
    }
  }

  lemma ChainNext(follows: (Link, Item, Written) -> bool, link: Link, items: seq<Item>, writes: seq<Written>,
                  i: nat, w: Written)
    requires i < |items| && |writes| == i && ChainOf(follows, link, items[..i], writes)
    requires follows(Before(link, writes, i), items[i], w)
    ensures ChainOf(follows, link, items[..i + 1], writes + [w])
  {
    var front, more := items[..i + 1], writes + [w];
    forall j | 0 <= j < |front|
      ensures follows(Before(link, more, j), front[j], more[j])
    {
      assert Before(link, more, j) == Before(link, writes, j) && front[j] == items[j];
      if j < i {
        assert follows(Before(link, writes, j), items[..i][j], writes[j]) && more[j] == writes[j];
      } else {
        assert more[j] == w;
      }
    }
  }

  /** What one more document does to what is told of a key. */
  lemma ToldLast(keys: seq<string>, outcomes: seq<Option<string>>, last: string, outcome: Option<string>,
                 key: string, err: string)
    requires |outcomes| == |keys|
    requires if key == last && outcome.Some? then outcome == Some(err) else ToldOf(keys, outcomes, key, err)
    ensures ToldOf(keys + [last], outcomes + [outcome], key, err)
  {
    if key == last && outcome.Some? {
      assert LastTold(keys + [last], outcomes + [outcome], key, |keys|, err);
    } else {
      var j: nat :| LastTold(keys, outcomes, key, j, err);
      assert LastTold(keys + [last], outcomes + [outcome], key, j, err);
    }
  }

  lemma ToldNext(keys: seq<string>, outcomes: seq<Option<string>>, last: string, outcome: Option<string>,
                 errs: map<string, string>)
    requires |outcomes| == |keys| && Told(keys, outcomes, errs)
    ensures Told(keys + [last], outcomes + [outcome], if outcome.None? then errs else errs[last := outcome.value])
  {
    var errs' := if outcome.None? then errs else errs[last := outcome.value];
    forall key | key in errs'
      ensures ToldOf(keys + [last], outcomes + [outcome], key, errs'[key])
    {
      ToldLast(keys, outcomes, last, outcome, key, errs'[key]);
    }
  }

  lemma OutcomesNext(items: seq<Item>, writes: seq<Written>, i: nat, w: Written)
    requires i < |items| && |writes| == i
    ensures KeysOf(items[..i + 1]) == KeysOf(items[..i]) + [items[i].key]
    ensures OutcomesOf(items[..i + 1], writes + [w]) == OutcomesOf(items[..i], writes) + [Outcome(items[i], w)]
  {
  }

  lemma ToldIff(items: seq<Item>, writes: seq<Written>, errs: map<string, string>, key: string)
    requires |writes| == |items| && Told(KeysOf(items), OutcomesOf(items, writes), errs)
    ensures key in errs <==> Unacked(items, writes, key)
  {
    var outcomes := OutcomesOf(items, writes);
    if key in errs {
      var i: nat :| LastTold(KeysOf(items), outcomes, key, i, errs[key]);
      assert items[i].key == key && !AckedIn(writes[i].sent);
    }
    if Unacked(items, writes, key) {
      var i :| 0 <= i < |items| && items[i].key == key && !AckedIn(writes[i].sent);
      assert outcomes[i].Some? && KeysOf(items)[i] == key;
    }
  }

  // ---- the connections of a partition ----

  /** Two buffers of replica connections, read without a lock. */
  class PartitionConnection {
    var opts: seq<Option<nat>>         // the number of replicas of each buffer
    var idx: nat

    predicate Valid()
      reads this
    {
      |opts| == 2 && idx < 2
    }

    /** What a reader finds: no connections, or those of a partition with replicas. */
    function Active(): (replicas: Option<nat>)
      requires Valid()
      reads this
    {
      opts[idx]
    }

    constructor (replicas: nat)
      ensures Valid() && Active() == if replicas > 0 then Some(replicas) else None
    {
      opts := if replicas > 0 then [Some(replicas), Some(replicas)] else [None, None];
      idx := 0;
    }

    /** The new connections become active only if they all build; otherwise the reader keeps the old ones. */
    method UpdatePsConn(replicas: nat, builds: bool) returns (ok: bool)
      requires Valid()
      modifies this
      ensures Valid() && ok == (replicas > 0 && builds)
      ensures Active() == if ok then Some(replicas) else old(Active())
      ensures old(Active()) in {None, Some(0)} || Active() !in {None, Some(0)}
    {
      if replicas == 0 {
        return false;
      }
      var next := (idx + 1) % 2;
      if builds {
        opts := opts[next := Some(replicas)];
        idx := next;
      }
      return builds;
    }
  }
}
