/**
 A read through the router: the ids are checked, split by hash over the partitions,
 each partition asks one replica after the other, and the partial answers are merged
 into one response.
 */
module Gather {
  import opened Wrappers
  import Placement

  function ToSet(ids: seq<string>): set<string> {
    set id | id in ids
  }

  // ---- checking the ids ----

  datatype Check = Accepted | EmptyKey | NotLong(key: string) | Duplicate(key: string)

  ghost predicate Distinct(ids: seq<string>) {
    forall i, j | 0 <= i < j < |ids| :: ids[i] != ids[j]
  }

  function Message(check: Check, status: string -> string): string {
    match check
    case Accepted => ""
    case EmptyKey => "Document key is empty"
    case NotLong(key) => "_id:" + key + " StrToInt64 failed: " + status(key)
    case Duplicate(key) => "Duplicate document key: " + key
  }

  /** Not empty, and a number where the space has numbers for ids; the status of a number is empty. */
  predicate WellFormed(id: string, longIds: bool, status: string -> string) {
    id != "" && (longIds ==> status(id) == "")
  }

  ghost predicate Acceptable(ids: seq<string>, longIds: bool, status: string -> string) {
    Distinct(ids) && forall id | id in ids :: WellFormed(id, longIds, status)
  }

  /** The first id at fault is number i, and this is what is wrong with it. */
  ghost predicate FaultAt(ids: seq<string>, longIds: bool, status: string -> string, i: nat, check: Check) {
    && i < |ids| && Acceptable(ids[..i], longIds, status)
    && match check
       case Accepted => false
       case EmptyKey => ids[i] == ""
       case NotLong(key) => key == ids[i] && key != "" && longIds && status(key) != ""
       case Duplicate(key) => key == ids[i] && WellFormed(key, longIds, status) && key in ids[..i]
  }

  /** Accepts exactly the lists of distinct ids of the right form; else it names the first id at fault. */
  method CheckPbIds(ids: seq<string>, longIds: bool, status: string -> string) returns (check: Check)
    ensures check == Accepted <==> Acceptable(ids, longIds, status)
    ensures check != Accepted ==> exists i :: FaultAt(ids, longIds, status, i, check)
  {
    var seen: set<string> := {};
    for i := 0 to |ids|
      invariant Distinct(ids[..i]) && seen == ToSet(ids[..i])
      invariant forall id | id in ids[..i] :: WellFormed(id, longIds, status)
    {
      var key := ids[i];
      assert key in ids;
      if key == "" {
        assert FaultAt(ids, longIds, status, i, EmptyKey);
        return EmptyKey;
      }
      if longIds && status(key) != "" {
        assert FaultAt(ids, longIds, status, i, NotLong(key));
        return NotLong(key);
      }
      if key in seen {
        var j :| 0 <= j < i && ids[..i][j] == key;
        assert ids[j] == ids[i];
        assert FaultAt(ids, longIds, status, i, Duplicate(key));
        return Duplicate(key);
      }
      seen := seen + {key};
      assert ids[..i + 1] == ids[..i] + [key];
    }
    assert ids[..|ids|] == ids;
    return Accepted;
  }

  // ---- splitting over the partitions ----

  /** The ids of one partition, in the order of the request. */
  function Group(hash: string -> nat, n: nat, ids: seq<string>, p: nat): seq<string>
    requires n > 0
  {
    if ids == [] then []
    else
      var last := ids[|ids| - 1];
      Group(hash, n, ids[..|ids| - 1], p) + (if hash(last) % n == p then [last] else [])
  }

  /** The groups cover the request and do not overlap: every occurrence of an id is in one group, that of its hash. */
  lemma {:induction false} GroupsPartition(hash: string -> nat, n: nat, ids: seq<string>, p: nat, id: string)
    requires n > 0
    ensures multiset(Group(hash, n, ids, p))[id] == if hash(id) % n == p then multiset(ids)[id] else 0
    ensures id in Group(hash, n, ids, p) <==> id in ids && hash(id) % n == p
  {
    if ids != [] {
      var front, last := ids[..|ids| - 1], ids[|ids| - 1];
      assert ids == front + [last];
      GroupsPartition(hash, n, front, p, id);
    }
  }

  /** The wanted places below n. */
  function PlacesOf(wanted: nat -> bool, n: nat): seq<nat> {
    if n == 0 then [] else PlacesOf(wanted, n - 1) + (if wanted(n - 1) then [n - 1] else [])
  }

  ghost predicate Rising(at: seq<nat>) {
    forall k, l | 0 <= k < l < |at| :: at[k] < at[l]
  }

  /** All of them, and in order. */
  lemma {:induction false} PlacesAre(wanted: nat -> bool, n: nat)
    ensures forall i: nat :: i in PlacesOf(wanted, n) <==> i < n && wanted(i)
    ensures Rising(PlacesOf(wanted, n))
  {
    if n > 0 {
      var front := PlacesOf(wanted, n - 1);
      PlacesAre(wanted, n - 1);
      assert forall k | 0 <= k < |front| :: front[k] in front;
    }
  }

  /** The items stand for the elements of the list at the wanted places, all of them and in the order of the list. */
  ghost predicate Chosen<T, U>(items: seq<U>, list: seq<T>, wanted: nat -> bool, fits: (T, U) -> bool) {
    var at := PlacesOf(wanted, |list|);
    |items| == |at| && forall k | 0 <= k < |at| :: at[k] < |list| && fits(list[at[k]], items[k])
  }

  lemma ChosenNext<T, U>(items: seq<U>, list: seq<T>, next: T, more: seq<U>, wanted: nat -> bool, fits: (T, U) -> bool)
    requires Chosen(items, list, wanted, fits)
    requires if wanted(|list|) then |more| == 1 && fits(next, more[0]) else more == []
    ensures Chosen(items + more, list + [next], wanted, fits)
  {
    var at, at' := PlacesOf(wanted, |list|), PlacesOf(wanted, |list| + 1);
    assert forall k | 0 <= k < |at| :: at'[k] == at[k] && (items + more)[k] == items[k];
  }

  /** Whether the id at a place belongs to a partition. */
  function InPartition(hash: string -> nat, n: nat, ids: seq<string>, p: nat): nat -> bool
    requires n > 0
  {
    (i: nat) => i < |ids| && hash(ids[i]) % n == p
  }

  function Same(): (string, string) -> bool {
    (a, b) => a == b
  }

  /** A group has the ids of its partition, in the order of the request. */
  lemma {:induction false} GroupInOrder(hash: string -> nat, n: nat, ids: seq<string>, p: nat, m: nat)
    requires n > 0 && m <= |ids|
    ensures Chosen(Group(hash, n, ids[..m], p), ids[..m], InPartition(hash, n, ids, p), Same())
  {
    if m > 0 {
      var front, last := ids[..m - 1], ids[m - 1];
      GroupInOrder(hash, n, ids, p, m - 1);
      assert ids[..m] == front + [last] && ids[..m][..m - 1] == front;
      ChosenNext(Group(hash, n, front, p), front, last, if hash(last) % n == p then [last] else [],
                 InPartition(hash, n, ids, p), Same());
    }
  }

  /** The map holds the group of every partition that has one. */
  ghost predicate Grouped(hash: string -> nat, n: nat, ids: seq<string>, groups: map<nat, seq<string>>)
    requires n > 0
  {
    forall p: nat :: Group(hash, n, ids, p) == if p in groups then groups[p] else []
  }

  /** Every id is in the group of its hash, and each group is in the order of the request. */
  method HashKeys(hash: string -> nat, n: nat, ids: seq<string>) returns (groups: map<nat, seq<string>>)
    requires n > 0
    ensures Grouped(hash, n, ids, groups)
    ensures forall p | p in groups :: p < n
  {
    groups := map[];
    for i := 0 to |ids|
      invariant Grouped(hash, n, ids[..i], groups) && forall p | p in groups :: p < n
    {
      var p := hash(ids[i]) % n;
      assert ids[..i + 1][..i] == ids[..i];
      assert Group(hash, n, ids[..i], p) == if p in groups then groups[p] else [];
      if p !in groups {
        groups := groups[p := []];
      }
      groups := groups[p := groups[p] + [ids[i]]];
    }
    assert ids[..|ids|] == ids;
  }

  // ---- one partition ----

  datatype Doc = Doc(id: string, body: string)

  datatype Failed = Failed(id: string, msg: string)

  datatype Reply = Error(msg: string) | Response(documents: seq<Doc>, failed: seq<Failed>)

  datatype Answer = Got(doc: Doc) | Missed(msg: string)

  function DocId(doc: Doc): string {
    doc.id
  }

  function FailedId(failed: Failed): string {
    failed.id
  }

  /** The last item with the id, as later ones overwrite earlier ones. */
  function Last<T>(items: seq<T>, idOf: T -> string, id: string): (item: Option<T>)
    ensures item.Some? ==> item.value in items && idOf(item.value) == id
  {
    if items == [] then None
    else if idOf(items[|items| - 1]) == id then Some(items[|items| - 1])
    else Last(items[..|items| - 1], idOf, id)
  }

  /** Item i is the last one with the id. */
  ghost predicate LastAt<T>(items: seq<T>, idOf: T -> string, id: string, i: nat) {
    i < |items| && idOf(items[i]) == id && forall j | i < j < |items| :: idOf(items[j]) != id
  }

  ghost predicate Lacks<T>(items: seq<T>, idOf: T -> string, id: string) {
    forall i | 0 <= i < |items| :: idOf(items[i]) != id
  }

  lemma {:induction false} LastIs<T>(items: seq<T>, idOf: T -> string, id: string)
    ensures Last(items, idOf, id).None? ==> Lacks(items, idOf, id)
    ensures Last(items, idOf, id).Some? ==>
              exists i: nat :: LastAt(items, idOf, id, i) && items[i] == Last(items, idOf, id).value
  {
    if items != [] {
      var n := |items| - 1;
      var front := items[..n];
      if idOf(items[n]) == id {
        assert LastAt(items, idOf, id, n);
      } else {
        LastIs(front, idOf, id);
        if Last(front, idOf, id).Some? {
          var i: nat :| LastAt(front, idOf, id, i) && front[i] == Last(front, idOf, id).value;
          assert LastAt(items, idOf, id, i);
        }
      }
    }
  }

  lemma LastUnique<T>(items: seq<T>, idOf: T -> string, id: string, i: nat, j: nat)
    requires LastAt(items, idOf, id, i) && LastAt(items, idOf, id, j)
    ensures i == j
  {
  }

  /** The response has a document with the id, and this is the last one. */
  ghost predicate FindsIn(reply: Reply, id: string, doc: Doc)
    requires reply.Response?
  {
    exists i: nat :: LastAt(reply.documents, DocId, id, i) && doc == reply.documents[i]
  }

  const NOT_FOUND := "Key not found in response"

  /** The response has no document with the id, and the message of the last failure with it, if any. */
  ghost predicate MissesIn(reply: Reply, id: string, msg: string)
    requires reply.Response?
  {
    && Lacks(reply.documents, DocId, id)
    && (|| (exists i: nat :: LastAt(reply.failed, FailedId, id, i) && msg == reply.failed[i].msg)
        || (Lacks(reply.failed, FailedId, id) && msg == NOT_FOUND))
  }

  /** What a response says about an id: a document wins over a failure. */
  function Says(reply: Reply, id: string): (answer: Answer)
    requires reply.Response?
    ensures answer.Got? ==> answer.doc.id == id
  {
    match Last(reply.documents, DocId, id)
    case Some(doc) => Got(doc)
    case None =>
      match Last(reply.failed, FailedId, id)
      case Some(f) => Missed(f.msg)
      case None => Missed(NOT_FOUND)
  }

  /** Which is what its documents and failures say, by their places. */
  lemma SaysFinds(reply: Reply, id: string, doc: Doc)
    requires reply.Response?
    ensures Says(reply, id) == Got(doc) <==> FindsIn(reply, id, doc)
  {
    LastIs(reply.documents, DocId, id);
    if FindsIn(reply, id, doc) && Last(reply.documents, DocId, id).Some? {
      var i: nat :| LastAt(reply.documents, DocId, id, i) && doc == reply.documents[i];
      var j: nat :| LastAt(reply.documents, DocId, id, j)
                    && reply.documents[j] == Last(reply.documents, DocId, id).value;
      LastUnique(reply.documents, DocId, id, i, j);
    }
  }

  lemma SaysMisses(reply: Reply, id: string, msg: string)
    requires reply.Response?
    ensures Says(reply, id) == Missed(msg) <==> MissesIn(reply, id, msg)
  {
    LastIs(reply.documents, DocId, id);
    LastIs(reply.failed, FailedId, id);
    if MissesIn(reply, id, msg) && Last(reply.failed, FailedId, id).Some? {
      var j: nat :| LastAt(reply.failed, FailedId, id, j) && reply.failed[j] == Last(reply.failed, FailedId, id).value;
      if i: nat :| LastAt(reply.failed, FailedId, id, i) && msg == reply.failed[i].msg {
        LastUnique(reply.failed, FailedId, id, i, j);
      }
    }
  }

  function Saying(reply: Reply): string -> Answer
    requires reply.Response?
  {
    id => Says(reply, id)
  }

  function Refusing(msg: string): string -> Answer {
    _ => Missed(msg)
  }

  const RETRIES := 3

  const NO_REPLICAS := "***** two buffer partion_opt is null *****"
  const GET_FAILED := "GetDocs from Ps error, msg:"

  /** A partition: its replicas, the one asked first, and what each attempt answers. */
  datatype Partition = Partition(replicas: nat, start: nat, ask: (nat, nat, seq<string>) -> Reply)

  /** The first replica asked is one of them. */
  predicate Rotates(part: Partition) {
    part.replicas > 0 ==> part.start < part.replicas
  }

  /** The replica asked at an attempt. */
  function Replica(part: Partition, attempt: nat): (replica: nat)
    requires part.replicas > 0
    ensures part.start < part.replicas ==> replica < part.replicas
  {
    if attempt == 0 then part.start else (Replica(part, attempt - 1) + 1) % part.replicas
  }

  function Attempt(part: Partition, keys: seq<string>, i: nat): Reply
    requires part.replicas > 0
  {
    part.ask(i, Replica(part, i), keys)
  }

  /** The first attempt from i on that is answered, or the number of attempts. */
  function FirstAnswered(part: Partition, keys: seq<string>, i: nat): (k: nat)
    requires part.replicas > 0 && i <= RETRIES
    ensures i <= k <= RETRIES && (k < RETRIES ==> Attempt(part, keys, k).Response?)
    ensures forall j | i <= j < k :: Attempt(part, keys, j).Error?
    decreases RETRIES - i
  {
    if i == RETRIES || Attempt(part, keys, i).Response? then i else FirstAnswered(part, keys, i + 1)
  }

  /** What a partition answers for one of the keys asked of it. */
  function Outcome(part: Partition, keys: seq<string>, id: string): (answer: Answer)
    ensures answer.Got? ==> answer.doc.id == id
  {
    if part.replicas == 0 then Missed(NO_REPLICAS)
    else
      var k := FirstAnswered(part, keys, 0);
      if k < RETRIES then Says(Attempt(part, keys, k), id)
      else Missed(GET_FAILED + Attempt(part, keys, RETRIES - 1).msg)
  }

  /** Attempt k is the first that is answered. */
  ghost predicate Responds(part: Partition, keys: seq<string>, k: nat)
    requires part.replicas > 0
  {
    k < RETRIES && Attempt(part, keys, k).Response? && forall j | 0 <= j < k :: Attempt(part, keys, j).Error?
  }

  /** The first replica that responds has this document for the id. */
  ghost predicate Returns(part: Partition, keys: seq<string>, id: string, doc: Doc) {
    part.replicas > 0 && exists k :: Responds(part, keys, k) && FindsIn(Attempt(part, keys, k), id, doc)
  }

  /** There is no replica, none of three attempts is answered, or the first that responds has no document. */
  ghost predicate Misses(part: Partition, keys: seq<string>, id: string, msg: string) {
    if part.replicas == 0 then msg == NO_REPLICAS
    else
      || (exists k :: Responds(part, keys, k) && MissesIn(Attempt(part, keys, k), id, msg))
      || ((forall j | 0 <= j < RETRIES :: Attempt(part, keys, j).Error?)
          && msg == GET_FAILED + Attempt(part, keys, RETRIES - 1).msg)
  }

  lemma RespondsFirst(part: Partition, keys: seq<string>, k: nat)
    requires part.replicas > 0
    ensures Responds(part, keys, k) <==> k < RETRIES && k == FirstAnswered(part, keys, 0)
  {
    var first := FirstAnswered(part, keys, 0);
  }

  /** What a partition answers, by what its replicas do. */
  lemma OutcomeReturns(part: Partition, keys: seq<string>, id: string, doc: Doc)
    ensures Outcome(part, keys, id) == Got(doc) <==> Returns(part, keys, id, doc)
  {
    if part.replicas > 0 {
      var first := FirstAnswered(part, keys, 0);
      RespondsFirst(part, keys, first);
      if first < RETRIES {
        SaysFinds(Attempt(part, keys, first), id, doc);
      }
      forall k | Responds(part, keys, k) ensures k == first { RespondsFirst(part, keys, k); }
    }
  }

  lemma OutcomeMisses(part: Partition, keys: seq<string>, id: string, msg: string)
    ensures Outcome(part, keys, id) == Missed(msg) <==> Misses(part, keys, id, msg)
  {
    if part.replicas > 0 {
      var first := FirstAnswered(part, keys, 0);
      RespondsFirst(part, keys, first);
      if first < RETRIES {
        SaysMisses(Attempt(part, keys, first), id, msg);
      }
      forall k | Responds(part, keys, k) ensures k == first { RespondsFirst(part, keys, k); }
    }
  }

  function Outcomes(part: Partition, keys: seq<string>): string -> Answer {
    id => Outcome(part, keys, id)
  }

  ghost predicate Placed(errs: map<string, string>, docs: map<string, Doc>, wanted: bool, answer: Answer, id: string) {
    && (id in errs <==> wanted && answer.Missed?)
    && (id in docs <==> wanted && answer.Got?)
    && (wanted ==> answer == if id in errs then Missed(errs[id]) else Got(docs[id]))
  }

  /** Two maps that hold between them the answer to every key, each key in one of them. */
  ghost predicate Split(errs: map<string, string>, docs: map<string, Doc>, keys: set<string>,
                        answer: string -> Answer)
  {
    forall id :: Placed(errs, docs, id in keys, answer(id), id)
  }

  /** The items of a response by id, later ones over earlier ones. */
  method IndexById<T>(items: seq<T>, idOf: T -> string) returns (index: map<string, T>)
    ensures forall id :: Last(items, idOf, id) == if id in index then Some(index[id]) else None
  {
    index := map[];
    for i := 0 to |items|
      invariant forall id :: Last(items[..i], idOf, id) == if id in index then Some(index[id]) else None
    {
      index := index[idOf(items[i]) := items[i]];
      assert items[..i + 1][..i] == items[..i];
    }
    assert items[..|items|] == items;
  }

  /** Recording a response: the ids it mentions are indexed, then every key is looked up. */
  method Record(reply: Reply, keys: seq<string>) returns (errs: map<string, string>, docs: map<string, Doc>)
    requires reply.Response?
    ensures Split(errs, docs, ToSet(keys), Saying(reply))
    ensures forall id :: id in docs <==> id in keys && exists doc :: FindsIn(reply, id, doc)
    ensures forall id | id in docs :: FindsIn(reply, id, docs[id])
    ensures forall id :: id in errs <==> id in keys && id !in docs
    ensures forall id | id in errs :: MissesIn(reply, id, errs[id])
  {
    var docOf := IndexById(reply.documents, DocId);
    var failedOf := IndexById(reply.failed, FailedId);
    errs, docs := map[], map[];
    for i := 0 to |keys|
      invariant Split(errs, docs, ToSet(keys[..i]), Saying(reply))
    {
      var key := keys[i];
      assert keys[..i + 1] == keys[..i] + [key];
      if key in docOf {
        docs := docs[key := docOf[key]];
      } else if key in failedOf {
        errs := errs[key := failedOf[key].msg];
      } else {
        errs := errs[key := NOT_FOUND];
      }
    }
    assert keys[..|keys|] == keys;
    RecordedByPlace(reply, keys, errs, docs);
  }

  lemma RecordedByPlace(reply: Reply, keys: seq<string>, errs: map<string, string>, docs: map<string, Doc>)
    requires reply.Response? && Split(errs, docs, ToSet(keys), Saying(reply))
    ensures forall id :: id in docs <==> id in keys && exists doc :: FindsIn(reply, id, doc)
    ensures forall id | id in docs :: FindsIn(reply, id, docs[id])
    ensures forall id :: id in errs <==> id in keys && id !in docs
    ensures forall id | id in errs :: MissesIn(reply, id, errs[id])
  {
    forall id
      ensures id in docs <==> id in keys && exists doc :: FindsIn(reply, id, doc)
      ensures id in docs ==> FindsIn(reply, id, docs[id])
      ensures id in errs <==> id in keys && id !in docs
      ensures id in errs ==> MissesIn(reply, id, errs[id])
    {
      assert Placed(errs, docs, id in ToSet(keys), Says(reply, id), id);
      if id in docs {
        SaysFinds(reply, id, docs[id]);
      }
      if id in errs {
        SaysMisses(reply, id, errs[id]);
      }
      if doc :| FindsIn(reply, id, doc) {
        SaysFinds(reply, id, doc);
      }
    }
  }

  method FailAll(keys: seq<string>, msg: string) returns (errs: map<string, string>)
    ensures Split(errs, map[], ToSet(keys), Refusing(msg))
  {
    errs := map[];
    for i := 0 to |keys|
      invariant Split(errs, map[], ToSet(keys[..i]), Refusing(msg))
    {
      errs := errs[keys[i] := msg];
      assert keys[..i + 1] == keys[..i] + [keys[i]];
    }
    assert keys[..|keys|] == keys;
  }

  /** One partition's share of a read: every key is answered once, by the first replica that responds. */
  method GetDocs(part: Partition, keys: seq<string>)
      returns (errs: map<string, string>, docs: map<string, Doc>, asked: seq<nat>)
    requires Rotates(part)
    ensures Split(errs, docs, ToSet(keys), Outcomes(part, keys))
    ensures docs.Keys + errs.Keys == ToSet(keys) && docs.Keys !! errs.Keys
    ensures forall id | id in docs :: Returns(part, keys, id, docs[id])
    ensures forall id | id in errs :: Misses(part, keys, id, errs[id])
    ensures part.replicas > 0 ==>
              |asked| == (var k := FirstAnswered(part, keys, 0); if k < RETRIES then k + 1 else RETRIES)
    ensures forall i | 0 <= i < |asked| :: part.replicas > 0 && asked[i] == Replica(part, i)
  {
    errs, docs, asked := map[], map[], [];
    if part.replicas == 0 {
      errs := FailAll(keys, NO_REPLICAS);
      AnsweredByReplicas(part, keys, errs, docs);
      return;
    }
    var replica := -1;
    var msg := "";
    for i := 0 to RETRIES
      invariant |asked| == i && FirstAnswered(part, keys, 0) == FirstAnswered(part, keys, i)
      invariant if i == 0 then replica == -1 else replica == Replica(part, i - 1)
      invariant i > 0 ==> Attempt(part, keys, i - 1) == Error(msg)
      invariant forall j | 0 <= j < i :: asked[j] == Replica(part, j)
    {
      if replica == -1 {
        replica := part.start;
      } else {
        replica := (replica + 1) % part.replicas;
      }
      asked := asked + [replica];
      var reply := part.ask(i, replica, keys);
      assert reply == Attempt(part, keys, i);
      if reply.Response? {
        errs, docs := Record(reply, keys);
        AnsweredByReplicas(part, keys, errs, docs);
        return;
      }
      msg := reply.msg;
    }
    errs := FailAll(keys, GET_FAILED + msg);
    AnsweredByReplicas(part, keys, errs, docs);
  }

  lemma AnsweredByReplicas(part: Partition, keys: seq<string>, errs: map<string, string>, docs: map<string, Doc>)
    requires Split(errs, docs, ToSet(keys), Outcomes(part, keys))
    ensures docs.Keys + errs.Keys == ToSet(keys) && docs.Keys !! errs.Keys
    ensures forall id | id in docs :: Returns(part, keys, id, docs[id])
    ensures forall id | id in errs :: Misses(part, keys, id, errs[id])
  {
    forall id
      ensures id in docs ==> id in keys && id !in errs && Returns(part, keys, id, docs[id])
      ensures id in errs ==> id in keys && Misses(part, keys, id, errs[id])
      ensures id in keys ==> id in docs || id in errs
    {
      assert Placed(errs, docs, id in ToSet(keys), Outcome(part, keys, id), id);
      if id in docs {
        OutcomeReturns(part, keys, id, docs[id]);
      }
      if id in errs {
        OutcomeMisses(part, keys, id, errs[id]);
      }
    }
  }

  lemma WrapNext(x: nat, r: nat)
    requires x < r
    ensures (x + 1) % r == if x + 1 < r then x + 1 else 0
  {
  }

  /** The attempts go once around the replicas before any is asked again. */
  lemma {:induction false} RotationIs(part: Partition, i: nat)
    requires part.start < part.replicas && i < part.replicas
    ensures Replica(part, i) ==
            if part.start + i < part.replicas then part.start + i else part.start + i - part.replicas
  {
    if i > 0 {
      RotationIs(part, i - 1);
      WrapNext(Replica(part, i - 1), part.replicas);
    }
  }

  /** The first min(3, R) attempts go to different replicas. */
  lemma RotationDistinct(part: Partition, i: nat, j: nat)
    requires part.start < part.replicas && i < j < part.replicas
    ensures Replica(part, i) != Replica(part, j)
  {
    RotationIs(part, i);
    RotationIs(part, j);
  }

  // ---- the whole read ----

  /** A space as the router holds it: the number of partitions it was created with, and the list of them. */
  datatype Space = Space(hash: string -> nat, partitionNum: nat, partitions: seq<Partition>)

  /** The hash of an id modulo the number of partitions is a place in the list. */
  predicate Indexed(space: Space) {
    0 < space.partitionNum <= |space.partitions|
  }

  ghost predicate Served(space: Space) {
    Indexed(space) && forall p | 0 <= p < |space.partitions| :: Rotates(space.partitions[p])
  }

  /** Every id finds its partition, whatever the hash, exactly when the list is no shorter than the number. */
  lemma InRangeIff(partitionNum: nat, length: nat)
    requires partitionNum > 0
    ensures (forall hash: string -> nat, id: string :: hash(id) % partitionNum < length) <==> partitionNum <= length
  {
    if length < partitionNum {
      var hash := (id: string) => length;
      assert !(hash("") % partitionNum < length);
    }
  }

  /** Filling the list of partition connections, one for each partition of the space, in order. */
  method ConnectAll(hash: string -> nat, partitionNum: nat, placed: seq<Placement.Partition>,
                    start: nat -> nat, ask: (nat, nat, nat, seq<string>) -> Reply)
      returns (space: Space)
    ensures space.hash == hash && space.partitionNum == partitionNum && |space.partitions| == |placed|
    ensures forall p | 0 <= p < |placed| ::
              space.partitions[p].replicas == |placed[p].replicas| && space.partitions[p].start == start(p)
    ensures forall p, attempt, replica, keys | 0 <= p < |placed| ::
              space.partitions[p].ask(attempt, replica, keys) == ask(p, attempt, replica, keys)
  {
    var partitions: seq<Partition> := [];
    for p := 0 to |placed|
      invariant |partitions| == p
      invariant forall k | 0 <= k < p ::
                  partitions[k].replicas == |placed[k].replicas| && partitions[k].start == start(k)
      invariant forall k, attempt, replica, keys | 0 <= k < p ::
                  partitions[k].ask(attempt, replica, keys) == ask(k, attempt, replica, keys)
    {
      var answer := (attempt: nat, replica: nat, keys: seq<string>) => ask(p, attempt, replica, keys);
      partitions := partitions + [Partition(|placed[p].replicas|, start(p), answer)];
    }
    return Space(hash, partitionNum, partitions);
  }

  /** A space placed by the master has exactly as many partitions as its number says, each with all its replicas. */
  lemma PlacedServed(space: Space, placed: seq<Placement.Partition>, idle: seq<Placement.Replica>, r: nat)
    requires space.partitionNum > 0 && r > 0
    requires |placed| == space.partitionNum && Placement.Assigned(placed, idle, r)
    requires |space.partitions| == |placed| && forall p | 0 <= p < |placed| ::
               space.partitions[p].replicas == |placed[p].replicas| && space.partitions[p].start < r
    ensures Served(space) && |space.partitions| == space.partitionNum
    ensures forall p | 0 <= p < |space.partitions| :: space.partitions[p].replicas == r
  {
    forall p | 0 <= p < |space.partitions|
      ensures space.partitions[p].replicas == r
    {
      assert Placement.Row(placed[p], idle, p, r);
    }
  }

  /** From the idle nodes of a create request to the router: the space is served whenever it could be placed. */
  method RoutePlaced(hash: string -> nat, idle: seq<Placement.Replica>, p: nat, r: nat,
                     start: nat -> nat, ask: (nat, nat, nat, seq<string>) -> Reply)
      returns (space: Option<Space>)
    requires p > 0 && r > 0 && forall k :: start(k) < r
    ensures space.Some? <==> |idle| >= p * r
    ensures space.Some? ==> Served(space.value) && |space.value.partitions| == space.value.partitionNum == p
    ensures space.Some? ==> forall k | 0 <= k < p :: space.value.partitions[k].replicas == r
  {
    var placed := Placement.CreatePartitions(idle, p, r);
    if placed.None? {
      return None;
    }
    var connected := ConnectAll(hash, p, placed.value, start, ask);
    PlacedServed(connected, placed.value, idle, r);
    return Some(connected);
  }

  /** What a request gets for an id: the answer of the partition of its hash to its whole group. */
  function AnswerTo(space: Space, ids: seq<string>, id: string): (answer: Answer)
    requires Indexed(space)
    ensures answer.Got? ==> answer.doc.id == id
  {
    var n := space.partitionNum;
    var p := space.hash(id) % n;
    Outcome(space.partitions[p], Group(space.hash, n, ids, p), id)
  }

  /** The first replica of the partition of its hash that responds has this document for the id. */
  ghost predicate Returned(space: Space, ids: seq<string>, id: string, doc: Doc)
    requires Indexed(space)
  {
    var n := space.partitionNum;
    var p := space.hash(id) % n;
    Returns(space.partitions[p], Group(space.hash, n, ids, p), id, doc)
  }

  /** That partition has no document for the id, and this is why. */
  ghost predicate NotReturned(space: Space, ids: seq<string>, id: string, msg: string)
    requires Indexed(space)
  {
    var n := space.partitionNum;
    var p := space.hash(id) % n;
    Misses(space.partitions[p], Group(space.hash, n, ids, p), id, msg)
  }

  lemma AnswerToIs(space: Space, ids: seq<string>, id: string, doc: Doc, msg: string)
    requires Indexed(space)
    ensures AnswerTo(space, ids, id) == Got(doc) <==> Returned(space, ids, id, doc)
    ensures AnswerTo(space, ids, id) == Missed(msg) <==> NotReturned(space, ids, id, msg)
  {
    var n := space.partitionNum;
    var p := space.hash(id) % n;
    OutcomeReturns(space.partitions[p], Group(space.hash, n, ids, p), id, doc);
    OutcomeMisses(space.partitions[p], Group(space.hash, n, ids, p), id, msg);
  }

  function Answers(space: Space, ids: seq<string>): string -> Answer
    requires Indexed(space)
  {
    id => AnswerTo(space, ids, id)
  }

  ghost function Among(space: Space, ids: seq<string>, done: set<nat>): set<string>
    requires Indexed(space)
  {
    set id | id in ids && space.hash(id) % space.partitionNum in done
  }

  /** Merging the partitions' maps: all ids are answered, each by its own partition. */
  method Scatter(space: Space, ids: seq<string>, groups: map<nat, seq<string>>)
      returns (errs: map<string, string>, docs: map<string, Doc>)
    requires Served(space)
    requires Grouped(space.hash, space.partitionNum, ids, groups) && forall p | p in groups :: p < space.partitionNum
    ensures Split(errs, docs, ToSet(ids), Answers(space, ids))
  {
    errs, docs := map[], map[];
    var todo := groups.Keys;
    ghost var done: set<nat> := {};
    while todo != {}
      invariant todo + done == groups.Keys && todo !! done
      invariant Split(errs, docs, Among(space, ids, done), Answers(space, ids))
      decreases |todo|
    {
      var p :| p in todo;
      var oneErr, oneDocs, _ := GetDocs(space.partitions[p], groups[p]);
      SplitMerge(space, ids, done, p, errs, docs, oneErr, oneDocs);
      errs := errs + oneErr;
      docs := docs + oneDocs;
      todo := todo - {p};
      done := done + {p};
    }
    AllAmong(space, ids, groups);
  }

  lemma SplitMerge(space: Space, ids: seq<string>, done: set<nat>, p: nat,
                   errs: map<string, string>, docs: map<string, Doc>,
                   oneErr: map<string, string>, oneDocs: map<string, Doc>)
    requires Served(space) && p < space.partitionNum && p !in done
    requires Split(errs, docs, Among(space, ids, done), Answers(space, ids))
    requires var group := Group(space.hash, space.partitionNum, ids, p);
             Split(oneErr, oneDocs, ToSet(group), Outcomes(space.partitions[p], group))
    ensures Split(errs + oneErr, docs + oneDocs, Among(space, ids, done + {p}), Answers(space, ids))
  {
    var n := space.partitionNum;
    var group := Group(space.hash, n, ids, p);
    forall id
      ensures Placed(errs + oneErr, docs + oneDocs, id in Among(space, ids, done + {p}), AnswerTo(space, ids, id), id)
    {
      GroupsPartition(space.hash, n, ids, p, id);
      assert Placed(errs, docs, id in Among(space, ids, done), AnswerTo(space, ids, id), id);
      assert Placed(oneErr, oneDocs, id in ToSet(group), Outcome(space.partitions[p], group, id), id);
    }
  }

  lemma AllAmong(space: Space, ids: seq<string>, groups: map<nat, seq<string>>)
    requires Indexed(space) && Grouped(space.hash, space.partitionNum, ids, groups)
    ensures Among(space, ids, groups.Keys) == ToSet(ids)
  {
    forall id | id in ids
      ensures space.hash(id) % space.partitionNum in groups
    {
      GroupsPartition(space.hash, space.partitionNum, ids, space.hash(id) % space.partitionNum, id);
    }
  }

  /** The documents and the failures of a list of answers, in order. */
  function DocsOf(ids: seq<string>, answer: string -> Answer): seq<Doc> {
    if ids == [] then []
    else DocsOf(ids[..|ids| - 1], answer) +
         (var a := answer(ids[|ids| - 1]); if a.Got? then [a.doc] else [])
  }

  function FailedOf(ids: seq<string>, answer: string -> Answer): seq<Failed> {
    if ids == [] then []
    else FailedOf(ids[..|ids| - 1], answer) +
         (var a := answer(ids[|ids| - 1]); if a.Missed? then [Failed(ids[|ids| - 1], a.msg)] else [])
  }

  function Ids<T>(items: seq<T>, idOf: T -> string): seq<string> {
    seq(|items|, i requires 0 <= i < |items| => idOf(items[i]))
  }

  lemma IdsSnoc<T>(items: seq<T>, item: T, idOf: T -> string)
    ensures Ids(items + [item], idOf) == Ids(items, idOf) + [idOf(item)]
  {
  }

  /** Each id of the request is the id of exactly one document or failure of the response. */
  lemma {:induction false} AnsweredOnce(ids: seq<string>, answer: string -> Answer)
    requires forall id :: answer(id).Got? ==> answer(id).doc.id == id
    ensures multiset(Ids(DocsOf(ids, answer), DocId)) + multiset(Ids(FailedOf(ids, answer), FailedId)) == multiset(ids)
  {
    if ids != [] {
      var front, last := ids[..|ids| - 1], ids[|ids| - 1];
      AnsweredOnce(front, answer);
      assert ids == front + [last];
      if answer(last).Got? {
        IdsSnoc(DocsOf(front, answer), answer(last).doc, DocId);
        assert FailedOf(ids, answer) == FailedOf(front, answer);
      } else {
        IdsSnoc(FailedOf(front, answer), Failed(last, answer(last).msg), FailedId);
        assert DocsOf(ids, answer) == DocsOf(front, answer);
      }
    }
  }

  function GotAt(ids: seq<string>, answer: string -> Answer): nat -> bool {
    (i: nat) => i < |ids| && answer(ids[i]).Got?
  }

  function MissedAt(ids: seq<string>, answer: string -> Answer): nat -> bool {
    (i: nat) => i < |ids| && answer(ids[i]).Missed?
  }

  function IsDoc(answer: string -> Answer): (string, Doc) -> bool {
    (id, doc) => answer(id) == Got(doc)
  }

  function IsFailure(answer: string -> Answer): (string, Failed) -> bool {
    (id: string, failed: Failed) => failed.id == id && answer(id) == Missed(failed.msg)
  }

  /** The response has the documents of the ids that have one, and the failures of the others, in their order. */
  lemma {:induction false} AnsweredInOrder(ids: seq<string>, answer: string -> Answer, m: nat)
    requires m <= |ids|
    ensures Chosen(DocsOf(ids[..m], answer), ids[..m], GotAt(ids, answer), IsDoc(answer))
    ensures Chosen(FailedOf(ids[..m], answer), ids[..m], MissedAt(ids, answer), IsFailure(answer))
  {
    if m > 0 {
      var front, last := ids[..m - 1], ids[m - 1];
      var a := answer(last);
      AnsweredInOrder(ids, answer, m - 1);
      assert ids[..m] == front + [last] && ids[..m][..m - 1] == front;
      ChosenNext(DocsOf(front, answer), front, last, if a.Got? then [a.doc] else [], GotAt(ids, answer), IsDoc(answer));
      ChosenNext(FailedOf(front, answer), front, last, if a.Missed? then [Failed(last, a.msg)] else [],
                 MissedAt(ids, answer), IsFailure(answer));
    }
  }

  lemma {:induction false} FailedEmptyIff(ids: seq<string>, answer: string -> Answer)
    ensures FailedOf(ids, answer) == [] <==> forall id | id in ids :: answer(id).Got?
  {
    if ids != [] {
      var front, last := ids[..|ids| - 1], ids[|ids| - 1];
      FailedEmptyIff(front, answer);
      assert ids == front + [last];
    }
  }

  lemma NoneFailedIff(ids: seq<string>, errs: map<string, string>, docs: map<string, Doc>, answer: string -> Answer)
    requires Split(errs, docs, ToSet(ids), answer)
    ensures FailedOf(ids, answer) == [] <==> |errs| == 0
  {
    FailedEmptyIff(ids, answer);
    assert forall id :: Placed(errs, docs, id in ToSet(ids), answer(id), id);
    if |errs| > 0 {
      var id :| id in errs;
      assert Placed(errs, docs, id in ToSet(ids), answer(id), id);
    }
  }

  const EMPTY_DOC := Doc("", "")

  /**
   The answer to a read of distinct ids, built from the merged maps. A document is moved out of
   its map, which leaves an empty one behind; no id is looked up twice, and none is in neither map.
   */
  method Assemble(ids: seq<string>, errs: map<string, string>, docs: map<string, Doc>, ghost answer: string -> Answer)
      returns (code: int, documents: seq<Doc>, failed: seq<Failed>)
    requires Distinct(ids) && Split(errs, docs, ToSet(ids), answer)
    ensures documents == DocsOf(ids, answer) && failed == FailedOf(ids, answer)
    ensures code == if failed == [] then 0 else 103
  {
    documents, failed := [], [];
    var left := docs;
    for i := 0 to |ids|
      invariant documents == DocsOf(ids[..i], answer) && failed == FailedOf(ids[..i], answer)
      invariant left.Keys == docs.Keys && forall id | id in docs && id !in ids[..i] :: left[id] == docs[id]
    {
      var key := ids[i];
      assert ids[..i + 1][..i] == ids[..i] && ids[..i + 1] == ids[..i] + [key];
      assert key !in ids[..i];
      assert Placed(errs, docs, key in ToSet(ids), answer(key), key);
      if key in errs {
        failed := failed + [Failed(key, errs[key])];
      } else if key in left {
        documents := documents + [left[key]];
        left := left[key := EMPTY_DOC];
      } else {
        assert false;
      }
    }
    assert ids[..|ids|] == ids;
    NoneFailedIff(ids, errs, docs, answer);
    code := if |errs| > 0 then 103 else 0;
  }

  /** The same response for every id of a refused request. */
  method Refuse(ids: seq<string>, msg: string) returns (failed: seq<Failed>)
    ensures failed == FailedOf(ids, Refusing(msg))
    ensures |failed| == |ids| && forall i | 0 <= i < |ids| :: failed[i] == Failed(ids[i], msg)
  {
    failed := [];
    for i := 0 to |ids|
      invariant failed == FailedOf(ids[..i], Refusing(msg))
      invariant |failed| == i && forall j | 0 <= j < i :: failed[j] == Failed(ids[j], msg)
    {
      failed := failed + [Failed(ids[i], msg)];
      assert ids[..i + 1][..i] == ids[..i];
    }
    assert ids[..|ids|] == ids;
  }

  /**
   A read: 101 for an unknown space and 102 for a list of ids that is refused, with a failure for
   every id; otherwise every id is answered once, in order, by the partition of its hash.
   */
  method Get(space: Option<Space>, missing: string, ids: seq<string>, longIds: bool, status: string -> string)
      returns (code: int, msg: string, documents: seq<Doc>, failed: seq<Failed>)
    requires space.Some? ==> Served(space.value)
    ensures multiset(Ids(documents, DocId)) + multiset(Ids(failed, FailedId)) == multiset(ids)
    ensures code == 101 <==> space.None?
    ensures code == 102 <==> space.Some? && !Acceptable(ids, longIds, status)
    ensures code == 102 ==>
              exists i, check :: FaultAt(ids, longIds, status, i, check) && msg == Message(check, status)
    ensures code == 101 ==> msg == missing
    ensures code in {101, 102} ==>
              documents == [] && |failed| == |ids| && forall i | 0 <= i < |ids| :: failed[i] == Failed(ids[i], msg)
    ensures code !in {101, 102} ==>
              && documents == DocsOf(ids, Answers(space.value, ids))
              && failed == FailedOf(ids, Answers(space.value, ids))
              && code == (if failed == [] then 0 else 103)
              && (msg == "" <==> code == 0)
    ensures code !in {101, 102} ==>
              var answer := Answers(space.value, ids);
              && Chosen(documents, ids, GotAt(ids, answer), IsDoc(answer))
              && Chosen(failed, ids, MissedAt(ids, answer), IsFailure(answer))
    ensures code !in {101, 102} ==> AnsweredRight(space.value, ids, documents, failed)
    ensures space.Some? && Acceptable(ids, longIds, status) && AllReturned(space.value, ids) ==>
              && code == 0 && |documents| == |ids|
              && forall i | 0 <= i < |ids| :: Returned(space.value, ids, ids[i], documents[i])
  {
    if space.None? {
      failed := Refuse(ids, missing);
      AllMissed(ids, missing);
      return 101, missing, [], failed;
    }
    var check := CheckPbIds(ids, longIds, status);
    if check != Accepted {
      msg := Message(check, status);
      failed := Refuse(ids, msg);
      AllMissed(ids, msg);
      return 102, msg, [], failed;
    }
    var groups := HashKeys(space.value.hash, space.value.partitionNum, ids);
    var errs, docs := Scatter(space.value, ids, groups);
    ghost var answer := Answers(space.value, ids);
    code, documents, failed := Assemble(ids, errs, docs, answer);
    msg := if code == 0 then "" else "There is some id that failed to get. failed ids :";
    AnsweredOnce(ids, answer);
    AnsweredInOrder(ids, answer, |ids|);
    assert ids[..|ids|] == ids;
    AnswersRight(space.value, ids);
    if AllReturned(space.value, ids) {
      AllGot(space.value, ids);
    }
  }

  /** The documents are exactly those that replicas returned for ids of the request, and the failures those missed. */
  ghost predicate AnsweredRight(space: Space, ids: seq<string>, documents: seq<Doc>, failed: seq<Failed>)
    requires Indexed(space)
  {
    && (forall doc :: doc in documents <==> exists id | id in ids :: Returned(space, ids, id, doc))
    && (forall f :: f in failed <==> f.id in ids && NotReturned(space, ids, f.id, f.msg))
  }

  /** Every id has a document in the first response of its partition. */
  ghost predicate AllReturned(space: Space, ids: seq<string>)
    requires Indexed(space)
  {
    forall id | id in ids :: exists doc :: Returned(space, ids, id, doc)
  }

  lemma {:induction false} InDocsIff(ids: seq<string>, answer: string -> Answer, doc: Doc)
    ensures doc in DocsOf(ids, answer) <==> exists id | id in ids :: answer(id) == Got(doc)
  {
    if ids != [] {
      var front, last := ids[..|ids| - 1], ids[|ids| - 1];
      InDocsIff(front, answer, doc);
      assert ids == front + [last] && last in ids;
    }
  }

  lemma {:induction false} InFailedIff(ids: seq<string>, answer: string -> Answer, f: Failed)
    ensures f in FailedOf(ids, answer) <==> f.id in ids && answer(f.id) == Missed(f.msg)
  {
    if ids != [] {
      var front, last := ids[..|ids| - 1], ids[|ids| - 1];
      InFailedIff(front, answer, f);
      assert ids == front + [last];
    }
  }

  lemma AnswersRight(space: Space, ids: seq<string>)
    requires Indexed(space)
    ensures AnsweredRight(space, ids, DocsOf(ids, Answers(space, ids)), FailedOf(ids, Answers(space, ids)))
  {
    var answer := Answers(space, ids);
    forall doc
      ensures doc in DocsOf(ids, answer) <==> exists id | id in ids :: Returned(space, ids, id, doc)
    {
      InDocsIff(ids, answer, doc);
      forall id
        ensures answer(id) == Got(doc) <==> Returned(space, ids, id, doc)
      {
        AnswerToIs(space, ids, id, doc, "");
      }
    }
    forall f
      ensures f in FailedOf(ids, answer) <==> f.id in ids && NotReturned(space, ids, f.id, f.msg)
    {
      InFailedIff(ids, answer, f);
      AnswerToIs(space, ids, f.id, EMPTY_DOC, f.msg);
    }
  }

  lemma {:induction false} DocsAll(ids: seq<string>, answer: string -> Answer)
    requires forall id | id in ids :: answer(id).Got?
    ensures |DocsOf(ids, answer)| == |ids| && forall i | 0 <= i < |ids| :: Got(DocsOf(ids, answer)[i]) == answer(ids[i])
  {
    if ids != [] {
      var front, last := ids[..|ids| - 1], ids[|ids| - 1];
      assert ids == front + [last];
      DocsAll(front, answer);
    }
  }

  /** When every id has a document, the response has all of them, in the order of the request. */
  lemma AllGot(space: Space, ids: seq<string>)
    requires Indexed(space) && AllReturned(space, ids)
    ensures var answer := Answers(space, ids); FailedOf(ids, answer) == [] && |DocsOf(ids, answer)| == |ids|
    ensures var answer := Answers(space, ids);
            forall i | 0 <= i < |ids| :: Returned(space, ids, ids[i], DocsOf(ids, answer)[i])
  {
    var answer := Answers(space, ids);
    forall id | id in ids
      ensures answer(id).Got?
    {
      var doc :| Returned(space, ids, id, doc);
      AnswerToIs(space, ids, id, doc, "");
    }
    FailedEmptyIff(ids, answer);
    DocsAll(ids, answer);
    forall i | 0 <= i < |ids|
      ensures Returned(space, ids, ids[i], DocsOf(ids, answer)[i])
    {
      AnswerToIs(space, ids, ids[i], DocsOf(ids, answer)[i], "");
    }
  }

  lemma AllMissed(ids: seq<string>, msg: string)
    ensures multiset(Ids(FailedOf(ids, Refusing(msg)), FailedId)) == multiset(ids)
  {
    AnsweredOnce(ids, Refusing(msg));
    NoDocs(ids, msg);
  }

  lemma {:induction false} NoDocs(ids: seq<string>, msg: string)
    ensures DocsOf(ids, Refusing(msg)) == []
  {
    if ids != [] {
      NoDocs(ids[..|ids| - 1], msg);
    }
  }
}
