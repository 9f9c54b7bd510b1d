# SimSearch, modelled and proved in Dafny

SimSearch is a distributed vector-search service: a Go master that keeps its metadata in etcd,
C++ partition servers (PS) replicated by raft, and a C++ router. This project models the parts of it
whose correctness spans several operations or several processes, and proves what they keep over every
input and every run. `dafny verify dfyconfig.toml` checks everything.

| modules | what they model |
|---|---|
| `PsNode` | the space state of one partition server: flag, request in memory, request file |
| `Placement` | idle nodes, dealing them out to partitions, decoding a failed task index |
| `Ddl`, `DdlScan`, `DdlExclusive`, `DdlSafety`, `DdlExact`, `DdlFailed`, `DdlRollback`, `DdlRollbackExact` | `createSpace` and `deleteSpace` as a transition system over etcd, the lock, the network and the servers; the scans for idle nodes; exclusive use of nodes; agreement of servers and etcd; the exact condition for it; the exact condition for never choosing a failed node; the undoing of a failed create and the exact condition for it |
| `Pool` | the bounded worker pool as interleaved steps of goroutines over a channel |
| `Engine`, `EngineReopen`, `EngineObject` | the log-structured engine as a value (with crashes after any byte), reopening it, and the object with its loops |
| `RaftApply` | framing of log entries, the apply loop, agreement of replicas |
| `SlotMap`, `SpaceManager` | the router's tombstoned hash index and its slot table |
| `Gather` | a read through the router: check, split by hash, ask replicas in turn, merge, answer |
| `RaftClient` | the double-buffered raft client with its retries, upserts, replica connections |
| `Identity` | node ids: the counter in etcd and their adoption by servers |
| `Text`, `Keys`, `RangeEnd`, `StringArray`, `Bytes` | keys and codecs |
| `Arithmetic`, `Wrappers` | shared facts and types |

## Main results

- **Space protocol.** For every interleaving of handlers, late or lost requests, server failures, restarts and
  master crashes, with the code as written: live spaces never share a node (`DdlExclusive.ExclusiveAlways`). A
  create reads the registered nodes, then the failed ones, then the spaces, at three moments: the nodes it
  chooses are distinct, were registered at the first, not failed at the second and in no space at the third
  (`DdlExclusive.ScanIdle`, `DdlScan.GetIdlePsNodes`). It never chooses a node recorded as failed exactly when
  `deleteSpace` stops without the lock (`DdlFailed.NeverChoosesFailedIff`); as written it can
  (`DdlFailed.FailedChosen`). Whenever DDL is enabled the servers hold exactly what etcd lists, outside the
  nodes recorded as failed (`DdlSafety.DdlSafe`). This agreement, unlike exclusivity, needs two things that
  the code does not do: `deleteSpace` must stop when `TryLock` fails (`master/clusterapi/space_api.go:368`
  ignores it), and a failed task must be decoded to its own node, which the division by `PartitionNum` (lines
  95, 125 and 192) does only when the counts are equal or one of them is 1. `DdlExact.DdlSafeIff` proves that
  these two conditions are exactly what agreement needs, for every accepted pair of counts. A create that
  fails, with failures that can be decoded, has by the time its handler ends asked every node it chose to
  delete the space (`DdlRollback.RolledBack`) and recorded every failure (`DdlRollback.FailuresRecorded`), as
  written. A failed index that is out of range stops the handler before it undoes anything, so every failed
  create is undone, in every run, exactly when the division is by the replica count or the counts are equal
  (`DdlRollbackExact.AlwaysUndoneIff`). With the lock and safe counts no node then holds the space, in any
  later state, unless it is recorded as failed (`DdlRollback.RollbackClean`). While DDL is disabled and no
  handler is past its check, neither the metadata nor the failed nodes in etcd change any more, as written
  (`DdlSafety.FrozenForever`).
- **Engine.** After a crash at any byte, a fresh engine holds the earlier contents and exactly the entries
  whose bytes all reached the files (`Engine.CrashRecovery`), and the same holds over any run of batches,
  crashes and reopens whose additions start at a record boundary of the index file
  (`EngineReopen.EventsCorrect`). A torn index record is dropped from the index but not from the file, so
  entries added after reopening are found again exactly when the file ended at a record boundary
  (`EngineReopen.DurableIffAligned`).
- **Replication.** Replicas that applied the same number of entries and are both running or both halted have
  equal engines, whether the data came from a closure or from a parsed frame, over every run of leader
  changes, lost closures and restarts (`RaftApply.ReplicasAgree`), exactly when no request of 2^32 bytes or
  more can be framed (`RaftApply.AlwaysAgreeIff`). What a running replica holds is the documents of the first
  writes committed, each added in order to an empty engine (`RaftApply.EnginesHoldWrites`).
- **Worker pool.** Every interleaving ends, makes each call once, has no more calls in flight than the limit
  or the tasks, and returns the outcome of each call in its place (`Pool.PoolCorrect`); some run has as many
  as both allow (`Pool.LimitReached`); a limit below 1 runs nothing (`Pool.NoWorkers`).
- **Router.** The index is a map in which a key can be put exactly when its bucket is free
  (`SlotMap.RunRefines`). The slot table is sound in every run exactly when it has at most 65536 slots
  (`SpaceManager.AlwaysSoundIff`). An addition succeeds exactly when the key is not in use and a slot is empty
  or can be added, and takes the first such slot (`SpaceManager.AddedIff`). A space of the start-up list is
  findable exactly when it is the first of its bucket and its number is below 32768
  (`SpaceManager.LoadedFoundIff`). An added space is findable exactly when its bucket was free and its slot
  number is below 32768 (`SpaceManager.AddedFoundIff`), and otherwise its slot is lost for good
  (`SpaceManager.StrandedForever`). A space is looked up by its dash key, so an uninterrupted lookup never
  returns another space, over every run of spaces drawn from a set of valid names, exactly when no two of
  these names straddle a dash (`SpaceManager.AlwaysFindsRightIff`). A lookup in two reads returns another
  space exactly when the last change to its slot between them put one there, or nothing changed the slot and
  the space in it has a straddling name (`SpaceManager.LookupOtherIff`). A space placed by the master has a
  partition for every hash (`Gather.RoutePlaced`), and every id of a read is answered once, with the document
  that the first responding replica of the partition of its hash has for it, or else with the reason there is
  none (`Gather.Get`). A key is missing from the errors of an upsert exactly when the last RPC sent for each
  of its documents was acknowledged, within three (`RaftClient.UpsertDocs`); each RPC goes to the leader found
  by the last lookup that connected (`RaftClient.WriteMeaning`).
- **Identities and keys.** Adopted identities are unique in every run, with any number of servers starting at
  once, exactly because the 0 of a failed request is refused (`Identity.AlwaysUniqueIff`). Ids are consecutive
  (`Identity.IdsConsecutive`), and one of at least 1 that a server gets and saves is its identity from then on
  (`Identity.AnswerAdopted`). A registration key parses back exactly when the ip has no colon
  (`Keys.RegisterRoundTripIff`); two spaces share a router key exactly when their names straddle a dash
  (`Keys.DashKeysEqualIff`); a prefix range is exact unless the prefix is empty or is longer than one byte and
  ends in 0xFF (`RangeEnd.GetRangeEndExactIff`); a joined list splits back exactly when no item holds a comma
  and the last is not empty (`StringArray.RoundTripIff`).

## Assumptions

- etcd is an atomic map with a mutex; a lock is lost only by a crash of its holder. Setting
  `/cluster/ddl_disabled` and recording failed nodes succeed (`master/clusterapi/space_api.go:230`, `387` and
  `195` drop the results), and an HTTP request is served at most once. For the record of a failed node this
  bounds the names: its text holds both (lines 194 and 396), `PutOrAppend` refuses a value above 100 KB
  (`master/etcdcluster/etcd_client.go:115`), and the validation of names has no upper bound, so what is said
  of the space protocol is for names with which that text fits. Every other outcome of a call (failure, loss,
  delay, crash) is a choice in the step.
- JSON and protobuf are faithful transport. The hash, the raft log, leader lookups, RPC outcomes, short writes
  and the engine behind raft are parameters: functions, sequences or step choices.
- Bytes of a batch reach the files in the order they are written. Deleting a server's request file succeeds.
- Integers that are stored in a fixed width are encoded in that width (14-byte records, 32-bit frame lengths,
  16-bit slot numbers); loop counters and ids are unbounded.

Where the code and its comments or messages disagree, the model follows the code: the base of the id
counter is 0 and not 1; `Put` of the index refuses when any key of the bucket is in use, not only the same
key; a create that fails on a server leaves its flag set until a restart; start-up pushes all spaces
whatever capacity was reserved.

## Model

| member | source | states |
|---|---|---|
| PsNode.ServeKeepsCoherent | service/ps/local_mata.cc:16-59 | over every sequence of creates, deletes and restarts the request file is exactly the space held, so a restart changes nothing that is held |
| PsNode.CreateAckMeansHeld | service/ps/ps_rpc.cc:58-115 | a create answers 0 exactly when the server was free and now holds the space in memory and file; any other answer leaves what it held |
| PsNode.CreateAnswers | service/ps/ps_rpc.cc:71-114 | 201, 202, 203 or the code of the table, each exactly for its cause; a create that fails once accepted leaves the flag set and nothing held |
| PsNode.DeleteAnswers | service/ps/ps_rpc.cc:117-144 | a delete answers 0 exactly on a server that answers to the name, which is then free; any other answer is 201 and changes nothing |
| PsNode.DeletedOnce | service/ps/ps_rpc.cc:129-132 | so a server that holds nothing refuses every delete, and no delete succeeds twice in a row |
| PsNode.FailedCreateSticks | service/ps/local_mata.cc:121-127 | exactly the accepted creates that then fail leave the flag set with no space |
| PsNode.StuckUntilRestart | service/ps/ps_rpc.cc:71-78 | a server left so refuses every create and delete, and a restart frees it |
| PsNode.Server.constructor | service/ps/local_mata.cc:26-56 | start-up rebuilds memory from the request file, unless the server has no identity yet |
| PsNode.Server.SetCreateSpaceReq | service/ps/local_mata.cc:121-127 | the request is replaced; the flag is set by a named request and never cleared |
| PsNode.Server.DumpCreateSpaceReq | service/ps/local_mata.cc:68-92 | the file is written exactly when a space is named and the write succeeds |
| PsNode.Server.CreateSpace | service/ps/ps_rpc.cc:58-115 | the handler makes the transition `Create`, with its four codes |
| PsNode.Server.DeleteSpace | service/ps/ps_rpc.cc:117-144 | the handler makes the transition `Delete` |
| Placement.GetAllIdlePsKeys | master/entity/replica.go:36-49 | every registered node in none of the maps, each exactly once, and no other |
| Placement.DeserializeNodes | master/entity/replica.go:21-34 | one node per name, that of the first registration |
| Placement.GetAllPsMap | master/entity/space.go:156-167 | a name is in the map exactly when some partition of some space has a replica of that name |
| Placement.PutNames | master/entity/space.go:160-163 | the names of one more list of replicas are added |
| DdlScan.GetIdlePsNodes | master/clusterapi/space_api.go:22-45 | the three scans, each of what etcd held at its own moment, and the maps built from them give an enumeration, without repetition, of exactly the nodes registered at the first, not failed at the second and in no space at the third |
| DdlScan.AddressesApart | master/common/common.go:33-35 | nodes with different addresses have different names in those maps |
| Placement.CreatePartitions | master/clusterapi/space_api.go:207-223 | refused exactly with too few idle nodes; otherwise P partitions numbered 0..P-1, partition k with idle nodes kR..(k+1)R-1 |
| Placement.CollectTasks | master/clusterapi/space_api.go:111-121 | the task list is the replicas, partition by partition |
| Placement.FlattenAssigned | master/clusterapi/space_api.go:214-223 | the tasks of a placed space are the idle nodes it took, in order |
| Placement.DecodeInverse | master/clusterapi/space_api.go:78-89 | replica j of partition k is task kR+j, and dividing by R gives k and j back |
| Placement.DecodeByReplicas | master/clusterapi/space_api.go:192 | dividing by the replica count, every task is decoded to itself |
| Placement.DecodeSecondRow | master/clusterapi/space_api.go:192 | as written, task P is taken for task R whenever both counts exceed 1 |
| Placement.DecodeAsWrittenIff | master/clusterapi/space_api.go:95 | as written, every index is decoded right exactly when P equals R |
| Placement.DecodeNeverWrongIff | master/clusterapi/space_api.go:125 | as written, no index is taken for another task exactly when P equals R or one of them is 1 |
| DdlSafety.StepInv | master/clusterapi/space_api.go:202-259 | every step of every handler, of the servers and of the network keeps the protocol invariant |
| DdlSafety.RunInv | master/clusterapi/space_api.go:345-410 | so does every run |
| DdlExclusive.ScanIdle | master/clusterapi/space_api.go:306-310 | in every state, the nodes a create chooses are the first of the idle list, distinct, were registered when the nodes were read and not failed when the failed nodes were read, and no live space uses them now; the name is not in use |
| DdlExclusive.StepInv | master/clusterapi/space_api.go:202-259 | in every configuration, every step keeps a create that has chosen nodes under the lock and its choice free |
| DdlExclusive.ExclusiveAlways | master/clusterapi/space_api.go:275-320 | over every run of the code as written, or with either repair, every live space has its own distinct nodes and no two live spaces share one |
| DdlSafety.DdlSafe | master/clusterapi/space_api.go:275-320 | over every run with crashes at any step, if deletes need the lock and the counts are safe: while DDL is enabled servers and etcd agree outside failed nodes |
| DdlSafety.HoldingSettled | master/clusterapi/space_api.go:230-257 | wherever the lock holder stops, DDL is disabled or servers and etcd agree |
| DdlSafety.DeliverSlots | service/ps/ps_rpc.cc:71-115 | a request served late acts on its own task only, and an acknowledgement means its effect took place |
| DdlSafety.CreatedAgree | master/clusterapi/space_api.go:247-257 | with every create acknowledged, writing the metadata makes servers and etcd agree |
| DdlSafety.DeletedRound | master/clusterapi/space_api.go:388-395 | once a space is removed from etcd its nodes are free and its delete calls can start |
| DdlSafety.FrozenStep | master/clusterapi/space_api.go:301-305 | with the disabled key set and no handler past its check, no step changes metadata or error nodes |
| DdlSafety.FrozenForever | master/clusterapi/space_api.go:371-375 | nor does any later run, with the code as written |
| DdlExact.MisdecodedDelete | master/clusterapi/space_api.go:395-398 | for every accepted pair of unsafe counts, a failed delete records the wrong node and DDL is enabled over a server that still holds the space |
| DdlExact.UnlockedDelete | master/clusterapi/space_api.go:368 | for every accepted pair of counts, a delete without the lock can enable DDL over the remains of a crashed create |
| DdlExact.DdlSafeIff | master/clusterapi/space_api.go:188-200 | servers and etcd agree in every run exactly when `deleteSpace` stops without the lock and the counts are safe |
| DdlExact.AsWrittenUnsafe | master/clusterapi/space_api.go:368 | with the code as written, every accepted pair of counts has a run in which servers and etcd disagree while DDL is enabled |
| DdlFailed.StepCurrent | master/clusterapi/space_api.go:24-30 | if deletes need the lock, every step keeps what the lock holder has read of failed nodes true |
| DdlFailed.ScanHealthy | master/clusterapi/space_api.go:41-43 | and then the nodes it chooses are not recorded as failed at that moment |
| DdlFailed.FailedChosen | master/clusterapi/space_api.go:368 | for every accepted pair of counts, a delete without the lock can fail between the reads of a create, which then chooses a node recorded as failed that still holds the deleted space |
| DdlFailed.NeverChoosesFailedIff | master/clusterapi/space_api.go:22-45 | for every accepted pair of counts, no run chooses a node recorded as failed exactly when `deleteSpace` stops without the lock |
| DdlRollback.RolledBack | master/clusterapi/space_api.go:231-257 | in every configuration and from every state: a create whose calls fail, so that they can be decoded, or whose metadata cannot be written, has sent a delete to every node of the space by the time its handler ends |
| DdlRollback.FailuresRecorded | master/clusterapi/space_api.go:188-200 | in every configuration and from every state: after a round of calls with failures that can be decoded, each failure is on record, under the node it is decoded to, by the time its handler ends |
| DdlRollback.StepTrack | master/clusterapi/space_api.go:239-245 | every step keeps at most one create under way to each node of a space, and a node whose delete was acknowledged free of it |
| DdlRollback.RollbackClean | master/clusterapi/space_api.go:239-257 | if deletes need the lock and the counts are safe: once a failed create is undone, then and in every later state no node of the space holds it unless recorded as failed; with every delete acknowledged, none at all |
| DdlRollback.GoneForever | master/clusterapi/space_api.go:301-305 | with DDL disabled and no handler past its check, a node that is free of a space and has no create of it under way stays so |
| DdlRollbackExact.NotUndone | master/clusterapi/space_api.go:95 | for every accepted pair of different counts, as written, some run loses one create call whose index is out of range, and its handler ends without a single delete sent |
| DdlRollbackExact.AlwaysUndoneIff | master/clusterapi/space_api.go:91-101 | every failed create is undone in every run exactly when a failed index is divided by the replica count or the counts are equal |
| Pool.StepInv | master/utils/concurrent/concurrent.go:18-34 | every step of main and workers keeps the invariant on channel, calls and slices |
| Pool.StepMeasure | master/utils/concurrent/concurrent.go:22-34 | every step decreases a measure, so every interleaving ends |
| Pool.NeverStuck | master/utils/concurrent/concurrent.go:29-34 | until it has returned, the pool can take a step |
| Pool.PoolCorrect | master/utils/concurrent/concurrent.go:7-36 | bounded length, no more calls in flight than tasks or than a limit of at least 1, no index called twice, no deadlock, and on return every slot holds what the one call for its index came back with |
| Pool.LimitReached | master/utils/concurrent/concurrent.go:18-28 | for every job with a limit of at least 1, some run has exactly min(limit, n) calls in flight |
| Pool.ReturnedComplete | master/utils/concurrent/concurrent.go:34-35 | after the wait every index has been called exactly once and its slots hold what that call came back with |
| Pool.NoWorkers | master/utils/concurrent/concurrent.go:18 | with a limit below 1 nothing is called and nothing is filled in |
| Engine.RecordRoundTrip | engine/engine.cc:118-120 | a 14-byte record decodes to the key, offset and length encoded, negative numbers included |
| Engine.ReplayEncoded | engine/engine.cc:80-93 | replaying the records gives the index they mean, on top of the index already there |
| Engine.ReadIs | engine/engine.cc:173-190 | a read gives the bytes of the file from the offset on, and zeros past its end |
| Engine.AddShort | engine/engine.cc:110-129 | an entry whose write is cut short changes nothing a reader sees |
| Engine.AddWhole | engine/engine.cc:109-135 | an entry written whole is added, and every other key keeps its value |
| Engine.AddAllCorrect | engine/engine.cc:99-138 | after a batch with any short writes the contents are the old ones with the entries before the first short write, and success is reported exactly when that is all |
| Engine.RunCorrect | engine/engine.cc:173-190 | over any run of batches a key has the value last fully added |
| Engine.ExtentsDisjoint | engine/engine.cc:131-132 | extents of different keys do not overlap and lie below the raw offset |
| Engine.ReloadValid | engine/engine.cc:66-93 | a fresh engine on the same files has the same index, count and contents |
| Engine.WholeBatchStaysClean | engine/engine.cc:131-135 | whole writes leave no bytes beyond the offsets |
| Engine.SnapshotIff | engine/engine.cc:192-210 | a snapshot loaded into a fresh engine gives the same engine, offsets included, exactly when no short write left bytes behind |
| Engine.LoadOverIff | engine/engine.cc:80-93 | loading into a used engine gives the right index exactly when it had no other keys |
| Engine.CrashIsShortWrite | engine/engine.cc:109-129 | a crash after k bytes leaves the files of a batch cut short there |
| Engine.AddedIsSurvivors | engine/engine.cc:105-136 | the entries such a batch adds are those all of whose bytes were written |
| Engine.CrashRecovery | engine/engine.cc:66-93 | for every k, opening the files after a crash at byte k gives the earlier contents with exactly the entries all of whose bytes were written |
| EngineReopen.TornSwallows | engine/engine.cc:77-78 | a torn record swallows the start of the next one, and the key just added is lost at the next reopen |
| EngineReopen.DurableIffAligned | engine/engine.cc:76-93 | what is added after a reopen is found by the next one exactly when the index file ended at a record boundary |
| EngineReopen.AddingEvent | engine/engine.cc:66-93 | on a sound engine, a batch, or a crash at any byte of one followed by a reopen, adds to the contents exactly the entries that last |
| EngineReopen.ReopenKeeps | engine/engine.cc:76-93 | reopening keeps the contents, whether or not the index file ends at a record boundary |
| EngineReopen.EventsCorrect | engine/engine.cc:66-138 | over any run of batches, crashes, stops and reopens whose additions each start at a record boundary, a key has the value last added for good |
| EngineObject.LogEngine.constructor | engine/engine.h:49-52 | a new engine object has zero offsets and an empty index |
| EngineObject.LogEngine.CreatOrLoad | engine/engine.cc:44-97 | the files, or the snapshot in their place, are loaded; a file that does not open leaves offsets and index as they were, and a record that cannot be read ends the replay there |
| EngineObject.LogEngine.ReplayRecords | engine/engine.cc:80-93 | the loop replays the records onto the index, all of them or up to the first that cannot be read |
| EngineObject.LogEngine.AddEntry | engine/engine.cc:109-135 | one round of the loop: data, then record, then index, stopping at a short write |
| EngineObject.LogEngine.BatchAdd | engine/engine.cc:99-138 | the loop over lengths and one payload does what `AddAll` does with the entries they stand for |
| EngineObject.EntriesAre | engine/engine.cc:105-108 | the entries of a batch have its keys and lengths |
| EngineObject.EntriesCut | engine/engine.cc:105-115 | the values of the first n entries put together are the start of the payload |
| EngineObject.LogEngine.Get | engine/engine.cc:173-190 | the contents at the key, or nothing |
| EngineObject.LogEngine.Snapshot | engine/engine.cc:192-210 | the files copied give a fresh engine the same contents |
| EngineObject.LogEngine.Delete | engine/engine.cc:212-231 | what is left is what opening two empty files gives |
| Bytes.IntRoundTrip | engine/engine.cc:89-91 | signed integers of any width survive little-endian two's complement |
| Bytes.LittleEndianAt | engine/engine.cc:118-120 | byte i of an integer in a file is its digit of 256^i |
| Bytes.BigRoundTrip | raft_store/raft_store.cc:85 | a number in network order reads back modulo the width |
| Bytes.BigEndianAt | raft_store/raft_store.cc:85 | byte i from the end of a number in network order is its digit of 256^i |
| RaftApply.FrameRoundTripIff | raft_store/raft_store.cc:84-93 | parsing undoes framing, and the data alone is right, exactly for requests below 2^32 bytes |
| RaftApply.Block.constructor | raft_store/raft_store.cc:11 | a new replica is no leader and has applied nothing |
| RaftApply.Block.Write | raft_store/raft_store.cc:68-106 | a leader proposes a frame that parses back to request and data; others, and unserializable requests, propose nothing |
| RaftApply.Block.OnApply | raft_store/raft_store.cc:200-300 | the loop over closures and parsed entries adds the data of the entries, in order, to the engine there was, up to k or to the entry at which a request cannot be read, a document cannot be parsed or an addition fails, and changes nothing else |
| RaftApply.ApplyUpToInStep | raft_store/raft_store.cc:204-283 | from closure or frame, applying a batch takes a replica where replaying the log takes it |
| RaftApply.StepInv | raft_store/raft_store.cc:68-106 | writes, batches, leader changes, lost closures and restarts keep the group invariant |
| RaftApply.ReplicasAgree | raft_store/raft_store.cc:200-300 | over every run, replicas with equal applied counts and equal status (running or halted) have equal engines, whether a closure was still there or lost, none passes an entry where another halted, and no acknowledged entry fails anywhere |
| RaftApply.EnginesHoldWrites | raft_store/raft_store.cc:240-283 | over every run, the engine of a running replica is the fold of the additions over the documents of the first committed writes, as many as it applied, from an empty engine; that of a halted one ends at the write that failed |
| RaftApply.AlwaysAgreeIff | raft_store/raft_store.cc:85-86 | replicas agree in every run exactly when no request of 2^32 bytes or more is framed |
| SlotMap.StepRefines | utils/one_writer_multi_reader_map.cc:10-56 | each operation answers and acts as on a map in which `Put` succeeds exactly when no key of the bucket is in use |
| SlotMap.InUseIff | utils/one_writer_multi_reader_map.cc:15-19 | a bucket refuses exactly when one of its keys is in use |
| SlotMap.StepKeeps | utils/one_writer_multi_reader_map.cc:20-30 | no operation removes a cell or changes its key |
| SlotMap.RunRefines | utils/one_writer_multi_reader_map.cc:10-56 | over any run all replies are the map's, buckets keep distinct keys and at most one in use, and all cells stay |
| SlotMap.OneWriterMultiReaderMap.constructor | utils/one_writer_multi_reader_map.h:11-12 | empty buckets stand for the empty map |
| SlotMap.OneWriterMultiReaderMap.Put | utils/one_writer_multi_reader_map.cc:10-31 | the two loops make the transition of table and map |
| SlotMap.OneWriterMultiReaderMap.SetCell | utils/one_writer_multi_reader_map.cc:20-30 | the second loop writes the first cell of the key, or appends one |
| SlotMap.OneWriterMultiReaderMap.AnyInUse | utils/one_writer_multi_reader_map.cc:15-19 | the first loop finds whether any cell is in use |
| SlotMap.OneWriterMultiReaderMap.Get | utils/one_writer_multi_reader_map.cc:34-43 | the number of a key in use, a negative one otherwise |
| SlotMap.OneWriterMultiReaderMap.Delete | utils/one_writer_multi_reader_map.cc:45-56 | the key is no longer in use; true exactly if it was |
| SpaceManager.SlotsDistinct | service/router/space_manager.cc:87-100 | two keys in use never share a slot |
| SpaceManager.Do1Sound | service/router/space_manager.cc:77-119 | additions and removals keep every key in use on an in-range slot holding its own connection, within the capacity |
| SpaceManager.LoadSound | service/router/space_manager.cc:64-71 | so does start-up |
| SpaceManager.AliasedSlot | service/router/space_manager.cc:69 | with more than 65536 slots, spaces with distinct valid names can be loaded into the 500 buckets so that a key has the slot of another space |
| SpaceManager.AlwaysSoundIff | service/router/space_manager.cc:64-119 | with 500 buckets and distinct valid names, the table is sound in every run exactly when it has at most 65536 slots |
| SpaceManager.AddedFoundIff | service/router/space_manager.cc:87-103 | an addition that reports success is findable exactly when its bucket was free and its slot number is below 32768 |
| SpaceManager.AddedIff | service/router/space_manager.cc:77-104 | an addition succeeds exactly for a key not in use when a slot is empty or the table can grow; it then changes one slot, the first empty one or a new last one; otherwise nothing |
| SpaceManager.LoadedSlots | service/router/space_manager.cc:65-70 | after start-up the slots hold the spaces of the list, in order |
| SpaceManager.LoadedFoundIff | service/router/space_manager.cc:64-71 | a space of the start-up list is findable exactly when no earlier one has its bucket and its number is below 32768 |
| SpaceManager.AddStrands | service/router/space_manager.cc:87-92 | an addition that reports success without being findable leaves its connection in a slot the index does not lead to |
| SpaceManager.StrandedForever | service/router/space_manager.cc:106-119 | a connection the index does not lead to keeps its slot through every later change |
| SpaceManager.LookupSafe | service/router/space_manager.cc:121-141 | a lookup between whose two reads the slot is not reused gets nothing or the space in the slot at the first read, which is the one asked for or one whose name straddles with it |
| SpaceManager.SlotIsLastTouch | service/router/space_manager.cc:87-112 | after any changes a slot holds what the last change that touched it left there |
| SpaceManager.LookupOtherIff | service/router/space_manager.cc:128-134 | whatever happens between its two reads, a lookup gets a space of another name exactly when the last change that touched the slot put one there, or none touched it and the space in it has a straddling name |
| SpaceManager.LookupOfReused | service/router/space_manager.cc:87-92 | a removal and an addition on a full table suffice for that |
| SpaceManager.SameKeyIff | common/common.cc:7-10 | two spaces have one key exactly when they have one name or their names straddle a dash |
| SpaceManager.StraddlingSpaces | service/router/space_manager.cc:77-119 | for every hash, of two spaces whose names straddle the second finds the first one's connection, cannot be added, and its removal empties the slot of the first |
| SpaceManager.AlwaysFindsRightIff | service/router/space_manager.cc:121-141 | over every run of spaces drawn from a set of valid names, every uninterrupted lookup returns the space asked for or none exactly when no two names of the set straddle |
| SpaceManager.Spaces.constructor | service/router/space_manager.h:52 | an empty table with an index of 500 buckets |
| SpaceManager.Spaces.Init | service/router/space_manager.cc:64-71 | the loop loads the spaces in order, and the table is sound if they fit |
| SpaceManager.Spaces.AddSpace | service/router/space_manager.cc:77-104 | true exactly for a key not in use with an empty slot or room for one more; then the first free slot, or a new one, gets the connection and all others stay; else nothing changes |
| SpaceManager.Spaces.StoreAt | service/router/space_manager.cc:89-90 | slot and index are written, the index's answer ignored |
| SpaceManager.Spaces.DeleteSpace | service/router/space_manager.cc:106-119 | the key leaves the index and its slot becomes empty |
| SpaceManager.Spaces.GetSpaceConn | service/router/space_manager.cc:121-141 | uninterrupted, it finds exactly the keys in use of more than one character, each with a connection of that key |
| SpaceManager.Spaces.GetSpaceByName | service/router/router_rpc.cc:88-97 | asked by database and space name, it finds exactly a key in use, and the connection is of another space exactly when the names straddle |
| Gather.CheckPbIds | common/dto.cc:237-263 | accepts exactly lists of distinct, non-empty ids that parse where they must, and otherwise names the first id at fault and what is wrong with it |
| Gather.InRangeIff | service/router/space_connection.h:16-18 | the hash of every id, whatever the hash function, is a place in the partition list exactly when the list is no shorter than the partition number |
| Gather.ConnectAll | service/router/space_connection.cc:27-34 | one connection per partition of the space, in order, each with its replicas and asking its own partition |
| Gather.PlacedServed | service/router/space_connection.cc:27-34 | a space placed by the master has as many partitions as its number says, each with all its replicas |
| Gather.RoutePlaced | master/clusterapi/space_api.go:207-223 | from idle nodes to the router: placed exactly with enough nodes, and then every hash has its partition |
| Gather.HashKeys | service/router/space_manager.cc:202-213 | the groups of the request, each in order, under partition numbers in range |
| Gather.GroupsPartition | service/router/space_connection.h:16-18 | every occurrence of an id is in the group of its hash and in no other |
| Gather.GroupInOrder | service/router/space_manager.cc:202-213 | a group is the ids of its partition at their places in the request, in that order |
| Gather.PlacesAre | service/router/space_manager.cc:205-210 | the places so chosen are all those wanted, increasing |
| Gather.IndexById | service/router/partition_connection.cc:165-172 | the last document, or failure, of each id |
| Gather.Record | service/router/partition_connection.cc:173-182 | a key is in the document map exactly when some document of the response has its id, with the last such document; any other key is in the error map, with the message of the last failure with its id, or the fixed one |
| Gather.FailAll | service/router/partition_connection.cc:141-145 | every key gets the message |
| Gather.GetDocs | service/router/partition_connection.cc:137-193 | every key answered once: with the document the first of at most three replicas that responds has for it, or with why there is none; the replicas asked are those of the rotation |
| Gather.OutcomeReturns | service/router/partition_connection.cc:153-176 | a partition gives a document exactly when the first attempt answered has it last for the id |
| Gather.OutcomeMisses | service/router/partition_connection.cc:141-191 | it gives a message exactly when it has no replicas, none of three attempts is answered, or the first answered has no document, with the message of each case |
| Gather.RotationIs | service/router/partition_connection.cc:153-160 | the attempts go once around the replicas from the first |
| Gather.RotationDistinct | service/router/partition_connection.cc:45-48 | the first min(3, R) attempts go to different replicas |
| Gather.Scatter | service/router/space_connection.cc:118-133 | the merged maps are disjoint and cover the request, each id answered by the partition of its hash |
| Gather.Assemble | service/router/router_rpc.cc:109-127 | documents and failures in request order; the branch for an id in neither map is unreachable; 103 exactly if something failed |
| Gather.AnsweredOnce | service/router/router_rpc.cc:109-122 | documents and failures together have each id of the request as often as the request |
| Gather.AnsweredInOrder | service/router/router_rpc.cc:109-122 | the documents are those of the ids that have one, the failures those of the others with their messages, both in the order of the request |
| Gather.Refuse | service/router/router_rpc.cc:81-87 | one failure per id, in order, each with the message |
| Gather.Get | service/router/router_rpc.cc:71-128 | codes 101, 102, 103 and 0 with their conditions and messages; documents and failures are exactly those of the first responding replica of each id's partition, in the order of the request; with a document for every id the code is 0 and document i is that of id i |
| RaftClient.Client.constructor | common/brpc_options.h:41-49 | no buffer is usable |
| RaftClient.Client.CreateRaftConnection | raft_store/raft_client.cc:92-119 | one buffer is rebuilt, the other untouched; it becomes active exactly if it connects |
| RaftClient.Client.Init | raft_store/raft_client.cc:121-141 | succeeds exactly if both buffers connect, is usable exactly if the first does, and leads to the leader found last |
| RaftClient.ReconnectKeeps | raft_store/raft_client.cc:92-119 | rebuilding the other buffer keeps the group; the client is usable afterwards exactly if it was or the rebuilding worked, and then has the leader found |
| RaftClient.WriteMeaning | raft_store/raft_client.cc:20-61 | the RPCs sent are exactly those from the first round with a usable connection to the first acknowledgement, the first to the leader there was and each other to the leader found by the lookup before it, or to the same as before if that failed; the message tells of the last RPC unless it was acknowledged; a usable client stays usable |
| RaftClient.Client.WriteRound | raft_store/raft_client.cc:25-58 | one round sends at most one RPC, to the active leader, and reconnects unless it was acknowledged |
| RaftClient.Client.Write | raft_store/raft_client.cc:20-61 | the loop ends with the buffers, the message and the RPCs sent of `WriteAll`, and reports success exactly if the last RPC was acknowledged |
| RaftClient.ChainUsable | raft_store/raft_client.cc:92-119 | a client usable before a group of documents is usable before every one of them |
| RaftClient.ChainMeaning | service/router/partition_connection.cc:104-122 | no document is sent more often than its rounds, and a usable client sends each |
| RaftClient.UpsertOne | service/router/partition_connection.cc:105-121 | one document is written as its rounds go, with an error exactly when its last RPC was not acknowledged or none was sent |
| RaftClient.UpsertDocs | service/router/partition_connection.cc:96-124 | the writes form a chain from the old buffers to the new, at most three RPCs each; a key is in the error map exactly if, for one of its documents, nothing was sent or the last RPC was not acknowledged, with what is told of the last such document |
| RaftClient.PartitionConnection.constructor | service/router/partition_connection.cc:50-68 | no connections exactly for a partition without replicas |
| RaftClient.PartitionConnection.UpdatePsConn | service/router/partition_connection.cc:196-214 | new connections replace the old ones only if all build; a reader never loses usable ones |
| Identity.Counter.NewIDGenerate | master/etcdcluster/etcd_client.go:40-67 | base or successor when it commits and answers, 0 and an error otherwise, with the value stored in decimal |
| Identity.NextInv | service/ps/local_storager.cc:22-57 | master starts and the asking, saving and losing of overlapping server starts keep ids increasing, and answers and identities distinct |
| Identity.IdentitiesUnique | master/clusterapi/cluster_api.go:70-74 | over every interleaving, ids given out without error increase strictly, and adopted identities are at least 1 and distinct |
| Identity.IdsConsecutive | master/etcdcluster/etcd_client.go:40-67 | over every run the counter is the base plus the number of transactions that took effect, less one, and an id given out is the next number |
| Identity.AnswerAdopted | service/ps/local_storager.cc:22-57 | a server that asks, gets an id of at least 1 and saves it, whatever others do in between, has exactly that identity through every later run |
| Identity.NothingAdopted | service/ps/local_mata.cc:94-102 | without a saved answer of at least 1 it has none |
| Identity.AlwaysUniqueIff | service/ps/local_mata.cc:94-102 | identities are unique in every run exactly when servers refuse the id 0 |
| Identity.IdentityKept | service/ps/local_mata.cc:61-66 | an adopted identity is kept through every restart |
| Text.PrintRoundTrip | master/etcdcluster/etcd_client.go:53-59 | a printed integer parses back |
| Text.SplitJoin | master/common/common.go:47 | splitting takes off a first part without the separator |
| Text.JoinEqualIff | common/common.cc:7-10 | when two joins of two parts are the same string |
| Keys.SpaceKeysInjective | master/common/common.go:10-13 | slash keys and colon names tell valid spaces apart |
| Keys.NumberedKeysInjective | master/common/common.go:66-72 | so do keys with ids, and raft group names |
| Keys.SpaceKeyParts | master/common/common.go:10-24 | the keys hold database, space and id in that order, and split back into them |
| Keys.DashKeysEqualIff | common/common.cc:7-10 | two spaces share a router key exactly when equal or when their names straddle a dash |
| Keys.DashFreeInjective | common/common.cc:7-10 | without dashes in database names the key tells spaces apart |
| Keys.DashCollision | master/entity/space.go:110-125 | names that pass validation can collide |
| Keys.RegisterRoundTripIff | master/common/common.go:37-52 | parsing the printed key of a node gives ip, port and id back exactly when the ip has no colon |
| Keys.StoredNodesParse | master/common/common.go:61-64 | so for the keys of registered and of failed nodes |
| Keys.NodeNamesInjective | master/common/common.go:33-35 | node names tell addresses apart, whatever the ips hold |
| Keys.RegisterKeysInjective | master/common/common.go:37-41 | registration keys tell nodes apart, whatever the ips hold |
| Keys.AddressScanIff | master/clusterapi/cluster_api.go:91-92 | a scan by the prefix of an address finds a node exactly when the node's own address, with its colon, starts with that address and its colon |
| Keys.AddressScanPlain | master/clusterapi/cluster_api.go:110-111 | so among ips without colons it finds exactly the nodes of that address |
| RangeEnd.CarryExact | idl/etcd_idl/rpc.proto:401-407 | with a carry, the range is exactly the keys with the prefix, for every prefix |
| RangeEnd.PrefixRangeEnd | test/test_etcd_range.py:5-15 | the loop from the last byte computes that end |
| RangeEnd.GetRangeEndExactIff | clients/etcd_client.cc:411-417 | as the client computes it, the range is exact unless the prefix is empty or longer than one byte and ending in 0xFF |
| StringArray.Join | common/dto.cc:132-142 | the loop with its final removal joins with commas |
| StringArray.Split | common/dto.cc:180-184 | the loop reads items up to the next comma until the stream ends |
| StringArray.RoundTripIff | common/dto.cc:132-143 | splitting gives the list back exactly when no item holds a comma and the last item, if any, is not empty |

## Left out

- Router calls made by the DDL handlers, the copy kept of deleted spaces and the text of error records: they decide nothing in the protocol.
- Appending to the disabled key after a failure (`master/clusterapi/space_api.go:237`, `243` and `253`): in a run where a delete without the lock has removed the key in between, this would set it again. The model keeps the key as that delete left it.
- `HashDocs` and the merge of upsert errors over partitions: the same shape as `HashKeys` and the merge of reads, which are here.
- `register` beyond adding a node: its key is written with a time to live that the code sets to 5 nanoseconds, so the write fails and the node registers by itself.
- `CheckApiSpace` beyond names and counts, `DeserializeFromByteList`: easy members.
- `Engine::Mget`, document conversion, PS `Get` and `Search`, `DeleteDocs`, router `Upsert`: unfinished in the source.
- EngineObject.LogEngine.BatchAdd: lengths are not negative. A negative one makes the source ask the operating system for a write of more than 2^63 bytes, whose outcome is not the engine's.
- EngineObject.LogEngine.Get: a record misread after a torn one can hold a negative offset, where the seek of the source fails and it reads on from where the file stood, or a negative length, on which it throws. The model gives zeros for the first and nothing for the second.
- EngineObject.LogEngine.CreatOrLoad: the 32-bit product of record index and size, for more than 2^31 bytes of index, and failures while copying a snapshot are not modelled.
- Engine.CrashRecovery: does not model a file system that reorders the bytes of different writes.
- RaftApply.ReplicasAgree: snapshots of the engine behind raft are not modelled; a restart replays the whole log.
- Gather.RotationDistinct: replica counts above 127, which the 8-bit field of the source cannot hold, are not modelled; accepted requests have at most 5.
- Identity.IdentitiesUnique: does not model overflow of the 64-bit counter.
- RangeEnd.PrefixRangeEnd: works on bytes; the re-encoding of bytes above 0x7F as text in the test script is not modelled.
- SpaceManager.Spaces.Init: the capacity is the one after start-up, as the growth of a vector past its reserve is up to the library; local copies of the list of spaces are not modelled.
- Concurrency inside one server or one router other than the lookup in two reads: the source serializes it with locks.
- Logging, configuration, watchers, keep-alive threads, channels, time-outs and leases.
