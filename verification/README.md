# Verification of azulejo-common-lib

A Dafny model of the parts of azulejo-common-lib whose behaviour spans many calls or many threads,
with proofs of what they promise. `dafny verify dfyconfig.toml` verifies everything.

| component | files |
|---|---|
| shared | `Wrappers.dfy` (options and results), `Machine.dfy` (integer widths) |
| thread pool | `ThreadPool.dfy` (steps and invariant), `ThreadPoolRuns.dfy` (what holds of every run), `Intraprocess.dfy` (the class) |
| connection | `Framing.dfy`, `Receiver.dfy` (read chain), `Outgoing.dfy` (write queue), `Transfer.dfy` (end to end) |
| entity hierarchy | `PropertyTree.dfy`, `KeyPaths.dfy`, `EntityValues.dfy`, `HierarchyStore.dfy`, `HierarchyRoundTrip.dfy`; on objects: `Entities.dfy`, `EntityAdapters.dfy`, `EntityCopy.dfy`, `LevelOrder.dfy` |
| resource files | `ResourceImage.dfy`, `Resources.dfy`, `CrashSafety.dfy`, `ResourceAdapters.dfy`, `ChecksumGate.dfy` |
| event channel | `EventRuns.dfy` (steps), `Events.dfy` (the classes) |

How the parts are modelled:

- Protocols are step systems on values (`State`, `Action`, `Enabled`, `Next`, `Reaches`), and their theorems
  are about every run. Beside each stands a class with the source's fields; each of its methods is proved to
  be exactly one step. History fields record what happened and decide nothing.
- In the thread pool a step is one read of an atomic flag or one critical section. `wait` tests its predicate
  and sleeps in one step, spurious wakeups can happen at any time, and `Post` tests the two flags, each on its
  own, before it takes the lock. Integer width matters for the thread counter only: it wraps at 2^64.
- Entities are objects in the heap that form a tree (no object is a member of two). `std::map` is a sequence in
  key order. The virtual functions `Save`, `Load`, `ToString` and the dynamic types are parameters
  (`Codec`, `StreamType`). The database adapters and the filesystem adapters run the same algorithm,
  so one model stands for both.
- The event channel keeps a history of the `Connect` calls it made; `EventChannel.Valid` says that the slots of
  every emitter are those it came with, followed by the consumers of these calls, and every method keeps it.
- An element of a resource is the bytes of its object representation. The checksum is any function of the data.
- `Result.Throw` stands for a thrown exception.

Where the documentation and the code disagree, the model follows the code:

- `include/Intraprocess/ThreadPool.h` says that `Join` blocks until all tasks are completed. A `Post` that has
  passed its flag tests when `Join` lowers the flag may push its task too late to be run
  (`JoinStrandsIffPostUnderWay` says exactly when).
- `Stop` sets a flag and notifies nobody, so it can wait for a sleeping worker for ever. `StopHangsIff` says
  exactly when: a worker sleeps already, or the pool still runs and more workers head for the wait than there are
  queued tasks. Otherwise it returns (`StopReturns`); after `Join` it always does (`StopAfterJoinCannotHang`).
- A resource file is renamed into place without a look at the state of the stream, so a failed write leaves a
  truncated file and no error (`FailedWriteIsCommitted`); `CrashConsistent` says exactly when a file is complete.
- `Serialize` skips the write when the checksum has not changed. `GateAgreesIff` says exactly when the file is
  nevertheless the one that writing every time would leave.
- A failed copy of an entity can leave an empty constructor behind. `CopyConstruct` and `LeavesMarkIff` say exactly
  when, in which object and under which key; `CopyACopy` gets there, and `FailedCopySticks` says that it stays.
- The loaders aggregate every member as an `Entity`. The copy of what they load therefore succeeds and has lost
  all that the types of the members added; `LoadAndCopy` says exactly when nothing was lost.
- `include/Resources/IResource.h` calls `M_` the number of columns; the container stores the number of rows of
  its matrix there. The model keeps the names of the code.

## Model

| member | source | states |
|---|---|---|
| ThreadPoolSteps.StepKeepsInv | src/Intraprocess/ThreadPool.cpp:45-144 | every atomic step of every thread keeps the invariant: exact counter, flag order, conservation of tasks, drained before leaving, no lost wakeup |
| Machine.WrapAdd | src/Intraprocess/ThreadPool.cpp:113-117 | the counter addition is addition modulo 2^64 |
| ThreadPoolRuns.TasksAreConserved | src/Intraprocess/ThreadPool.cpp:113-144 | in every reachable state, pushed tasks are the popped ones followed by the queue; each popped task is finished or held by one worker; the counter is the number of workers inside |
| ThreadPoolRuns.WakeupsAreNotLost | src/Intraprocess/ThreadPool.cpp:126-141 | without `Stop`, a worker sleeps only while every queued task has an awake idle worker |
| ThreadPoolRuns.ZeroMeansAllExited | src/Intraprocess/ThreadPool.cpp:64-65 | the zero that `Join` spins for means that every worker has exited, and conversely |
| ThreadPoolRuns.JoinDrains | src/Intraprocess/ThreadPool.cpp:56-72 | when `Join` returns and `Stop` was never called, every task pushed before the flag went down has finished, as often as it was pushed, and nothing has finished that was not popped, or more often |
| ThreadPoolRuns.PostedIsPushed | include/Intraprocess/ThreadPool.hpp:8-13 | in every run the queue was fed exactly the tasks of the locked `Post` parts, in their order; a flag that `Join` lowered stays down |
| ThreadPoolRuns.PushedWasCalled | include/Intraprocess/ThreadPool.hpp:2-13 | no task is pushed more often than `Post` was called with it |
| ThreadPoolRuns.JoinFinishesPosted | src/Intraprocess/ThreadPool.cpp:56-72 | in terms of calls: once `Join` returns and `Stop` was never called, every task that a `Post` pushed before the flag went down has finished, as often as it was posted; nothing has finished that was not posted, and exactly those tasks have if no `Post` pushed later |
| ThreadPoolRuns.JoinReturns | src/Intraprocess/ThreadPool.cpp:56-72 | after the flag went down nobody sleeps again, a run has a bounded number of worker and `Post` steps, and some worker can step until the counter is zero |
| ThreadPoolRuns.StepLowersMeasure | src/Intraprocess/ThreadPool.cpp:119-144 | after the flag went down no step raises the measure, and every step of a worker or of a `Post` under way lowers it |
| ThreadPoolRuns.JoinStrandsIffPostUnderWay | include/Intraprocess/ThreadPool.hpp:2-15 | right after `Join` lowered the flag, some continuation leaves a task unrun exactly when a `Post` is between its flag tests and its push |
| ThreadPoolRuns.PostCanBeUnderWay | include/Intraprocess/ThreadPool.hpp:5 | a run that gets there: `Post` passes its first flag test just before `Join` lowers the flag |
| ThreadPoolRuns.ClosedPoolAdmitsNothing | include/Intraprocess/ThreadPool.hpp:5-6 | after `Join` or `Stop`, only a `Post` that already passed its tests can still push |
| ThreadPoolRuns.StopLeavesSleepers | src/Intraprocess/ThreadPool.cpp:45-54 | without a notification or spurious wakeup a sleeping worker sleeps on after `Stop` |
| ThreadPoolRuns.StopHangsIff | src/Intraprocess/ThreadPool.cpp:45-54 | in any reachable state after `Stop` set its flag, some continuation leaves a worker asleep exactly when one sleeps already, or the pool still runs and more workers head for the wait than there are queued tasks; it is then one without notifications |
| ThreadPoolRuns.StopReturns | src/Intraprocess/ThreadPool.cpp:45-54 | otherwise, whatever `Post`, `Join`, `GetTaskCount` and further `Stop` calls do meanwhile, nobody ever falls asleep, the workers have boundedly many steps left, and once none is left all have exited |
| ThreadPoolRuns.WorkersExit | src/Intraprocess/ThreadPool.cpp:45-54 | and a run of the workers alone gets there |
| ThreadPoolRuns.StopAfterJoinCannotHang | src/Intraprocess/ThreadPool.cpp:45-72 | a `Stop` after `Join` lowered its flag never hangs |
| ThreadPoolRuns.StopCanHang | src/Intraprocess/ThreadPool.cpp:45-54 | the hanging case is reachable: the only worker asleep and `Stop` called |
| Intraprocess.ThreadPool.Create | src/Intraprocess/ThreadPool.cpp:24-30 | zero threads are refused; otherwise there are as many workers as asked for, none counted yet, an empty queue and both flags open |
| Intraprocess.ThreadPool.SpinUntilCounted | src/Intraprocess/ThreadPool.cpp:32-33 | the constructor's spin ends exactly when every worker has been counted |
| Intraprocess.ThreadPool.AddToThreadCounter | src/Intraprocess/ThreadPool.cpp:113-117 | adds to the counter modulo 2^64 and touches nothing else |
| Intraprocess.ThreadPool.PopWorkQueue | src/Intraprocess/ThreadPool.cpp:15-21 | takes the task at the front |
| Intraprocess.ThreadPool.WaitAndPop | src/Intraprocess/ThreadPool.cpp:129-137 | sleeps, takes a task, or returns empty-handed, as one step |
| Intraprocess.ThreadPool.RunTask | src/Intraprocess/ThreadPool.cpp:119-144 | one action of a worker on the pool's fields is one step and keeps the invariant |
| ThreadPoolSteps.SpuriousWakeIsHarmless | src/Intraprocess/ThreadPool.cpp:129-136 | any sleeper may wake without a reason, and goes back to sleep, nothing changed, if the flag is up and the queue empty |
| Intraprocess.ThreadPool.PostReadKeepRunning | include/Intraprocess/ThreadPool.hpp:5 | the first flag test is one step and refuses exactly when the flag is down |
| Intraprocess.ThreadPool.PostReadDie | include/Intraprocess/ThreadPool.hpp:5 | the second flag test is one step and refuses exactly after `Stop` |
| Intraprocess.ThreadPool.PostLocked | include/Intraprocess/ThreadPool.hpp:8-14 | the locked part of `Post` is one step: the very task given goes to the back of the queue, and one sleeper, if any, is woken |
| Intraprocess.ThreadPool.GetTaskCount | src/Intraprocess/ThreadPool.cpp:79-85 | one step: tells the queue length and wakes one sleeper, if any |
| Intraprocess.ThreadPool.JoinLocked | src/Intraprocess/ThreadPool.cpp:58-62 | the locked part of `Join` is one step and wakes every sleeper |
| Intraprocess.ThreadPool.JoinSpin | src/Intraprocess/ThreadPool.cpp:64-65 | the spin ends exactly when all workers have exited, and then, without `Stop`, the finished tasks are the popped ones |
| Intraprocess.ThreadPool.StopStoreDie | src/Intraprocess/ThreadPool.cpp:45-47 | the store in `Stop` is one step and wakes nobody |
| Framing.ParseUndoesPrint | include/Interprocess/IConnectionHandler.hpp:44-54 | reading the decimal digits of a length gives the length back, for every length |
| Framing.PaddedRoundTrip | include/Interprocess/IConnectionHandler.hpp:44-54 | the same behind any number of padding spaces, as `atoll` reads it |
| Framing.AtollReads | include/Interprocess/IConnectionHandler.hpp:44-54 | what `atoll` makes of blanks, a sign, a number and any rest: the number with that sign |
| Framing.WrapWithHeader | include/Interprocess/IConnectionHandler.hpp:115-129 | a message of at most 9999 characters gets its four-character header; a longer one throws |
| Framing.HeaderDigits | include/Interprocess/IConnectionHandler.hpp:115-129 | the header, character by character: the decimal digits of the length, right-aligned in four places |
| Receiver.Chunks | include/Interprocess/IConnectionHandler.hpp:56-92 | what gets enqueued does not depend on how the bytes are cut up on arrival |
| Receiver.FramedRoundTrip | include/Interprocess/IConnectionHandler.hpp:56-129 | reading frames laid end to end enqueues exactly the messages before the first empty or oversized one, in order, and leaves the read chain waiting, ended or refused accordingly |
| Receiver.PartialTransferIsPrefix | include/Interprocess/IConnectionHandler.hpp:56-92 | at any moment of the transfer, the enqueued messages are a prefix of those sent |
| Receiver.NegativeIsRefused | include/Interprocess/IConnectionHandler.hpp:44-54 | a header with a negative number wraps around to a length that no buffer holds, and the read is refused |
| Receiver.ConnectionHandler.AsyncRead | include/Interprocess/AsioAdapter.hpp:11-22 | a read starts only when none is outstanding, and one larger than the buffer is refused |
| Receiver.ConnectionHandler.PostReceiveMessages | include/Interprocess/IConnectionHandler.hpp:56-59 | starts a header read when no read is outstanding |
| Receiver.ConnectionHandler.OnHeader | include/Interprocess/IConnectionHandler.hpp:59-69 | the header handler keeps everything that arrived accounted for |
| Receiver.ConnectionHandler.OnBody | include/Interprocess/IConnectionHandler.hpp:70-77 | the body handler enqueues exactly the bytes read, copied before the next read starts |
| Receiver.ConnectionHandler.QueueReceivedMessage | include/Interprocess/IConnectionHandler.hpp:81-92 | copies the message out of the buffer to the back of the queue, then starts the next header read |
| Receiver.ConnectionHandler.Arrive | include/Interprocess/IConnectionHandler.hpp:56-92 | after any arrivals, messages handed out and queued are those the whole byte stream calls for |
| Receiver.ConnectionHandler.GetOneMessage | include/Interprocess/IConnectionHandler.hpp:94-106 | hands out the oldest message, or throws if there is none |
| Receiver.TakeAll | include/Interprocess/IConnectionHandler.hpp:37-106 | asking for messages as long as there are any empties the queue in order |
| Receiver.ReceiveAll | include/Interprocess/IConnectionHandler.hpp:56-129 | a stream of frames cut in two at any place is received as sent up to the first message that is empty or longer than 512 characters; messages of 1 to 512 characters all come through |
| Outgoing.StepKeepsInv | include/Interprocess/IConnectionHandler.hpp:131-185 | a start is pending or owed for every queued message, first in first out, and completions post at most one start each, only while something is queued |
| Outgoing.SendingIsScheduled | include/Interprocess/IConnectionHandler.hpp:131-185 | in every run, failed writes included: pop order is push order, pending starts cover the queue, and m messages cause at most 2m-1 starts |
| Outgoing.PushesAreRecorded | include/Interprocess/IConnectionHandler.hpp:131-139 | what a run pushes is what was given to `PostOutgoingMessage`, in order and once each |
| Outgoing.SendingDrains | include/Interprocess/IConnectionHandler.hpp:131-185 | a run with m messages has at most 5m steps, and when no handler is left every message has been popped once |
| Outgoing.Sender.PushOutgoing | include/Interprocess/IConnectionHandler.hpp:134-139 | one step: the very message given goes to the back of the queue, once |
| Outgoing.Sender.PostSendMessageStart | include/Interprocess/IConnectionHandler.hpp:141-145 | one step: the start owed for the push is posted |
| Outgoing.Sender.SendMessageStart | include/Interprocess/IConnectionHandler.hpp:148-170 | one step: hands the oldest message to the write, or does nothing |
| Outgoing.Sender.OnWritten | include/Interprocess/IConnectionHandler.hpp:162-185 | one step: posts another start unless the write failed or the queue is empty |
| Transfer.MessagesArriveInOrder | include/Interprocess/IConnectionHandler.hpp:56-185 | if the messages given to `PostOutgoingMessage`, framed, are what was pushed, and the popped frames reach the wire in pop order, the receiver has a prefix of the messages after any number of bytes, and all that can pass once the sender is idle and all bytes have arrived |
| KeyPaths.SplitOfPath | src/DatabaseAdapters/EntityPersister.cpp:88 | a path of non-empty dot-free keys survives being joined with dots and cut up again |
| KeyPaths.SplitLosesNothing | src/DatabaseAdapters/EntityPersister.cpp:88-90 | cutting any string at its dots leaves no dot in a segment and loses nothing but a trailing dot |
| PropertyTree.PutBelowPut | src/DatabaseAdapters/EntityPersister.cpp:90 | `put_child` below a node just put is putting the node with the change made |
| PropertyTree.GetAfterPut | src/DatabaseAdapters/EntityLoader.cpp:175 | what was put at a path is found there |
| PropertyTree.PutSparesOthers | src/DatabaseAdapters/EntityPersister.cpp:90 | `put_child` leaves every node alone that is neither above nor below the one it writes |
| PropertyTree.PutKeepsAbove | src/FilesystemAdapters/EntitySerializer.cpp:55 | a node above keeps its text and its children, in their order, and gains at most one at the end |
| PropertyTree.PutCreatesEmpty | src/DatabaseAdapters/EntityPersister.cpp:90 | a missing node on the way is made, without text and with one child |
| KeyPaths.SearchFindsFirst | src/DatabaseAdapters/EntityLoader.cpp:45-63 | for a non-empty dot-free key, in any hierarchy, `GetKeyPath` returns "" exactly when the key occurs nowhere, and otherwise the path of its first occurrence in preorder |
| KeyPaths.DottedKeyOnlyAtTop | src/DatabaseAdapters/EntityLoader.cpp:45-63 | a key with a dot in it is found exactly when it is a key at the top level |
| KeyPaths.KeyEndsPath | src/DatabaseAdapters/EntityLoader.cpp:65-73 | parent path and key, taken from a path and put together again, give that path |
| KeyPaths.SearchLeadsToFirst | src/DatabaseAdapters/EntityLoader.cpp:164-176 | in a tidy hierarchy the recomposed search path leads to the node of the first occurrence |
| HierarchyStore.PersistPutsImage | src/DatabaseAdapters/EntityPersister.cpp:86-103 | writing an entity node by node along paths equals putting its image once at its own path, in any hierarchy |
| HierarchyStore.PersistSpares | src/DatabaseAdapters/EntityPersister.cpp:86-103 | writing an entity, whatever its keys and members, changes no node but those at and below its own path, except for children that nodes above gain at the end |
| HierarchyStore.PersistTwice | src/FilesystemAdapters/EntitySerializer.cpp:51-73 | writing the same entity again leaves the hierarchy as it is |
| HierarchyRoundTrip.WholeIsUnpruned | include/Entities/Entity.hpp:27-38 | listing the members of the adapter's type drops nothing exactly when there are no placeholders and no others |
| HierarchyRoundTrip.WrittenMembers | src/DatabaseAdapters/EntityPersister.cpp:94-99 | the members written are those that are there and of a storable type, each under its own key, and no others |
| HierarchyStore.LookupDescends | src/DatabaseAdapters/EntityLoader.cpp:173-191 | a member's node, looked up from the root, is strictly smaller than its parent's, for any keys, so loading terminates |
| HierarchyStore.LoadIsBuild | src/DatabaseAdapters/EntityLoader.cpp:171-193 | looking every member up again from the root equals recursion on the node, in any hierarchy, exceptions included |
| HierarchyRoundTrip.LoadGives | src/DatabaseAdapters/EntityLoader.cpp:171-193 | what loading leaves, in any hierarchy: the payload that `Load` read from the node at the search path, the members that were there, and for every registered child the member loaded from its own place; nothing else |
| HierarchyRoundTrip.BuildUndoesImage | src/DatabaseAdapters/EntityLoader.cpp:171-193 | building from an image gives the entity tree back without what was not stored |
| HierarchyRoundTrip.PersistThenLoad | src/FilesystemAdapters/EntityDeserializer.cpp:102-127 | round trip below any parent path of any hierarchy, for types whose `Load` undoes their `Save` at the entity's own path; the tree comes back unchanged exactly when it had no placeholders and no unstorable members |
| HierarchyRoundTrip.FieldCodecLoads | include/FilesystemAdapters/ISerializableEntity.h:75-87 | types that put their fields under a key of their own and read them back meet what the round trip asks, for any tree with keys registered for the right types |
| HierarchyRoundTrip.PersistThenLoadEntity | src/DatabaseAdapters/EntityLoader.cpp:159-193 | round trip through the public calls, from an empty hierarchy |
| HierarchyRoundTrip.LoadEntityBuildsFirst | src/DatabaseAdapters/EntityLoader.cpp:159-169 | in a tidy hierarchy `LoadEntity` builds the entity from the first node in preorder with its key, or leaves it alone |
| HierarchyRoundTrip.LazyIsEager | src/DatabaseAdapters/IPersistableEntity.cpp:26-44 | when a parent loads, its member under a key unique in the hierarchy is the entity that loading on demand by that key gives |
| Entities.Entity.AggregatePlaceholder | src/Entities/Entity.cpp:73-79 | adds a placeholder at its place in key order, unless the key is in use |
| Entities.Entity.AggregateMember | include/Entities/Entity.hpp:2-16 | adds the member's tree, or throws and changes nothing if the pointer is null or the key is empty or in use; an earlier constructor for the key stays, an empty one included |
| EntityValues.LessAtDifference | include/Entities/Entity.h:172 | keys are in string order: after a common prefix the smaller character decides, and a prefix comes first |
| Entities.Entity.RegisterEntityConstructor | include/Entities/Entity.hpp:40-45 | registers a constructor for a key once; what is there is not replaced |
| Entities.Entity.RemoveMember | src/Entities/Entity.cpp:81-87 | takes out the member found under the key and leaves the constructors, or throws for a key not in use and changes nothing |
| EntityAdapters.EntityPersister.PersistEntity | src/DatabaseAdapters/EntityPersister.cpp:77-84 | refuses without a database or key; otherwise the hierarchy is that of the model, and every node neither above nor below the entity's own is as before, also after a throw |
| EntityAdapters.EntityPersister.PersistWithParentKey | src/DatabaseAdapters/EntityPersister.cpp:86-103 | the recursive loop over member objects writes what the model writes, throws when it throws, and either way leaves all unrelated nodes alone |
| EntityAdapters.EntityLoader.GenerateEntity | include/Entities/EntityRegistry.hpp:45-54 | a new object with the registered default payload and the key, or a throw for a key that is not registered |
| EntityAdapters.EntityLoader.LoadMember | src/DatabaseAdapters/EntityLoader.cpp:187-191 | aggregates one new member and loads it, or throws if the key is in use |
| EntityAdapters.EntityLoader.LoadWithParentKey | src/DatabaseAdapters/EntityLoader.cpp:171-193 | fills in the object as the model does; what is added to its tree is newly allocated, also when it throws; members are aggregated as bare entities throughout |
| EntityAdapters.EntityLoader.LoadEntityByKey | src/DatabaseAdapters/EntityLoader.cpp:159-169 | refuses without a database; otherwise loads from where the key is found, or leaves the object alone |
| EntityAdapters.EntityLoader.GetAggregatedMember | src/DatabaseAdapters/IPersistableEntity.cpp:26-44 | throws for a key not in use, returns a pointer that is there, and otherwise loads a registered placeholder into its own slot, changing nothing else |
| EntityAdapters.EntityLoader.AskTwice | src/DatabaseAdapters/IPersistableEntity.cpp:33-43 | asking again for a loaded member gives the same object |
| EntityAdapters.PersistAndReload | src/DatabaseAdapters/EntityLoader.cpp:159-193 | the round trip on objects: new objects that show the old tree |
| EntityAdapters.LoadAndCopy | src/DatabaseAdapters/EntityLoader.cpp:187-191 | what a loader filled in can be copied, but the copy shows the same tree exactly when every member is a bare `Entity`; otherwise the members have lost what their types added |
| EntityCopy.LeavesMarkIff | src/Entities/Entity.cpp:102-108 | a copy leaves an empty constructor behind exactly when the first member that stops it has a key without a constructor, or one that takes the member and leaves a mark inside it |
| EntityCopy.CopyConstruct | src/Entities/Entity.cpp:21-27 | succeeds exactly when every member below has a key and a fitting constructor; the copy shows the source's tree and shares no object with it; the constructors of the source are unchanged exactly when the copy leaves no mark, and otherwise differ by one empty one, in the object and under the key that `MarkOf` names |
| EntityCopy.CopyAssign | src/Entities/Entity.cpp:30-44 | the same, marks included, for assignment between objects of one type, which does nothing to an entity assigned to itself and keeps the target's own fields when it throws |
| EntityCopy.ConstructEntity | src/Entities/Entity.cpp:102-108 | copies a member through the constructor registered under the member's own key, or throws; what it leaves behind is what `MemberMark` names, here or inside the member, and nothing else |
| EntityCopy.CallConstructor | include/Entities/Entity.hpp:43 | the registered function: throws for an object that is neither a `T` nor asked for as `Entity`, and otherwise copies it, cut down to a bare entity in the latter case |
| EntityCopy.CopyableIffAggregated | include/Entities/Entity.hpp:39-45 | an entity can be copied exactly when every member, at any depth, is there, has a key, and was aggregated under it as its own type or as `Entity` |
| EntityCopy.AsBaseCopies | include/Entities/Entity.hpp:39-45 | an entity whose members were all aggregated as `Entity` can be copied, and the copy is the tree with every member cut down to a bare entity |
| EntityCopy.CopyIsEqualIffTyped | include/Entities/Entity.hpp:39-45 | the copy shows the same tree exactly when every member was aggregated as the type it has |
| EntityCopy.CopyOfCopy | src/Entities/Entity.cpp:21-27 | a copy can be copied again only if it has no members, since constructors are not copied |
| EntityCopy.ReuseKey | include/Entities/Entity.hpp:39-45 | a key whose constructor does not take the new member leaves an entity that cannot be copied, whatever type the member is aggregated with |
| EntityCopy.FailedCopySticks | src/Entities/Entity.cpp:102-108 | in whatever object a failed copy left its mark, replacing the member by one aggregated with its own type does not make that object copyable |
| EntityCopy.CopyACopy | src/Entities/Entity.cpp:21-27 | copying the copy of an entity with members throws and leaves a mark under the key of the first member |
| EntityCopy.FailedCopyHappens | src/Entities/Entity.cpp:21-27 | an entity with one member for which that happens |
| LevelOrder.QueueIsLevelOrder | src/Entities/IStreamableEntity.cpp:39-59 | the queue takes the nodes depth by depth, each depth from left to right |
| LevelOrder.DepthReadsLeftToRight | src/Entities/IStreamableEntity.cpp:48-55 | at every depth, what is below one member comes before what is below the next in map order |
| LevelOrder.LevelOrderCounts | src/Entities/IStreamableEntity.cpp:39-59 | it takes as many nodes as the tree has |
| LevelOrder.Stream | src/Entities/IStreamableEntity.cpp:39-59 | throws exactly when a member below is missing or not streamable, having written a prefix of the level-order text; otherwise writes all of it |
| LevelOrder.StreamsIff | src/Entities/IStreamableEntity.cpp:48-55 | the stream operator gets through exactly when, at every node in level order, each member is there and streamable |
| LevelOrder.TextOfEach | src/Entities/IStreamableEntity.cpp:56 | each node in turn contributes its `ToString` and one colon, and nothing else is written |
| LevelOrder.StreamableMembers | src/Entities/IStreamableEntity.cpp:48-55 | collects the members of one entity in map order, unless one is missing or not streamable |
| ResourceImage.ImageIsInjective | src/FilesystemAdapters/ResourceSerializer.cpp:62-72 | header and elements can be told apart: different resources have different images |
| ResourceImage.FileFormat | src/FilesystemAdapters/ResourceSerializer.cpp:62-72 | M and N as 64-bit little-endian numbers at bytes 0 and 8, then element i from byte 16 + i * width on |
| Resources.ContainerResource2D.UpdateChecksum | src/Resources/IResource.cpp:43-56 | tells and remembers whether the data has another checksum, and sets the dirty flag to the answer |
| Resources.ContainerResource2D.SetColumnSize | src/Resources/IResource.cpp:14-19 | a dimension that is set can only be set to itself |
| Resources.ContainerResource2D.SetRowSize | src/Resources/IResource.cpp:21-26 | the same for the other dimension |
| Resources.ContainerResource2D.LoadInput | include/test_filesystem_adapters/ContainerResource2D.h:27-41 | accepts exactly the rectangular matrices that fit dimensions already set, and lays the rows end to end; what a refused call leaves of the dimensions |
| Resources.ContainerResource2D.GetData | include/test_filesystem_adapters/ContainerResource2D.h:43-55 | element (i, j) is at i * N + j; indices out of bounds throw |
| Resources.ContainerResource2D.Assign | include/test_filesystem_adapters/ContainerResource2D.h:60-87 | throws on an empty or ragged buffer or unset dimensions; otherwise element k is the k-th of the buffer, and what the buffer does not reach is as `resize` left it |
| Resources.NextIndex | include/test_filesystem_adapters/ContainerResource2D.h:76-86 | the running indices keep y * N + x equal to the linear index, and in range |
| Resources.StaysInRange | include/test_filesystem_adapters/ContainerResource2D.h:76-86 | for a buffer in range, neither `int` index ever overflows |
| Resources.RowMajor | include/test_filesystem_adapters/ContainerResource2D.h:27-55 | rows laid end to end have element (i, j) at i * N + j |
| CrashSafety.NamesDoNotCollide | src/FilesystemAdapters/ResourceSerializer.cpp:53-56 | no temporary file is a resource file, and different stems have different files |
| CrashSafety.FileNames | src/FilesystemAdapters/ResourceSerializer.cpp:53-56 | the literal names of the two files, with and without a trailing slash of the directory, and for an empty directory or absolute key |
| CrashSafety.FilesAreTheirOwn | src/FilesystemAdapters/ResourceSerializer.cpp:53-56 | for keys without slashes, equal resource files mean equal keys and equal directories |
| CrashSafety.StepKeepsInv | src/FilesystemAdapters/ResourceSerializer.cpp:56-78 | every step on the disk, a failed write or a crash included, keeps resource files what was committed and the temporary file a prefix of its image |
| CrashSafety.CrashConsistent | src/FilesystemAdapters/ResourceSerializer.cpp:36-105 | wherever a run stops, failed writes, crashes and restarts included, a resource file exists exactly for what was renamed into place and not removed; it is the complete image of a resource serialized under that name exactly when no write of it failed, and a proper prefix of it otherwise |
| CrashSafety.CompleteWithoutFailures | src/FilesystemAdapters/ResourceSerializer.cpp:56-78 | while no write fails, every resource file is complete, crashes included |
| CrashSafety.FailedWriteIsCommitted | src/FilesystemAdapters/ResourceSerializer.cpp:64-78 | any proper prefix of any image can end up in place, because nothing looks at the state of the stream |
| CrashSafety.FileIsDurable | src/FilesystemAdapters/ResourceSerializer.cpp:74-78 | until its own next rename or removal a resource file stays as it is |
| ResourceAdapters.ResourceSerializer.Serialize | src/FilesystemAdapters/ResourceSerializer.cpp:36-79 | is a run of those steps; past the checksum it puts in place, under `path/key.bin` literally, as much of the image as could be written, or throws and leaves all resource files as they were; a failed write is no reason to throw; no file changes but that one and its `.tmp` |
| ResourceAdapters.ResourceSerializer.WriteFile | src/FilesystemAdapters/ResourceSerializer.cpp:53-78 | opening, three writes with any amount of space, and a rename are a run of steps that puts what was written in place unless the rename fails |
| ResourceAdapters.ResourceSerializer.Unserialize | src/FilesystemAdapters/ResourceSerializer.cpp:81-105 | removes `path/key.bin` and no other file, if it is there; throws for an empty key, or when the permissions or the removal of a file that is there fail, and then leaves it |
| ResourceAdapters.ResourceDeserializer.RegisterResource | include/FilesystemAdapters/ResourceDeserializer.hpp:2-16 | registers a non-empty key once |
| ResourceAdapters.ResourceDeserializer.Deserialize | src/FilesystemAdapters/ResourceDeserializer.cpp:60-106 | reads `path/key.bin`; succeeds exactly on files with both sizes and nothing or whole elements after them, and holds the elements of the file, with zeros where the file has too few |
| ResourceAdapters.ImageReadsBack | src/FilesystemAdapters/ResourceDeserializer.cpp:79-103 | a complete image is readable, in range exactly when its dimensions are, and gives the resource back |
| ResourceAdapters.DeserializeCommitted | src/FilesystemAdapters/ResourceDeserializer.cpp:60-106 | after any steps and crashes, what was put in place without a failed write and not removed deserializes to the resource serialized |
| ResourceAdapters.FileRoundTrip | include/test_filesystem_adapters/ContainerResource2D.h:27-87 | matrix to resource to file to resource: it comes back exactly when the checksum of its data is not -1, with the same dimensions and every element where it was, empty matrices included |
| ChecksumGate.GateKeepsChecksum | src/Resources/IResource.cpp:43-56 | after every `Serialize` the file has the checksum of the current data, except exactly when nothing was written yet and that checksum is -1; the dirty flag says whether the call wrote |
| ChecksumGate.GateAgreesIff | src/FilesystemAdapters/ResourceSerializer.cpp:50-51 | with a checksum that tells stored from current data, the file is the one that writing every time would leave exactly when the first checksum is not -1, or later the dimensions have not changed between two versions without data |
| ChecksumGate.GateMissesEmptyDimensions | src/Resources/IResource.cpp:58-64 | a run with a change of dimensions that is not written |
| ChecksumGate.GateMissesInitialChecksum | include/Resources/IResource.h:134-135 | a run with a first version that is not written |
| EventRuns.StepKeepsCovered | src/Events/EventChannel.cpp:25-94 | every call, death or failed connection keeps live registered pairs connected |
| EventRuns.AlwaysCovered | src/Events/EventChannel.cpp:25-94 | after any run, every registered pair whose emitter key is registered and whose objects are alive is connected |
| EventRuns.ReregisteringConnectsTwice | src/Events/EventChannel.cpp:25-54 | unregistering an emitter gives its key back but keeps its connections; registering it again connects every waiting consumer a second time |
| EventRuns.UnregisteredPairStaysOut | src/Events/EventChannel.cpp:85-94 | after `UnregisterConsumer`, until the pair is asked for again, it is not registered and nobody is connected on its account, whatever else is called; it can then be registered anew |
| EventRuns.UnregisteredKeyStaysOut | src/Events/EventChannel.cpp:46-54 | the same for `UnregisterEmitter` and every pair that names the emitter key |
| EventRuns.EntriesStay | src/Events/EventChannel.cpp:46-94 | an entry leaves the maps through its own unregistering call alone, and connections never go away |
| EventRuns.RegistrationRunsAreExact | src/Events/EventChannel.cpp:25-83 | in every run of registrations with matching types, refused ones included: exactly one link per registered pair whose emitter key is registered; every key asked for is in use and stays with its first object |
| EventRuns.SlotsAreExact | include/Events/EventEmitter.hpp:12-20 | after such a run an emitter has one slot for a consumer per registered pair that connects the two |
| EventRuns.OrderDoesNotMatter | src/Events/EventChannel.cpp:35-82 | the same compatible registrations in any two orders leave the same maps and the same links |
| EventRuns.OrderDoesNotMatterToEmitters | include/Events/EventEmitter.hpp:12-20 | and every emitter has the same slots, each as often |
| EventRuns.RegistrationsSucceed | src/Events/EventChannel.cpp:25-83 | compatible registrations can be made, in any order |
| Events.Emitter.Connect | include/Events/EventEmitter.hpp:12-20 | adds a slot for a consumer of the emitter's type and throws for another |
| Events.EventChannel.RegisterEmitter | src/Events/EventChannel.cpp:25-44 | one step, for any order of the map; accepted exactly for a new non-empty key when every waiting live consumer fits; the emitter gains one slot for each consumer connected, and enters the map only if accepted; the slots of all emitters stay accounted for |
| Events.EventChannel.RegisterConsumer | src/Events/EventChannel.cpp:61-83 | one step; accepted exactly for non-empty keys, a new pair and a fitting type; enters exactly this pair; the named emitter, if registered and alive, gains one slot; the slots of all emitters stay accounted for |
| Events.EventChannel.UnregisterEmitter | src/Events/EventChannel.cpp:46-54 | takes out exactly this key, or refuses an empty or unknown one |
| Events.EventChannel.UnregisterConsumer | src/Events/EventChannel.cpp:85-94 | takes out exactly this pair, or refuses an empty or unknown one |

## Left out

- Sockets, the TCP accept loop, shared memory, the REST client and server, OpenMP, and the Python and Java bindings: wrappers over libraries that are not part of this model.
- SQLite, `ResourcePersister` and `ResourceLoader`, and the handing of a hierarchy to the database or to a JSON file: hierarchy storage is the identity here.
- The internals of CRC-32 and of `boost::property_tree`, beyond `put_child` and `get_child_optional`.
- That a task ends, and what it computes: a running task may finish at any step; its exceptions stay inside `packaged_task`.
- The order of bytes on the wire when several writes are outstanding: `Transfer.MessagesArriveInOrder` takes the frames in pop order.
- Element types wider than `char` in the connection, and read errors, which end the read chain.
- Receiver.ConnectionHandler.Arrive: takes `async_read` to complete exactly when all bytes asked for have arrived.
- Entities.Entity.AggregateMember: takes an object whose tree has no object in common with the entity's own, because a tree in which one object occurs twice, or holds itself, is outside `Valid`.
- EntityCopy.CopyConstruct: takes the static type of the source to be its dynamic type, because a copy through a reference to the base slices the object.
- EntityCopy.CopyAssign: takes both objects to be of one type that is also the static type, for the same reason; of the members copied before a throw it says only that they form a tree.
- HierarchyRoundTrip.PersistThenLoad: the files that `Save` writes at an entity's path are part of what `Load` has to undo, and not modelled themselves.
- Null members in copying: the source dereferences them, so `EntityCopy.CopyConstruct` asks for their absence.
- Resources.ContainerResource2D.Assign: asks that a buffer it does not refuse fits the data and that both `int` indices stay within `int`, because the source has undefined behaviour otherwise.
- ResourceAdapters.ResourceDeserializer.Deserialize: asks the same of the file it reads, for the same reason.
- Resources.ContainerResource2D.LoadInput: asks that the product of the sizes does not wrap around, because the source would then write outside the data.
- ChecksumGate.GateAgreesIff: takes writes to succeed; what a failed one leaves is the subject of `CrashSafety`.
- Writes that reach the disk out of order, and a failure of `close` that loses bytes in the middle: what gets there is a prefix of the image.
- Inheritance among entity types, other than from the common base.
- EntityAdapters.EntityLoader.LoadWithParentKey: takes the registry as a map from keys to the payloads of fresh entities, because registration itself only inserts and erases.
- The differences between the deserializer and the loader around `LoadEntity`: the former returns when no structure is loaded, where the latter throws when no database is open.
- Null emitters, consumers and resources: the types exclude them, where the source throws.
- Equivalent spellings of one file path, which the model takes for different files.
- Retrying after a failed `Serialize`, and serializing one resource under a second key: the checksum is already committed, and `Serialize` skips the write, as its contract says.
- The 100 ms sleep in the pool's constructor, singleton lifetimes, file permissions and platform switches.
