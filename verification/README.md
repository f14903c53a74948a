# hlquery: a verified model of its write path, key manager and codecs

hlquery is a search server. This project models the parts of it whose correctness is hard to see
from the code and proves what they promise, for all inputs, all runs and all interleavings:

- **Replicated writes** (`Replication`, `ReplicationSafety`, `ReplicationLimits`, `ReplicationFlushes`,
  `ReplicationPaths`, `ReplicationProgress`, `ReplicationRecords`, `ReplicationAnswers`, `Handlers`,
  `HandlerRefinement`). A primary journals an intent in a durable outbox, writes locally, marks the record committed, sends the write to every replica and removes
  the record. Replicas that miss a write are marked and later receive a full copy. The whole of it
  is one step machine with any number of handlers, flushes, background senders, the monitor and
  crashes. No write is forgotten under five conditions, and for each of them the machine decides
  exactly which clusters need it: a failing write that took effect must have its record, which a flush
  sweeps out of the database (no cluster with a replica is safe without it, even without crashes); a
  flush must not reach a replica that already holds a later write, because it empties the replica (the
  same; a primary that lets no write take effect while a flush is open meets it); a dirty flag must be
  on disk before it is relied upon, and none may be cleared while a record is swept (again no cluster
  with a replica); and the monitor must not remove the record of a write that other replicas still wait
  for (exactly clusters of two or more). From every state that such a primary can reach, two restarts
  without failures bring every write to every replica. When a running handler owns its record is
  decided exactly, over every run. The six write handlers are proved to follow one protocol automaton,
  which the machine refines. What a success answer means is stated by mode: one replica, more than half
  of them so that any two quorums meet, or all.
- **API keys** (`KeyStore`, `KeyMachine`, `KeyRestart`, `KeyManager`, `RateLimiter`, `AtomicFile`,
  `KeyCodec`, `KeyLayout`). Two maps that stay inverse through every interleaving of changes, failed saves and
  rollbacks; exactly when a restart brings back the same keys; the fixed-window limiter, whose true bound is 2L - 1 requests in a minute; the atomic replacement of
  the key file under short writes and crashes; the binary layout of that file and what is left of a
  damaged one.
- **Listings** (`NaturalOrder`, `CollectionMerge`). The natural order of names and the sorts built on
  it, when a listing is determined by its contents, paging, and the merge of all nodes' listings.
- **Documents** (`DocumentMerge`, `BulkImport`). The partial update whose full result is replicated
  and merged again by the replica, and bulk import with its counters.
- **Texts** (`Json`, `JsonBuilder`, `Endpoint`, `Query`). The JSON builder against a reader of
  RFC 8259, node addresses, and query strings against the receiving node's own decoder and against a
  strict one.
- **Bytes** (`BitMask`, `Simd`, `FastRng`). The 32-lane routines against their one-byte meaning, and
  the xorshift generator as a permutation.

Objects and loops of the program are classes, methods and loops here, each proved against a function
or a property stated without the code; what does not change state is functions and lemmas. The
outcome of storage, network, disk, clock and random source is an input, so every theorem is about all
of their behaviours; the exceptions are under "Left out".

Where code and documentation differ the model follows the code. One comment promises more than
the code does: src/api/distributed.cpp:3618-3632 relies on the durable dirty state and on
the outbox staying in force until the attempt returns; `ReplicationLimits.LateFlagForgets`,
`ReplicationLimits.WaitingLosesRecord` and `ReplicationLimits.TwoReplicasForget` give the runs in
which they are not.

## Model

| member | source | states |
|---|---|---|
| `ReplicationSafety.BeginKeeps` | src/api/searchapi.cpp:641-691 | journalling an intent, reported as failed or not, keeps the coverage invariant of every write |
| `ReplicationSafety.WriteKeeps` | src/api/documents.cpp:1061-1112 | the local write keeps it, whether stored, refused or thrown, with or without effect, flush or not, as long as a failure after the effect leaves the record |
| `ReplicationSafety.SweepKeeps` | src/search/document_collection_store.cpp:4284-4325 | a flush takes every other write out of the promise together with its record |
| `ReplicationSafety.CommitKeeps` | src/api/searchapi.cpp:693-732 | marking the record committed keeps it, also when the mark fails but reached the disk, or finds the record |
| `ReplicationSafety.LostCommitIsExact` | src/api/searchapi.cpp:712-728 | a commit mark that is lost keeps the promise if and only if the record is there or every replica has the write or awaits a copy |
| `ReplicationSafety.BumpKeeps` | src/api/documents.cpp:1116-1124 | bumping the mutation version between commit and replication keeps it |
| `ReplicationSafety.StartSendKeeps` | src/api/distributed.cpp:3767-3780 | starting the pass over the replicas, in the handler or in the background, keeps it |
| `ReplicationSafety.VisitKeeps` | src/api/distributed.cpp:3605-3737 | one visit under the resync fence (skipped, acknowledged, failed, queued or not) keeps it, for a flush, which empties the replica, if no other local write is there |
| `ReplicationSafety.EndSendKeeps` | src/api/distributed.cpp:3739-3805 | ending a pass keeps it for all three kinds of sender and every mode |
| `ReplicationSafety.FinalizeKeeps` | src/api/searchapi.cpp:746-752 | removing the record after delivery keeps it, in asynchronous mode by leaving the record |
| `ReplicationSafety.RecoverKeeps` | src/api/searchapi.cpp:759-860 | boot replay of a prepared, cut, committed or vanished record keeps it, whichever of the marks reach the disk |
| `ReplicationSafety.ResyncStartKeeps` | src/api/distributed.cpp:4129-4144 | taking the fence and emptying the replica keeps it |
| `ReplicationSafety.ResyncFailedKeeps` | src/api/distributed.cpp:4153-4163 | a failed full copy keeps it |
| `ReplicationSafety.ResyncCopiedKeeps` | src/api/distributed.cpp:3883-4010 | a finished full copy keeps it |
| `ReplicationSafety.DiscardKeeps` | src/api/distributed.cpp:3438-3460 | dropping a queued request after the copy, with or without its outbox record, keeps it unless a boot replay of that write is still due elsewhere |
| `ReplicationSafety.ResyncDoneKeeps` | src/api/distributed.cpp:3157-3168 | declaring the replica clean in memory keeps it |
| `ReplicationSafety.FlagKeeps` | src/api/distributed.cpp:3137-3155 | writing the clean flag under the fence keeps it, whether or not it reaches the disk |
| `ReplicationSafety.InvKept` | src/api/distributed.cpp:3546-3806 | every enabled step but a crash keeps the whole invariant, for all writes and replicas at once, if a failing write that took effect has its record and a flush finds no other local write at the replica that it empties |
| `ReplicationSafety.InvIsCovered` | src/api/distributed.cpp:3546-3806 | the invariant implies the promise: each replica has each local write, awaits a full copy, is still to be visited, or the write has its outbox record |
| `ReplicationSafety.UpIsCovered` | src/api/documents.cpp:1049-1134 | in every interleaving of any number of handlers, flushes, senders and the monitor without a crash, no local write is forgotten, if failing writes that took effect have their record and no flush reaches a replica that holds another local write |
| `ReplicationSafety.FlushDeliveryIsExact` | src/api/distributed.cpp:3605-3737 | the acknowledged delivery of a flush keeps the promise if and only if every other local write that the replica held has its record or is still on its way there |
| `ReplicationSafety.CrashIsExact` | src/api/distributed.cpp:2998-3050 | a restart keeps the promise if and only if the disk alone kept it (replica has it, durable mark or queued request, or outbox record) |
| `ReplicationSafety.CrashKeeps` | src/api/distributed.cpp:2998-3050 | from a state whose disk keeps the promise, a restart re-establishes the full invariant |
| `ReplicationSafety.MarkInvKept` | src/api/distributed.cpp:2976-2996 | when marks reach the disk at once, memory and disk agree about dirty replicas up to the one write in flight |
| `ReplicationSafety.GuardedKept` | src/api/distributed.cpp:3065-3071 | while the record of a handler is swept, the disk condemns every replica, if no flag is cleared meanwhile |
| `ReplicationSafety.FirmKept` | src/api/distributed.cpp:3438-3460 | when records are cleared with care, every local write is at the replica, awaits a copy, still has its record, or is about to commit it again |
| `ReplicationSafety.DiskInvKept` | src/api/distributed.cpp:2976-2996 | every step, crashes included, keeps the crash-proof invariant under the five conditions |
| `ReplicationSafety.NothingForgotten` | src/api/searchapi.cpp:759-860 | over every run with any number of crashes, restarts and flushes that meets the five conditions, no local write is forgotten, in memory and on disk |
| `ReplicationSafety.Converged` | src/api/searchapi.cpp:759-860 | in every run that meets the five conditions, once outbox, marks and queue are empty, every replica holds every local write |
| `ReplicationSafety.OneReplicaIsCareful` | src/api/distributed.cpp:3438-3460 | with at most one replica every run that meets the other conditions clears records with care |
| `ReplicationLimits.TogetherTheySuffice` | src/api/distributed.cpp:3546-3806 | no state reached under the five conditions forgets a write |
| `ReplicationLimits.UpIsSafe` | src/api/distributed.cpp:3546-3806 | without crashes the conditions on failing writes and on flushes are enough |
| `ReplicationLimits.TwoReplicasForget` | src/api/distributed.cpp:3438-3460 | every cluster of two or more replicas has a run that meets all conditions but care and forgets a local write |
| `ReplicationLimits.ReplicaCountDecides` | src/api/distributed.cpp:3438-3460 | without care, no reachable state forgets a write if and only if there is at most one replica |
| `ReplicationLimits.LateFlagForgets` | src/api/distributed.cpp:2976-2996 | every cluster with a replica, in every mode, has a run that meets all conditions but promptness and forgets a local write: a clean flag taken by the monitor lands after the boot replay condemned the replica |
| `ReplicationLimits.LateFlagsDecide` | src/api/distributed.cpp:4127-4127 | without promptness, no reachable state forgets a write if and only if there is no replica |
| `ReplicationLimits.FlushForgets` | src/api/collections.cpp:1290-1312 | every cluster with a replica has a run without any crash in which a flush takes effect, loses its commit mark and is forgotten |
| `ReplicationLimits.SweptRecordsDecide` | src/api/collections.cpp:1290-1312 | where failing writes may lack their record, no reachable state forgets a write if and only if there is no replica, even without crashes |
| `ReplicationLimits.SweptFlushIsExact` | src/search/document_collection_store.cpp:4284-4325 | a flush that was stored has its record afterwards if and only if its commit mark reached the disk |
| `ReplicationLimits.ClearedFlagForgets` | src/api/distributed.cpp:3137-3155 | every cluster with a replica has a run in which a flag is cleared between a flush and its commit mark, and a crash forgets the flush |
| `ReplicationLimits.ClearedFlagsDecide` | src/api/distributed.cpp:3137-3155 | where that may happen, no reachable state forgets a write if and only if there is no replica |
| `ReplicationLimits.WaitingLosesRecord` | src/api/distributed.cpp:3438-3460 | in every cluster that waits for a replica, a run without crashes leaves a waiting, unanswered handler with its write stored and its record gone |
| `ReplicationLimits.CrashForgets` | src/api/distributed.cpp:2998-3050 | a restart forgets a write that has no record, mark or queued request left |
| `ReplicationFlushes.LateFlushForgets` | src/api/collections.cpp:1290-1348 | every cluster with a replica, in every mode, has a run without crashes that meets the other four conditions and forgets a local write: a flush pauses before it is sent, a later write reaches every replica, and the flush empties them |
| `ReplicationFlushes.ReplayedFlushForgets` | src/api/searchapi.cpp:825-856 | every cluster with a replica has a run that meets the other four conditions in which the boot replay sends an old flush to clean replicas that hold a later write |
| `ReplicationFlushes.CrowdedFlushesDecide` | src/api/collections.cpp:1290-1348 | without the condition on flushes, no reachable state forgets a write if and only if there is no replica, with crashes and without |
| `ReplicationFlushes.LoneKept` | src/api/collections.cpp:1290-1348 | if no write takes effect while another flush has its handler, sender or record, every step keeps that an open flush is the only local write |
| `ReplicationFlushes.ExclusiveIsAlone` | src/api/collections.cpp:1290-1348 | over every run, a primary that waits in this way for its flushes meets the condition on flushes |
| `ReplicationFlushes.ExclusiveIsSafe` | src/api/collections.cpp:1290-1348 | so such a primary forgets nothing: without crashes if failing writes keep their record, with crashes under the three further conditions |
| `ReplicationPaths.CopyAll` | src/api/distributed.cpp:4129-4163 | from every state where nobody is in the middle of a write of flags or of the fence, the monitor alone can clean all replicas, and changes nothing else on the primary |
| `ReplicationPaths.Pass` | src/api/distributed.cpp:3605-3737 | a pass in which nothing fails ends with every clean replica having acknowledged the write |
| `ReplicationPaths.ReplayAll` | src/api/searchapi.cpp:759-860 | a replay in which nothing fails removes every prepared record, leaves only committed ones, and with clean replicas leaves none |
| `ReplicationPaths.Deliver` | src/api/documents.cpp:1126-1147 | with clean replicas and no failure a committed write reaches all of them and leaves no record |
| `ReplicationProgress.CanSettle` | src/api/searchapi.cpp:759-860 | from every state reached under the five conditions where a flush with a record is the only local write, some continuation without failures keeps the local writes, empties outbox, marks and queue and has every replica hold every local write |
| `ReplicationProgress.ExclusiveCanSettle` | src/api/searchapi.cpp:759-860 | for a primary that waits for its flushes this is so from every reachable state |
| `ReplicationProgress.ReplayInTurn` | src/api/searchapi.cpp:825-832 | in every run the replay sends one record at a time, and in asynchronous mode hands every record to the background without waiting |
| `ReplicationProgress.MarkedIsSkipped` | src/api/distributed.cpp:3610-3640 | from the moment a replica is marked or found unreachable every pass that comes to it skips it |
| `ReplicationProgress.DirtyStays` | src/api/distributed.cpp:3157-3168 | it stays marked through every continuation without a finished copy or a restart |
| `ReplicationProgress.VisitIsExact` | src/api/distributed.cpp:3605-3737 | what the replicas hold after a visit: nothing changes elsewhere, and at the replica that was reached the write is added, or after a flush is all there is |
| `ReplicationProgress.CopyIsRetried` | src/api/distributed.cpp:4153-4163 | after a copy that failed the monitor can start over at once |
| `ReplicationProgress.FlagsLand` | src/api/distributed.cpp:2976-2996 | flag writes in flight can all come to their end within the rules |
| `ReplicationProgress.OrphanStays` | src/api/searchapi.cpp:759-860 | a record without handler, sender, replay or queued request stays through every continuation without a restart or a flush |
| `ReplicationProgress.OrphansHappen` | src/api/searchapi.cpp:840-855 | every cluster with a replica reaches such a record under the five conditions |
| `ReplicationProgress.ConfiguredHolds` | src/api/distributed.cpp:3065-3071 | in every run marks, queue, flag writes and fence name configured replicas only |
| `ReplicationRecords.RecordIsExact` | src/api/searchapi.cpp:641-744 | in every run, crashes included, a running handler has its record if and only if nobody swept or cleared it since the handler last wrote it |
| `ReplicationRecords.MonitorAloneTakesRecords` | src/api/distributed.cpp:3438-3460 | in every run without a flush a handler that has not begun to send has its record, and a waiting one has it if and only if the monitor has not cleared it |
| `ReplicationRecords.RecordKept` | src/api/searchapi.cpp:641-744 | every step moves the record of a running handler as its history says |
| `ReplicationRecords.ConflictSticks` | src/api/distributed.cpp:3706-3716 | an answer that a resync is in progress is taken at its word while nobody copies |
| `ReplicationRecords.NeverCopied` | src/api/distributed.cpp:4133-4136 | from then on, until a crash, the monitor never copies to that replica |
| `ReplicationRecords.NeverSettles` | src/api/distributed.cpp:4133-4136 | so, with all flag writes landed and flushes alone, that replica is dirty on disk in every continuation without a crash |
| `ReplicationAnswers.KnownKept` | src/api/documents.cpp:1049-1134 | every step of every run keeps: nothing is sent or queued before it was stored, a committed record is of a stored write, and a handler about to send a local write has its record |
| `ReplicationAnswers.VisitCounts` | src/api/distributed.cpp:3605-3737 | each acknowledgement counted by a pass comes from a different replica |
| `ReplicationAnswers.EndSendCounts` | src/api/distributed.cpp:3739-3806 | ending a pass keeps the counters tied to the replicas that acknowledged, and a success to the number the mode asks for |
| `ReplicationAnswers.CountedKept` | src/api/distributed.cpp:3546-3806 | every step keeps the counters tied to the replicas that acknowledged |
| `ReplicationAnswers.AnswersHold` | src/api/distributed.cpp:3581-3597 | in every run a success answer means that the write was stored and, with errors not tolerated, that the number of different replicas the mode asks for took it; SuccessMeans says what that number is |
| `ReplicationAnswers.RequiredIsExact` | src/api/distributed.cpp:3588-3597 | the number of acknowledgements is reached if and only if one replica, more than half of them, or all of them acknowledged, by mode |
| `ReplicationAnswers.SuccessMeans` | src/api/distributed.cpp:3581-3806 | in every run of a cluster with replicas that fails on errors, a success answer means that some replica took the write (SyncOne), that more than half of them did (Quorum), or that all did (SyncAll) |
| `ReplicationAnswers.QuorumsMeet` | src/api/distributed.cpp:3594-3597 | so in every run any two writes that a quorum cluster reported as successful have a replica in common |
| `ReplicationAnswers.PassIsExact` | src/api/distributed.cpp:3739-3806 | in every run a pass succeeds if and only if the replicas of its mode acknowledged in it, or errors are tolerated and no failed request was left out of the queue: a handler then goes on and otherwise tells its client; a background pass removes the record if and only if all acknowledged, a replay if and only if it succeeded and no replica awaits a copy |
| `Handlers.SuccessIsFull` | src/api/documents.cpp:1049-1147 | the protocol ends in success exactly for the sequence prepare, store, commit, bump, replicate, finalize, each once and successful |
| `Handlers.FailureFrom` | src/api/documents.cpp:1105-1112 | after a failed call no continuation ends in success |
| `Handlers.Session.CommitAndDeliver` | src/api/documents.cpp:1114-1147 | from the stored write on: answer, acknowledgement and fate of the record for every combination of replies and of what others do to the record |
| `Handlers.Session.AddDocument` | src/api/documents.cpp:1049-1147 | follows the protocol; a write that took effect ends unacknowledged without its record if and only if storage failed or threw after the effect, a sweep met a lost commit mark, or the monitor cleared it while waiting in vain |
| `Handlers.Session.UpdateDocument` | src/api/documents.cpp:1447-1495 | the same with its own exact condition: an exception leaves the record, unless it was swept |
| `Handlers.Session.DeleteDocument` | src/api/documents.cpp:1556-1598 | the same for deleting a document, with its status codes |
| `Handlers.Session.CreateCollection` | src/api/collections.cpp:1083-1157 | the same for creating a collection, where a refused write may be a conflict |
| `Handlers.Session.DeleteCollection` | src/api/collections.cpp:1195-1245 | the same for deleting a collection |
| `Handlers.Session.Flush` | src/api/collections.cpp:1280-1348 | the same for emptying the database, which sweeps its own record: it is missing also if and only if the commit mark did not reach the disk |
| `HandlerRefinement.StepFollows` | src/api/documents.cpp:1049-1134 | each step of the machine is no call, one protocol call, or the refused write with its clean-up |
| `HandlerRefinement.RunFollows` | src/api/documents.cpp:1049-1134 | in every interleaving without a crash each handler is where the protocol automaton is after its calls |
| `HandlerRefinement.AnsweredMeansFull` | src/api/collections.cpp:1083-1157 | a client is told success exactly when its handler made all six calls once, in order, successfully |
| `KeyStore.InsertKeepsInverse` | src/api/apikeymanager.cpp:139-185 | entering a key keeps the two maps inverse if and only if ID and hash are new, or the ID already carries that hash |
| `KeyStore.RemoveKeepsInverse` | src/api/apikeymanager.cpp:265-308 | removing a key keeps the maps inverse and changes no other lookup |
| `KeyStore.UndoRemove` | src/api/apikeymanager.cpp:289-296 | rolling a delete back restores both maps |
| `KeyStore.UndoInsertRestores` | src/api/apikeymanager.cpp:170-182 | rolling a create back restores both maps if and only if ID and hash were new |
| `KeyStore.LookupIsExact` | src/api/apikeymanager.cpp:210-245 | a hash is found exactly when some record carries it |
| `KeyMachine.AlwaysInv` | src/api/apikeymanager.cpp:139-373 | at every step of every interleaving of create, update, delete and use, with failed saves: maps inverse, file equal to what a rollback would restore |
| `KeyMachine.FileAgrees` | src/api/apikeymanager.cpp:265-373 | whenever the persistence lock is free the file agrees with memory on everything but usage |
| `KeyMachine.IssuedUntilDeleted` | src/api/apikeymanager.cpp:139-245 | an issued key finds its own record until a delete of its ID begins, nothing while that delete is being saved, its record again if the save fails, and nothing ever after it succeeds |
| `KeyMachine.StoredIsIssued` | src/api/apikeymanager.cpp:139-185 | in every run, whenever nothing is being saved, every stored key was issued under its own ID |
| `KeyMachine.UseIsRecorded` | src/api/apikeymanager.cpp:360-373 | at any moment of any run a use sets the time and adds one to the counter of that key, and changes no other |
| `KeyMachine.IssuedValidates` | include/api/apikeys.h:97-118 | in every run an issued key validates at every time if it has no expiration, and exactly up to its expiration if it has one, until a delete of its ID begins |
| `KeyMachine.PolicyIsLast` | src/api/apikeymanager.cpp:139-356 | at every moment of every run each key carries the policy last given to it, with every change undone whose save failed |
| `KeyMachine.NeverAgain` | src/api/apikeymanager.cpp:210-308 | after a successful delete no continuation of the run ever validates the key again |
| `KeyMachine.PastGrows` | src/api/apikeymanager.cpp:139-308 | issued keys keep their ID and deletions stay, in every continuation |
| `KeyMachine.UsesAreSmall` | src/api/apikeymanager.cpp:360-373 | any number of uses touches neither file, index nor lock |
| `KeyMachine.FailedDeleteIsNothing` | src/api/apikeymanager.cpp:265-308 | a delete whose save fails leaves every key as it was, whatever was used meanwhile |
| `KeyRestart.PossibleIsExact` | src/api/apikeymanager.cpp:86-101 | in every run, a crash can bring back nothing but the last saved snapshot if and only if the last save that changed it got its directory flush |
| `KeyRestart.SeenIsExact` | src/api/apikeymanager.cpp:210-245 | two stores answer every key alike if and only if they hold the same keys |
| `KeyRestart.RestartIsExact` | src/api/apikeymanager.cpp:529-556 | between saves, every restart answers every key as before the crash if and only if the last change got its directory flush |
| `KeyRestart.IssuedAcrossRestart` | src/api/apikeymanager.cpp:529-556 | then an issued key is found after every crash, under its own ID, if and only if it was not deleted |
| `KeyRestart.RestartMidway` | src/api/apikeymanager.cpp:86-101 | a crash in the middle of the next save leaves all of its change or none |
| `KeyManager.APIKeyManager.constructor` | include/api/apikeys.h:50-118 | starts with empty, hence inverse, maps |
| `KeyManager.APIKeyManager.CreateKey` | src/api/apikeymanager.cpp:139-185 | new maps, file and answer for both outcomes of the save; a saved key has the given policy without expiration and validates at every time; with new ID and hash the maps stay inverse, and a failed save changes nothing if and only if both are new |
| `KeyManager.APIKeyManager.ValidateKey` | src/api/apikeymanager.cpp:210-245 | finds a key if and only if a record carries the hash whose expiration, if it has one, has not passed, and returns that record |
| `KeyManager.APIKeyManager.DeleteKey` | src/api/apikeymanager.cpp:265-308 | removes exactly the key, its hash and its rate window, or on a failed save nothing |
| `KeyManager.APIKeyManager.UpdateKey` | src/api/apikeymanager.cpp:312-356 | replaces exactly the policy, or on a failed save nothing |
| `KeyManager.APIKeyManager.UpdateLastUsed` | src/api/apikeymanager.cpp:360-373 | sets time of last use and adds one to the counter of that key, and changes nothing else |
| `KeyManager.APIKeyManager.CheckRateLimit` | src/api/apikeymanager.cpp:377-417 | refuses a known key if and only if less than a minute has passed since its window opened and its limit, or 1000 if it has none, is used up; advances the window as the limiter below |
| `RateLimiter.WindowAdmitsAtMost` | src/api/apikeymanager.cpp:377-417 | a window admits at most the limit, and fewer only if there were fewer requests |
| `RateLimiter.WindowsApart` | src/api/apikeymanager.cpp:399-407 | window starts are a minute apart even if the clock steps back |
| `RateLimiter.SpanAdmitsAtMost` | src/api/apikeymanager.cpp:377-417 | under a nondecreasing clock a span below a minute meets at most two windows |
| `RateLimiter.AnyMinute` | src/api/apikeymanager.cpp:377-417 | any such span of any run admits at most 2L - 1 requests once a request has opened a window, and never more than 2L |
| `RateLimiter.AnyMinuteIsTight` | src/api/apikeymanager.cpp:377-417 | for every L a run admits 2L - 1 within a minute |
| `RateLimiter.RefusalIsExact` | src/api/apikeymanager.cpp:403-416 | a request is refused exactly when its window is still open and used up |
| `RateLimiter.WindowIsExact` | src/api/apikeymanager.cpp:388-416 | within a window a key gets as many requests as its limit has left, or up to 1000 if it has none, as long as they come |
| `AtomicFile.SameIsSafe` | src/api/apikeymanager.cpp:43-101 | while the target is untouched a crash leaves exactly what it could have left before |
| `AtomicFile.RenamedIsSafe` | src/api/apikeymanager.cpp:84-101 | after renaming a flushed file a crash leaves what it could have left before, or all of the new contents |
| `AtomicFile.FlushIsNeeded` | src/api/apikeymanager.cpp:77-86 | renaming an unflushed file would allow other contents |
| `AtomicFile.CalmIsExact` | src/api/apikeymanager.cpp:92-98 | a crash leaves what is there if and only if the file is flushed and the flushed directory entry leads to the same flushed contents |
| `AtomicFile.SkippedFlushBringsBack` | src/api/apikeymanager.cpp:92-100 | after a save whose directory flush failed, a crash in the next save can bring back the contents from before both |
| `AtomicFile.PointsAreExact` | src/api/apikeymanager.cpp:43-101 | old-or-new holds at every crash point if and only if it held before the save |
| `AtomicFile.FileSystem.FillTemp` | src/api/apikeymanager.cpp:54-82 | with arbitrary short writes the temporary file ends complete and flushed, or the call reports failure; the target is never touched |
| `AtomicFile.FileSystem.WriteFileAtomic` | src/api/apikeymanager.cpp:43-101 | from any directory state, a crash between any two calls leaves what it could have left before or the new contents whole, so old or new exactly if the disk was such before; false means old, true means new |
| `KeyCodec.RoundTrip` | src/api/apikeymanager.cpp:441-495 | decoding the written bytes of any snapshot within the field limits restores it and consumes exactly those bytes |
| `KeyCodec.FileRoundTrip` | src/api/apikeymanager.cpp:548-551 | the file of such a snapshot is read back if and only if its encrypted size is at most 64 MiB |
| `KeyCodec.FilesCanBeTooBig` | src/api/apikeymanager.cpp:31-39 | fields of full length exceed that size long before the number of keys is used up |
| `KeyCodec.TableHolds` | src/api/apikeymanager.cpp:735-736 | with different IDs and hashes every key is found again by ID and by hash, all fields intact |
| `KeyCodec.ScopesHold` | src/api/apikeymanager.cpp:659-699 | with different names every scope of a key is found again |
| `KeyCodec.TailIsKept` | src/api/apikeymanager.cpp:715-723 | a record comes back unchanged if and only if its rate limit is positive |
| `KeyCodec.PrefixRejected` | src/api/apikeymanager.cpp:578-739 | no strict prefix of a written snapshot is accepted |
| `KeyCodec.DecodeExtends` | src/api/apikeymanager.cpp:578-739 | bytes behind an accepted input change nothing that was read |
| `KeyCodec.CutKeepsWhatPrecedes` | src/api/apikeymanager.cpp:628-739 | a file cut inside a record yields exactly the records before it |
| `KeyCodec.ReadableIsExact` | src/api/apikeymanager.cpp:628-739 | the number of readable records is where the first failure is |
| `KeyCodec.KeyBack` | src/api/apikeymanager.cpp:449-492 | one record is read back, whatever follows it |
| `KeyCodec.WriteScopes` | src/api/apikeymanager.cpp:466-484 | the nested loops write the scopes with their actions |
| `KeyCodec.WriteKey` | src/api/apikeymanager.cpp:449-492 | one pass of the loop writes one record |
| `KeyCodec.Save` | src/api/apikeymanager.cpp:439-495 | the loop writes the whole snapshot |
| `KeyCodec.LoadActions` | src/api/apikeymanager.cpp:682-691 | the innermost reading loop is the counted reader |
| `KeyCodec.LoadScopes` | src/api/apikeymanager.cpp:659-699 | the loop over scopes is the counted reader |
| `KeyCodec.Tables.Load` | src/api/apikeymanager.cpp:611-739 | success gives exactly the decoded tables; a bad count leaves the old ones; any later failure leaves the longest readable run of records |
| `KeyCodec.Tables.LoadFile` | src/api/apikeymanager.cpp:529-739 | the size limit in front of it |
| `KeyLayout.WordLayout` | src/api/apikeymanager.cpp:441-446 | counts are written in four bytes, the lowest first |
| `KeyLayout.RecordLayout` | src/api/apikeymanager.cpp:456-492 | the offset of every part of a record: lengths and bytes of ID, hash and description, the scopes, and eighteen bytes at the end |
| `KeyLayout.TailLayout` | src/api/apikeymanager.cpp:483-491 | those eighteen bytes: two flags, expiration, rate limit and use counter |
| `KeyLayout.LimitsAreExact` | src/api/apikeymanager.cpp:31-39 | a written snapshot is read back, whole, if and only if no count or text exceeds its limit; otherwise it is refused |
| `KeyLayout.FileSizeIsExact` | src/common/cryptoutils.cpp:191-225 | the encrypted file has sixteen bytes and the least multiple of sixteen that is longer than the text |
| `KeyLayout.KeysComeBack` | src/api/apikeymanager.cpp:611-739 | with different IDs and hashes every key is found with every field as saved, except that a rate limit that is not positive is 1000 |
| `NaturalOrder.CompareNaturalString` | src/api/collections.cpp:1354-1424 | the two-index loop answers as the comparison by sight does: by length and first different digit of the digit runs without leading zeros, otherwise by the first different letter; it throws where a run exceeds 9223372036854775807 |
| `NaturalOrder.SightIsExact` | src/api/collections.cpp:1354-1424 | comparing by token values and comparing by sight, without any numbers, are the same for all texts |
| `NaturalOrder.RunsCompare` | src/api/collections.cpp:1384-1392 | of two digit runs without their leading zeros the shorter is the smaller number, and of equally long ones the one with the smaller first different digit |
| `NaturalOrder.LettersBySight` | src/api/collections.cpp:1396-1406 | where not both names go on with a digit: case does not matter, bytes above 127 come first, and otherwise the smaller byte decides |
| `NaturalOrder.ByteOrderIsExact` | src/api/collections.cpp:859-869 | plain text order is decided by the first different byte, and a beginning comes before its continuation |
| `NaturalOrder.ThrowsIsExact` | src/api/collections.cpp:1384-1390 | it throws if and only if, after equal tokens, both names carry a number and one is too big |
| `NaturalOrder.AnswersAgree` | src/api/collections.cpp:1354-1424 | where it answers it gives the lexicographic order of token ranks |
| `NaturalOrder.SortableNeverThrows` | src/api/documents.cpp:221-277 | names whose numbers fit are compared by that order |
| `NaturalOrder.NameOrderPreorder` | src/api/collections.cpp:1354-1424 | the order is a total preorder on all names |
| `NaturalOrder.EqualMeansSameTokens` | src/api/collections.cpp:1354-1424 | two names are equal for it exactly when their tokens are |
| `NaturalOrder.SortsAreStrictWeak` | src/api/collections.cpp:1682-1706 | the four sorts are strict weak orders, upwards and downwards |
| `NaturalOrder.CollectionLambdasAgree` | src/api/collections.cpp:1682-1706 | the collection lambdas are those orders |
| `NaturalOrder.DocumentLambdaAgrees` | src/api/documents.cpp:540-557 | the timestamp lambda is that order |
| `NaturalOrder.ListingIsDetermined` | src/api/collections.cpp:1682-1706 | a sorted listing is determined by its contents if and only if no two entries are equal for the sort |
| `NaturalOrder.OneArrangement` | src/api/collections.cpp:1682-1706 | without equal entries any two sorted arrangements are the same |
| `NaturalOrder.PagesCover` | src/api/collections.cpp:1709-1715 | reading page after page returns every entry once, in order |
| `NaturalOrder.PageIsExact` | src/api/collections.cpp:1709-1715 | a page starts at the offset and has as many entries as the limit allows and there are; a limit of zero is none |
| `CollectionMerge.NodesAreExact` | src/api/collections.cpp:843-847 | the nodes of a collection are exactly those that listed it, none twice |
| `CollectionMerge.CountIsExact` | src/api/collections.cpp:849-857 | the document count is the largest ever reported |
| `CollectionMerge.CreatedIsExact` | src/api/collections.cpp:859-869 | the creation time is the earliest ever reported |
| `CollectionMerge.CountsAreExact` | src/api/collections.cpp:851-851 | the per-node count is that node's last word |
| `CollectionMerge.MergedIsAbout` | src/api/collections.cpp:785-871 | the listing holds exactly the mentioned names, each with the fold of its own entries |
| `CollectionMerge.OrderDoesNotMatter` | src/api/collections.cpp:785-871 | for responses with different labels, any two orders give the same names, counts, times, per-node maps and node sets |
| `CollectionMerge.AgainChangesNothing` | src/api/collections.cpp:785-871 | merging a response twice in a row is merging it once |
| `CollectionMerge.Update` | src/api/collections.cpp:843-869 | one entry is folded into its record |
| `CollectionMerge.Listings.AddCollections` | src/api/collections.cpp:785-871 | the loop folds all entries of a response |
| `CollectionMerge.Listings.AddLocal` | src/api/collections.cpp:924-954 | for any listing and any local collections, the own count and creation time replace what the listing had |
| `CollectionMerge.LocalIsAResponse` | src/api/collections.cpp:924-954 | a listing that starts with different non-empty local names starts as if the node had reported them |
| `DocumentMerge.MergeUpdate` | src/api/documents.cpp:1288-1431 | title and content: absent keeps, null empties, a string replaces, anything else is printed; every other key sets its field or with null removes it, all else stays; rejected if and only if a text is unclean or the timestamp is no integer |
| `DocumentMerge.CleanIsExact` | src/api/searchapi.cpp:1786-1806 | a text is refused if and only if it has a control character other than line breaks and tabs |
| `DocumentMerge.BodyOfPlain` | src/api/documents.cpp:179-217 | the replicated body has the ID, the non-empty texts, the fields and the timestamp, each as it is, and nothing else |
| `DocumentMerge.MergeFields` | src/api/documents.cpp:1374-1409 | the loop over the body sets, removes and keeps fields, and rejects exactly the unclean texts |
| `DocumentMerge.BodyIsExact` | src/api/documents.cpp:179-217 | replaying the body of a plain document d on x gives d if and only if d has a text or field wherever x has one and a timestamp |
| `DocumentMerge.ErasingIsExact` | src/api/documents.cpp:1292-1409 | an update leads upwards in that sense if and only if it erases nothing |
| `DocumentMerge.PlainIsKept` | src/api/documents.cpp:1292-1409 | every accepted update of a plain document is plain |
| `DocumentMerge.BodyCatchesUp` | src/api/documents.cpp:1443-1445 | the body of any later state brings a replica there from any earlier state |
| `DocumentMerge.ReplicaFollows` | src/api/documents.cpp:1443-1445 | over every run of non-erasing updates a replica that gets bodies in order, with any losses and repetitions, holds exactly the state of the last one |
| `DocumentMerge.RepeatIsExact` | src/api/documents.cpp:1411-1431 | repeating an accepted update changes nothing if and only if it carries a timestamp or the clock stands still |
| `DocumentMerge.ScoreBecomesField` | src/api/documents.cpp:205-208 | a score reaches the replica as a field |
| `BulkImport.KeptIsExact` | src/api/documents.cpp:2130-2148 | exactly the first occurrences of non-empty IDs are kept |
| `BulkImport.KeptAscends` | src/api/documents.cpp:2130-2148 | in the order of the payload |
| `BulkImport.UniqueIds` | src/api/documents.cpp:2130-2148 | kept IDs are different and every non-empty ID has one |
| `BulkImport.DropRepeats` | src/api/documents.cpp:2122-2148 | the loop keeps these documents and counts the others |
| `BulkImport.SplitKeepsAll` | src/api/documents.cpp:2164-2185 | the split by owner loses and doubles no document |
| `BulkImport.GroupsAreSorted` | src/api/documents.cpp:2164-2185 | each peer has one list, holding exactly its documents in order |
| `BulkImport.ChunksJoin` | src/api/documents.cpp:2316-2319 | the chunks joined are the list; all but the last are full, none is empty |
| `BulkImport.ChunkSize` | src/api/documents.cpp:2259-2295 | a chunk has between 1 and 10000 documents |
| `BulkImport.ChunksAsRequested` | src/api/documents.cpp:2259-2316 | every chunk but the last has the requested size if it is from 1 to 10000, 10000 if it is larger, and 500 if there is none |
| `BulkImport.StartsAreExact` | src/api/documents.cpp:2316-2320 | the chunks follow each other without gap or overlap |
| `BulkImport.ReadEntries` | src/api/documents.cpp:2085-2120 | the loop parses and counts the unusable entries |
| `BulkImport.Split` | src/api/documents.cpp:2164-2185 | the loop distributes the documents |
| `BulkImport.Forward` | src/api/documents.cpp:2187-2254 | imported is the sum of the counts in readable replies, failed the sum of the reported failures and of all documents sent to a peer without a complete report |
| `BulkImport.StoreChunk` | src/api/documents.cpp:2321-2405 | one chunk: the count of a batch that stored anything, and otherwise each document once, as stored or as failed, by its own answer |
| `BulkImport.StoreAll` | src/api/documents.cpp:2316-2411 | the loop hands over exactly the chunks; the counters are the sums over them of what storage took and refused |
| `BulkImport.Import` | src/api/documents.cpp:2085-2418 | there are no counters if and only if the journal refuses local documents; imported is the sum of what peers and storage counted, so nothing from silent peers and refusing storage; failed is unusable and repeated entries plus what was not taken; with the entries in neither counter they are the payload |
| `BulkImport.NothingFromNothing` | src/api/documents.cpp:2210-2252 | if no peer sent a count and storage stored nothing, nothing counts as imported |
| `BulkImport.PeersAreSums` | src/api/documents.cpp:2210-2252 | the count over peers is the sum of their reports, with all documents failed where a report is missing |
| `BulkImport.ChunksAreSums` | src/api/documents.cpp:2321-2405 | the local count is the sum over chunks of batch counts or of the documents stored alone |
| `BulkImport.DocsJoin` | src/api/documents.cpp:2085-2120 | the entries are read in order, none left out by those around it |
| `BulkImport.DocsOfOne` | src/api/documents.cpp:2085-2120 | a usable entry gives its document, an unusable one none |
| `BulkImport.CountersAddUp` | src/api/documents.cpp:2085-2418 | with honest counts the counters never exceed the payload, and add up to it if and only if no ID is empty, every batch is all or nothing and every peer accounts for all it got |
| `Json.RoundTrip` | include/utils/jsonbuilder.h:50-188 | every printed tree is a JSON document, and reading it per RFC 8259 gives the tree |
| `Json.ValueBack` | include/utils/jsonbuilder.h:50-188 | the same for a value inside a document, whatever follows |
| `Json.StringBack` | include/utils/jsonbuilder.h:206-253 | an escaped string ends at its quote and is read back |
| `Json.EscapeIsInjective` | include/utils/jsonbuilder.h:206-253 | escaping loses nothing |
| `Json.EscapedIsExact` | include/utils/jsonbuilder.h:206-253 | a character is written as it is if and only if it is no control character, quote or backslash |
| `Json.EscapeEndsItself` | include/utils/jsonbuilder.h:206-253 | no escaped string with its quote starts another |
| `Json.NumberBack` | include/utils/jsonbuilder.h:62-81 | a printed integer is read back |
| `JsonBuilder.EscapeJSONString` | include/utils/jsonbuilder.h:206-253 | the loop escapes every character |
| `JsonBuilder.MemberFits` | include/utils/jsonbuilder.h:196-204 | an entry behind its comma extends an unfinished object |
| `JsonBuilder.ItemFits` | include/utils/jsonbuilder.h:196-204 | the same for arrays |
| `JsonBuilder.Builder.constructor` | include/utils/jsonbuilder.h:33-48 | starts as the empty object or array |
| `JsonBuilder.Builder.AddEntry` | include/utils/jsonbuilder.h:155-160 | one entry with its key: the text appended, and the tree it makes |
| `JsonBuilder.Builder.AddElementText` | include/utils/jsonbuilder.h:144-153 | one element, ignored by object builders |
| `JsonBuilder.Builder.AddString` | include/utils/jsonbuilder.h:50-55 | adds a string member |
| `JsonBuilder.Builder.AddInt` | include/utils/jsonbuilder.h:62-81 | adds an integer member |
| `JsonBuilder.Builder.AddBool` | include/utils/jsonbuilder.h:90-95 | adds a boolean member |
| `JsonBuilder.Builder.AddNested` | include/utils/jsonbuilder.h:104-109 | adds the tree of another builder and finishes that builder |
| `JsonBuilder.Builder.AddItemString` | include/utils/jsonbuilder.h:111-120 | adds a string element |
| `JsonBuilder.Builder.AddItemInt` | include/utils/jsonbuilder.h:122-131 | adds an integer element |
| `JsonBuilder.Builder.AddItemNested` | include/utils/jsonbuilder.h:133-142 | adds the tree of another builder as an element |
| `JsonBuilder.Builder.ToString` | include/utils/jsonbuilder.h:176-188 | the text is the printed tree and parses to exactly the tree that was built |
| `BitMask.VisitsSetBits` | include/utils/simdutils.h:107-122 | clearing the lowest bit visits exactly the set lanes, each once, ascending, and ends |
| `BitMask.LowestIsFirst` | include/utils/simdutils.h:109-109 | the number of trailing zeros is the first set lane |
| `BitMask.ClearFirst` | include/utils/simdutils.h:119-121 | the mask without its lowest bit is the mask without its first lane |
| `Simd.FastStringEqual` | include/utils/simdutils.h:28-72 | equality of the two texts |
| `Simd.FastStringSearch` | include/utils/simdutils.h:76-136 | the leftmost occurrence or none, whatever bytes lie past the text |
| `Simd.SearchBlock` | include/utils/simdutils.h:98-122 | one block: the leftmost occurrence that starts in it |
| `Simd.PlainSearch` | include/utils/simdutils.h:125-132 | the one-byte form has the same contract |
| `Simd.LeftmostIsUnique` | include/utils/simdutils.h:76-136 | so both forms return the same position |
| `Simd.FirstDifference` | include/utils/simdutils.h:228-235 | the lowest bit of the complement is the first differing lane |
| `Simd.FastStringCompare` | include/utils/simdutils.h:213-257 | for lengths below 2^31 negative, zero or positive if and only if the first text comes before, equals or comes after the second byte by byte; beyond, the difference of the cast lengths where it is defined |
| `Simd.OrderIsExact` | include/utils/simdutils.h:213-257 | the reference order is decided by the first different byte, and a beginning comes before its continuation |
| `Simd.CompareBlocks` | include/utils/simdutils.h:221-237 | whole blocks up to the first that differs, whose first different byte decides |
| `Simd.CastLengthsOrder` | include/utils/simdutils.h:254-256 | below 2^32 the cast lengths have a defined difference of the right sign if and only if both or neither are below 2^31 |
| `Simd.FastToLowercase` | include/utils/simdutils.h:140-177 | in place: exactly the upper-case letters change, nothing behind the text |
| `Endpoint.Parse` | include/api/common.h:94-220 | an accepted address has a non-empty trimmed host and a port from 1 to 65535 |
| `Endpoint.HostPortBack` | include/api/common.h:171-202 | host:port is read back, with any scheme and suffix |
| `Endpoint.BracketBack` | include/api/common.h:131-170 | a bracketed host with its port is read back, with any scheme and suffix |
| `Endpoint.BareHostBack` | include/api/common.h:171-176 | a host with several colons is read back with the default port |
| `Endpoint.AcceptedIsReadBack` | include/api/common.h:94-220 | whatever was accepted can be printed and is read back as the same address |
| `Endpoint.ParseIsExact` | include/api/common.h:94-220 | the whole grammar: an address is accepted with a host, port and scheme if and only if it is written as scheme, node and suffix, the node being a host in brackets or without, with a port in decimal digits, an empty one where allowed, or none |
| `Endpoint.TrimIsExact` | include/api/common.h:80-91 | trimming removes the blanks at both ends, all of them and nothing else |
| `Endpoint.SplitNode` | include/api/common.h:127-202 | host and port as the branches find them |
| `Endpoint.Target.ParseSharedNodeEndpoint` | include/api/common.h:94-220 | the outputs are the parsed address, or untouched on rejection |
| `Query.ParametersArrive` | src/api/httpserver.cpp:3366-3373 | the receiving node gets the same parameters if and only if the header block is at most 64 KiB and no name or value has a zero byte |
| `Query.ParametersDecode` | src/api/collections.cpp:569-614 | encoder and decoder agree on a parameter map if and only if every name and value has no zero byte and is at most 10 MiB |
| `Query.SentIsStandard` | src/api/collections.cpp:569-614 | a strict reader after section 2.1 of RFC 3986 gets every parameter map back, of any bytes and any size |
| `Query.TextArrives` | src/api/httpserver.cpp:3574-3638 | encoder and decoder agree on one text under the same condition |
| `Query.EncodeIsWellFormed` | src/api/collections.cpp:569-592 | only unreserved characters and upper-case triples are sent |
| `Query.SentAsIs` | src/api/collections.cpp:573-582 | a byte is sent as it is if and only if section 2.3 of RFC 3986 calls it unreserved |
| `Query.HexIsExact` | src/api/httpserver.cpp:3590-3592 | the receiver takes hexadecimal digits of either case at their value, and nothing else |
| `Query.ParsedInTurn` | src/api/httpserver.cpp:3642-3668 | parameters are read one after the other, and empty parts are skipped |
| `Query.BareNames` | src/api/httpserver.cpp:3652-3667 | a name alone stands for true, a name with an equals sign for the empty text |
| `Query.RowsBack` | src/api/httpserver.cpp:3642-3668 | the receiver sees every parameter in order, as it arrives |
| `Query.UrlEncode` | src/api/collections.cpp:569-592 | the encoding loop |
| `Query.BuildQuery` | src/api/collections.cpp:594-614 | the assembling loop |
| `Query.UrlDecode` | src/api/httpserver.cpp:3574-3638 | the decoding loop, with its size limit |
| `Query.ParseQueryParams` | src/api/httpserver.cpp:3642-3668 | the splitting loop |
| `FastRng.StepIsUndone` | include/common/cryptoutils.h:48-56 | the step has an inverse |
| `FastRng.FirstNumber` | include/common/cryptoutils.h:43-56 | the first number from the default seed |
| `FastRng.StepIsPermutation` | include/common/cryptoutils.h:48-56 | the step is a permutation of the 64-bit states |
| `FastRng.ZeroOnlyFromZero` | include/common/cryptoutils.h:48-56 | a run is zero everywhere or nowhere |
| `FastRng.PurelyPeriodic` | include/common/cryptoutils.h:48-56 | where a run meets itself it has returned to its seed |
| `FastRng.SeedReturns` | include/common/cryptoutils.h:48-56 | every run returns to its seed within 2^64 steps |
| `FastRng.FastRNG.Next` | include/common/cryptoutils.h:48-56 | the three lines are the step |
| `FastRng.FastRNG.Uniform` | include/common/cryptoutils.h:63-66 | the result is below the bound; for a bound of zero nothing is drawn |

## Left out

- Order and overlap of writes at a replica, flushes apart: the machine treats writes as identities that
  a replica has or lacks; `DocumentMerge` covers the contents of one document.
- Requests that arrive late: one that failed for the primary has reached the replica by then or never
  does.
- Failing deletions on the primary's disk: removing an outbox record or a queued request is taken to
  succeed. A record that stayed would be sent again at the next restart.
- The inside of a flush: its deletions and its sweep of the database are one step, complete or without
  effect.
- Storage engine, inverted index, segments, search cache, SQL parser, scoring and thread pools: they
  have no state of their own in these protocols, and only their answers appear, as inputs.
- The update of a collection's metadata, which clears its record after earlier keys may have been
  applied, and bulk import's journal steps after the first, which replicate the whole local list even
  where single documents failed.
- Sockets, TLS, HTTP framing, authentication headers, logging, configuration and module hooks: input
  and output without a law of their own.
- AES and SHA: the key file is modelled before encryption, with the size that CBC and padding give it,
  and IDs and hashes of new keys are new.
- Lookups on one key (actions, scopes, filters): they read one record and change nothing.
- The 32-bit overflow of a key's use counter, which no decision of the program reads.
- The document comparator for custom fields, which mixes dates, numbers and text per pair and is no
  order.
- JSON numbers with fraction or exponent, raw JSON, and the detached builders of `Object` and `Array`,
  which never form a document.
- FNV hash, memory copy and string length among the byte routines.
- Update bodies that are not JSON objects, and the freezing of timestamps in a bulk import.
- ReplicationSafety.UpIsCovered: holds under the conditions that failing writes which took effect have
  their record and that flushes find no later write, because the code does not meet the promise without
  them; ReplicationLimits and ReplicationFlushes show where.
- ReplicationSafety.NothingForgotten: holds under the five conditions, for the same reason.
- ReplicationProgress.CanSettle: asks that a flush with a record is the only local write; other states
  can settle too where the flush still comes first at every replica.
- Handlers.Session.AddDocument: one session, with what others do to its record as an input;
  ReplicationRecords has the law over all runs.
- HandlerRefinement.RunFollows: covers runs without a crash; a crash ends a handler without an answer.
- AtomicFile.FileSystem.WriteFileAtomic: creating the directory is not modelled, and the temporary
  inode is taken to be none that a crash could leave at the target.
- KeyRestart.RestartIsExact: takes an unflushed directory entry to reach the disk at any time or never,
  and the file that comes back to be within its limits.
- KeyMachine.AlwaysInv: takes IDs and hashes of new keys to be new; KeyStore.InsertKeepsInverse says
  exactly what happens otherwise.
- CollectionMerge.OrderDoesNotMatter: the nodes are compared as a set, since their order in the
  record is the order of the answers.
- NaturalOrder.CompareNaturalString: letters are lower-cased as in the C locale.
- Simd.FastStringSearch: the 31 bytes behind the text are taken to be readable, and clearing the
  lowest bit of the mask with only lane 31 set wraps.
- Simd.FastStringEqual: the shortcut for identical pointers is not modelled.
- Json.RoundTrip: surrogate escapes, which the builder never writes, are not read.
- JsonBuilder.Builder.AddNested: the builder added is another one than the one it is added to.
- Query.ParametersArrive: the path in front of the question mark is taken to have none itself, and the
  rest of the request to be well formed.
