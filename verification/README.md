# Zellular sequencer: the batch log and the protocols over it, verified

This project models the batch log that every zsequencer node keeps for an app, and proves what the
lock-then-finalize protocol over it guarantees. It covers

* the log container `BatchSequence` with its offset and infinity arithmetic (`extended_ints.dfy`,
  `batch_sequences.dfy`);
* the chunk files on disk and their names (`snapshots.dfy`, `file_names.dfy`);
* stake-weighted BLS certificates, collected and verified (`certificates.dfy`);
* the log as one unbounded list and all that can happen to it: append, certified promotion,
  sequencer switch, pruning (`replicated_log.dfy`);
* the in-memory database as a class whose methods refine that list (`images.dfy`, `tiered_reads.dfy`, `database.dfy`),
  with a read that is shorter than it could be (`empty_body.dfy`);
* many nodes signing and finalizing at once, and why their finalized logs never diverge
  (`agreement.dfy`), with the runs in which they do, for every network that does not meet the condition
  (`split_brain.dfy`);
* the sequencer's answer to a node and its choice of the next sync point (`sequencer.dfy`, `sync_points.dfy`),
  the follower that sends, applies and signs (`follower.dfy`), what its consent is good for (`signing.dfy`), the way
  of a lock certificate to it (`kept_locks.dfy`), what one answer does for a follower that is behind (`catch_up.dfy`)
  and to its lock certificates (`lost_locks.dfy`), what many answers do (`repeated_answers.dfy`), and when there is
  none (`key_errors.dfy`);
* the moving-window rate limiter (`rate_limits.dfy`) and the replicated order book (`order_book.dfy`).

Objects that the program updates in place are classes with the same fields, and their methods are proved
against functions on values; the theorems are about those functions. `Picture()` of an object is its value,
and `InMemoryDB.AsLog()` is the single list that pruned entries, memory and disk stand for.

Assumptions: hashes are terms, so different messages have different hashes; a signature is the pair of
signer and message, and an aggregated signature verifies exactly when it consists of one signature by each
attesting node outside the nonsigners; the attesting nodes, their stakes and the threshold are fixed; sizes,
stakes, prices, costs and times are exact numbers; `REMOVE_CHUNK_BORDER` is at least 2; there is one app,
because `first_finalized_index` is a single field (`common/db.py:59`); the clock the rate limiter reads does
not go back. Exceptions are result values.

## What was found

* Finalized logs never diverge, whatever a set of faulty nodes does, if and only if every two quorums have a
  member in common that is not faulty (`AgreementExactly`). A node is faulty as soon as it signs without
  `sign_sync_point`, so a collecting sequencer, which signs for itself without that check
  (`common/bls.py:125-127`), counts among them. Faulty stake below (2T - 100) percent is enough for the condition
  (`EnoughHonestOverlaps`), and the documented rules, a threshold above two thirds
  (`docs/source/protocol.rst:22-24`) and less than one third of faulty stake, are enough for that
  (`OneThirdSuffices`). Up to 50 percent it depends on the stakes: two equal nodes can diverge without any fault
  (`TwoEqualsSplit`), three equal nodes cannot at 40 to 50 percent, the 40 of the example settings
  (`.env.example:38`) included (`ThreeEqualsOverlap`).
* A tiered read is the longest prefix that fits if and only if it is not the case that the chunk end by which the
  limit is reached uses it up exactly and the next body is empty, or that the limit is zero and the first body is
  empty (`ReadIsLongestFit`). With a positive limit it is never short in size (`ReadIsFullInSize`).
  `EmptyBodyLeftOut` builds a database on which one of two batches that fit comes back.
* One answer catches a follower up if and only if the batch that follows the follower's log fits the sequencer's
  positive size limit, or nothing is left to finalize behind that log (`CatchesUpExactly`).
* If every batch fits a positive limit, a follower that repeats its request has finalized what the sequencer has
  finalized after one answer, or after as many answers as batches are missing up to the last sync point, the
  sequencer's log being as it is meanwhile (`RoundsCatchUp`). The test that ends the loop holds exactly when it has
  (`RoundProgress`).
* The sequencer's handler ends in a KeyError in two cases. The first is a log whose last locked entry carries no
  lock certificate, which a finalization above the last locked index brings about (`LockLostExactly`,
  `UnlockedAnswersNobody`). An answer leaves a follower so if and only if it holds a finalization, of a batch that
  the follower then has, beyond what the follower has locked and beyond the lock in the answer if that is taken, or
  if nothing of it is taken and the log was so before (`AnswerLosesLock`). Whether the lock is taken can be read off
  the log and the answer (`LockTaken`): among other things it has to stand on what the follower has finalized. A
  node that becomes sequencer in that state before any node has reported answers nobody and neither
  locks nor finalizes ever again (`StuckForever`).
* The second is a node that has finalized nothing asking when the first sync point has left memory
  (`LateAnswersNoNewcomer`), unless the bodies of the answer end before that sync point. Then an answer goes out, but
  without any finalization, so such a node never finalizes anything, however often it asks
  (`NewcomerNeverFinalizes`).
* A node that is among those it asks for signatures counts its own stake twice. What it collects is then refused
  if and only if it is among those who answered and their stake alone falls short of the threshold
  (`GatherAndAggregate`, `AskingItselfFails`). The collecting code allows this; the running node does not answer
  itself, because its endpoint refuses to sign while it is sequencer (`node/routers.py:132`).
* As long as the nodes that sign unchecked do not hold the threshold, every lock that is accepted has timestamp 0, so
  that the answer, which always puts 0 there (`sequencer/routers.py:91`), carries the certificate that was accepted
  (`EveryLockIsHandedOut`). For a node that signs what it finalizes the times of sync points never go back
  (`RunKeepsOrder`).
* No body is lost by a follower, whatever comes back from the sequencer (`NoBodyEverLost`). Some go back to the
  queue twice: when the search for the right sequencer raises an exception, when an error answer has no code
  (`node/tasks.py:107-111`, to the same effect), or when an answer lacks the last finalized index, which is only read
  after the censored bodies have been put back.
* With one chunk kept, pruning could reach the last persisted batch, exactly when the newest chunk holds that
  batch alone (`BorderBelowLast`).
* File names of s < t sort like the indices if and only if s is at most t cut to as many digits as s is written
  with, at least twelve (`NameOrderExactly`). That always holds below 10^12 (`NameOrder`), but not for 10^12 - 1
  and 10^12 (`NameOrderBreaks`).
* `check_capacity` is documented as not modifying state (`common/rate_limit.py:86`). For a cost
  other than zero it does modify state, exactly when the identifier is new or has expired events
  (`CheckCapacity`, `CheckThatForgets`).
* An order with a negative quantity that meets no match changes a token's total, and nothing else does
  (`ConservedExactly`, `NegativeSellMints`).

## Model

| member | source | states |
|---|---|---|
| ExtendedInts.OrderIsInclusion | common/extended_int.py:33-67 | the hand-written comparison with infinities is inclusion of the integers below, so it is a total order; max, min and addition act accordingly |
| BatchSequences.FilterMeaning | common/batch_sequence.py:238-337 | the result holds exactly the entries above the exclusive start and the excluded state's last index and at or below the inclusive end and the target state's last index; each keeps its index, body and state |
| BatchSequences.FilterWindow | common/batch_sequence.py:292-337 | the infinities, early returns and the slice come down to one window of plain integers |
| BatchSequences.FilterSplit | common/batch_sequence.py:238-337 | filtering up to k and filtering after k, joined, give back every row with its state |
| BatchSequences.ExtendConcatenates | common/batch_sequence.py:146-171 | a successful extend concatenates the rows, states included, and keeps finalized <= locked <= last |
| BatchSequences.PromoteMeaning | common/batch_sequence.py:173-196 | after promote exactly the rows up to the index are in the target state or above, none moves back |
| BatchSequences.PromoteWellFormed | common/batch_sequence.py:173-196 | promote keeps the last indices inside the window if and only if it cannot create one below it |
| BatchSequences.TakeMeaning | common/batch_sequence.py:208-236 | a cut keeps the first rows with their states |
| BatchSequences.BatchSequence.Append | common/batch_sequence.py:123-126 | one batch behind the others; the cached size stays the sum of sizes |
| BatchSequences.BatchSequence.Promote | common/batch_sequence.py:173-196 | the loop over states raises exactly the last indices that the value-level promotion raises |
| BatchSequences.BatchSequence.Extend | common/batch_sequence.py:146-171 | fails, changing nothing, if and only if the batches are not all finalized or do not line up; otherwise the value-level extension, cached size included |
| BatchSequences.BatchSequence.TruncateBySize | common/batch_sequence.py:208-236 | the longest prefix that fits a positive limit, the empty sequence otherwise |
| Batches.LongestFitIsLongest | common/batch_sequence.py:223-230 | a longest fit is unique and no prefix that fits is longer |
| Batches.SizeInBytes | common/utils.py:78-83 | sizes added up are the bytes of all bodies in units of 1024 |
| FileNames.NameRoundTrip | common/snapshot_manager.py:48-50 | reading the start index back from a zero-padded file name gives the index |
| FileNames.NameInjective | common/snapshot_manager.py:186-187 | different start indices have different file names |
| FileNames.NameOfFirst | common/snapshot_manager.py:186-187 | the first chunk's name, digit by digit |
| FileNames.NameOrder | common/snapshot_manager.py:44-46 | below 10^12 names sort like the start indices |
| FileNames.NameOrderExactly | common/snapshot_manager.py:186-187 | names of s < t sort like the indices if and only if s is at most the leading digits of t, as many as s is written with |
| Snapshots.SnapshotManager.FindFilePos | common/snapshot_manager.py:69-78 | the last chunk that starts at or before the index, -1 if there is none |
| Snapshots.SnapshotManager.LoadBatches | common/snapshot_manager.py:115-142 | a contiguous all-finalized run from after + 1 to a chunk end, equal to the persisted log there; stops at the last chunk or as soon as the limit is reached; not empty when there is something to read and the limit is positive |
| Snapshots.SnapshotManager.LoadEnds | common/snapshot_manager.py:115-142 | a load that reaches its limit ends at the first chunk end where the batches behind the index reach it, any other at the end of the persisted log |
| Snapshots.MergeRun | common/snapshot_manager.py:132-136 | each chunk, cut behind the index, extends what was merged without a gap |
| Snapshots.SnapshotManager.StoreBatchSequence | common/snapshot_manager.py:144-158 | the next finalized batches become the newest chunk, nothing is overwritten, the persisted log grows by exactly them |
| Snapshots.SnapshotManager.GetLatestChunksStartIndex | common/snapshot_manager.py:160-172 | the border reaches only batches on disk and, with two or more chunks kept, stays below the last of them |
| Snapshots.SnapshotManager.BorderBelowLast | common/snapshot_manager.py:169-170 | with one chunk kept it reaches the last persisted batch if and only if the newest chunk holds nothing else |
| Snapshots.SnapshotManager.IndexFiles | common/snapshot_manager.py:42-51 | re-indexing takes exactly the chunk files, sorted by name, fails if and only if a name is not a number, and restores the chunks in their order if and only if their start indices sort by name |
| Snapshots.SnapshotManager.ShortIndicesSort | common/snapshot_manager.py:44-46 | which they do as long as the persisted log is shorter than 10^12 |
| Certificates.AcceptedStake | common/bls.py:218-258 | an accepted certificate carries at least the threshold share of the stake, one signature per signer, all on its own sync point |
| Certificates.QuorumIntersection | common/bls.py:257-258 | any two accepted certificates share signers with at least 2T - 100 percent of the stake |
| Certificates.ListedStakeIsStake | common/bls.py:220-222 | adding up distinct nonsigners one by one gives the stake of their set |
| Certificates.GatherSignatures | common/bls.py:46-67 | the stake is own plus the sum over the distinct valid signers so far; stops as soon as that reaches the threshold, or when all have answered |
| Certificates.AwaitedIsFirst | common/bls.py:46-67 | and not before: after every shorter run of groups the stake falls short |
| Certificates.TakeWave | common/bls.py:60-65 | one group of completed requests: exactly the valid answers are added, with their stake |
| Certificates.GatherAndAggregate | common/bls.py:70-138 | a certificate comes back if and only if the asked nodes are attesting, could reach the threshold, and those who answered did; it is refused if and only if the collecting node is among those whose answers were used and their stake alone is below the threshold |
| Certificates.AskingItselfFails | common/bls.py:85-89 | two equal nodes, of which one asks itself and alone answers: the collecting method returns a certificate that is refused |
| Certificates.CertificateVerifies | common/bls.py:129-138 | signatures with the remaining nodes as nonsigners, listed in any order, pass the verifier if and only if they hold the threshold share |
| Certificates.AcceptsExactly | common/bls.py:218-258 | the verifier accepts if and only if the nonsigners are distinct attesting nodes, the others hold the threshold share, and the signature is one of each of them on that sync point; it raises if and only if a nonsigner is not attesting |
| Certificates.OrderIrrelevant | common/bls.py:267-268 | certificates with the same signature and the same nonsigners in any order get the same verdict |
| ReplicatedLog.AppendValid | common/db.py:259-306 | both append routines keep h(i) = H(h(i-1) + H(body(i))) and the links |
| ReplicatedLog.PromoteValid | common/db.py:312-417 | a promotion, whatever certificate arrives, keeps the log valid: ordered, chained, doubly linked, at most one open lock |
| ReplicatedLog.PromotesExactly | common/db.py:312-375 | a certificate is accepted if and only if it verifies, names a batch in memory by its hash on top of the last finalized one, and is a lock with no other lock open or a finalization of a later index; the exact condition for an exception; anything else changes nothing |
| ReplicatedLog.PromotedExactly | common/db.py:377-411 | what an accepted certificate changes at every index: parent, timestamp and certificate at its own, the next pointer at the sync point before |
| ReplicatedLog.FinalizationLinked | common/db.py:377-402 | a finalization appends to the doubly linked, strictly increasing list of sync points |
| ReplicatedLog.ApplyValid | common/db.py:259-441 | every operation keeps the log valid |
| ReplicatedLog.ApplyCertified | common/db.py:319-333 | every sync point stays backed by a certificate that verifies |
| ReplicatedLog.ApplyEndures | common/db.py:312-417 | no operation changes a locked entry's body or hash, moves an entry to an earlier state or drops a sync point |
| ReplicatedLog.RunValid | common/db.py:259-555 | over every run finalized <= locked <= last, the hash chain and the links hold |
| ReplicatedLog.LockedPrefixDurable | common/db.py:539-555 | over every run, whatever is locked at one moment is intact at every later moment |
| ReplicatedLog.PointersInverse | common/db.py:377-402 | next(parent(x)) = x, parents are smaller, and no sync point lies between |
| ReplicatedLog.AtMostOneOpenLock | common/db.py:358-364 | at every step of every run an entry above the last finalized one carries a lock certificate if and only if it is the last locked one |
| ReplicatedLog.SameHashSameBodies | common/db.py:275-284 | equal chaining hashes at an index mean equal bodies up to it |
| ReplicatedLog.PromoteIgnoresBase | common/db.py:366-376 | whether a certificate is accepted does not depend on how much has been pruned |
| Images.WindowOfLog | common/db.py:228-257 | memory holds exactly the entries behind the pruned ones, and its last indices are those of the log |
| Images.LockedLog | common/db.py:393-411 | updating the batch in memory and raising the last index is locking in the log |
| Images.FinalizedLog | common/db.py:377-411 | linking, updating and raising is finalization in the log; disk still holds a copy of the finalized part |
| Images.PrunedLog | common/db.py:162-169 | dropping up to the chunk border forgets only entries that are on disk and below the last finalized one |
| Images.UnsavedLog | common/db.py:421-441 | what filter finds to store is the finalized log behind the last persisted index |
| Images.ResetLog | common/db.py:539-555 | keeping memory up to the last locked index is the switch reset of the log |
| Database.InMemoryDB.SequencerInitBatchBodies | common/db.py:259-284 | appends the bodies to the log |
| Database.InMemoryDB.InsertSequencedBatchBodies | common/db.py:286-306 | appends the bodies to the log, to the same effect |
| Database.InMemoryDB.PopLimited | common/db.py:146-160 | takes the longest run from the front of the queue that fits, and leaves the rest |
| Database.InMemoryDB.ReinitMissedBatchBodies | common/db.py:243-247 | the bodies come back to the front of the queue in reverse order |
| Database.ReversedAt | common/db.py:243-247 | extendleft puts the last body first |
| Database.InMemoryDB.PromoteBatches | common/db.py:312-419 | accepted, declined or raising exactly as the log-level promotion; the log becomes that promotion, pruned at the chunk border, and disk grows only by a finalization that makes a chunk large enough |
| Database.InMemoryDB.Admits | common/db.py:314-375 | the checks before anything is changed decide as the log-level promotion does |
| Database.InMemoryDB.LinkPrevious | common/db.py:377-383 | the last finalized entry points to the new one, or the new one becomes the first |
| Database.InMemoryDB.StoreSnapshot | common/db.py:421-441 | disk grows by the whole unsaved finalized part, as one more chunk, once it is large enough, and by nothing otherwise |
| Images.StoredExactly | common/db.py:429-441 | disk then reaches the last finalized entry, or stays as it was if what is not on it is smaller than a chunk |
| Database.InMemoryDB.PruneOldFinalizedBatches | common/db.py:162-169 | only what is in memory changes: exactly what lies above the chunk border stays |
| Database.InMemoryDB.ReinitializeSequencedBatches | common/db.py:539-555 | the unlocked suffix leaves the log and joins the queue in order |
| Database.InMemoryDB.GetGlobalOperationalBatchSequence | common/db.py:176-226 | the read across disk and memory is a prefix, with their states, of the entries behind the index that have reached the state; the log, the chunk ends and the limit fix its length |
| TieredReads.WantedExactly | common/db.py:213-218 | the entries a read is about are exactly those behind the index in the wanted state or a later one |
| Database.InMemoryDB.ReadStorage | common/db.py:196-211 | the storage loop terminates and reads disk from the index on without a gap: to the first chunk end by which the limit is reached, or all of it when memory takes over |
| TieredReads.ReadUnique | common/db.py:176-226 | two reads of one log with the same chunk ends, index and limit have the same length |
| TieredReads.ReadIsLongestFit | common/db.py:176-226 | the read is the longest prefix within the limit if and only if no empty body follows a chunk end by which the limit is used up exactly, and no empty body comes first under a limit of zero |
| TieredReads.ReadIsFullInSize | common/db.py:204-207 | with a positive limit it is as large as that prefix in any case |
| EmptyBody.EmptyBodyLeftOut | common/db.py:204-207 | for every non-empty body as large as the limit: two finalizations, a chunk each, and the read of both batches returns only the first although the second, an empty one, fits |
| TieredReads.JoinedRead | common/db.py:213-226 | what was read from disk, extended by a cut of memory to the remaining size, is a read of the whole log |
| TieredReads.StorageRead | common/db.py:204-207 | what was read from disk, cut to the limit and filtered by state, is one too |
| Agreement.StepInv | node/tasks.py:190-244 | every event keeps: logs valid and certified, and whoever signed a finalization through sign_sync_point has locked what it names |
| Agreement.CertificatesAgree | node/tasks.py:190-244 | two finalization certificates at i <= j name hashes of one chain |
| Agreement.CommonSigner | common/bls.py:125-127 | if every two quorums share a node that did not bypass the check, two certificates have a signer that checked both |
| Agreement.EnoughHonestOverlaps | docs/source/protocol.rst:87-102 | faulty stake below (2T - 100) percent makes every two quorums share a node that is not faulty |
| Agreement.OneThirdSuffices | docs/source/protocol.rst:87-102 | the documented rule implies that bound |
| Agreement.FinalizedLogsAgree | node/tasks.py:190-244 | the shorter finalized log is a prefix of the longer one |
| Agreement.FinalizationAgreement | docs/source/protocol.rst:179 | the finalized logs of any two nodes at any two moments of any run are prefix-compatible if every two quorums share a node that checked |
| Agreement.OverlapIsSafe | docs/source/protocol.rst:179 | if every two quorums share a node that is not faulty, no run in which only faulty nodes sign unchecked makes finalized logs diverge |
| SplitBrain.AgreementExactly | docs/source/protocol.rst:87-102 | finalized logs never diverge if and only if every two quorums share a node that is not faulty |
| SplitBrain.SplitIsUnsafe | common/bls.py:257-258 | for all other networks there is a run in which two nodes that follow all rules finalize different batches |
| SplitBrain.TwoEqualsSplit | docs/source/protocol.rst:87-100 | two equal nodes and a threshold of at most 50: unsafe without any fault |
| SplitBrain.ThreeEqualsOverlap | common/bls.py:257-258 | three equal nodes and a threshold of 40 to 50: safe, although the stake bound does not hold |
| Sequencers.CollectFinalized | sequencer/routers.py:118-139 | the walk along next_index terminates and returns consecutive sync points up to the last index of the answer; the KeyError comes if and only if the first of them is not in memory |
| Sequencers.CollectedComplete | sequencer/routers.py:104-139 | the list holds a sync point if and only if it is behind the requester's finalized index and within the answer |
| Sequencers.CollectedParents | sequencer/routers.py:128-139 | each parent_index is the previous index, indices increase |
| Sequencers.StartPointer | sequencer/routers.py:104-113 | the walk starts behind the requester's sync point if that is in memory, at the first one for 0, nowhere otherwise |
| Sequencers.LockLostExactly | sequencer/routers.py:81-92 | the last locked entry lacks its lock certificate exactly after a finalization above the last locked index |
| LostLocks.AnswerLosesLock | node/tasks.py:143-175 | for every follower behind the sequencer and every answer to it: what is left lacks the lock certificate if and only if a finalization of a batch that is then there lies beyond the locked index, the answer's lock counted if it is taken, or none is there, no lock is taken and the certificate was missing before |
| LostLocks.LockTakenExactly | common/db.py:312-375 | the lock of an answer is accepted if and only if it is new, its batch is there, it verifies, it stands on the last finalized index and nothing else is locked |
| LostLocks.CatchingUpLosesLock | node/tasks.py:143-175 | for a follower that can catch up the condition is that the last finalization lies beyond the locked index, the answer's lock counted if it is taken; with no finalization, that the certificate was missing and no lock is taken |
| LostLocks.StuckForever | sequencer/routers.py:81-158 | a sequencer in that state, to which no attesting node has reported, records no report and promotes nothing in any sequence of requests and rounds |
| KeyErrors.UnlockedAnswersNobody | sequencer/routers.py:81-92 | a database with two finalizations that were never locked: no request of anybody gets an answer |
| KeyErrors.LateAnswersNoNewcomer | sequencer/routers.py:114-121 | a database with two finalizations that were locked, the first out of memory: no request of a node that has finalized nothing gets an answer |
| RepeatedAnswers.NewcomerNeverFinalizes | sequencer/routers.py:104-139 | over any run of the sequencer, from the step on at which the first sync point has left memory, a node that has finalized nothing finalizes nothing in any sequence of answers |
| RepeatedAnswers.RoundsCatchUp | node/tasks.py:25-55 | with a limit that every batch fits, both have finalized the same bodies after one answer, or as many answers as batches are missing up to the last sync point if these are more |
| RepeatedAnswers.RoundProgress | node/tasks.py:46-55 | with such a limit an answer to a node behind the sequencer brings at least one missing batch, and the test that ends the loop holds if and only if both have finalized the same bodies |
| Sequencers.Sequencer.LastLockInfo | sequencer/routers.py:77-94 | raises exactly then, otherwise carries the certificate of the last locked entry |
| Sequencers.Sequencer.Answer | sequencer/routers.py:72-158 | the bodies, certificates and indices of the answer are those of the log; no answer exactly in the two KeyError cases |
| Sequencers.Sequencer.PutBatches | sequencer/routers.py:62-158 | the bodies are appended in any case; the sequenced and locked index and hash of the request are recorded for the node only with an answer |
| Sequencers.OffersUnique | sequencer/routers.py:72-75 | the bodies of an answer are fixed by the log, its chunk ends, the limit and the requester's index |
| Sequencers.Sequencer.Collect | sequencer/tasks.py:83-105 | a certificate that verifies, for the greatest index that nodes with enough stake reported, with a hash reported there, the given time and parent; none only if there is no such index or the asked nodes answered with too little stake |
| Sequencers.Sequencer.SyncApp | sequencer/tasks.py:74-147 | one round proposes a lock (state, time 0, parent, index and hash spelled out, only when the last one is finalized) and a finalization on the same parent, and changes the log by these alone; none is collected only if no reported index has enough stake behind it or too few of those asked sign; nothing happens when no attesting node has reported |
| SyncPoints.FindSyncPoint | sequencer/tasks.py:11-62 | the report with the greatest index above the last one that reporters and sequencer back with the threshold, and exactly those reporters; none if and only if there is no such report |
| SyncPoints.ChosenIsGreatest | sequencer/tasks.py:22-33 | no greater index, reported or not, is backed by enough stake |
| Followers.Follower.SyncWithSequencer | node/tasks.py:143-175 | insert, lock if new and present, finalize until one is refused: the log becomes what these steps make of it, up to pruning, and up to the first field that is missing |
| Followers.GapExactly | node/tasks.py:143-175 | what an answer comes to that lacks its lock or one of its finalizations |
| Followers.LockIgnored | node/tasks.py:160-169 | a lock that is not new, or whose batch is not there, leaves no trace |
| Followers.StopsAtRefusal | node/tasks.py:171-175 | the first finalization that is not accepted decides, whatever follows it |
| Followers.Follower.FinalizeAll | node/tasks.py:171-175 | the loop finalizes certificate by certificate and stops at the first refusal or exception |
| Followers.Follower.SignSyncPoint | node/tasks.py:190-244 | signs if and only if state, timestamp, parent, index and chaining hash agree with log and clock |
| Signing.SignsProposedLock | node/tasks.py:190-244 | a follower that has finalized as far as the sequencer and has the batch signs every lock the sequencer proposes |
| Signing.SignsProposedFinalization | node/tasks.py:190-244 | it signs every proposed finalization of a batch it has locked, if its clock is within ten seconds of the proposal and that is not before its last finalization |
| Signing.SignedIsAccepted | node/tasks.py:201-239 | a certificate for what a node signs, if it is new, is one that its own log accepts |
| Signing.SignersClocks | node/tasks.py:192-197 | two nodes that sign the same finalization have clocks less than twenty seconds apart |
| Signing.SignedKeepsOrder | node/tasks.py:209-221 | a finalization that a node signs keeps its sync points in order of time, each on top of the one before |
| Signing.RunKeepsOrder | node/tasks.py:209-221 | so over every run of a node that signs what it finalizes, times of sync points never go back |
| KeptLocks.AcceptedIsHandedOut | sequencer/routers.py:77-94 | the lock that answers carry is the very certificate that was accepted |
| KeptLocks.EveryLockIsHandedOut | node/tasks.py:199-203 | in every run of the system in which the nodes that sign unchecked do not hold the threshold, every accepted lock has timestamp 0 and is handed out as it was accepted |
| KeptLocks.RunHandsOut | common/db.py:399-411 | over every run it stays so until there is another lock, or a finalization beyond it or on another parent |
| KeptLocks.FollowerTakesLock | node/tasks.py:153-169 | a follower that has finalized as far as the lock's parent, has its batch and nothing else locked takes it from the answer and could hand it out |
| Followers.Follower.SendAppBatches | node/tasks.py:58-140 | the longest fitting run of bodies is sent with the indices and hashes of the log; for every reply, answers with a missing field included, what becomes of log, queue, result and the down and censoring flags |
| Followers.Follower.MakeRequest | node/tasks.py:65-94 | a request carries the bodies and how far the log has got in each state, with the hashes there |
| Followers.SentQueue | node/tasks.py:58-140 | for every reply, how often each body is waiting afterwards |
| Followers.Follower.ApplyAnswer | node/tasks.py:118-140 | bodies the answer leaves out go back, each once, and mark the sequencer as censoring; after an exception all go back |
| Followers.SyncedKeeps | node/tasks.py:143-175 | whatever an answer contains, the log stays valid and everything locked endures |
| Followers.SyncedBodies | node/tasks.py:148-151 | an answer adds exactly its bodies to the log |
| Followers.NoBodyLost | node/tasks.py:58-140 | every distinct body that was waiting or in the log before a send is so afterwards, for every reply |
| Followers.NoBodyEverLost | node/tasks.py:58-140 | over every sequence of submissions, sends and sequencer changes, every body ever submitted or in the log is still waiting or in the log |
| CatchUp.CatchesUpExactly | node/tasks.py:143-175 | one answer catches a follower up if and only if the batch behind its log fits the limit, which is positive, or nothing is left to finalize behind its log |
| CatchUp.AnswerCatchesUp | node/tasks.py:143-175 | in that case the follower's log stays a prefix of the sequencer's, every returned finalization is accepted, and the finalized index is the last one returned |
| CatchUp.NotEnoughFails | node/tasks.py:171-175 | otherwise some returned finalization is refused |
| CatchUp.EnoughExactly | sequencer/routers.py:72-75 | that condition holds if and only if the answer has a body or nothing is left to finalize |
| CatchUp.FullyCaughtUp | node/tasks.py:143-175 | once the answer reaches the last sync point both have finalized the same bodies |
| CatchUp.AllAccepted | node/tasks.py:171-175 | a list of consecutive sync points is accepted to its end |
| CatchUp.NextAccepted | common/db.py:312-417 | a sync point is accepted by a log that trails and has finalized up to the one before |
| CatchUp.ApplyLocksKnown | common/bls.py:267-268 | stored lock certificates never make the verifier raise, whatever happens to the log |
| RateLimits.WindowBound | common/rate_limit.py:28-82 | in every closed interval of the window's length the admitted cost is at most the limit |
| RateLimits.MovingWindowRateLimiter.WindowLimited | common/rate_limit.py:28-82 | so it is for every identifier of every limiter, at whatever limits up to that one its admissions were made |
| RateLimits.Expire | common/rate_limit.py:71-79 | dropping what is too old leaves a history and a cached sum that are exactly the cost of the window |
| RateLimits.Admit | common/rate_limit.py:45-50 | an admission within the remaining capacity keeps history, sum and the bound |
| RateLimits.BisectLeft | common/rate_limit.py:73 | the first position that is not older than the expiration time |
| RateLimits.MovingWindowRateLimiter.GetRemainingCapacity | common/rate_limit.py:52-82 | the limit less what was admitted in the window that ends now, not below zero; the bare limit for a new identifier |
| RateLimits.MovingWindowRateLimiter.CheckCapacity | common/rate_limit.py:84-98 | whether the cost is zero or within that capacity; history and sums stay as they are if and only if the cost is zero or the identifier is known and has no expired event |
| RateLimits.CheckThatForgets | common/rate_limit.py:86 | a limiter on which a check changes the history |
| RateLimits.MovingWindowRateLimiter.TryAcquire | common/rate_limit.py:28-50 | admits if and only if so, and records exactly that admission for exactly that identifier |
| OrderBooks.TradeConserves | examples/orderbook/03_replicated_orderbook_service.py:179-210 | a trade conserves every token over balances and escrow |
| OrderBooks.MatchingConserves | examples/orderbook/03_replicated_orderbook_service.py:152-193 | so does the whole match loop |
| OrderBooks.ApplyConserves | examples/orderbook/03_replicated_orderbook_service.py:95-146 | placing an order changes each token's total by the escrow that is dropped and by nothing else |
| OrderBooks.ConservedExactly | examples/orderbook/03_replicated_orderbook_service.py:138-146 | totals are conserved if and only if it is not a negative order of some value that meets no match |
| OrderBooks.NegativeSellMints | examples/orderbook/03_replicated_orderbook_service.py:117-121 | selling minus five tokens turns one token into six |
| OrderBooks.ApplySolvent | examples/orderbook/03_replicated_orderbook_service.py:95-146 | with positive quantity and price no balance goes negative |
| OrderBooks.TradeDelivers | examples/orderbook/03_replicated_orderbook_service.py:197-210 | the buyer gets the base tokens, the seller the buyer's price for them, nobody else anything |
| OrderBooks.BuyerReceives | examples/orderbook/03_replicated_orderbook_service.py:152-193 | a buying taker gets exactly the base tokens its order was filled by |
| OrderBooks.MatchedByPriority | examples/orderbook/03_replicated_orderbook_service.py:152-193 | the loop takes from each matching order what is left after all those ahead of it: best price, then oldest |
| OrderBooks.PriorityRespected | examples/orderbook/03_replicated_orderbook_service.py:152-193 | nobody is filled before those ahead are filled completely |
| OrderBooks.NeverCrossed | examples/orderbook/03_replicated_orderbook_service.py:152-193 | after every prefix of every stream no resting order to sell is at or below another user's resting order to buy on the same pair |
| OrderBooks.MatchedOut | examples/orderbook/03_replicated_orderbook_service.py:154-193 | if something of the taker is left, nothing in the book matches it |
| OrderBooks.ApplySound | examples/orderbook/03_replicated_orderbook_service.py:95-146 | placing an order keeps the book sorted, open and never crossed |
| OrderBooks.InsertedSound | examples/orderbook/03_replicated_orderbook_service.py:139-146 | insort puts the rest behind everything of the same price |
| OrderBooks.RunSound | examples/orderbook/03_replicated_orderbook_service.py:225-230 | the book is sound after every prefix of every stream of orders |
| OrderBooks.RunConserves | examples/orderbook/03_replicated_orderbook_service.py:225-230 | over every stream of orders with positive quantity and price totals are constant and no balance is negative |
| OrderBooks.OrderBook.ApplyOrder | examples/orderbook/03_replicated_orderbook_service.py:95-148 | placed if and only if the order is signed, buys or sells, and its user holds what it offers; a KeyError if and only if a signed order offers nothing or less of a token its user has no entry for; without a valid signature, or otherwise not placed, nothing changes; balances and book as the value-level model has them |
| OrderBooks.OnlyOwnOrdersDebit | examples/orderbook/03_replicated_orderbook_service.py:95-148 | over every stream of orders with positive quantity and price, a user only ever holds less of a token after a signed order of that user offering it |
| OrderBooks.LeftAlone | examples/orderbook/03_replicated_orderbook_service.py:152-175 | matching leaves every resting order of another pair, of the same side or user, or at a worse price as it is |
| OrderBooks.BetterPriceFirst | examples/orderbook/03_replicated_orderbook_service.py:152-193 | an order is only touched after every matching one at a better price is used up |
| OrderBooks.OrderBook.MatchOrder | examples/orderbook/03_replicated_orderbook_service.py:152-193 | the loop in place does what the recursive matching does |
| OrderBooks.OrderBook.UpdateBalances | examples/orderbook/03_replicated_orderbook_service.py:197-210 | credits buyer and seller at the buyer's price |
| OrderBooks.OrderBook.Insort | examples/orderbook/03_replicated_orderbook_service.py:139-146 | bisection finds the place behind the last order that is not worse |

## Left out

* Restart of a node: chunks hold only finalized entries, and the pointer from a chunk's last sync point to the
  next is set after the chunk is written. Durability and links are for runs without restart; re-indexing of
  the chunk files alone is modelled.
* Networks that change between tags, and several apps in one database.
* Interleaving of coroutines inside one handler, and the background write of a chunk: a chunk write is one step.
* Aliasing: batches are values here; a snapshot keeps the batch as it was when the chunk was stored.
* Lock adoption from peers during a switch (`node/switch.py:301-379`): the data built there has no
  `parent_index`, which promotion reads. A switch is `reinitialize_sequenced_batches` alone.
* Dropping a lock in favour of a conflicting finalization (`docs/source/protocol.rst:165-177`): the code does not do it.
* Clearing the queue when a node becomes sequencer (`common/db.py:535-537`) deliberately discards bodies.
* Requests that alternate between apps, a sequencer that goes on appending while a node catches up, the latency
  tracking queue, disputes, the choice of a new sequencer, HTTP, authentication, rate limits in front of the handlers,
  configuration and the other example services.
* BLS group arithmetic, hashing, JSON and gzip are foreign code and abstract here.
* Float rounding in sizes, stakes, costs, prices and quantities.
* Followers.Follower.SendAppBatches: what is left of the limit is a parameter.
* Certificates.GatherAndAggregate: "nothing" stands both for a returned None and for the KeyError that an asked node outside the attesting ones causes; the collecting node's stake is what it has among the attesting nodes.
* OrderBooks.OrderBook.ApplyOrder: whether the signature is valid is a parameter.
* Snapshots.SnapshotManager.IndexFiles: the directory is a list of distinct names; numbers are plain digits, although int() also reads signs, blanks and underscores.
* Sequencers.Sequencer.SyncApp: the replies of the asked nodes are a parameter; the stored copies of collected certificates are reduced to their indices.
