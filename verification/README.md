# Tool Guard Core: verified model

A Dafny model of the parts of Tool Guard Core whose correctness is hardest to see from one function at a time, with proofs over all inputs, all faults and all runs.

* **The audit log** (`Bytes`, `Traces`, `ChainVerifier`, `ChainTheory`, `ChainPruned`, `LogStream`, `AuditDisk`, `AuditWriter`, `AuditSafety`, `AuditRecord`, `AuditRecovery`, `AuditSystem`, `AuditDurability`, `AuditInterval`, `AuditLimits`, `AuditLog`): the proxy's hash-chained line log over an active file and numbered rotated files, at byte level. A file has a visible content, a part that is durable, and contents that were cut off and may come back; a directory has its older states that may come back. Every outcome of every write, sync, truncate, close, stat, rename and open is an input. Writer, verifier, recovery, process death, machine crash and restart on whatever was left are one state machine whose invariant is proved for every run. `AuditLog.Proxy` is the writer as an object whose fields change in place, proved equal to the transition functions.
* **The second writer and the pruner** (`HookLog`, `Prune`, `PruneLaws`): any number of hook processes on one file under a lock, and `tg prune`.
* **Escalations** (`EscalationStore`, `EscalationGate`, `EscalationOutcome`, `EscalationRegistry`): the escalation store interleaved with the audit log, under every interleaving of requests, approvers, reaper, crashes and restarts. `EscalationRegistry` is the store as a map of shared mutable objects.
* **Lexers** (`SqlSkeleton`, `SqlBytes`, `ShellTokenizer`, `ShellBytes`): the SQL blanker and splitter, and the shell tokenizer following sections 2.2, 2.3 and 2.7 of the POSIX Shell Command Language (IEEE Std 1003.1).
* **Matching, limits and policy resolution** (`PathMatch`, `PathPrefix`, `PathLaws`, `RateLimit`, `RateLaws`, `RateEviction`, `RateRace`, `Velocity`, `PolicyResolution`, `Conditions`).

The main results about runs, chains, grammars and windows are stated over the functions that the loops and objects are proved equal to. `AuditRecord`, `ChainPruned`, `PruneLaws`, `EscalationOutcome`, `SqlBytes`, `ShellBytes`, `PathLaws` and `RateLaws` say what those functions do without naming them or the tests they are built from: in fields of records and entries, in byte values, and in numbers.

`dafny verify dfyconfig.toml` checks everything.

## What is assumed

* SHA-256 is a constructor: injective on canonical projections, never the empty hash. The same holds for the checkpoint checksum. A projection consists of the fields the v1 or v2 encoder covers; fields the model does not name are one opaque component of it.
* JSON is a record of functions (`Traces.Codec`) satisfying `Codec.Lawful`: a record is marshalled to one line without CR or LF that parses back to itself and of which no strict prefix parses; white space around an object is ignored; an object that parses and still parses when extended was only padded. `Traces.LawfulCodecExists` shows that these laws can be met together, for any two hundred traces and a checkpoint.
* A rename is atomic. A successful sync makes the content of that file durable, and a successful sync of the directory its entries; a failed one guarantees nothing and takes nothing back. A machine crash leaves the directory as it was at any time since its last sync; when it leaves the current one, the active file is cut to some prefix, no shorter than what is durable, of a content it had since its last sync. Nothing is assumed of a file created at startup.
* The rotation set is discovered by canonical numbers, so a sibling is its index.
* A run of the log begins on any accepted set of files that is synced, numbered 1..k, within the configured size and without a carriage return in it, for instance an empty directory. While it lasts, the Stat of the first free rotation index does not fail in some other way than finding nothing there (`AuditLimits.NumberingNeedsStat` and `SkippedIndexBreaksTheLog` show that this is needed).
* Classifier leaves, comparison leaves, regular expressions, case folding and the blank test of a last SQL statement are parameters; that of trace ids and engine versions is `unicode.IsSpace`.

## Where the code is weaker than it looks

Each of these is proved with its exact condition or a concrete input.

* `AuditDurability.AcksSurviveExactlyWhenConfirmed`: a record acknowledged behind a barrier survives every crash if and only if no directory entry was unconfirmed at the time, or a directory barrier has succeeded since. `RestartLosesAcks` and `FailedBarrierIsUnconfirmed` give the losing runs: a rotation whose directory sync failed, then a restart; and a start that has to create the active file, as after a crash in the middle of a rotation (`RotationCrashLeavesNoActive`). Startup syncs no directory.
* `AuditInterval.BoundHoldsExactly`: the interval mode's bound of `auditSyncEvery - 1` unsynced records holds throughout a process if and only if what was unsynced when it started stays within the bound together with the records that still fit into the active file, fewer than `auditSyncEvery` of them, before a barrier or a rotation syncs them all; startup neither syncs nor carries the count over. With room for `auditSyncEvery - 1` records before the next rotation, or without rotation, that is if and only if nothing was unsynced (`BoundHoldsExactlyFromSynced`); with an active file so full that a rotation comes first, if and only if no more than `auditSyncEvery - 1` records were (`BoundHoldsWhenFull`). `RestartBreaksTheBound` gives the run that breaks it, when there is room for `auditSyncEvery` records.
* `AuditLimits.NextRecordFits`: over everything startup accepts, the next record leaves a log that verifies if and only if a separator is written, or no line without a record holds two carriage returns and the record fits on its line together with the white space the files end in. `StrayCarriageReturn` gives a verified log where the writer's size ceiling is one byte too high.
* `AuditLimits.UnverifiedStart`: startup verifies nothing when it finds no record, so it accepts files of carriage returns and line feeds that no longer log can contain and verify.
* `AuditLimits.NumberingNeedsStat`: the search for a free index passes over one whose Stat fails, and so leaves a gap.
* `AuditLimits.RotationIntoGap` and `AuditDisk.FirstFreeIsNewest`: numeric order is append order if and only if the indices have no gap; into a gap, the newest file is renamed before older ones. `AuditLimits.SkippedIndexBreaksTheLog` is the whole run: one failed Stat, more records, then a rotation without any fault, and the log no longer verifies and is refused at the next start.
* `PathMatch.OverlapIsMatchedToo` and `PathMatch.DocumentedExactlyWithoutOverlay`: after a `**` the search restarts at the front of the path. A pattern means what is documented, on every path, if and only if no part of it between two `**` can be laid over the next one.
* `PathPrefix.TrailingSlash` and `DriveDirectoryIsNotCovered`: a relative or drive-letter prefix that ends in a slash does not cover the directory itself, and one that ends in two covers only paths that write both; an absolute one covers it, since cleaning drops the slashes.
* `PathPrefix.QuadraticExactlyUpToTheCap`: over the drive prefixes that validation accepts, matching keeps to the (n + 2)^2 calls the cap of two `**` is there for if and only if the normal form holds at most two, and validation does not count there. `BackslashesHideFromTheCap` is the accepted prefix that breaks it: d times `**` written with backslashes count as none, and make as many calls as there are ways to choose d of n + d + 1 (20 for d = 3 and n = 2, 364 for n = 10).
* `RateEviction.UnnoticedExactlyWhenRefilled` and `RateHoldsExactlyWhenRefilled`: with a burst of at least one, evicting idle buckets is never noticed, and the documented rate holds for calls that run alone, if and only if the idle time refills a whole burst, which no code checks.
* `RateRace.RacesAreBoundedExactlyWhenNothingPasses`: lookup and take are separate critical sections, which can give one key two buckets; so whatever the rate, the idle time and the cap on keys, some interleaving grants more than burst plus rate times the window, unless the burst is below one and nothing is granted at all. `RateRace.RaceIsSerial` shows that this takes a sweep between a lookup and its take. `RateLimit.CapGivesWay`: the "hard cap" on keys is exceeded exactly when enough buckets are not idle.
* `PolicyResolution.UnknownModeCanLoosen`: with a call mode that is neither shadow nor enforcement, adding a flag-only enforcement policy can turn a denied call into one that proceeds.

## Model

| member | source | states |
|---|---|---|
| Traces.LawfulCodecExists | pkg/audit/streaming.go:42-54 | the laws assumed of encoding and decoding a record hold together in a codec that encodes any given traces |
| Traces.HashedRecords | pkg/audit/provenance.go:14-56 | which records have a hash at all: v1 ones without provenance, v2 ones with an engine version that is not blank and a well-formed policy set digest |
| Traces.HashCovers | pkg/audit/canonical.go:310-442 | records with the same hash agree on call, outcome, link, applied rules, engine version, policy set, schema and version |
| ChainVerifier.VerifyChain | pkg/audit/streaming.go:103-219 | the scan loop reports intact, tail, number of records and pruned, and otherwise the first line at fault and the records before it, as the fold of the per-line step over the lines of the stream says, in both the plain and the pruned mode |
| ChainTheory.FoldIsChain | pkg/audit/streaming.go:162-200 | the step-by-step scan accepts exactly the line lists that parse to a hash chain, and ends in that chain's tail and rank |
| ChainTheory.AcceptedIffChain | pkg/audit/streaming.go:90-96 | an unpruned stream is reported intact if and only if all its lines parse and the records form a chain from genesis |
| ChainTheory.ChainByLinks | pkg/audit/streaming.go:162-200 | a chain is, record by record: its own hash, that of the one before or none for the first, and no v1 after v2 |
| ChainPruned.PrunedAcceptedExactly | pkg/audit/streaming.go:103-219 | a pruned log is accepted if and only if its first line that is not empty is a checkpoint, the pinned one if one is pinned, and exactly the records it announces follow, from the last removed hash to the retained tail |
| ChainPruned.UnprunedAccepted | pkg/audit/streaming.go:99-219 | without a checkpoint the pruned mode accepts exactly what the plain one does, and nothing under a pin |
| ChainPruned.CheckpointTerms | pkg/audit/checkpoint.go:47-76 | what a checkpoint has to satisfy, field by field, to be parsed |
| ChainPruned.ChecksumCovers | pkg/audit/checkpoint.go:31-36 | two parsed checkpoints with the same checksum are the same |
| ChainTheory.OldSchemaFirst | pkg/audit/canonical.go:53-71 | every accepted chain is v1 records followed by v2 records |
| ChainTheory.SameTailSameHistory | pkg/audit/hasher.go:57-70 | two chains with the same tail hash have the same length, and their records agree at every position on call, outcome, link, provenance and version |
| ChainTheory.TamperEvidence | pkg/audit/streaming.go:90-96 | two unpruned streams that verify with the same tail hash hold, record by record, the same calls, outcomes, links, provenance and versions |
| LogStream.AppendRecord | cmd/tg-proxy/audit_chain.go:353-358 | separator, record and line feed after any accepted stream that needs no other separator give the accepted stream with that one record more |
| LogStream.TornRecordIsRejected | pkg/audit/streaming.go:141-160 | a non-empty strict prefix of a record after a terminated stream makes the verifier reject |
| LogStream.CutStream | pkg/audit/streaming.go:103-219 | an accepted stream cut at any byte is rejected or holds a prefix of the records, with at least those whose line feed survived |
| AuditDisk.RotationSetOldestFirst | pkg/audit/rotation.go:29-74 | the siblings by ascending number and nothing else, the active file last when it exists, an error exactly when there is no file at all |
| AuditDisk.OrderReadsStream | pkg/audit/rotation.go:59-69 | reading the files in that order is the logical stream |
| AuditDisk.FirstFreeIsNewest | cmd/tg-proxy/audit_chain.go:499-514 | the first free index is above all others if and only if the indices have no gap, and using it leaves none |
| AuditSafety.RotationKeepsStream | cmd/tg-proxy/audit_chain.go:484-538 | no outcome and no step of a rotation changes the stream; after success all of it is durable and no older directory can come back |
| AuditSafety.WriteRecordKeeps | cmd/tg-proxy/audit_chain.go:353-404 | a write with its barrier and rollback ends with the record appended, or with the exact bytes from before, or poisoned |
| AuditSafety.AppendFit | cmd/tg-proxy/audit_chain.go:291-407 | at every system call of an append, and at its end, every crash keeps what had to be kept and leaves part of an accepted stream with this record, in files of the right size |
| AuditSafety.ChunkExtends | cmd/tg-proxy/audit_chain.go:305-358 | the bytes written link to the tail, also when the previous file ended without a line feed |
| AuditSafety.AppendKeepsHealthy | cmd/tg-proxy/audit_chain.go:291-407 | over all faults: acknowledged means the verified chain grew by exactly this record; failed means stream and chain state are as before; anything else poisons |
| AuditRecord.RecordSays | cmd/tg-proxy/audit_chain.go:291-316 | what the record of an append says: the call, the outcome and the unhashed fields it was given, version 2, the old tail, and the provenance of the process when it came without any |
| AuditRecord.AcknowledgedIsLast | cmd/tg-proxy/audit_chain.go:291-407 | an acknowledged append adds that record to the history, linked to the one before, and nothing else |
| AuditRecord.AnswersBefore | cmd/tg-proxy/audit_chain.go:291-317 | which failure is answered before anything is written, in which order, and that nothing has changed then |
| AuditRecord.AnswersAfter | cmd/tg-proxy/audit_chain.go:318-407 | after that, for every outcome of every system call: which result is answered, when a rotation or a barrier was due, when the writer is poisoned, and where an acknowledged record lies |
| AuditRecovery.LastRecordIsTail | cmd/tg-proxy/audit_chain.go:56-106 | in an accepted stream the last line that parses on its own is the last record of the chain |
| AuditRecovery.RecoverMeans | cmd/tg-proxy/audit_chain.go:56-106 | what is recovered from one file, by its lines: unreadable exactly when one is too long or does not parse, no record when all are empty, and otherwise the last that is not, with a separator due unless the file ends in a line feed |
| AuditRecovery.OpenResumesVerifiedTail | cmd/tg-proxy/audit_chain.go:148-215 | for any files, startup refuses, or resumes at the tail the full verifier reports; only files of carriage returns and line feeds are opened without verifying |
| AuditRecovery.OpenAccepts | cmd/tg-proxy/audit_chain.go:148-215 | startup accepts every verified set of files each of which reads back on its own |
| AuditSystem.CrashFit | cmd/tg-proxy/audit_chain.go:484-538 | a crash in any bounded state leaves a bounded one, which keeps what is confirmed, and what is synced too when the directory was not set back |
| AuditSystem.OpenFit | cmd/tg-proxy/audit_chain.go:148-215 | on any store that a death, a failed rotation, a failed rollback or a crash left, startup refuses, or a healthy writer resumes on the stream it found |
| AuditSystem.RestartLosesNothing | cmd/tg-proxy/audit_chain.go:148-215 | after any death of the process, poisoned or in the middle of an append, a start resumes on everything acknowledged and at most one record more |
| AuditSystem.StepKeepsInv | cmd/tg-proxy/audit_chain.go:148-538 | start on any store, append, process death and crash, also in the middle of an append, keep the system invariant |
| AuditSystem.EveryRunIsSafe | cmd/tg-proxy/audit_chain.go:148-538 | from any accepted log, whenever a writer is up: the rotation set verifies, its tail is lastHash, the indices are exactly 1..k, every file is below auditRotateBytes or one line, each line a record, and everything acknowledged behind a barrier and not lost to a crash is in the chain in order |
| AuditSystem.LargeFileIsOneRecord | cmd/tg-proxy/audit_chain.go:318-346 | a file that is not below auditRotateBytes holds one record at most |
| AuditSystem.AckedAfterCrash | cmd/tg-proxy/audit_chain.go:381-404 | whatever was acknowledged behind a barrier and confirmed by the directory is in the chain that a start after any crash resumes |
| AuditSystem.PoisonEndsTheLog | cmd/tg-proxy/audit_chain.go:302-304 | over every run, once a writer is poisoned no append of its process, whatever it is given and whatever fails, changes any byte or any state |
| AuditDurability.AcksSurviveExactlyWhenConfirmed | cmd/tg-proxy/audit_chain.go:381-404 | over every run, all records acknowledged behind a barrier survive every crash if and only if none was acknowledged while a directory entry was unconfirmed, without a directory barrier since |
| AuditDurability.RestartLosesAcks | cmd/tg-proxy/audit_chain.go:198-215 | after a start on an unconfirmed directory, or one that has to create the active file, the next record acknowledged without any fault is lost in some crash |
| AuditDurability.FailedBarrierIsUnconfirmed | cmd/tg-proxy/audit_chain.go:518-538 | a rotation whose directory sync fails poisons and leaves such a store, on which startup succeeds |
| AuditDurability.RotationCrashLeavesNoActive | cmd/tg-proxy/audit_chain.go:499-538 | a crash after the rename can leave no active file, and no record is missing then |
| AuditDurability.LifetimeBound | cmd/tg-proxy/audit_chain.go:381-384 | over a whole process in interval mode, a crash that keeps the directory costs at most auditSyncEvery - 1 records besides what could be lost at its start |
| AuditInterval.StartsSynced | cmd/tg-proxy/audit_chain.go:148-215 | a process that starts after a crash, or without an active file, starts with nothing to lose |
| AuditInterval.BoundHoldsExactly | cmd/tg-proxy/audit_chain.go:318-390 | for every configuration and start, the bound of auditSyncEvery - 1 holds throughout a process if and only if, for every m < auditSyncEvery records that fit into the active file before a rotation, at most auditSyncEvery - 1 - m were unsynced at its start |
| AuditInterval.BoundHoldsExactlyFromSynced | cmd/tg-proxy/audit_chain.go:381-384 | when auditSyncEvery - 1 more records stay below auditRotateBytes, or nothing rotates: if and only if nothing was unsynced at its start |
| AuditInterval.BoundHoldsWhenFull | cmd/tg-proxy/audit_chain.go:318-346 | when the active file is so full that any record makes a rotation due: if and only if at most auditSyncEvery - 1 records were unsynced at its start |
| AuditInterval.RestartBreaksTheBound | cmd/tg-proxy/audit_chain.go:148-215 | when auditSyncEvery more records stay below auditRotateBytes, or nothing rotates: a process within its bound, restarted after auditSyncEvery - 1 unsynced records, gives one that exceeds it |
| AuditDurability.EveryModeLosesNothing | cmd/tg-proxy/audit_chain.go:381-390 | in mode "every", at any time of a process that started synced, a crash that keeps the directory costs no record |
| AuditDurability.CleanAppendSucceeds | cmd/tg-proxy/audit_chain.go:291-407 | an append whose system calls all succeed is acknowledged, rotation included, and durable when it had to be |
| AuditDurability.CrashDuringAppend | cmd/tg-proxy/audit_chain.go:291-407 | after a crash at any step of an append, a resumed history holds what is confirmed, and what is synced when the directory was not set back, and, when no earlier cut is unsynced, is part of the old one with the record in flight |
| AuditLimits.RefusesExactlyTorn | cmd/tg-proxy/audit_chain.go:56-106 | after a crash that left j bytes of an append, startup refuses if and only if the record itself is torn |
| AuditLimits.NextRecordFits | cmd/tg-proxy/audit_chain.go:148-215 | for every set of files startup accepts, exactly when the next record leaves a log that verifies, and that it then extends the history by this record |
| AuditLimits.UnverifiedStart | cmd/tg-proxy/audit_chain.go:165-197 | files without a record that startup accepts although nothing that continues them can verify |
| AuditLimits.StrayCarriageReturn | pkg/audit/streaming.go:27-61 | a verified log on which no separator is due, and the next record must be shorter than the writer's ceiling |
| AuditLimits.NumberingNeedsStat | cmd/tg-proxy/audit_chain.go:499-514 | a rotation keeps the numbers 1..k if and only if the Stat of the first free one finds nothing there |
| AuditLimits.SkippedIndexSwapsFiles | cmd/tg-proxy/audit_chain.go:499-514 | after a rotation that skipped a free index, whatever is written next comes before the rotated file once a clean rotation renames it into the gap |
| AuditLimits.SkippedIndexBreaksTheLog | cmd/tg-proxy/audit_chain.go:499-514 | when both hold records and end in a line feed, that log does not verify and the next start refuses it |
| AuditLimits.RotationIntoGap | cmd/tg-proxy/audit_chain.go:499-514 | with a gap in the indices the newest file sorts before an older one |
| AuditLog.Proxy.RollbackAuditWrite | cmd/tg-proxy/audit_chain.go:413-431 | the store after each system call, and success only when the size was checked |
| AuditLog.Proxy.RotateAudit | cmd/tg-proxy/audit_chain.go:484-571 | the whole new store, handle and status for every outcome of its calls, indices whose Stat fails included |
| AuditLog.Proxy.AppendTrace | cmd/tg-proxy/audit_chain.go:291-407 | the whole new state, result, record and sequence of store states are those of the transition function; the record keeps the call, the outcome and the unhashed fields, and links to the old tail |
| AuditLog.Proxy.SyncOrRestore | cmd/tg-proxy/audit_chain.go:371-404 | the chain state advances before the barrier and is restored exactly when the barrier fails |
| AuditLog.Proxy.RecoverAuditTail | cmd/tg-proxy/audit_chain.go:56-106 | newest file first, down to the first that holds a record |
| AuditLog.Proxy.OpenAuditLog | cmd/tg-proxy/audit_chain.go:148-215 | refuses with no tail, no separator due, and everything else as it was, or ends in the state of the specification |
| HookLog.MoveKeepsInv | cmd/tg/hook_audit.go:81-123 | each step of any process keeps: an accepted chain with every acknowledged record, or such a chain and one torn record |
| HookLog.TornFileIsFrozen | cmd/tg/hook_audit.go:191-216 | once a record is torn no process writes again |
| HookLog.EveryHookRunIsSafe | cmd/tg/hook_audit.go:24-123 | over every interleaving, on any accepted file, of processes that may die or write short: the file verifies and holds all it held and every acknowledged record in order, or is frozen with one torn record after them |
| HookLog.RefusedFileIsFrozen | cmd/tg/hook_audit.go:81-123 | a file that does not verify is never changed, and nothing is acknowledged |
| HookLog.WholeAppend | cmd/tg/hook_audit.go:81-123 | a successful pass extends the chain by one record: the call, outcome and provenance it was given, version 2, the old tail as its link, and its own hash |
| HookLog.HookFile.AppendHookAudit | cmd/tg/hook_audit.go:81-123 | the file afterwards, byte for byte, for every write and sync outcome; on success its last record has the call, outcome and provenance given and links to the old tail |
| Prune.PruneFile | cmd/tg/prune.go:95-201 | the loop over raw lines and offsets yields the selection, the checkpoint, the untouched bytes and the verdict on the output of the specification |
| Prune.RemovesTheExpiredPrefix | cmd/tg/prune.go:107-149 | what is removed is the longest expired prefix, and the checkpoint counts it together with earlier prunes |
| Prune.PrunesExactlyWhenFirstIsExpired | cmd/tg/prune.go:103-155 | a verified log whose records are dated and can be counted is left alone if and only if its first record is not expired, and otherwise pruned as long as the checkpoint fits on a line |
| Prune.OutputIsAcceptedUnlessTooLong | cmd/tg/prune.go:195-201 | the check of the output fails if and only if the checkpoint line is longer than a record may be |
| Prune.PrunedLogVerifies | cmd/tg/prune.go:167-201 | the output verifies as a pruned log with the input's tail hash and a byte-identical retained suffix |
| Prune.PruneTwiceIsPruneOnce | cmd/tg/prune.go:103-201 | pruning at c1 and then at c2 >= c1 writes the file that pruning once at c2 writes, whenever the second removes a record |
| Prune.CheckpointIsValid | pkg/audit/checkpoint.go:47-76 | the checkpoint written passes every check of its parser |
| PruneLaws.PrunedSays | cmd/tg/prune.go:103-201 | a pruned log by its fields: the records before the cutoff are gone from the front, the first that is not and all after it stay byte for byte, and the checkpoint names the number removed in all, the last record removed, the number retained and the tail |
| PruneLaws.PrunesWhen | cmd/tg/prune.go:103-201 | a verified log of dated records is left alone exactly when its first one is not before the cutoff, and otherwise pruned exactly when the checkpoint fits on a line |
| PruneLaws.RefusesWhen | cmd/tg/prune.go:95-134 | a log that does not verify, or with a record without a time, is refused |
| EscalationGate.StepKeepsInv | cmd/tg-proxy/escalation.go:114-317 | every step of every interleaving of requests, resolutions, expiries, other appends, deaths and restarts keeps the gate invariant |
| EscalationGate.EveryInterleavingIsGated | cmd/tg-proxy/handlers.go:438-501 | the invariant holds in every reachable state |
| EscalationGate.VisibleIsAudited | cmd/tg-proxy/escalation.go:224-317 | pending means its escalated record is in the chain; approved, denied and expired mean that the chain holds exactly one terminal record for the reservation, with action allowed exactly for approved, of this envelope, approver and reason; each was acknowledged behind a barrier and is permanent once the directory is confirmed; indeterminate means a poisoned writer; human resolutions are before the deadline, expiries not |
| EscalationGate.TrailIsTheChain | cmd/tg-proxy/audit_chain.go:291-407 | the records that the invariant speaks of are, while a writer is up, exactly those of the files, none twice |
| EscalationGate.AckedIsPermanent | cmd/tg-proxy/audit_chain.go:279-289 | a record acknowledged behind a barrier in a confirmed directory is in the chain now and after every crash from which the log resumes |
| EscalationGate.ResolvedIsFinal | cmd/tg-proxy/escalation.go:224-275 | a resolved entry is never changed again, only evicted |
| EscalationGate.ReservationIsUntouched | cmd/tg-proxy/escalation.go:85-158 | until its own publish or discard nothing evicts, exposes, resolves or changes a reservation |
| EscalationGate.PublishSucceeds | cmd/tg-proxy/escalation.go:163-175 | after the audit append succeeded, publishing always finds the reservation and makes it pending |
| EscalationGate.ReserveStore | cmd/tg-proxy/escalation.go:114-158 | a reservation that succeeds stays within the cap, is hidden, and disturbs no other reservation |
| EscalationOutcome.ResolveMeans | cmd/tg-proxy/escalation.go:224-275 | a decision on a pending entry before its deadline: the record appended allows exactly when the approver approved; acknowledged, the entry is approved if and only if the approver approved and denied otherwise, with the approver, reason and time given; not acknowledged, it stays, or is indeterminate when the record may be in the log |
| EscalationOutcome.ResolveRefuses | cmd/tg-proxy/escalation.go:231-249 | an unknown or hidden id, a resolved entry and one past its deadline: nothing changes, in store or log |
| EscalationOutcome.ReapMeans | cmd/tg-proxy/escalation.go:286-317 | a due pending entry expires once a record of a denial is acknowledged, and otherwise stays, or is indeterminate |
| EscalationOutcome.ReapSpares | cmd/tg-proxy/escalation.go:297-298 | what is not pending or not due does not expire |
| EscalationOutcome.ReserveMeans | cmd/tg-proxy/escalation.go:114-158 | the store after a reservation: the new entry hidden, dated and due after its timeout; refused exactly when the id is taken or a full store has nothing resolved; a full store gives up an oldest resolved entry and nothing else |
| EscalationRegistry.Registry.EvictOldestResolved | cmd/tg-proxy/escalation.go:85-108 | removes a resolved entry no other resolved entry is older than, or nothing when none is resolved |
| EscalationRegistry.Registry.Reserve | cmd/tg-proxy/escalation.go:114-158 | the object form of reserve, with its eviction |
| EscalationRegistry.Registry.PublishReserved | cmd/tg-proxy/escalation.go:163-175 | true exactly for this very object still reserved, which becomes pending; nothing else changes |
| EscalationRegistry.Registry.DiscardReserved | cmd/tg-proxy/escalation.go:180-192 | true exactly for this very object still reserved, which disappears |
| EscalationRegistry.Registry.Get | cmd/tg-proxy/escalation.go:204-212 | a snapshot of any entry but a hidden reservation |
| EscalationRegistry.Registry.ResolveAudited | cmd/tg-proxy/escalation.go:224-275 | the answer, the entry, the record and the log for every id: none for an unknown or hidden one, a snapshot for a resolved one, past due after the deadline, and otherwise approved if and only if the approver approved, with a record that says the same, or the entry as it was, or indeterminate |
| EscalationRegistry.Registry.ReapExpiredAudited | cmd/tg-proxy/escalation.go:286-317 | one pass over every entry once, in some order, each settled against the log |
| EscalationRegistry.NothingDueIsForgotten | cmd/tg-proxy/escalation.go:286-317 | after a pass every due entry has left pending or had its failure reported, and no other entry changed |
| EscalationRegistry.ReapOneMeans | cmd/tg-proxy/escalation.go:297-316 | one entry of the pass: who is reported expired, who failed, and what the entry and the log are then |
| EscalationRegistry.Registry.AttachResolutionReceipt | cmd/tg-proxy/escalation.go:322-335 | only the receipt changes, and only on the very transition named |
| EscalationRegistry.EvaluateEscalated | cmd/tg-proxy/handlers.go:438-501 | answered "escalated" exactly when the record is in the log, and then pending; otherwise denied with nothing of the request left in the store |
| EscalationRegistry.AnswerMeans | cmd/tg-proxy/handlers.go:438-501 | the answer is "escalated" exactly when the reservation was had and its record acknowledged, and "denied" otherwise; a receipt names the hash of the record of that answer |
| EscalationRegistry.DenialsAreRecorded | cmd/tg-proxy/handlers.go:446-493 | a request denied for want of a reservation, of provenance or of its record has the deny on record in one append of its own, durable when it had a reservation, with a receipt exactly for an acknowledged one; nothing is appended without provenance and reservation, or once the log is poisoned |
| SqlSkeleton.SqlSkeleton | pkg/engine/reversibility.go:849-1009 | the byte loop computes the token-wise skeleton |
| SqlSkeleton.SkeletonMeans | pkg/engine/reversibility.go:834-848 | for SQL text built from code, literals, quoted identifiers, line comments, nested block comments and dollar quotes, closed or not, exactly the code and the delimiters are left (`SqlBytes` fixes the delimiters) |
| SqlSkeleton.EveryTextDecomposes | pkg/engine/reversibility.go:849-1009 | every byte string is such text, and its skeleton is what is left of it |
| SqlSkeleton.SkeletonCovers | pkg/engine/reversibility.go:849-860 | same length, same line feeds, and bytes change only to spaces |
| SqlSkeleton.SkeletonSplits | pkg/engine/reversibility.go:849-1009 | wherever the scan stops, the skeletons of the two parts are the parts of the skeleton |
| SqlSkeleton.SkeletonIdempotent | pkg/engine/reversibility.go:849-1009 | the skeleton of a skeleton is itself |
| SqlSkeleton.SemicolonIsCode | pkg/engine/reversibility.go:1149-1163 | a semicolon left in the skeleton is one the scan saw as code |
| SqlSkeleton.SkeletonOfPieces | pkg/engine/reversibility.go:1149-1163 | the skeletons of the pieces are the pieces of the skeleton |
| SqlSkeleton.StatementsAreWhole | pkg/engine/reversibility.go:1149-1163 | every statement splits into just itself, or into nothing when it is blank |
| SqlSkeleton.StatementsRejoin | pkg/engine/reversibility.go:1149-1163 | the pieces joined by semicolons are the original |
| SqlSkeleton.SplitStatements | pkg/engine/reversibility.go:1149-1163 | the loop returns the statements of the specification |
| SqlSkeleton.DollarOpenAt | pkg/engine/reversibility.go:1016-1035 | the tag of a dollar quote, or none |
| SqlBytes.QuotedIsBlanked | pkg/engine/reversibility.go:905-981 | between 39 and 39, 34 and 34, 96 and 96, or 91 and 93, with the closing byte doubled and, after 39 and 34 only, with a backslash before any byte, everything but line feeds is blanked, the delimiters stay, and the scan goes on behind |
| SqlBytes.UnclosedQuoteIsBlanked | pkg/engine/reversibility.go:905-981 | one that never closes is blanked to the end |
| SqlBytes.PlainLiterals | pkg/engine/reversibility.go:905-981 | the plain case of each of the four quotes, in byte values |
| SqlBytes.EscapedDelimiters | pkg/engine/reversibility.go:905-981 | a doubled delimiter is content in each of the four; a backslash before one escapes it after 39 and 34 and does not after 96 and 91 |
| SqlBytes.LineCommentIsBlanked | pkg/engine/reversibility.go:865-883 | two dashes or a hash blank the rest of the line and no more |
| SqlBytes.BlockCommentIsBlanked | pkg/engine/reversibility.go:884-904 | a block comment is blanked with the comments inside it, to its own end |
| SqlBytes.UnclosedCommentIsBlanked | pkg/engine/reversibility.go:884-904 | one that never closes is blanked to the end |
| SqlBytes.DollarQuoteIsBlanked | pkg/engine/reversibility.go:982-1035 | a dollar quote, with a tag of letters and underscores and from its second byte on digits, keeps both tags and is blanked up to the first place the whole tag comes back |
| SqlBytes.UnclosedDollarIsBlanked | pkg/engine/reversibility.go:982-1003 | without that it is blanked to the end |
| SqlBytes.LoneDollarIsCode | pkg/engine/reversibility.go:1016-1035 | a dollar that no such tag and second dollar follow is code, as in $1 |
| SqlBytes.OtherBytesAreCode | pkg/engine/reversibility.go:1004-1007 | every other byte stays, a dash and a slash unless they open a comment |
| SqlBytes.StatementsAreCutAtCode | pkg/engine/reversibility.go:1149-1163 | statements are cut at every byte 59 the skeleton keeps and nowhere else, and only a blank last piece is left out |
| SqlBytes.LiteralSemicolons | pkg/engine/reversibility.go:1149-1163 | a semicolon between single quotes cuts nothing |
| ShellTokenizer.TokenizeShell | pkg/engine/shell_tokenize.go:149-318 | the loop with its word in progress yields the tokens of the specification |
| ShellTokenizer.AdjacentPiecesAreOneWord | pkg/engine/shell_tokenize.go:16-42 | bare, escaped, single-, double- and dollar-quoted pieces, line continuations, dollar signs that stay literal, names, special parameters, and substitutions and expansions with anything balanced in them, quotes and brackets included, also inside double quotes, written next to each other are one word: its value the literal text joined, unresolved exactly when one of them is an expansion |
| ShellTokenizer.CommandReadsBack | pkg/engine/shell_tokenize.go:149-393 | any command of such words, operators and blanks, with or without blanks around the operators, is read as it was meant, wherever it stands and whatever follows |
| ShellTokenizer.DescriptorBinds | pkg/engine/shell_tokenize.go:190-208 | a word right before a redirection, as in 2>file, is its descriptor number exactly when it is digits and nothing in it is quoted |
| ShellTokenizer.RoundTrip | pkg/engine/shell_tokenize.go:149-393 | for every list of resolved words and operators of the table, printing words single-quoted and tokenizing gives the same tokens, none unresolved |
| ShellTokenizer.RawIsItsWord | pkg/engine/shell_tokenize.go:149-318 | the raw text of any word of any command, tokenized alone, is that word with the same value and the same unresolved flag |
| ShellTokenizer.OperatorReadsBack | pkg/engine/shell_tokenize.go:326-393 | an operator before a space is matched in full and no further |
| ShellBytes.OperatorsAreLongest | pkg/engine/shell_tokenize.go:326-393 | of the listed operators that are written at a place the longest is read, with the kind the list gives it |
| ShellBytes.OrdinaryBytesAreAWord | pkg/engine/shell_tokenize.go:149-318 | a run of bytes that mean only themselves is a word that is its text, ended by blank or operator; digits right before a redirection are its descriptor |
| ShellBytes.SingleQuotesAreLiteral | pkg/engine/shell_tokenize.go:213-224 | single quotes keep every byte |
| ShellBytes.BackslashIsLiteral | pkg/engine/shell_tokenize.go:294-309 | a backslash makes the next byte literal and removes a line feed |
| ShellBytes.DoubleQuotesAreLiteral | pkg/engine/shell_tokenize.go:226-257 | double quotes keep every byte but 34, 36, 92 and 96 |
| ShellBytes.DoubleQuotedBackslash | pkg/engine/shell_tokenize.go:564-570 | between them a backslash takes effect before 34, 36, 92 and 96 and a line feed, and stays before any other byte |
| ShellBytes.NamesExpand | pkg/engine/shell_tokenize.go:572-580 | a dollar and a name, by its byte ranges, is an unresolved expansion, between double quotes too |
| ShellBytes.DollarAndOneByte | pkg/engine/shell_tokenize.go:400-422 | which single bytes make an expansion after a dollar, and that before any other the dollar is itself |
| ShellBytes.BracketsExpand | pkg/engine/shell_tokenize.go:427-489 | a substitution and a braced expansion are unresolved and go to their closing bracket |
| ShellBytes.BracketsNest | pkg/engine/shell_tokenize.go:427-489 | past brackets of the same kind, quoted ones and escaped ones |
| ShellBytes.QuotedExpansions | pkg/engine/shell_tokenize.go:511-562 | backquotes and the two dollar-quoted forms are unresolved and go to their closing byte, past an escaped one |
| ShellBytes.UnclosedGoesToTheEnd | pkg/engine/shell_tokenize.go:149-318 | what never closes takes everything to the end, and a last backslash is dropped |
| PathMatch.MatchSegments | pkg/engine/path_classify.go:279-309 | the loop and recursion decide the specification, and make exactly the counted number of calls |
| PathLaws.MatchesInPlace | pkg/engine/path_classify.go:279-309 | a pattern without `**` matches when every component does in place: `*` any that is not empty, every other exactly itself |
| PathLaws.MatchesAroundDeep | pkg/engine/path_classify.go:279-309 | around a `**`: the head in place, and the tail from anywhere in the path, its front included |
| PathLaws.DocumentedAroundDeep | pkg/engine/path_classify.go:276-278 | the documented meaning in the same terms: the tail from where the head ends on |
| PathMatch.NothingIsMissed | pkg/engine/path_classify.go:276-309 | every path the documented meaning accepts is accepted |
| PathMatch.OverlapIsMatchedToo | pkg/engine/path_classify.go:287-292 | /a/**/a matches /a, which the documented meaning excludes |
| PathMatch.CodeAccepts | pkg/engine/path_classify.go:279-309 | the code matches exactly when the groups between the `**` can be placed in turn, overlaps allowed |
| PathMatch.DocumentationSays | pkg/engine/path_classify.go:276-278 | the documented meaning is the same with the groups apart |
| PathMatch.DocumentedExactlyWithoutOverlay | pkg/engine/path_classify.go:276-309 | a pattern means what is documented on every path if and only if no group of it between `**` can be laid over the next, which can be seen from the pattern |
| PathMatch.EveryPatternIsJoined | pkg/engine/path_classify.go:279-309 | every pattern is such a sequence of groups, so these results speak of all patterns |
| PathMatch.CallsBound | pkg/engine/path_classify.go:279-309 | d `**` against n components make at most (n + 2)^d calls |
| PathMatch.DeepsCost | pkg/engine/path_classify.go:279-309 | d `**` and a component that is not there make exactly as many calls as there are ways to choose d of n + d + 1 |
| PathMatch.ThreeExceedTheSquare | pkg/engine/validate.go:386-390 | from three `**` on that is more than (n + 2)^2, for every n |
| PathPrefix.ValidatedIsQuadratic | pkg/engine/validate.go:386-402 | a prefix with at most two `**` in its normal form makes at most (n + 2)^2 calls, counted on the components that are matched after cleaning |
| PathPrefix.QuadraticExactlyUpToTheCap | pkg/engine/validate.go:386-402 | for every d: all accepted drive prefixes with d `**` in their normal form keep to (n + 2)^2 calls on every path if and only if d is at most two |
| PathPrefix.PreparedAddsNoDeep | pkg/engine/path_classify.go:200-248 | normalising, cleaning and trimming a prefix adds no `**` to those its slashes separate |
| PathPrefix.RelativeKeepsDeep | pkg/engine/path_classify.go:200-248 | of a prefix that is not absolute it takes none away either |
| PathPrefix.BackslashesHideFromTheCap | pkg/engine/validate.go:391-402 | a drive path of d components `**` written with backslashes counts none, is matched with d, and makes that exact number of calls on every path below the drive without its last component |
| PathPrefix.CapWildcardCount | pkg/engine/validate.go:391-402 | accepts exactly the prefixes in which `**` stands between slashes at most twice |
| PathPrefix.FastPathAgrees | pkg/engine/path_classify.go:227-246 | for every literal prefix the string comparison is the component-wise match, less the directory itself when the prefix still ends in a slash |
| PathLaws.LiteralCovers | pkg/engine/path_classify.go:227-242 | a literal prefix covers itself and what goes on after it with a slash, or after the slash it ends in |
| PathLaws.NormalForm | pkg/engine/path_classify.go:257-274 | backslashes count as slashes exactly in paths that begin with a drive letter, a colon and a slash of either kind, or with two backslashes |
| PathLaws.CleaningIs | pkg/engine/path_classify.go:222-226 | cleaning an absolute prefix drops empty components and dots, takes one back for two dots, and drops those at the root |
| PathLaws.CleanIsKept | pkg/engine/path_classify.go:222-226 | and keeps everything else as it is |
| PathLaws.SplitIsBetweenSlashes | pkg/engine/path_classify.go:244-246 | components are what stands between slashes |
| PathPrefix.TrailingSlash | pkg/engine/path_classify.go:200-246 | for every path and prefix, what a slash added to the prefix changes: nothing when it is absolute; when it is not and ends in none, nothing if it holds a wildcard, and otherwise exactly that the directory itself is no longer covered; when it already ends in one, that an empty component is asked for |
| PathPrefix.DriveDirectoryIsNotCovered | pkg/engine/path_classify.go:200-246 | the drive-letter prefix C:/a/ does not cover C:/a |
| RateLimit.EvictionIsInvisible | cmd/tg-proxy/ratelimit.go:81-121 | when rps times the idle time covers the burst, evicting never changes a decision |
| RateLimit.RateIsBounded | cmd/tg-proxy/ratelimit.go:29-44 | calls that do not interleave, when rps times the idle time covers the burst: one key gets at most burst plus rps times the length in any window |
| RateEviction.RateHoldsExactlyWhenRefilled | cmd/tg-proxy/ratelimit.go:81-121 | for a burst of at least one and any positive cap on keys, that bound holds for every key, window and run if and only if rps times the idle time covers the burst |
| RateLimit.AllowedExactlyWhenAffordable | cmd/tg-proxy/ratelimit.go:29-44 | a request is allowed if and only if allowing it keeps every window ending now within that bound |
| RateLimit.LimiterIsExact | cmd/tg-proxy/ratelimit.go:81-121 | the same of the limiter that evicts, when idle buckets have time to refill |
| RateLaws.ExactlyTheRate | cmd/tg-proxy/ratelimit.go:29-44 | a request is allowed if and only if, with it, every window that ends at it holds at most burst plus rps times its length of what its key was allowed, an empty key being "_unknown"; by the limiter that evicts as well when rps times the idle time covers the burst |
| RateLaws.WindowsAreBounded | cmd/tg-proxy/ratelimit.go:81-121 | under that condition no window of the limiter that evicts holds more, as a count of requests |
| RateLaws.OneCall | cmd/tg-proxy/ratelimit.go:29-44 | one call on its own bucket, in numbers |
| RateLaws.OthersStay | cmd/tg-proxy/ratelimit.go:81-121 | and on the others: none changes, and one goes exactly when a new key finds the cap reached and it was last used before the idle time |
| RateEviction.UnnoticedExactlyWhenRefilled | cmd/tg-proxy/ratelimit.go:81-121 | for a burst of at least one and any cap on keys, no run is ever decided differently because of eviction if and only if that condition holds |
| RateEviction.ShortIdleShows | cmd/tg-proxy/ratelimit.go:81-121 | otherwise a run, for any parameters, whose last request only the limiter that evicts allows, which never granted the key less before |
| RateEviction.SmallBurstRefusesAll | cmd/tg-proxy/ratelimit.go:29-44 | with a burst below one every request is refused, so nothing is noticed |
| RateRace.RaceIsSerial | cmd/tg-proxy/ratelimit.go:103-121 | when rps times the idle time covers the burst, over every interleaving of lookups and takes in which no sweep removes a key between the two, each answer is that of a limiter that never evicts, asked in the order of the takes |
| RateRace.RaceIsBounded | cmd/tg-proxy/ratelimit.go:103-121 | under the same conditions one key is granted at most burst plus rps times the length in any window |
| RateLaws.FinishMeans | cmd/tg-proxy/ratelimit.go:119-121 | a call takes from the bucket it was given, whatever the table holds by then |
| RateRace.RacesAreBoundedExactlyWhenNothingPasses | cmd/tg-proxy/ratelimit.go:103-121 | for all parameters that are not negative: every interleaving from an empty limiter, with every sweep that may come in between, keeps every key and window to burst plus rps times its length if and only if the burst is below one |
| RateLimit.CapGivesWay | cmd/tg-proxy/ratelimit.go:103-121 | the cap on keys is exceeded exactly when no bucket is idle |
| RateLaws.OverTheCap | cmd/tg-proxy/ratelimit.go:103-121 | the same with the time since the last use written out |
| RateLimit.TokenBucket.TakeOne | cmd/tg-proxy/ratelimit.go:29-44 | refill, clamp, take: the new level and the decision |
| RateLimit.RateLimiter.AllowRequest | cmd/tg-proxy/ratelimit.go:103-121 | the whole new table and the decision, sweep included |
| Velocity.EventsAreTheWindow | cmd/tg-proxy/velocity.go:51-93 | with times in order, what is kept is always the newest 20000 of the last day of the full history |
| Velocity.WindowMeans | cmd/tg-proxy/velocity.go:51-66 | an event is in the window exactly when it is not older than a day and fewer than 20000 are newer |
| Velocity.CountMeans | cmd/tg-proxy/velocity.go:68-83 | the count is the number of events not before the cutoff |
| Velocity.SumMeans | cmd/tg-proxy/velocity.go:68-83 | the sum is additive, and an event adds its amount unless it is before the cutoff |
| Velocity.AggregateIsExact | cmd/tg-proxy/velocity.go:68-83 | sums and counts over the window are those over everything ever recorded, while the cap holds |
| Velocity.CountIsCapped | cmd/tg-proxy/velocity.go:60-63 | the count is exact if and only if the cap is not exceeded |
| Velocity.VelocityWindow.Aggregate | cmd/tg-proxy/velocity.go:68-83 | the naive 1h and 24h sums and counts of the whole history, each while it fits the cap |
| Velocity.VelocityWindow.RecordAction | cmd/tg-proxy/velocity.go:87-93 | records and prunes to what the history of calls leaves |
| PolicyResolution.GatedExactly | pkg/engine/evaluator.go:41-100 | for a known mode: denied exactly when an enforcing policy denies, escalated exactly when none denies and one escalates |
| PolicyResolution.AnswersExactly | pkg/engine/evaluator.go:41-100 | decision, action, effective mode and near miss, for every mode, from which effects fire in enforcing and which in shadow policies |
| PolicyResolution.CallModeIsIrrelevant | pkg/engine/evaluator.go:76-100 | both known call modes give the same action |
| PolicyResolution.OrderIsIrrelevant | pkg/engine/evaluator.go:23-37 | decision, action, effective mode and near miss depend only on the set of policies |
| PolicyResolution.AddingPoliciesNeverLoosens | pkg/engine/evaluator.go:41-100 | for a known mode more policies never loosen the gate |
| PolicyResolution.ShadowPoliciesNeverGate | pkg/engine/evaluator.go:54-69 | shadow policies do not affect whether a call is gated |
| PolicyResolution.UnknownModeCanLoosen | pkg/engine/evaluator.go:82-97 | with an unknown mode, adding a flag policy lets a denied call proceed |
| PolicyResolution.EvaluateCall | pkg/engine/evaluator.go:21-104 | match, sort, loop and resolve give the order-independent result |
| PolicyResolution.MatchPolicies | pkg/engine/matcher.go:11-57 | exactly the approved policies, in order, whose organisations, agents, and tool names or groups include the call, each where the scope names any |
| Conditions.FailingClosedNeverAllows | pkg/engine/condition.go:25-92 | on every loaded condition, a classifier that fires can only make the condition fire |
| Conditions.NegatedClassifierFailsOpen | pkg/engine/validate.go:184-195 | a negated classifier is refused, and would fail open |
| Conditions.NothingFiresByItself | pkg/engine/validate.go:175-183 | a loaded condition without negation fires only because a leaf does |
| Conditions.LoadedIsShallow | pkg/engine/validate.go:151-159 | a loaded tree has at most 64 levels below its root |
| Conditions.EvalCondition | pkg/engine/condition.go:25-92 | the recursive loops with early exit decide the tree: `and` fires exactly when all of its parts do, `or` exactly when one does, `not` exactly when its part does not, and each leaf exactly when its classifier or comparison does |
| Conditions.DeMorgan | pkg/engine/condition.go:25-92 | all of the negations fire exactly when none of the parts does, and one of them exactly when not all do |
| Conditions.ValidateCondition | pkg/engine/validate.go:156-363 | accepts exactly the valid trees |

## Left out

* HTTP, CLI, flags, signals, logging, metrics and response shapes; `evaluate` outside the reserve, append, publish section; `tg verify` reporting fields (failure text and line, first trace id, the checkpoint note).
* The encodings themselves: SHA-256, JSON, time formatting, the canonical byte layouts; the reason text and identity fields of escalation records are a function of the entry (`EscalationStore.Describe`).
* Real file systems and platform variants, directory listing errors, symbolic links; the lock is a mutex that the death of its holder releases; `auditCurrentBytes`, which only feeds a metric; rotated siblings with non-canonical numerals.
* `pruneFile`'s checks that its input does not change meanwhile, its dry run and its publish step; int64 overflow other than the removed count.
* EscalationGate.VisibleIsAudited: says nothing about an escalation receipt attached later through attachResolutionReceipt, which the proxy itself never calls.
* `list` of the escalation store, which only copies; the reaper's pass is one step per entry in `EscalationGate`, so other requests may come between, which the store's lock allows for the log but not for the store.
* AuditSystem.EveryRunIsSafe: its runs do not begin on a log that already has a gap in its numbers, a file over the configured size, or a carriage return in it (`AuditRecovery.OpenResumesVerifiedTail` and `AuditLimits.NextRecordFits` are about any files); and a run in which the Stat of the first free rotation index fails for another reason than that nothing is there is not one of its runs; `AuditLimits.NumberingNeedsStat` and `SkippedIndexBreaksTheLog` say what happens then.
* AuditDurability.LifetimeBound: counts what a crash can cost that keeps the directory; `AcksSurviveExactlyWhenConfirmed` is about the crashes that do not.
* RateLimit.RateIsBounded: treats lookup and take as one step; `RateRace` does not.
* Floating-point rounding: the limiter and the velocity window are over reals; `velocityTracker`'s table of windows, which repeats the limiter's.
* `extractCommandSubsts`, `sqlForParser`, `unwrapShellWrappers` and the reversibility tables; `FindPrimaryCitation`, suggested responses and decision reasons; the details a fired condition carries.
* The candidate path's own cleaning and symbolic links before `matchPathPrefix`; a path is compared as the caller passes it.
* ShellTokenizer.CommandReadsBack: constructs left open at the end of a command are in the tokenizer's specification (`Tokens`) but not among the pieces a word is spelled from.
* Redaction, LLM guards, SSRF client, SQL parsers, lint, coverage and simulation reports, protect and unprotect, the Python SDK.
