# HydraSeat: verified models

This project models the parts of HydraSeat that decide what may happen after something went wrong, or before something is
let out: the crash-recovery journal, the reconciliation of local game candidates, the consent flow for sharing results, the
acceptance campaign, the audio route transaction, the text and path converters they stand on, and cohort aggregation. Each
model follows its source file's branches, constants and error conditions, in the source's own form: what the source updates
in place is a class or an array here, what it computes is a function, its loops are loops.

`dafny verify dfyconfig.toml` checks the whole project.

## What is modelled

**The crash journal.** A journal is an append-only list of records from which a phase and the progress of every action are
derived by replay; a plan check forces rollback in strict reverse activation order; a codec frames it with a CRC-32; a store
keeps it in named slots. Storage is a map from slot to bytes in which a write may tear, an atomic replace or a removal may
take effect and still be reported as failed, reads may fail, slots may be unreadable, and a crash may fall between any two
storage changes. The disks a run leaves behind are kept in a log, and the safety theorems are about that log. The main
results: which records may follow which, said of the markers alone; Clean is reachable exactly when no action was skipped
(and, after verification, one slot is left), and Active exactly while nothing is being undone; a Clean journal has undone
everything it prepared, in falling order; the checksum is the remainder of a division of polynomials, and damage within four
consecutive bytes is always detected; decoding accepts exactly the encodings of valid journals, which are laid out byte by
byte; over all runs the stored journal is sound and safe mode is left only over a clean journal, and over runs without
verified resets the journal only grows within a session; whatever startup finds unclean is in safe mode afterwards; memory and
disk never differ by more than the last record.

**The game catalog.** The union-find runs on its two arrays; grouping remembers only the first owner of each key and is
proved to find the exact connected components. `CatalogFreshness.CatalogTakes` says, in terms of the candidates' fields,
what each entry takes from its component: fresh before stale, identified before unidentified, discovered before manual. The
header promises that candidate order does not affect a successful catalog (`include/hydra/game_catalog.hpp:88-91`). The code
does not always keep that promise: the canonical key that decides between candidates joins its parts with a character they
may contain, so different candidates can tie, and which of them comes first is left to the order.
`CatalogTies.TieLeavesTitleOpen` gives such a pair and the two catalogs they become. `CatalogExact.CatalogExactly` gives the
exact condition: the catalog is the same in every order if and only if in every component the candidates that tie for the
representative's place agree on what the entry takes from the representative, and those that tie for one of the four
optional fields agree on that field. It is a condition on the candidates alone, and it holds in particular when equal keys
mean equal candidates.

**Paths.** Normalization is proved to render a folded segment stack. A second pass changes nothing, except exactly for
relative paths such as `.\c:.`, whose normal form `c:.` reads as a drive. A further case the source does not mention:
`1:\a` is written out as `1:a`, because the rule that suppresses a separator after `x:` looks at the text and not at the
drive; `PathTheorems.KeepsExactly` gives the exact set of inputs whose normal form no longer says what the input says.

**UTF.** The pair of converters, for 16-bit wide characters, is proved inverse on exactly the texts both accept (sections 3
and 4 of RFC 3629, section 2 of RFC 2781).

**Sharing.** Consent is a log of approvals, withdrawals and messages. Over every interleaving of calls each message that
reaches the transport directly follows the approval of its own bytes, with sharing enabled. Conversely a recorded result can
be previewed, approved, sent and exported, and what was declined, paused or failed can be taken up again.

**The acceptance campaign.** Every step's result is valid exactly under a stated condition; with a clock that does not run
back, only the wrap of `now + 300` in 64 bits can break it. What has passed stays, and was earned; all evidence in a reachable
campaign is bound to its identity in twelve fields and fits its stage. With evidence that does, every stage can pass.

**Audio routing.** The backend and the observer may answer anything. From a new transaction, over every run in which no
attempt forgets, the flag is set exactly while captured sessions are displaced. An attempt on a transaction that is already
mutated can forget in two ways: it finds nothing left to do and clears the flag, or it captures the displaced sessions as if
they were the original ones, overwriting the earlier capture, and may then even report a verified rollback.
`AudioRouteSafety.ForgetsExactly` says when, in terms of the answers; a caller that attempts only while the transaction is not
mutated is safe, and no other caller is.

**Aggregation.** Counters are facts about the bag of results; they add up, and the output does not depend on the order.

## Model

| member | source | states |
|---|---|---|
| Watchdog.FindAction | src/crash_journal.cpp:361-368 | an action is found exactly when the plan names its id, and it is the one with that id |
| Watchdog.PlanExactly | src/watchdog_protocol.cpp:210-280 | a plan is valid exactly with a nonzero session and lease, timeouts in their ranges, 1 to 32 actions each complete for its kind, and no id or ordinal twice |
| Watchdog.OrdinalsDistinct | src/watchdog_protocol.cpp:210-280 | different planned actions have different activation ordinals |
| CrashJournal.DeriveState | src/crash_journal.cpp:210-359 | the replay loop computes the fold of one step over the records and accepts exactly what that fold accepts; which records and phases those are is `JournalMarkers.ReplayExactly` |
| CrashJournal.ReplayPrefix | src/crash_journal.cpp:210-359 | replay is prefix-closed: every prefix of a replayable record list is replayable |
| CrashJournal.ReplayResumes | src/crash_journal.cpp:210-359 | replay is a fold that can be cut anywhere: replaying the whole is resuming the replay of the prefix over the rest |
| CrashJournal.ValidateState | src/crash_journal.cpp:510-546 | accepts exactly the valid states, which `JournalMarkers.AcceptedExactly` spells out field by field |
| CrashJournal.ValidateAgainstPlan | src/crash_journal.cpp:548-582 | one pass with a running last ordinal accepts exactly the journals valid against the plan, which `JournalMarkers.AcceptedForPlanExactly` spells out |
| CrashJournal.LastRollbackIsLowest | src/crash_journal.cpp:564-581 | the running "last ordinal" the loop compares against is the lowest rolled-back ordinal |
| CrashJournal.ReverseOrderExtend | src/crash_journal.cpp:564-581 | appending a rollback keeps reverse order exactly when its ordinal is below the last one |
| CrashJournal.MakeInitial | src/crash_journal.cpp:616-647 | yields the one-record journal of the plan exactly when that journal is valid against it |
| CrashJournal.AppendRecord | src/crash_journal.cpp:649-683 | yields the journal extended by the record exactly when the extension is valid against the plan, and otherwise nothing |
| JournalHistory.ReplayTracks | src/crash_journal.cpp:222-340 | the progress of each action in the replay map is what the record list says of it, each marker is written at most once, verified ids were applied and applied ids prepared |
| JournalHistory.MarkersInOrder | src/crash_journal.cpp:222-340 | each action marker comes after the one it presupposes: applied after prepared, verified after applied, rolled back after prepared, none twice |
| JournalHistory.ReplaySessionMarkers | src/crash_journal.cpp:222-359 | the phase is determined by which session markers have occurred: started at most once, committed before or never, rollback before verification |
| JournalHistory.NothingAfterTerminal | src/crash_journal.cpp:225-359 | no record follows a CleanStop, FailureRecorded or RecoveryRequired marker |
| JournalHistory.RecordCount | src/crash_journal.cpp:222-359 | a journal's length is the sum of its markers of each kind |
| JournalHistory.CleanMeansUndone | src/crash_journal.cpp:548-582 | in a plan-valid journal in phase Clean the rolled-back ids are a permutation of the prepared ids, without repetition, in strictly falling activation ordinal |
| JournalHistory.ActiveMeansVerified | src/crash_journal.cpp:222-359 | in phase Active the applied and the verified ids are each a permutation of the prepared ids, and none is rolled back |
| Recoverability.AppendAgreesWithReplay | src/crash_journal.cpp:649-683 | append succeeds exactly when one replay step and the order check do, so append and full replay agree |
| Recoverability.CapacitySuffices | src/crash_journal.cpp:210-215 | a journal whose rollback is not yet verified always has room for its whole rollback: 4*32+5 records at most, of 160 |
| Recoverability.UndoOne | src/crash_journal.cpp:649-683 | the outstanding action with the highest ordinal can be rolled back next, and that reduces what is outstanding by exactly it |
| Recoverability.Finish | src/crash_journal.cpp:649-683 | the constructive witness: roll back in descending ordinal, verify, stop; the run ends Clean |
| Recoverability.VerifyAndStop | src/crash_journal.cpp:649-683 | with nothing outstanding, RollbackVerified and CleanStop end Clean |
| Recoverability.HopelessForever | src/crash_journal.cpp:548-582 | a terminal or out-of-order journal never reaches Clean by any run of appends |
| Recoverability.CleanReachableExactly | src/crash_journal.cpp:649-683 | some run of appends reaches Clean if and only if the journal is clean, or it has no failure marker, no outstanding action has a higher ordinal than the last one rolled back, and, once the rollback is verified, one slot is left |
| JournalMarkers.ReplayExactly | src/crash_journal.cpp:210-359 | a record list is replayable if and only if every record may follow the ones before it, said of the earlier markers alone: started first, no action marker after a commit, rollback or end, applied after prepared, verified after applied, commit when all prepared ids are verified, and so on; the phase and result are those of the markers that occur |
| JournalMarkers.StepExactly | src/crash_journal.cpp:222-340 | one replay step accepts a record exactly when it may follow |
| JournalMarkers.AppendExactly | src/crash_journal.cpp:649-683 | a marker can be appended if and only if there is room, it carries its planned or the session generation, it may follow the records there, and a rollback lies below every earlier one |
| JournalMarkers.AcceptedExactly | src/crash_journal.cpp:510-546 | a journal is accepted if and only if its header fields and snapshots are in range and distinct, it has 1 to 160 records each of which may follow those before, and phase and result are what the markers amount to |
| JournalMarkers.AcceptedForPlanExactly | src/crash_journal.cpp:548-582 | the plan adds exactly: same digest and lease, every action marker is planned under its generation, rollbacks run downwards in activation order |
| JournalMarkers.ActivationFits | src/crash_journal.cpp:210-215 | a journal that is still activating always has room for the rest of its activation |
| JournalMarkers.FinishActivation | src/crash_journal.cpp:649-683 | the constructive witness: apply and verify whatever is prepared, then commit; the run ends Active |
| JournalMarkers.NeverActive | src/crash_journal.cpp:210-359 | once a rollback has started or the journal has ended no run of appends reaches Active |
| JournalMarkers.ActiveReachableExactly | src/crash_journal.cpp:649-683 | some run of appends reaches Active if and only if the phase is Preparing, Applying or Active |
| Crc32.ComputeChecksum | src/crash_journal.cpp:101-112 | the byte loop with its eight shifts computes the bitwise checksum, which `CrcPolynomial.ChecksumExactly` identifies as a remainder of polynomials |
| Crc32.BitStepInjective | src/crash_journal.cpp:101-112 | one shift-and-xor step is injective in the register |
| Crc32.FeedWord | src/crash_journal.cpp:101-112 | feeding four bytes equals mixing them into the register as one word and then taking 32 steps |
| Crc32.FeedInjective | src/crash_journal.cpp:101-112 | feeding the same bytes keeps different registers different |
| Crc32.FeedWordInjective | src/crash_journal.cpp:101-112 | different bytes of one length up to four lead from one register to different registers |
| Crc32.BurstDetected | src/crash_journal.cpp:101-112 | two different byte strings of one length, however short, that agree outside at most four consecutive bytes never have the same checksum |
| CrcPolynomial.StepDivides | src/crash_journal.cpp:101-112 | one shift-and-xor step multiplies by x and subtracts the divisor with exponents 32, 26, 23, 22, 16, 12, 11, 10, 8, 7, 5, 4, 2, 1, 0 if x^32 appears |
| CrcPolynomial.FeedDivides | src/crash_journal.cpp:101-112 | feeding bytes is long division: the register holds a remainder of the message polynomial, ones in front and shifted by 32, and the quotient is exhibited |
| CrcPolynomial.RemainderUnique | src/crash_journal.cpp:101-112 | a polynomial has one remainder below degree 32, because every nonzero multiple of the divisor reaches exponent 32 |
| CrcPolynomial.ChecksumExactly | src/crash_journal.cpp:101-112 | a number is the checksum if and only if its complement is the remainder of the message with the initial ones, shifted by 32, on division by that divisor |
| CrcCheckValue.CheckValue | src/crash_journal.cpp:101-112 | the checksum of the nine digits 123456789 is 0xcbf43926 |
| ByteStream.ByteWriter.PutWord | src/crash_journal.cpp:118-134 | appends the little-endian bytes of the value |
| ByteStream.ByteWriter.PutBytes | src/crash_journal.cpp:135-142 | appends the bytes unchanged |
| ByteStream.ByteReader.GetU8 | src/crash_journal.cpp:152-156 | reads one byte and advances, or fails at the end without advancing |
| ByteStream.ByteReader.GetWord | src/crash_journal.cpp:157-184 | reads a little-endian value of the width and advances by it |
| ByteStream.ByteReader.GetBytes | src/crash_journal.cpp:185-195 | reads that many bytes and advances by them |
| ByteStream.LeRoundTrip | src/crash_journal.cpp:114-196 | writing a value that fits and reading it back gives the value |
| ByteStream.LeOfValue | src/crash_journal.cpp:114-196 | reading bytes and writing the value gives the bytes |
| ByteStream.JoinInjective | src/crash_journal.cpp:114-196 | pieces of fixed widths are determined by their concatenation |
| JournalCodec.EncodeHeader | src/crash_journal.cpp:375-386 | the header for a payload: magic, version, sizes, checksum and zero reserve, in order |
| JournalCodec.DecodeHeader | src/crash_journal.cpp:388-432 | accepts exactly the byte strings that are the encoder's header for their own payload |
| JournalCodec.EncodeJournal | src/crash_journal.cpp:685-722 | a valid state gives its frame, any other state gives nothing |
| JournalCodec.ValidStateFits | src/crash_journal.cpp:685-694 | every valid state fits the 8192-byte file bound |
| JournalCodec.EncodedInjective | src/crash_journal.cpp:685-722 | two valid states with the same encoding are the same state |
| JournalCodec.DecodedEncoded | src/crash_journal.cpp:685-807 | decoding the encoding of a valid state gives the state |
| JournalDecode.DecodeJournal | src/crash_journal.cpp:724-807 | the reader returns a state exactly for the byte strings that encode a valid state, and then that state, so every accepted string re-encodes to itself |
| JournalDecode.FrameDamageDetected | src/crash_journal.cpp:388-432 | a frame damaged inside four consecutive payload bytes, or in one header byte, is no longer a frame |
| JournalDecode.DamageDetected | src/crash_journal.cpp:724-807 | no byte string damaged that way decodes, whatever journal it was |
| JournalDecode.SingleByteDamageDetected | src/crash_journal.cpp:724-807 | changing any single byte of an accepted journal, header or payload, makes decoding fail |
| MarkerCodec.EncodeMarker | src/crash_journal.cpp:809-826 | a valid marker gives its frame, any other nothing |
| MarkerCodec.DecodeMarker | src/crash_journal.cpp:828-861 | returns a marker exactly for the byte strings that encode a valid one, and then that marker |
| MarkerCodec.MarkerInjective | src/crash_journal.cpp:809-861 | two valid markers with one encoding are equal |
| MarkerCodec.MarkerDecodedBack | src/crash_journal.cpp:809-861 | decoding the encoding of a valid marker gives the marker |
| JournalLayout.FileExactly | src/crash_journal.cpp:685-722 | the file of a valid journal is the one byte string in which each field stands at its place, lowest byte first: HJR1, version 1, header size 24, payload length, checksum, 80 bytes of prefix, 24 a record, 48 a snapshot, with phases, results and kinds numbered by their place in a list |
| JournalLayout.MarkerFileExactly | src/crash_journal.cpp:809-826 | the same for the 88 bytes of a safe-mode marker |
| JournalStorage.Storage.DurableWrite | src/crash_journal.cpp:970-1038 | a write may fail and may tear: only its slot changes, through any bytes |
| JournalStorage.Storage.AtomicReplace | src/crash_journal.cpp:1040-1073 | one indivisible move, which may happen and still be reported as failed |
| JournalStorage.Storage.Remove | src/crash_journal.cpp:1075-1089 | removes the slot or fails, possibly after removing it |
| JournalStorage.Storage.Crash | src/crash_journal.cpp:1133-1169 | a crash leaves the disk as it was at some moment between two storage changes |
| CrashJournalStore.Store.ArchiveCurrent | src/crash_journal.cpp:1120-1131 | shifting the history touches neither the journal nor the marker; with working storage the given bytes come first and each older entry that could be read moves one place on |
| CrashJournalStore.Store.PersistState | src/crash_journal.cpp:1133-1169 | at every moment the Current slot is the old journal or the whole new one; success means the new one, and with working storage that the old one is archived; failure leaves the history as it was |
| CrashJournalStore.Store.WriteSafeMode | src/crash_journal.cpp:1171-1192 | never touches the journal; a marker that is there stays there; with working storage a valid marker is on disk afterwards |
| CrashJournalStore.Store.WriteSafeModeForFailure | src/crash_journal.cpp:1194-1208 | the failure marker leaves the journal and an existing marker in place; with working storage the disk then holds the marker with the given reason, naming the session and generation of the failing state |
| CrashJournalStore.Store.BeginActivation | src/crash_journal.cpp:1238-1294 | succeeds only with a canonical first state over a missing journal or a clean one of a smaller generation and no marker, and then only storage can fail it; every refusal that owes a marker leaves exactly that marker on working storage |
| CrashJournalStore.Store.PersistTransition | src/crash_journal.cpp:1296-1352 | moves the journal only to an extension by at most one record with session, plan, lease and snapshots unchanged; asking again for what is there writes nothing; every refusal that owes a marker leaves exactly that marker on working storage |
| CrashJournalStore.Store.AssessStartup | src/crash_journal.cpp:1354-1435 | with stable reads says Clean exactly on a disk that starts clean and RecoverableIncomplete exactly for an unfinished journal without a marker; with working storage any other assessment leaves safe mode on disk, and a marker that is new decodes to the reported one and names the stored journal |
| CrashJournalStore.Store.AssessThenBegin | src/crash_journal.cpp:1354-1435 | with stable reads, after an assessment other than Clean an activation fails even if the marker write failed |
| CrashJournalStore.Store.ReplaceWithVerifiedClean | src/crash_journal.cpp:1437-1448 | overwrites the journal only after a verified reset and only by a valid clean one |
| CrashJournalStore.Store.ClearSafeMode | src/crash_journal.cpp:1450-1499 | the marker goes only after a verified reset, over a clean journal of exactly the given session and generation; with working storage the call succeeds exactly then |
| CrashJournalStore.Store.LoadCurrent | src/crash_journal.cpp:1210-1222 | returns only the journal that is stored |
| StoreSafety.JournalStaysSound | src/crash_journal.cpp:1133-1169 | along any run, with verified resets or without, the Current slot is missing or decodes to a valid journal |
| StoreSafety.GenerationRises | src/crash_journal.cpp:1238-1294 | once present the journal stays, and its generation never falls |
| StoreSafety.SessionOnlyGrows | src/crash_journal.cpp:1296-1352 | within a session every later journal is the earlier one plus at most one record a moment; only records, phase and result may differ |
| StoreSafety.SessionEndsClean | src/crash_journal.cpp:1263-1294 | a session is succeeded by another only after its own journal, every record kept, ended Clean |
| StoreSafety.NewSession | src/crash_journal.cpp:1253-1294 | a new session begins, whatever was there, with exactly the one ActivationStarted record, in phase Preparing |
| StoreSafety.SafeModeSticks | src/crash_journal.cpp:1450-1499 | along any run, with verified resets or without, the marker disappears only over a clean journal, and if it names a session then only over a journal of that session and generation |
| StoreSafety.CrashLeavesRun | src/crash_journal.cpp:1133-1169 | what a crash leaves of a run is again a run |
| StoreRuns.CallOnce | src/crash_journal.cpp:1238-1499 | any one call of the store, cut off anywhere by a crash, continues a run, and unless it is a verified reset a run without resets |
| StoreRuns.Run | src/crash_journal.cpp:1238-1499 | any sequence of calls, verified resets included, with any storage failures and crashes keeps the journal sound at every moment; without resets the history is an ordinary run |
| GateCRecovery.MakePlan | src/gate_c_recovery.cpp:16-66 | makes a plan exactly from 1 to 32 complete targets with distinct ids, ordinals and processes and timeouts in range; it terminates each target within 2000 ms under its ordinal |
| GateCRecovery.CollectActions | src/gate_c_recovery.cpp:32-58 | the loop with two seen-sets accepts exactly the pairwise distinct targets |
| GateCRecovery.RecoveryJournal.Begin | src/gate_c_recovery.cpp:76-90 | memory is set only to the journal that is on disk |
| GateCRecovery.RecoveryJournal.AppendAndPersist | src/gate_c_recovery.cpp:100-117 | memory moves only with the disk; one record ahead, the same marker resynchronizes and any other is refused with the disk unchanged |
| GateCRecovery.RecoveryJournal.MarkAction | src/gate_c_recovery.cpp:119-171 | appends exactly that marker for that action or changes nothing in memory; in step and with working storage it succeeds exactly when the plan has the action and the journal can take the marker |
| GateCRecovery.RecoveryJournal.MarkSession | src/gate_c_recovery.cpp:152-186 | appends exactly that marker or changes nothing in memory; in step and with working storage it succeeds exactly when the journal can take the marker |
| GateCRecovery.RecoveryJournal.Drive | src/gate_c_recovery.cpp:76-186 | any sequence of markers under any storage behaviour leaves the disk equal to memory or one record ahead |
| GateCRecovery.RecoveryJournal.Retry | src/gate_c_recovery.cpp:100-117 | repeating a failed marker once storage works succeeds and makes memory and disk equal |
| DisjointSets.DisjointSet.Find | src/game_catalog.cpp:39-42 | returns the root; re-parenting along the path moves no element to another root |
| DisjointSets.DisjointSet.Unite | src/game_catalog.cpp:44-51 | joins exactly the two components; ranks still rise along parents and stay balanced |
| DisjointSets.DisjointSet.Link | src/game_catalog.cpp:48-50 | hanging a root keeps 2^rank at most the component's size |
| DisjointSets.CompressKeepsRoots | src/game_catalog.cpp:39-42 | path compression changes no root |
| DisjointSets.LinkBalances | src/game_catalog.cpp:44-51 | union by rank keeps every root of rank k over at least 2^k elements |
| CatalogModel.BetterIsStrictOrder | src/game_catalog.cpp:332-347 | betterCandidate is a strict order, and candidates it cannot tell apart have one canonical key |
| CatalogFreshness.LessExactly | src/game_catalog.cpp:345-347 | the order of texts is that of the first difference |
| CatalogFreshness.BetterExactly | src/game_catalog.cpp:332-347 | a candidate is not worse exactly if it is no less fresh, and of two as fresh identified goes before unidentified, discovered before manual, the lesser key first |
| CatalogFreshness.LinkedExactly | src/game_catalog.cpp:648-661 | two candidates are linked exactly if they are of one provider application or offer a file with one key |
| CatalogFreshness.ArchitectureTaken | src/game_catalog.cpp:462-479 | the merged architecture is the one on which all of the freshest candidates that know one agree, and unknown if they do not |
| CatalogFreshness.OutcomeTakes | src/game_catalog.cpp:532-627 | an entry takes title, root, provider, origin and name from the first candidate of the group in that precedence (among the identified ones if there are any), each optional field from the first that has one, the files of the others once each in the first of their spellings; it is Current if any candidate is and Stale only if all are |
| CatalogGroups.Claim | src/game_catalog.cpp:648-661 | recording only the first owner of a key still joins everyone who has the key |
| CatalogGroups.ChainJoined | src/game_catalog.cpp:648-661 | candidates linked by any chain of shared keys end in one class |
| CatalogGroups.GroupCandidates | src/game_catalog.cpp:645-661 | afterwards two candidates have one root if and only if a chain of shared identities or executable keys connects them |
| CatalogEntry.NormalizeExecutables | src/game_catalog.cpp:383-414 | each path is kept once, in its least spelling, and none is lost |
| CatalogEntry.SortGroup | src/game_catalog.cpp:536-539 | a permutation in which no candidate follows a worse one |
| CatalogEntry.StrongIdentities | src/game_catalog.cpp:541-544 | exactly the identities that occur |
| CatalogEntry.FirstMeeting | src/game_catalog.cpp:556-563 | the first match in the list, or none because nobody matches |
| CatalogEntry.FirstValue | src/game_catalog.cpp:481-490 | the value of the first candidate in the list that has one, or none because nobody has |
| CatalogEntry.MergeStaleness | src/game_catalog.cpp:450-460 | Current if any is, Stale only if all are |
| CatalogEntry.MergeArchitecture | src/game_catalog.cpp:462-479 | the architecture on which all of the freshest candidates that know one agree, otherwise unknown |
| CatalogEntry.MergeExecutables | src/game_catalog.cpp:492-530 | the representative's executables in order, then every other path of the group once, by key, in its least spelling |
| CatalogEntry.Representative | src/game_catalog.cpp:541-563 | detects a conflict of identities exactly, and otherwise finds the first candidate, of those with an identity if there are any |
| CatalogEntry.BuildEntry | src/game_catalog.cpp:532-627 | the outcome is one that the bag has under some order of the candidates that tie; an id collision is reported exactly when another identity holds the id |
| CatalogMerge.LeaderIsBest | src/game_catalog.cpp:536-563 | the first match in a sorted group is a best one: no match is better |
| CatalogMerge.OutcomeUnique | src/game_catalog.cpp:532-627 | if the candidates that tie agree on what the entry takes from them, the group has one outcome whatever the order |
| CatalogOutcomes.OrderFor | src/game_catalog.cpp:536-539 | every group can be sorted, with any chosen candidate in front of all that tie with it |
| CatalogOutcomes.OutcomeExists | src/game_catalog.cpp:532-627 | every group has an outcome |
| CatalogOutcomes.TwoOutcomes | src/game_catalog.cpp:532-627 | if candidates that tie disagree, two orders of them give two different entries |
| CatalogOutcomes.OutcomeExactly | src/game_catalog.cpp:532-627 | a group that always becomes an entry becomes the same one in every order if and only if the candidates that tie agree on what the entry takes from them |
| CatalogOutcomes.TieFreeDetermined | src/game_catalog.cpp:301-347 | where equal canonical keys mean equal candidates there is nothing to agree on |
| CatalogMerge.MergedUnique | src/game_catalog.cpp:492-530 | the merged executable list is determined by the bag |
| CatalogBuild.CatalogUnique | src/game_catalog.cpp:631-698 | a bag in which candidates that tie agree has at most one catalog |
| CatalogExact.Complete | src/game_catalog.cpp:668-698 | if every choice between candidates that tie is accepted, the entries made for some components can be completed to a catalog |
| CatalogExact.TwoCatalogs | src/game_catalog.cpp:631-698 | if in some component candidates that tie disagree, the bag has two different catalogs |
| CatalogExact.CatalogExactly | src/game_catalog.cpp:631-698 | a bag that becomes a catalog whatever the order of ties has exactly one catalog if and only if in every component the candidates that tie agree on what the entry takes from them |
| CatalogExact.NoCatalogExactly | src/game_catalog.cpp:631-698 | a bag in which candidates that tie agree has no catalog exactly when some check of the build refuses it: the count, a group, an id collision or the final document |
| CatalogBuilder.CollectGroups | src/game_catalog.cpp:663-666 | each group is the members of one root, in input order |
| CatalogBuilder.MembersAreGroup | src/game_catalog.cpp:663-666 | the members of a root are the candidate's connected component, with multiplicities |
| CatalogExact.IdentityIsOwn | src/game_catalog.cpp:565-585 | two components never have the same identity |
| CatalogBuilder.SortEntries | src/game_catalog.cpp:679-683 | strictly ascending in game id, with the same entries |
| CatalogBuilder.BuildEntries | src/game_catalog.cpp:668-678 | one entry for each component, or a proof that under some order of ties the build refuses |
| CatalogBuilder.BuildCatalog | src/game_catalog.cpp:631-698 | success gives a catalog of the bag, in which `CatalogFreshness.CatalogTakes` says what every entry takes; failure means that some check refuses, and, where candidates that tie agree, that the bag has no catalog |
| CatalogFreshness.CatalogTakes | src/game_catalog.cpp:631-698 | in a catalog every component has its entry and every entry its component, and each takes so |
| CatalogBuilder.BuildPermuted | src/game_catalog.cpp:631-698 | permuting the candidates changes neither success nor the catalog, provided that candidates that tie agree on what the entry takes from them, which is the exact condition; success is unchanged also if every choice is accepted |
| CatalogTies.TwinCatalog | src/game_catalog.cpp:532-698 | of two candidates of one provider app that tie, either one gives the catalog its title |
| CatalogTies.TieLeavesTitleOpen | src/game_catalog.cpp:301-330 | the joined key is not injective: any candidate of a provider app has two variants whose bag has, for every schema that accepts both documents, two catalogs with different titles |
| PathNormalization.NormalizePath | src/game_catalog.cpp:163-236 | the cursor pass computes the rendering of the folded segment stack; what folding means for roots and names is said by the lemmas of `PathMeaning` |
| PathNormalization.CollectSegments | src/game_catalog.cpp:191-217 | the cursor loop folds the split text, with the protected UNC count in step with the stack |
| PathNormalization.Split | src/game_catalog.cpp:193-198 | splitting gives at least one segment |
| PathNormalization.RootOf | src/game_catalog.cpp:172-190 | the root's prefix is where the text begins |
| PathMeaning.FoldExactly | src/game_catalog.cpp:163-171 | two units are folded alike exactly if they are the same unit, the two cases of one letter, or the two slashes |
| PathMeaning.SpellingIgnored | src/game_catalog.cpp:163-236 | two texts are folded alike exactly if they differ only so, and then they are normalized alike |
| PathMeaning.RootExactly | src/game_catalog.cpp:172-190 | the root of a text by its first units: drive, rooted drive, UNC, rooted, none |
| PathMeaning.SegmentsNormalized | src/game_catalog.cpp:163-236 | a root followed by names, written with separators, is normalized to the root and the folded names |
| PathMeaning.ParentTaken | src/game_catalog.cpp:204-211 | under a drive root a plain path stays, a parent segment takes away the name before it, and none goes above the root |
| PathMeaning.UncPrefixStays | src/game_catalog.cpp:200-211 | server and share of a UNC path stay in front, whatever follows |
| PathTheorems.StackSettled | src/game_catalog.cpp:191-217 | no `.`, no empty segment and no applicable `..` is left: none under a root, none past the two UNC names, else only in front |
| PathTheorems.UncNamesStay | src/game_catalog.cpp:200-211 | the two names of a UNC path survive whatever follows |
| PathTheorems.StackSamePlace | src/game_catalog.cpp:191-217 | the folded stack leads where the input's own segments lead, from every place it can be read from |
| PathTheorems.FoldSettled | src/game_catalog.cpp:191-217 | folding a settled stack again changes nothing |
| PathTheorems.SplitJoined | src/game_catalog.cpp:191-217 | joining segments and splitting the text gives the segments |
| PathTheorems.RootedSecondPass | src/game_catalog.cpp:163-236 | for every drive, rooted or UNC path a second pass changes nothing and reads the same root and stack |
| PathTheorems.SecondPass | src/game_catalog.cpp:163-236 | normalizing twice equals normalizing once if and only if the path is not relative with a first folded segment letter-colon-dot |
| PathTheorems.KeepsExactly | src/game_catalog.cpp:219-235 | the normal form reads back as the same root and stack except exactly for relative paths whose first segment reads as a drive, or is any two characters ending in a colon with more to follow |
| PathTheorems.HiddenDriveInput | src/game_catalog.cpp:224-235 | `.\c:.` is such an input |
| PathTheorems.FusedInput | src/game_catalog.cpp:229-234 | `1:\a` is written out as `1:a` |
| Utf.WideToUtf8 | src/compatibility_local_store.cpp:323-360 | succeeds exactly when the units read as a text, with its UTF-8 |
| Utf.Utf8ToWide | src/compatibility_local_store.cpp:362-412 | succeeds exactly when the bytes read as a text, with its UTF-16 |
| Utf.ReadScalar | src/compatibility_local_store.cpp:366-395 | one lead byte and its continuation bytes: accepts exactly the shortest form of a scalar that is no control |
| Utf.WideAccepted | src/compatibility_local_store.cpp:323-360 | the encoder accepts exactly the UTF-16 of some text: surrogates only in pairs |
| Utf.BytesAccepted | src/compatibility_local_store.cpp:362-412 | the decoder accepts exactly the UTF-8 of some text without C0 controls and DEL: no overlong form, no surrogate |
| Utf.WideRoundTrip | src/compatibility_local_store.cpp:323-412 | well-formed wide text comes back unchanged if it has no control, and is refused on the way back if it has one |
| Utf.BytesRoundTrip | src/compatibility_local_store.cpp:323-412 | every accepted byte string comes back unchanged |
| Utf.Utf8Injective | src/compatibility_local_store.cpp:341-356 | different texts have different UTF-8, controls included |
| Utf.ByteHeadReads | src/compatibility_local_store.cpp:366-395 | what the decoder takes for a code point is that code point's own encoding |
| Utf.ByteHeadFinds | src/compatibility_local_store.cpp:341-395 | a code point's encoding followed by anything is read as that code point |
| UtfReference.Utf8Exactly | src/compatibility_local_store.cpp:341-395 | a byte string is the UTF-8 of a code point if and only if it is its well-formed form by table 3-7 of the Unicode Standard; surrogates have none |
| UtfReference.Utf16Exactly | src/compatibility_local_store.cpp:323-360 | units are the UTF-16 of a code point if and only if they are the one unit or the pair the standard gives |
| UtfReference.TextExactly | src/compatibility_local_store.cpp:323-412 | a text's UTF-8 and UTF-16 are its code points' well-formed forms one after the other |
| UtfReference.ControlUnits | src/compatibility_local_store.cpp:370-372 | a text has a control exactly if one of its units is below 32 or 127 |
| UtfReference.RoundTripExactly | src/compatibility_local_store.cpp:323-412 | wide text that the encoder accepts comes back unchanged if and only if none of its units is a control |
| Submission.Session.Prepare | src/community_submission.cpp:110-145 | freezes the canonical encoding and forgets an approval, or changes nothing |
| Submission.Session.Approve | src/community_submission.cpp:147-159 | approves exactly the frozen bytes; a mismatch withdraws the approval |
| Submission.Session.Submit | src/community_submission.cpp:161-184 | sends one message, the frozen envelope, exactly when it was approved and the transport is available; the code and the receipt are those of the answer, and Success means exactly that the answer proves acceptance |
| Submission.AcceptanceProven | src/community_submission.cpp:59-106 | an answer passes both checks exactly when it proves acceptance; otherwise the code is the stated one for its result |
| Submission.ProvenExactly | src/community_submission.cpp:35-78 | acceptance is proved exactly by an accepting result that says so and names a receipt of 1 to 128 letters, digits and `-_.:` |
| ShareHistory.ExportedHistoryLoads | src/compatibility_share_model.cpp:581-685 | loading an exported history under no smaller a limit restores the same results in order |
| ShareHistory.SmallerLimitKeepsNewest | src/compatibility_share_model.cpp:581-659 | for every file, a smaller limit changes neither acceptance nor refusal code and keeps exactly the newest results |
| HistoryReading.LinesExactly | src/compatibility_share_model.cpp:591-617 | a text's lines are the one list without newlines that joins to it |
| HistoryReading.LoadedExactly | src/compatibility_share_model.cpp:581-659 | a file is accepted if and only if it fits, has the header line, and then at most 64 lines each of which decodes to a result that could be recorded, no two under one id; the newest of them are restored |
| ShareHistory.HistoryFits | src/compatibility_share_model.cpp:661-685 | an exported history of at most 64 results always fits the file bound |
| ShareHistory.HistoryLines | src/compatibility_share_model.cpp:661-685 | an exported history is the header line and one line for each result |
| ShareModel.OneMessageEach | src/compatibility_share_model.cpp:391-465 | messages never outnumber approvals: each approval lets out one at most |
| ShareModel.SettingsSound | src/compatibility_share_model.cpp:193-223 | changing the settings keeps the invariant; a pending approval does not survive disabling or a retention change |
| ShareModel.RecordSound | src/compatibility_share_model.cpp:297-339 | recording keeps the invariant: unique ids, only the newest active, all others superseded, within the limit |
| ShareModel.PrepareSound | src/compatibility_share_model.cpp:341-375 | preparing keeps the invariant: the preview shows the frozen envelope, which is what preparing the active result gives, and its generation is fresh |
| ShareModel.BeginSound | src/compatibility_share_model.cpp:391-427 | beginning keeps the invariant: pending means approved, enabled and last in the log |
| ShareModel.CompleteSound | src/compatibility_share_model.cpp:429-465 | completing keeps the invariant: what is sent directly follows its approval |
| ShareModel.DeclineSound | src/compatibility_share_model.cpp:377-389 | declining keeps the invariant |
| ShareModel.DeleteSound | src/compatibility_share_model.cpp:687-704 | deleting keeps the invariant; deleting the active result ends its session |
| ShareModel.LoadSound | src/compatibility_share_model.cpp:581-659 | loading keeps the invariant: no preview of the old history survives |
| ShareSessions.CompatibilityShareModel.EnforceRetentionLimit | src/compatibility_share_model.cpp:267-280 | the newest results stay; an active one that goes takes its session with it |
| ShareSessions.CompatibilityShareModel.SetPrivacySettings | src/compatibility_share_model.cpp:193-223 | the exact new state, or a refusal that changes nothing |
| ShareSessions.CompatibilityShareModel.RecordLocalResult | src/compatibility_share_model.cpp:297-339 | refuses exactly invalid, non-public and duplicate results; otherwise the new result is last and active |
| ShareSessions.CompatibilityShareModel.PreparePreview | src/compatibility_share_model.cpp:341-375 | the exact code for each state; success issues the preview of the active result |
| ShareSessions.CompatibilityShareModel.DeclineSharing | src/compatibility_share_model.cpp:377-389 | only a preview that is ready can be declined |
| ShareSessions.CompatibilityShareModel.BeginSubmission | src/compatibility_share_model.cpp:391-427 | accepts only the preview issued last, equal in every field to what would be sent, while sharing is enabled |
| ShareSessions.CompatibilityShareModel.CompleteSubmission | src/compatibility_share_model.cpp:429-465 | the only call that sends; it sends the bytes of the approval directly before it, exactly when the entry is pending, sharing is on and the transport is there, and succeeds exactly when the answer proves acceptance |
| ShareSessions.CompatibilityShareModel.DeleteLocalResult | src/compatibility_share_model.cpp:687-704 | removes the result with the id and no other, or refuses and changes nothing |
| ShareSessions.CompatibilityShareModel.ClearLocalResults | src/compatibility_share_model.cpp:706-712 | empties the history and withdraws every approval |
| ShareSessions.CompatibilityShareModel.PrepareLocalExport | src/compatibility_share_model.cpp:478-515 | freezes the encoding of the result with the id, unapproved, exactly if it is held, generations are left and it can be encoded; any failure leaves nothing frozen |
| ShareSessions.CompatibilityShareModel.ApproveLocalExport | src/compatibility_share_model.cpp:517-538 | approves exactly the frozen preview; anything else withdraws approval |
| ShareSessions.CompatibilityShareModel.DeclineLocalExport | src/compatibility_share_model.cpp:540-547 | drops what is frozen, if anything is |
| ShareSessions.CompatibilityShareModel.ExportLocalResult | src/compatibility_share_model.cpp:559-579 | releases only approved bytes, which encode the result of that id still in the history |
| ShareSessions.CompatibilityShareModel.ExportLocalHistory | src/compatibility_share_model.cpp:661-685 | writes the header and every result; with a faithful codec it cannot fail |
| ShareSessions.CompatibilityShareModel.LoadLine | src/compatibility_share_model.cpp:618-645 | one line has exactly the specified effect or refusal |
| ShareSessions.CompatibilityShareModel.LoadLocalHistory | src/compatibility_share_model.cpp:581-659 | replaces the history by the file's results, or refuses with the specified code and changes nothing |
| ShareRuns.Call | src/compatibility_share_model.cpp:193-712 | any call with any arguments keeps the invariant and the transport log equal to the logged messages |
| ShareRuns.Run | src/compatibility_share_model.cpp:193-712 | over every interleaving, each message that reached the transport was sent while sharing was enabled, directly after the approval of its bytes for its result |
| ShareRuns.OldApprovalRefused | src/compatibility_share_model.cpp:403-410 | an approval of any preview but the last issued is refused and changes nothing |
| ShareRuns.ExportAndReload | src/compatibility_share_model.cpp:581-685 | exporting and loading back under the same settings restores the same results |
| ShareJourneys.RecordAndPreview | src/compatibility_share_model.cpp:297-375 | a new shareable result can be recorded and previewed; the preview shows its encoding, under the names made from its id and bytes, not yet approved |
| ShareJourneys.Consent | src/compatibility_share_model.cpp:391-427 | with sharing on, returning the preview on show approves it, and after a failed submission approves it again |
| ShareJourneys.Send | src/compatibility_share_model.cpp:429-465 | a pending submission sends exactly its one message if the transport is there, ends in SubmitSucceeded exactly if the answer proves acceptance, and otherwise in SubmitFailed |
| ShareJourneys.ShareOnce | src/compatibility_share_model.cpp:297-465 | from a new result to the transport: exactly one message goes out, and it carries that result's encoding |
| ShareJourneys.Decline | src/compatibility_share_model.cpp:377-389 | a declined preview can be neither approved nor sent |
| ShareJourneys.Return | src/compatibility_share_model.cpp:341-427 | after declining or failing the same preview can be had again under a later number, and consented to |
| ShareJourneys.PauseAndResume | src/compatibility_share_model.cpp:193-223 | turning sharing off takes a pending consent back and sends nothing; turned on again, the same preview serves |
| ShareJourneys.NewLimit | src/compatibility_share_model.cpp:193-223 | another retention limit voids the preview on show, and the entry can be previewed again |
| ShareJourneys.NewerResult | src/compatibility_share_model.cpp:297-339 | a newer result supersedes the one on show, names itself there, and voids its preview |
| ShareJourneys.ExportOnce | src/compatibility_share_model.cpp:478-579 | any result held can be exported, sharing on or off: before approval nothing comes out, after it exactly the encoding |
| CampaignModel.ReviewedArePhysical | src/acceptance_campaign.cpp:926-961 | exactly the stages that need a human need physical evidence (which stages those are: `CampaignEvidence.TablesAgree`) |
| CampaignModel.OneMore | src/acceptance_campaign.cpp:507-512 | a piece of evidence is new exactly when none of its three names was seen |
| CampaignEvidence.TablesAgree | src/acceptance_campaign.cpp:926-957 | the class of evidence, its origin and the need for a human, for each of the thirteen stages by table |
| CampaignEvidence.CheckedExactly | src/acceptance_campaign.cpp:122-181 | evidence is accepted if and only if it agrees with the campaign in all twelve bound fields, has its stage's class and origin and well-formed names and digests, and is neither older than a week nor more than five minutes ahead |
| CampaignEvidence.IdentityExactly | src/acceptance_campaign.cpp:80-95 | an identity is accepted exactly with well-formed names and digests, a known architecture, the two seats 1 and 2 and its own session |
| CampaignEvidence.AttachedBelongs | src/acceptance_campaign.cpp:569-624 | attaching leaves only evidence that belongs to its stage of this campaign, and what is new is in its window |
| CampaignEvidence.JudgedBelongs | src/acceptance_campaign.cpp:626-659 | a verdict leaves the evidence what it was, but for the verdict |
| CampaignSteps.StartedValid | src/acceptance_campaign.cpp:543-567 | after starting a stage the campaign is valid if and only if it was created by now and now plus the clock skew does not wrap |
| CampaignSteps.AttachedValid | src/acceptance_campaign.cpp:569-624 | after attaching evidence: the same, and the stage was not started in the future unless it only awaits review |
| CampaignSteps.JudgedValid | src/acceptance_campaign.cpp:626-659 | after a verdict: the same, and the stage was not started in the future |
| CampaignSteps.RecoveredValid | src/acceptance_campaign.cpp:661-677 | after recovery: the same for every interrupted stage |
| CampaignSteps.ValidLater | src/acceptance_campaign.cpp:459-541 | a valid campaign is valid later exactly until a piece of its evidence is more than a week old |
| AcceptanceCampaigns.StartOrderly | src/acceptance_campaign.cpp:543-567 | starting keeps the order of stages and everything that has passed |
| AcceptanceCampaigns.AttachOrderly | src/acceptance_campaign.cpp:569-624 | attaching keeps them; a physical stage gets physical, automatically passed evidence |
| AcceptanceCampaigns.JudgeOrderly | src/acceptance_campaign.cpp:626-659 | a verdict keeps them; Pass is recorded on the evidence |
| AcceptanceCampaigns.RecoverOrderly | src/acceptance_campaign.cpp:661-677 | recovery keeps them |
| AcceptanceCampaigns.ClockDecides | src/acceptance_campaign.cpp:459-466 | with a clock that does not run back, only the wrap of the 64-bit sum can make a step's result invalid |
| AcceptanceCampaigns.AcceptanceCampaign.Make | src/acceptance_campaign.cpp:435-457 | a new campaign is orderly and valid exactly when the clock does not wrap; an invalid identity gives a blank one |
| AcceptanceCampaigns.AcceptanceCampaign.Validate | src/acceptance_campaign.cpp:459-541 | succeeds exactly on valid campaigns: header, every stage, distinct stages, and no two pieces of evidence that share a name |
| AcceptanceCampaigns.AcceptanceCampaign.PrerequisitesPassed | src/acceptance_campaign.cpp:113-120 | true exactly when every earlier stage has passed |
| AcceptanceCampaigns.AcceptanceCampaign.StartStage | src/acceptance_campaign.cpp:543-567 | succeeds exactly when allowed, with the stated new record; under a forward clock the result is valid if and only if now plus 300 does not wrap |
| AcceptanceCampaigns.AcceptanceCampaign.IsDuplicate | src/acceptance_campaign.cpp:597-605 | true exactly when some evidence in the campaign shares a name |
| AcceptanceCampaigns.AcceptanceCampaign.AttachEvidence | src/acceptance_campaign.cpp:569-624 | the same for evidence, bound to the campaign and without a verdict of its own; what it must agree with is `CampaignEvidence.CheckedExactly` |
| AcceptanceCampaigns.AcceptanceCampaign.RecordManualVerdict | src/acceptance_campaign.cpp:626-659 | the same for a human verdict, which cannot promote missing, failed or non-physical evidence |
| AcceptanceCampaigns.AcceptanceCampaign.RecoverInterrupted | src/acceptance_campaign.cpp:661-677 | the same for recovery, which turns exactly the running stages into recovery-required ones |
| AcceptanceCampaigns.Step | src/acceptance_campaign.cpp:543-677 | any step under a forward clock keeps the order, every passed stage and the binding of all evidence; a successful one moves one stage as its rules say, or interrupts the running ones, and leaves the campaign valid at that time exactly if now + 300 does not wrap; any other changes nothing |
| AcceptanceCampaigns.Run | src/acceptance_campaign.cpp:435-677 | over any run under a forward clock each successful step leaves an orderly campaign that is valid at its time exactly if now + 300 does not wrap, in which every piece of evidence agrees with the identity in all twelve fields and fits its stage by table; new evidence was in its window when attached, each stage moved only as allowed, and every pass was earned |
| CampaignMoves.AttachedMoves | src/acceptance_campaign.cpp:569-624 | attaching moves a running stage to Passed, AwaitingManualReview or Failed by what the evidence reports and whether a human must decide, in the same attempt |
| CampaignMoves.JudgedMoves | src/acceptance_campaign.cpp:626-659 | a verdict moves a waiting stage to Passed or Failed as it says and marks the evidence |
| CampaignMoves.RecoveredMoves | src/acceptance_campaign.cpp:661-677 | recovery moves exactly the running stages to RecoveryRequired |
| CampaignProgress.PassStage | src/acceptance_campaign.cpp:543-659 | a stage whose turn it is can be made to pass by evidence that belongs, in its window and with new names, and by a human's word where one is needed; nothing else changes |
| CampaignProgress.PassAll | src/acceptance_campaign.cpp:435-659 | given such evidence for each of the thirteen stages, a new campaign is brought to the point where every stage has passed |
| AudioEvidence.CollectEvidence | src/audio_routing.cpp:138-170 | the owned and the merely pid-matching sessions, whether a process has two, and whether all owned ones are on the target |
| AudioEvidence.VerifyCaptured | src/audio_routing.cpp:78-107 | true exactly when no process has two sessions and every captured one is seen on its captured endpoint |
| AudioEvidence.OwnedOf | src/audio_routing.cpp:128-136 | exactly the sessions whose verified process identity is in the tree |
| AudioMeaning.OwnsExactly | src/audio_routing.cpp:36-53 | a session is owned exactly if its verified process is the root or a live process of the tree |
| AudioMeaning.OnTargetExactly | src/audio_routing.cpp:295-308 | the observation shows the request done exactly if it is complete and verified, no process has two sessions, and there is a session of a live process of the tree and all of them are on the target |
| AudioMeaning.UndoneExactly | src/audio_routing.cpp:310-319 | a rollback counts as done exactly if the backend agrees and a complete observation shows every session of a live process verified, no process twice, and each captured session on its captured endpoint |
| AudioMeaning.RequestExactly | src/audio_routing.cpp:220-254 | a request is let through exactly for seat 1 or 2 and a tree of that seat, identified and completely tracked, with a target named and the first endpoint of that name active |
| AudioRouting.RouteTransaction.ValidateRequest | src/audio_routing.cpp:220-254 | the first failing check of the request, with the first endpoint of that id |
| AudioRouting.RouteTransaction.TryUndo | src/audio_routing.cpp:310-319 | true exactly when the backend agrees and every captured session is seen back |
| AudioRouting.RouteTransaction.Attempt | src/audio_routing.cpp:321-443 | the whole new state of the transaction for every possible answer of backend and observer |
| AudioRouting.RouteTransaction.Rollback | src/audio_routing.cpp:445-493 | the whole new state of the transaction for every possible answer |
| AudioRouteSafety.AttemptRetains | src/audio_routing.cpp:376-388 | a possible mutation always comes with the state captured before it |
| AudioRouteSafety.AttemptReports | src/audio_routing.cpp:321-443 | the phase and the error an attempt reports, for every answer of backend and observer |
| AudioRouteSafety.RollbackRetains | src/audio_routing.cpp:445-493 | a rollback keeps that invariant |
| AudioRouteSafety.AppliedMeansOnTarget | src/audio_routing.cpp:295-308 | Applied means that the backend agreed and that the complete observation afterwards shows a session of the root or a live process of the tree, and every such session on the target |
| AudioRouteSafety.CleanAttempt | src/audio_routing.cpp:321-443 | from a clean transaction, mutated is false afterwards exactly when no apply ran or every captured session is seen back |
| AudioRouteSafety.RecoveryKeepsCapture | src/audio_routing.cpp:384-436 | an attempt that ends in RecoveryRequired holds the captured state for a retry |
| AudioRouteSafety.RetryExactly | src/audio_routing.cpp:445-493 | a retry clears the mutation exactly when the rollback is seen complete, and otherwise keeps what was captured |
| AudioRouteSafety.AttemptLeaves | src/audio_routing.cpp:321-443 | the flag and the capture after an attempt, in terms of the answers it got |
| AudioRouteSafety.ForgetsExactly | src/audio_routing.cpp:352-436 | an attempt on a mutated transaction loses the earlier mutation exactly when it finds nothing left to do, or reaches the backend without seeing the earlier capture back and then either sees the new one back or has captured something else |
| AudioRouteSafety.SecondCaptureForgets | src/audio_routing.cpp:376-436 | such a run exists: a second attempt captures the displaced session, undoes only that, and reports a verified rollback with no mutation |
| AudioRouteSafety.SafeExactlyWhenClean | src/audio_routing.cpp:352-436 | no answer of the outside can make an attempt forget if and only if the transaction is not mutated, which a caller can check |
| AudioRouteSafety.StaysAware | src/audio_routing.cpp:321-493 | a call leaves the transaction knowing exactly what is displaced if and only if it does not forget |
| AudioRouteSafety.GuardedRemembers | src/audio_routing.cpp:321-493 | a run that attempts only when not mutated contains no attempt that forgets |
| AudioRouteSafety.RunStaysAware | src/audio_routing.cpp:321-493 | over every run in which no attempt forgets the transaction knows exactly what is displaced |
| AudioRouteSafety.FreshIsAware | src/audio_routing.cpp:321-493 | from a new transaction, over every such run and so over every guarded one, mutated is set at the end if and only if captured sessions are displaced, and then the capture is of those |
| Aggregation.ClassifySession | src/compatibility_aggregation.cpp:84-101 | failure if a required outcome failed or is unsupported, success if all passed, untested otherwise |
| Aggregation.CountResult | src/compatibility_aggregation.cpp:147-159 | one sample raises exactly the counters it meets, by one |
| Aggregation.AnswersDetermine | src/compatibility_aggregation.cpp:147-159 | the counters determine the table |
| Aggregation.TalliesAddUp | src/compatibility_aggregation.cpp:147-159 | every outcome, session and origin tally of a cohort adds up to its sample size |
| Aggregation.NothingLost | src/compatibility_aggregation.cpp:103-174 | the sample sizes of all cohorts add up to the number of results |
| Aggregation.AggregateUnique | src/compatibility_aggregation.cpp:103-174 | a bag of results has one aggregate |
| AggregationMeaning.MonthExactly | src/compatibility_aggregation.cpp:13-28 | a month is read exactly from seven characters that write one |
| AggregationMeaning.DispositionExactly | src/compatibility_aggregation.cpp:84-101 | a session failed exactly if a required aspect failed or is unsupported, and worked exactly if all passed |
| AggregationMeaning.KeyExactly | src/compatibility_aggregation.cpp:30-54 | a result goes to the cohort of its subject and is stale exactly if its month lies further back than the horizon |
| AggregationMeaning.AcceptedExactly | src/compatibility_aggregation.cpp:103-141 | input is accepted exactly with a readable month, a horizon of at most 120 months and usable results under different ids |
| AggregationMeaning.AggregateCounts | src/compatibility_aggregation.cpp:103-174 | every counter of every cohort is the number of results of that cohort that its name speaks of |
| AggregationPass.PermutedAcceptable | src/compatibility_aggregation.cpp:107-141 | permuting the results does not change whether they are accepted |
| AggregationPass.InKeyOrder | src/compatibility_aggregation.cpp:161-166 | the cohorts in strictly ascending key order |
| AggregationPass.Aggregate | src/compatibility_aggregation.cpp:103-174 | succeeds exactly on acceptable input, with one table for each key that occurs, each counter the number of results that meet it, in key order |
| AggregationPass.AggregatePermuted | src/compatibility_aggregation.cpp:103-174 | permuting the input changes neither success nor the output |

## Left out

- The Windows and POSIX storage calls behind the journal: replaced by the slot map with failures, tears and crashes.
- The plan digest, the hash of stored bytes, the game id hash and the payload identity: parameters, any function.
- `encodeRegisterPlan` and the recovery process attachment binding (`src/crash_journal.cpp:489-508`, `src/crash_journal.cpp:584-607`): they only add a fixed snapshot and a digest.
- GateCRecovery.RecoveryJournal.MarkAction: stands for the four action wrappers, which differ only in the marker they append.
- GateCRecovery.RecoveryJournal.MarkSession: stands for the five session wrappers, which differ only in the marker they append.
- JournalDecode.DecodeJournal: the reader's own failure branches are left out where the size check before them has already excluded them.
- CatalogGroups.GroupCandidates: the two owner maps are one map over tagged keys, so a strong identity and a path never meet, as in the source.
- CatalogBuilder.BuildCatalog: starts from normalized candidates; of normalizeCandidate only the executables pass is modelled, and a candidate holds wide text as its UTF-8 and a compatibility reference as its key text.
- CatalogBuilder.BuildPermuted: which diagnostic a failing build reports does depend on the order and is not claimed.
- CatalogEntry.SortGroup: the library sort may put candidates that tie in any order, so the model leaves that order open.
- CatalogExact.CatalogExactly: assumes that a path's key is a function of its spelling, as the normalized path is.
- The game record schema validation: a parameter, any predicate on documents.
- PathNormalization.NormalizePath: wide text is 16-bit code units and letters are folded as ASCII, as in the source.
- Utf.WideToUtf8: only the 16-bit wide character branch; its second range check can never fail there and is left out.
- ShareSessions.CompatibilityShareModel.BeginSubmission: the session's own byte comparison cannot fail after the model's, so that refusal is not written out.
- ShareSessions.CompatibilityShareModel.CompleteSubmission: the branch that takes a pending state back when sharing is off cannot occur, because disabling already takes it back.
- ShareSessions.CompatibilityShareModel.RecordLocalResult: the canonicalization of a result is a parameter, assumed to keep the result's id and to leave a canonical result as it is.
- ShareHistory.ExportedHistoryLoads: the result codec is a parameter assumed to print each canonical result on one line and to read it back.
- The privacy settings parser and its JSON form: a long field-by-field parser.
- CampaignModel.OneMore: the source's three sets of seen names are one set of tagged names.
- Campaign values outside their enumerations and the campaign's JSON document and store: enumerations are types here.
- AudioRouting.RouteTransaction.Attempt: all answers of one call are its parameter, and the source's upper-casing of endpoint ids is a parameter.
- The observe-only backend and the native session observer: one particular answer of the adversary.
- AggregationPass.Aggregate: the member-wise order of cohort keys is a parameter assumed to be a strict total order, and the sorting of backend selectors belongs to the key's subject.
- Which of several refusal codes a failing validation reports, where the model states only that it refuses.
- Diagnostic texts, enum names, command lines, exceptions, allocation failures and mutexes.
- The external session bridge, process injection, installers, device inventories and small decision lists: they would add only easy members or need code that is not part of this model.
