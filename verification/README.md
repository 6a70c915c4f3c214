# Verified model of the Zerone application core

This project models six parts of the Zerone chain in Dafny and proves what they promise:

1. **Committed-tree verifier** (`IavlTree`, `IavlExport`, `CommittedPrestate`, `GovQueueAudit`): a stack machine that reads an exported IAVL tree, accepts exactly the exports of valid AVL search trees and binds their content to the committed root; and the audit of the governance queues built on it.
2. **Proposal coherence** (`Proposal`): a correct proposer's block is accepted by every validator replaying it from the same state (requirement 3, "PrepareProposal, ProcessProposal, coherence", of the CometBFT ABCI 2.0 specification, "Requirements for the Application").
3. **Emergency quarantine** (`EmergencyScan`, `Quarantine`, `GovState`, `RecoveryAuthorization`, `GovQuarantine`, `RecoveryReconcile`): the bounded message scan, admission that holds message by message, and the end-of-block passes over governance queues and the recovery authorisation.
4. **Upgrade evidence and lineage** (`KeysetManifest`, `AccountingCommitment`, `AccountingLineage`, `TransitionOwners`).
5. **Commit and reveal** (`CommitReveal`): the write-through local commitment store and the vote-extension phases that use it.
6. **Append-only signed hash chain** (`Json`, `HashChain`, `ChainRecord`, `ChainRuns`).

`Bytes`, `Encoding` and `Text` hold byte strings, their order, and the encodings everything hashed is written in; `Readers` reads those encodings back, from definitions of its own.

`dafny verify dfyconfig.toml` checks the whole project.

## How to read it

SHA-256, Ed25519 and the decoders of protocol buffers are arbitrary functions passed as parameters. No hash is assumed to be injective: a binding theorem says "equal, or here are two different preimages with one digest", and the preimages it names are the byte strings the two computations really hash. What is assumed of library code is written in the `requires` of the theorem that needs it (`Proposal.Sound`, `Quarantine.MarkerGuards`, `GovQueueAudit.ReadsAgree`, `AccountingLineage.Faithful`, `HashChain.KeySized`, `ChainRecord.Genuine`, `CommitReveal.SoundEvent`) or is the nondeterminism of a modelled method (`RecoveryReconcile.UpstreamEndBlock`, `KeysetManifest.MutationStore`, `KeysetManifest.Iteration`).

Code that updates objects is a class with methods proved against specification functions (`DefaultTxSelector`, `Store`, `MutationStore`, `Application`, `LocalCommitmentStore`, `Zerone`); loops are loops with invariants; guards and codecs are functions. Where a method is proved equal to a specification function, a lemma named `…Exactly`, `…Means` or `…ReadBack` says what that function is without using it: in natural numbers, record by record, or by reading its bytes.

## Where the code promises more than it does

Each of these is kept as the code has it, with a concrete failing input and the exact condition under which the promise holds.

- **The hash chain does not cover where the key ends and the signature begins.** The hash is taken of link, canonical text, key and signature without separators; `bytes.fromhex` skips white space, and an entry of kind "genesis" is accepted unsigned at any position with arbitrary key and signature. So a record can be read in two ways with every hash the same (`HashChain.MovableKeyWitness`). Among the members that `verify` reads it is determined exactly when no genesis-kind entry has a key or signature and no other entry has white space at the cut (`HashChain.DeterminedExactly`). Hashed members, links, decoded keys and decoded signatures are bound in every case (`HashChain.LastHashBindsRecord`), and records the class itself writes are always unambiguous (`ChainRuns.RunKeepsRecord`).
- **The hash chain does not cover members that nothing reads.** A loaded line may hold further members; `verify` accepts it with any of them, so as a loaded object only the empty record is determined by its hashes (`HashChain.UnreadMembersUnbound`).
- **A fresh record saved over an existing chain breaks the file.** `Zerone()` followed by `save()` appends a second genesis to the chain that is already there (`ChainRuns.FreshSaveBreaksFile`). Every run keeps the file verifiable if and only if the file is a chain that ends in the hash the unsaved part of the record links to (`ChainRuns.FileStaysVerifiableExactly`), which means absent or the persisted part of the record (`ChainRuns.VerifiableMeansPrefix`); loading a verifiable file establishes that.
- **A recovery proposal stored under another proposal's id is closed under the wrong key.** The terminaliser writes the record's own id, not the id it was read under, so a revoked authorisation can keep a live proposal (`RecoveryReconcile.MisfiledRecordStaysLive`) although reconciliation succeeds (`RecoveryReconcile.ReconcileMisfiledRecord`). From the state before the block the promise holds if and only if the record under the authorised id carries that id, is terminal, is named by a due queue entry, or is one reconciliation refuses (`RecoveryReconcile.SettleableExactly`). From a state whose records all carry their ids it holds over every run (`RecoveryReconcile.RunSettles`).
- **An entry kept by the quarantine pass may no longer agree with its proposal.** Two due entries can name one authorised proposal. The pass walks the inactive queue and then the active one, each by deadline and id; the first entry is kept, the second is disallowed, and failing it rewrites the proposal the first one keeps pointing at. On the concrete queue this is the only outcome (`GovQuarantine.AliasLosesCoherence`). A kept entry stays coherent if and only if it was the only due entry of its proposal (`GovQuarantine.KeptCoherence`).
- **A block that has reached its gas limit takes nothing more, not even a transaction that declares no gas.** Such a candidate is left out although the whole list respects both limits (`Proposal.FullOfGasLeavesOut`). All candidates that replay are offered if and only if each in turn finds the block not full and fits (`Proposal.AllOfferedExactly`).
- **A commitment can be impossible to reveal.** The oracle's verdict is committed without a check that it is one of the three verdicts other validators accept; with "maybe" no reveal is acceptable (`CommitReveal.UnvotableVerdictWitness`). A reveal is acceptable if and only if the verdict is one of the three (`CommitReveal.OwnRevealAcceptable`), and so is a whole extension if it is not too long (`CommitReveal.ExtensionCoherence`).

Proposal coherence itself is proved under the assumption that a failed replay writes nothing. The replay writes the ante handler's effects before it reads the messages and before any post handler, so the assumption rests on no post handler being set and on candidates having passed the message reading at admission (app/abci.go:211-220). Without it coherence can fail (`Proposal.CoherenceNeedsInertFailures`). It is also assumed that a transaction replayed from one state in the proposer's mode and in the validator's mode succeeds or fails alike and leaves the same state: the model has one `replay` for both.

## Model

| member | source | states |
|---|---|---|
| `Encoding.UvarintPrefixFree` | app/upgrade_prestate.go:2015-2030 | A base-128 varint is never a proper beginning of another: from equal byte strings that start with two varints, the numbers and the rests are equal. |
| `Encoding.VarFramePrefixFree` | app/upgrade_prestate.go:2022-2030 | Length-prefixed bytes are read back in one way, whatever follows them. |
| `Readers.UvarintReadBack` | app/upgrade_prestate.go:2015-2030 | Reading a written varint from the left, low digits first, yields the number and leaves what follows. |
| `Readers.UvarintShortest` | app/upgrade_prestate.go:2015-2030 | A text is the varint of a number if and only if it reads as that number alone and has no idle last digit. |
| `Readers.FramesReadBack` | app/upgrades.go:835-844 | Framed fields are read back one by one, lengths in eight bytes most significant first, and leave what follows. |
| `Readers.OnlyFrames` | app/upgrades.go:835-844 | No other text reads as those fields. |
| `IavlTree.ValidInner` | app/upgrade_prestate.go:1895-1953 | The local comparisons at an inner node (children at most one apart in height, left maximum below right minimum, separator equal to the right minimum, positive version) are together equivalent to the joined tree being a valid AVL search tree. |
| `IavlTree.PreimageReadBack` | app/upgrade_prestate.go:1972-2013 | The bytes hashed for any node of any tree, read from the left by signed varints and length-prefixed strings, spell its height, its number of leaves and its version, then key and value digest of a leaf or the two child roots, and nothing more. |
| `IavlTree.LeafLayout` | app/upgrade_prestate.go:1972-2001 | For any size, version, key and value the leaf preimage reads as height 0, size, version, key and value digest, in that order. |
| `IavlTree.InnerLayout` | app/upgrade_prestate.go:1972-2013 | For any height, size, version and child digests the inner preimage reads as exactly these five, in that order. |
| `IavlTree.RootBindsTree` | app/upgrade_prestate.go:1606-1625 | Two valid trees with one Merkle root are the same tree, unhashed separators included, or two byte strings hashed on the way are an explicit SHA-256 collision. |
| `IavlTree.CommittedRootBindsStore` | app/upgrade_prestate.go:1553-1625 | The same for whole stores, where the empty store has the digest of no bytes. |
| `IavlTree.KindsSeparated` | app/upgrade_prestate.go:1972-2013 | No leaf is hashed from the same bytes as an inner node. |
| `IavlTree.SizeAtLeastFib` | app/upgrade_prestate.go:1895-1941 | A balanced tree of height n has at least fib(n+2) leaves. |
| `IavlTree.HeightAtMost90` | app/upgrade_prestate.go:1895-1941 | With fewer than 2^63 leaves a balanced tree is at most 90 high. |
| `IavlExport.BuildInvariant` | app/upgrade_prestate.go:1774-1970 | Whatever holds of the empty stack and is kept by every accepted node holds of every stack the machine builds, with the stream it was built from. |
| `IavlExport.BuildSound` | app/upgrade_prestate.go:1774-1970 | Whatever the stack machine holds after any stream is a run of valid trees whose exports, left to right, are exactly the stream read so far. |
| `IavlExport.BuildComplete` | app/upgrade_prestate.go:1774-1970 | Reading the post-order export of a valid tree puts exactly that tree on the stack, whatever was below. |
| `IavlExport.ExportInjective` | app/upgrade_prestate.go:1774-1970 | A valid tree is determined by its export. |
| `IavlExport.PrefixRefused` | app/upgrade_prestate.go:1774-1900 | Once a prefix of the stream cannot be built or its selection overruns a ceiling, no continuation is accepted. |
| `IavlExport.HashExportedNode` | app/upgrade_prestate.go:1972-2013 | The node hash is the digest of the leaf or inner preimage, and fails exactly on an empty key, a missing value or a child hash that is not 32 bytes. |
| `IavlExport.JoinSummaries` | app/upgrade_prestate.go:1895-1953 | The checks made in 8-bit heights and 64-bit sizes succeed exactly when the unbounded conditions hold, so neither addition overflows unnoticed. |
| `IavlExport.PushNode` | app/upgrade_prestate.go:1800-1953 | One node is accepted by the summary stack exactly when the tree machine accepts it, and the new summaries are those of the new trees. |
| `IavlExport.ReadEvent` | app/upgrade_prestate.go:1790-1961 | One read succeeds exactly when the stream so far can still be built and its selection still fits; stack, records, leaf count and byte count then are those of that stream. |
| `IavlExport.SelectLeaf` | app/upgrade_prestate.go:1845-1893 | A leaf is let through exactly while selection and both ceilings (100000 records, 64 MiB) still hold, and the running byte count is the sum over the selected records. |
| `IavlExport.SelectionMeans` | app/upgrade_prestate.go:1845-1893 | The selection grows by exactly the records the selector takes, each weighs its key and its value, and it fits while nothing is rejected and at most 100000 records and 67108864 bytes are taken. |
| `IavlExport.VerifyExportStream` | app/upgrade_prestate.go:1774-1970 | Succeeds if and only if the stream is the export of one non-empty valid AVL search tree whose leaves the selector accepts within its ceilings, and then returns that tree's Merkle root and exactly the selected leaves. |
| `IavlExport.ReachableSubtreesBounded` | app/upgrade_prestate.go:1895-1941 | Every subtree on a reachable stack has at least fib(height+2) leaves and height at most 90, so the 8-bit height increment never wraps. |
| `IavlExport.SizeSumDoesNotWrap` | app/upgrade_prestate.go:1930-1941 | With fewer than 2^63 leaves in the stream no 64-bit size sum on the stack wraps. |
| `IavlExport.AcceptedRecordsSorted` | app/upgrade_prestate.go:1774-1970 | The returned records are the selected leaves, all of them, in strictly increasing key order. |
| `CommittedPrestate.ValidateRootCommitInfo` | app/upgrade_prestate.go:1661-1736 | Succeeds if and only if the map of store hashes it commits has the root, its version is the root's, it names no store twice and every required store once with a usable id; the result maps exactly the required names to those ids. |
| `CommittedPrestate.BindsStoresExactly` | app/upgrade_prestate.go:1661-1736 | The condition of success in full: version and root agree, required names are distinct and not empty, no store is named twice, every required store is named, at the root's version with a 32-byte hash. |
| `CommittedPrestate.RootBindsStoreIds` | app/upgrade_prestate.go:1673-1683 | Two commit infos validated against one root give a required store the same commit id, or two different maps of store hashes share that root. |
| `CommittedPrestate.CollectVerifiedCommittedRecords` | app/upgrade_prestate.go:1553-1626 | Succeeds exactly when the store is committed empty or its export is accepted with the committed root, and then the empty store or the tree the export spells out has that root and the returned records as its selection. |
| `CommittedPrestate.CollectedRecordsAreCommitted` | app/upgrade_prestate.go:1606-1625 | Whatever the export reader did, the returned records are the selected leaves of the store really committed under the hash, or a digest collision is exhibited. |
| `GovQueueAudit.QueueReferences` | app/upgrade_prestate.go:1346-1427 | Succeeds exactly when every queue record decodes with a non-zero id equal in key and value and no id occurs twice within or across the two queues; the resulting map holds exactly those references. |
| `GovQueueAudit.MatchProposals` | app/upgrade_prestate.go:1233-1256 | Succeeds exactly when every selected proposal decodes and, if a queue names it, has the queue's status and exactly its deadline. |
| `GovQueueAudit.CheckUncovered` | app/upgrade_prestate.go:1257-1287 | Every queued id not met among the selected proposals must be backed by a coherent point read. |
| `GovQueueAudit.AuditGovQueues` | app/upgrade_prestate.go:1196-1287 | Whenever selection and point reads are of one store, the audit succeeds if and only if no proposal is queued twice and every queued id is among the returned executable proposals with matching status and exact deadline. |
| `GovQueueAudit.AuditedExactly` | app/upgrade_prestate.go:1196-1427 | What is audited, record by record: every record of queue 1 or 2 spells one non-zero id in key and value, a selected proposal record under that id carries it with status voting (queue 1) or deposit (queue 2) and exactly the deadline, and no two queue records spell one id. |
| `GovQueueAudit.SelectGovMeans` | app/upgrade_prestate.go:1162-1192 | The collector takes queue records and well-formed proposals in deposit or voting, rejects malformed proposal records and skips everything else. |
| `GovQueueAudit.CollectAndAudit` | app/upgrade_prestate.go:1196-1287 | Collector and audit end to end: whatever the export reader did, a success has audited the queues of the store really committed under the hash and returns its executable proposals, or the store the export spells out collides with the committed one. |
| `GovQueueAudit.PointBackedSelected` | app/upgrade_prestate.go:1257-1287 | A proposal that a point read finds executable had already been selected from the export. |
| `Proposal.FitsIsExact` | app/abci.go:200-205 | The proposer's wrapping 64-bit fit test is the natural-number one on every total it can reach. |
| `Proposal.GasAdmittedIsPrefixSums` | app/abci.go:402-407 | The validator's subtraction test admits exactly the blocks all of whose prefixes keep their natural-number gas sum within the limit. |
| `Proposal.DefaultTxSelector.SelectTxForProposal` | app/abci.go:243-276 | A transaction is taken exactly when it fits, both totals then grow by its size and gas, and "full" reports a limit reached. |
| `Proposal.SelectCandidates` | app/abci.go:277-369 | The proposer's own byte and gas counters equal the selector's at every iteration, and the selector ends with exactly the specified selection; a panic outside a replay empties the proposal. |
| `Proposal.PrepareProposal` | app/abci.go:221-386 | The block is the injection, if it is sent and fits, and exactly the candidates that are good in their turn, or nothing after a decoder panic: for every sequence of stages the proposer can pass through, in natural numbers and by the lists chosen so far. |
| `Proposal.OfferedExactly` | app/abci.go:221-386 | The specified proposal is the block that any sequence of stages leads to; a stage is the list chosen so far and the state left by replay. |
| `Proposal.GoodIsOffered` | app/abci.go:277-369 | No good candidate is left out: one that decodes, is within the limits on top of what was chosen before it, re-encodes, passes replay in the state the earlier replays left and still fits is in the block, right after what was chosen before it. |
| `Proposal.AllOfferedExactly` | app/abci.go:277-369 | When all candidates replay in order, the block is the injection followed by all of them if and only if each in turn finds the block not full and fits both as it came and re-encoded. |
| `Proposal.FullOfGasLeavesOut` | app/abci.go:277-286 | Two candidates of 6 bytes and 60 gas together: under a gas limit of 60 the second, which declares no gas, is left out; under 61 both are offered. |
| `Proposal.ProcessProposal` | app/abci.go:409-499 | Accepts exactly the blocks in which every transaction passes on its own (an injection first, behind an open latch, at most 2097152 bytes, parsing; any other decoding and passing replay in the state left by those before it) and no prefix declares more gas than the limit. |
| `Proposal.AcceptedExactly` | app/abci.go:409-499 | The same for the replay specification that the coherence theorem speaks of. |
| `Proposal.SelectionAccepted` | app/abci.go:277-369 | Everything selected from some state is accepted from that state by a validator whose gas counter is in step. |
| `Proposal.ProposalCoherence` | app/abci.go:221-499 | A correct proposer's block is accepted from the same state, for every candidate list, state, byte and gas limit, injection and latch setting, with the panic, failed-replay and early-stop paths included. |
| `Proposal.SelectionWithinLimits` | app/abci.go:277-369 | The selection is an order-preserving sublist of the candidates, re-encoded, whose natural-number byte and gas sums respect both limits. |
| `Proposal.OfferedWithinLimits` | app/abci.go:221-386 | The whole block offered, the injection included, is within the byte limit as a natural-number sum; what follows the injection is an order-preserving sublist of the candidates, re-encoded, within the gas limit. |
| `Proposal.CoherenceNeedsInertFailures` | app/abci.go:186-198 | Coherence fails for an application whose failing replay leaves a mark: a concrete one offers a block it then refuses. |
| `EmergencyScan.FlagsAreDisjunctions` | app/ante_zerone.go:298-404 | Each reported flag is the disjunction of its condition over all messages of the forest. |
| `EmergencyScan.ForestIsReached` | app/ante_zerone.go:298-404 | The scanned messages are exactly those that paths through grants and submitted proposals lead to, each at the depth of its path. |
| `EmergencyScan.AcceptableMeans` | app/ante_zerone.go:298-404 | What is admitted: nothing nil at the top, at most 256 messages, at most 1048576 packed bytes, no reached message deeper than 16, and everything a reached message packs present, unpacked and a packet receive if its URL says so. |
| `EmergencyScan.BytesMean` | app/ante_zerone.go:362-376 | Packed bytes are URL and value of every packed message, summed over the messages that pack any. |
| `EmergencyScan.EmergencyUrlsMean` | x/emergency/types/types.go:405-416 | The emergency URLs are proposing and voting on halt, revert, resume and recovery authorisation, and no others. |
| `EmergencyScan.PushChildren` | app/ante_zerone.go:345-400 | A wrapper's children are pushed exactly when all are present, unpacked and within the byte budget; the flags say exactly whether one packs an emergency message and whether one is declared as an interchain receive. |
| `EmergencyScan.VisitTop` | app/ante_zerone.go:298-404 | One popped message is let through exactly when it breaks no limit, and the running result then reflects it and what it packs. |
| `EmergencyScan.ScanExecutables` | app/ante_zerone.go:298-404 | Terminates, and succeeds if and only if the whole forest has at most 256 messages, depth at most 16, at most 2^20 packed bytes and every message present and unpacked; the flags are then exact. |
| `EmergencyScan.StepKeeps` | app/ante_zerone.go:298-404 | Popping a node and pushing its children keeps the stack equal to the unvisited rest of the preorder and makes it shorter; a node that breaks a limit condemns the whole forest. |
| `Quarantine.HaltAnteHandle` | app/ante_zerone.go:161-254 | Lets a transaction through exactly when it is admitted: scanned, no wrapped emergency message, the review hold respected, emergency messages isolated, and during quarantine only emergency messages or one authorised recovery action. |
| `Quarantine.AdmittedExactly` | app/ante_zerone.go:161-248 | Admission spelled out over every message that can be reached: no emergency message inside another or packed by URL; governance or interchain-host messages only while the review hold can be read and is off or the chain is quarantined; emergency messages unmixed; in quarantine only those or one authorised submission, vote or deposit; no interchain host during a halt vote. |
| `Quarantine.RestrictedAdmission` | app/ante_zerone.go:225-254 | During quarantine exactly the all-emergency transactions and the single-message authorised recovery transactions pass. |
| `Quarantine.AuthenticationAnteHandle` | app/ante_zerone.go:268-284 | The marker is set exactly on non-empty transactions of emergency messages only. |
| `Quarantine.UnmarkedStaysOutside` | app/ante_zerone.go:256-284 | An unmarked transaction admitted outside quarantine never runs a message inside it, wrapped messages and interchain payloads included. |
| `Quarantine.QuarantineHolds` | app/ante_zerone.go:161-284 | Over every run of transactions, a message that executes while quarantine is active, even one whose own transaction switched it on and even one inside an authorisation wrapper or an interchain packet, is a direct emergency message or one isolated authorised recovery action; nothing inside another message runs. |
| `GovState.Store.RefundAndDeleteDeposits` | app/emergency_recovery_gov.go:207-292 | Assumed library contract, modelled as a loop: every depositor gets back exactly its deposit, the proposal's deposits are gone, all others stay; coins are conserved in total and account by account, and the module stays solvent. It succeeds whenever the module holds what is deposited with it. |
| `GovState.Store.SendCoins` | app/emergency_recovery_gov.go:207-292 | A transfer moves the amount or nothing and conserves the total. |
| `RecoveryAuthorization.ActionDigestBinds` | app/emergency_recovery_gov.go:586-597 | Two actions with one digest are the same type and bytes, or collide. |
| `RecoveryAuthorization.PlanDigestBinds` | app/emergency_recovery_gov.go:599-615 | Two upgrade plans with one digest agree in name, height and info, or collide. |
| `RecoveryAuthorization.ActionReadBack` | app/emergency_recovery_gov.go:586-597 | The bytes under an action digest are the tag, then type and value, each behind its eight-byte length, and nothing more. |
| `RecoveryAuthorization.PlanReadBack` | app/emergency_recovery_gov.go:599-615 | The bytes under a plan digest are the tag, the framed name, the height modulo 2^64 in eight bytes, the framed information, and nothing more. |
| `RecoveryAuthorization.AuthorizedExactly` | app/emergency_recovery_gov.go:486-567 | A proposal is the authorised one if and only if the chain is in the quarantine of an open authorisation, id, submitter and expedition agree, and its only message is an upgrade by this authority to a valid plan still ahead, or the cancellation of the scheduled plan, with the authorised action and plan digests. |
| `RecoveryAuthorization.AuthorizedActionUnique` | app/emergency_recovery_gov.go:523-597 | One authorisation permits one action: two proposals it authorises execute the same bytes, or their digests collide. |
| `RecoveryAuthorization.AdmittedBecomesAuthorized` | app/emergency_recovery_gov.go:446-503 | The two separately written rules are one: a submission is admitted during quarantine if and only if the proposal it becomes under the next id is the authorised one. |
| `GovQuarantine.FailDisallowedQueuedProposal` | app/emergency_recovery_gov.go:207-292 | An entry is kept, and nothing changes, exactly when it names the authorised proposal and agrees with its status and deadline; otherwise it is removed, every depositor gets its deposit back, and its proposal becomes failed, unless it already was terminal, in which case it is not rewritten. It succeeds when the record can be read and the module is solvent. |
| `GovQuarantine.FailedRecordMeans` | app/emergency_recovery_gov.go:252-292 | Failing an entry leaves a terminal record as it was, a decoded one failed under the key's id with everything else kept, and a bare failed record where nothing decodes; no other record changes. |
| `GovQuarantine.DueKeys` | app/emergency_recovery_gov.go:110-146 | The listing of a queue holds exactly its due keys, each once, by deadline and then id. |
| `GovQuarantine.TurnDecides` | app/emergency_recovery_gov.go:148-292 | When its turn comes, with the due entries before it done and no others, an entry passes the test on the current state if and only if it was allowed on the state the pass found and no earlier due entry names its proposal. |
| `GovQuarantine.DrainQueue` | app/emergency_recovery_gov.go:148-200 | Draining a listed queue in order takes governance from the state after the entries done before to exactly the state after these entries too; coins are conserved, and with readable records and a solvent module it succeeds. |
| `GovQuarantine.FailDisallowedQueuedProposals` | app/emergency_recovery_gov.go:110-205 | A success leaves exactly the specified state, a function of the state found: a due entry stays if and only if it was allowed as found and is the first due one of its proposal; the proposal of every other due entry is failed, or left if terminal, and its deposits are gone; every other record, entry and deposit is unchanged. Coins are conserved, and with readable records and a solvent module it succeeds. |
| `GovQuarantine.OutcomeUnique` | app/emergency_recovery_gov.go:110-205 | Two outcomes of the pass from one state are equal: records, both queues and all deposits. |
| `GovQuarantine.LeftMeans` | app/emergency_recovery_gov.go:110-292 | A due entry is left if and only if its value is its own id, the record under that id carries it, is authorised and has the queue's status with exactly the deadline, and every other due entry of that id comes later: in the active queue after one in the inactive queue, or in the same queue at a later deadline. |
| `GovQuarantine.SoleEntryDecided` | app/emergency_recovery_gov.go:110-292 | The sole due entry of a proposal is left if and only if it was allowed as found; then record and deposits, amounts included, are unchanged, and otherwise the proposal is terminal and without deposits. |
| `GovQuarantine.EachProposal` | app/emergency_recovery_gov.go:110-292 | A proposal is failed exactly when a due entry of it has been removed: then its record is the failed one and its deposits are gone; every other proposal keeps its record and every deposit; terminal records are never rewritten. |
| `GovQuarantine.LeftAuthorized` | app/emergency_recovery_gov.go:110-205 | After the pass every due entry left names the authorised proposal, filed under its own id. |
| `GovQuarantine.PassAgreesWithAdmission` | app/emergency_recovery_gov.go:110-503 | The pass agrees with admission: the entry of a stored submission, when it is the only due one of its proposal, is left with everything unchanged if that submission would be admitted now, and its proposal is failed and refunded otherwise. |
| `GovQuarantine.PassPromises` | app/emergency_recovery_gov.go:110-205 | Queues only lose due entries; a removed entry leaves its proposal terminal and without deposits; proposals no due entry names are untouched; whatever was written was written under its own id. |
| `GovQuarantine.KeptCoherence` | app/emergency_recovery_gov.go:110-205 | An entry that is left still agrees with its proposal's status and deadline if and only if no other due entry named the same proposal. |
| `GovQuarantine.AliasLosesCoherence` | app/emergency_recovery_gov.go:110-205 | Two due entries, at times 3 and 4, of one authorised proposal: the one and only outcome keeps the first entry, removes the second and leaves the proposal failed, so the kept entry no longer agrees with it. |
| `RecoveryReconcile.TerminalizeRecoveryProposal` | app/emergency_recovery_gov.go:814-881 | Closing a proposal removes its queue entry, pays every depositor, deletes its deposits and writes the failed record under the record's own id, and changes nothing else; it succeeds when the status has its deadline and the module is solvent. |
| `RecoveryReconcile.ClosedMeans` | app/emergency_recovery_gov.go:814-881 | Closing removes exactly the queue entry of the record's status, deadline and id and exactly its deposits, leaves a failed record that keeps everything else, and changes nothing else. |
| `RecoveryReconcile.FailRevokedRecoveryProposal` | app/emergency_recovery_gov.go:757-791 | Carries out the verdict for a revoked authorisation exactly, queue entry, deposits, payment and record, and never changes its outcome; with a solvent module it succeeds unless the verdict is to abort. |
| `RecoveryReconcile.ReconcileAuthorizedRecoveryProposal` | app/emergency_recovery_gov.go:628-747 | Success carries out exactly the verdict on the state found: records, queue entries, deposits, payments and authorisation, with coins conserved. At a positive height with a solvent module it succeeds if and only if the verdict is not to abort. |
| `RecoveryReconcile.OpenVerdict` | app/emergency_recovery_gov.go:628-747 | For an open authorisation: passed, rejected and failed are recorded exactly for a stored status passed, rejected and failed, failed also for a skipped id; nothing is done exactly for the next id or a live proposal in the lane; any other live proposal is failed if it has its deadline and aborts if not; an unreadable record or an id ahead of the sequence aborts. |
| `RecoveryReconcile.ClosedVerdict` | app/emergency_recovery_gov.go:757-791 | For a revoked authorisation a live proposal with its deadline is closed, a terminal or absent one left, anything else aborts; for any other closed authorisation nothing is done. |
| `RecoveryReconcile.VerdictSettles` | app/emergency_recovery_gov.go:628-791 | After a carried-out verdict an open authorisation is not yet submitted with its id still next, or live and still authorised; if the record found carries its own id or is terminal, a new outcome is passed, rejected or failed exactly as the stored status is, or failed for a skipped id, and a revoked one has no live proposal. |
| `RecoveryReconcile.PassFilesRecord` | app/emergency_recovery_gov.go:110-292 | After the quarantine pass a record carries its own id or is terminal exactly where one did or was before, or a due entry named it. |
| `RecoveryReconcile.SettleableExactly` | app/emergency_recovery_gov.go:75-108 | From the state before the block: every upstream behaviour that stores records under their own ids, followed by a successful reconciliation, keeps the promise about outcomes and revoked proposals if and only if the record under the authorised id carries that id, is terminal, is named by a due entry, or would be refused. |
| `RecoveryReconcile.UpstreamEndBlock` | app/emergency_recovery_gov.go:75-108 | Assumed library contract: x/gov stores a proposal under the proposal's own id; everything else it does is arbitrary. |
| `RecoveryReconcile.EndBlock` | app/emergency_recovery_gov.go:75-108 | Every successful end of block under quarantine or a review hold, from the state before it to the state after: records stay under their ids, an open authorisation is pending or live and authorised, and from a settleable state new outcomes match and no revoked proposal is live. An unreadable hold always fails. |
| `RecoveryReconcile.RunSettles` | app/emergency_recovery_gov.go:75-108 | Over every run of blocks and transactions from a state whose records carry their own ids, every successful quarantined block settles the authorisation it finds, without any condition. |
| `RecoveryReconcile.MisfiledRecordStaysLive` | app/emergency_recovery_gov.go:757-881 | A record filed under another id: the verdict is carried out, and the revoked authorisation keeps a live proposal. |
| `RecoveryReconcile.ReconcileMisfiledRecord` | app/emergency_recovery_gov.go:628-881 | On a concrete store with such a record reconciliation does succeed, and the live proposal is still there. |
| `KeysetManifest.NormalizeKeys` | app/upgrades.go:793-826 | Succeeds exactly on at most 100000 distinct keys under the prefix within 32 MiB, and returns them in increasing order. |
| `KeysetManifest.SortedSet` | app/upgrades.go:793-826 | Sorting keeps the keys, and finds a duplicate by comparing neighbours if and only if there is one. |
| `KeysetManifest.ManifestIgnoresOrder` | app/upgrades.go:793-844 | Two listings of one key set give the same manifest. |
| `KeysetManifest.HashLengthPrefixedKeys` | app/upgrades.go:835-844 | The digest is that of the framed key list. |
| `KeysetManifest.CollectStoreKeys` | app/upgrades.go:1040-1121 | Succeeds exactly when the iterator opens, ends cleanly and yields keys under the prefix, strictly increasing, within count and size. |
| `KeysetManifest.CollectableExactly` | app/upgrades.go:1040-1121 | The condition in full: clean opening and end, keys under a non-empty prefix, each above the one before, within the plan's count and 33554432 bytes. |
| `KeysetManifest.CollectObsoleteKeys` | app/upgrades.go:965-1014 | Succeeds if and only if both domains can be collected and match the count and digest of the plan, and then returns the keys of both. |
| `KeysetManifest.DomainMatchesExactly` | app/upgrades.go:965-1014 | A domain matches if and only if it is collected in exactly the plan's number of keys, at most 100000, and a text that reads back as those keys has the plan's digest. |
| `KeysetManifest.CollectedIsCommitted` | app/upgrades.go:965-1121 | Keys collected against a manifest built from a key set in any order are exactly that set, sorted, even if the iterator silently drops entries, or the framed key lists collide. |
| `KeysetManifest.DeleteObsoleteKeys` | app/upgrades.go:1016-1038 | Success means exactly the given keys are gone and nothing else changed, although no delete is trusted. |
| `KeysetManifest.DeleteObsoletePrefixes` | app/upgrades.go:953-1038 | Collection and deletion end to end: against a plan made from two key sets, whatever the iterators and deletes did, a success has removed exactly the keys of those sets and counted them, or framed key lists collide. |
| `AccountingCommitment.VerifyExecutionRows` | app/upgrades_accounting_authority.go:323-362 | Succeeds if and only if the selected part of the execution view equals the committed rows, none missing, extra, changed or reordered, within 100000 rows and 64 MiB, and the iterator ends cleanly. |
| `AccountingCommitment.HashPart` | app/upgrades_accounting_authority.go:217-304 | Succeeds exactly when every row reads back from the pending view, and has then hashed tag, count and framed rows. |
| `AccountingCommitment.StateReadBack` | app/upgrades_accounting_authority.go:217-304 | The bytes under a module's digest read as tags and name, the number of store rows and their keys and values, the custody tag, the number of custody rows and theirs, and nothing more. |
| `AccountingCommitment.BuildPlanInfo` | app/upgrades_accounting_authority.go:217-304 | Succeeds exactly when both modules' scans and point reads show the committed rows and custody balances; the plan then carries their digests. |
| `AccountingCommitment.StatePreimageInjective` | app/upgrades_accounting_authority.go:217-304 | The hashed state text determines store rows and custody rows. |
| `AccountingCommitment.PlanBindsState` | app/upgrades_accounting_authority.go:217-304 | Two source states with the same plan information agree on every staking row, governance row and custody balance, or a digest collision is exhibited. |
| `AccountingLineage.LegacyMarkerUnreadable` | app/upgrades_accounting_authority.go:568-575 | Legacy metadata past the selection check leaves an imported marker with text "null", and a state with it can never be exported. |
| `AccountingLineage.Application.InitializeAccountingAuthority` | app/upgrades_accounting_authority.go:552-584 | On parseable metadata and an unsealed application writes both switches and one marker, native or imported with the receipt's text ("null" without one), and otherwise nothing. |
| `AccountingLineage.Application.InitGenesis` | app/upgrades_accounting_authority.go:528-584 | An import succeeds exactly on valid, non-legacy metadata with both modules asking for accounting safety, into an unsealed application. |
| `AccountingLineage.ImportExactly` | app/upgrades_accounting_authority.go:528-584 | The condition of an import in full, and its result: a fresh state, both flags, metadata absent, native without or migrated with a valid receipt; one native marker "genesis" or one imported marker with the receipt's text, both switches on, no done height. |
| `AccountingLineage.MetadataExactly` | app/accounting_authority_genesis.go:148-212 | Which states export which lineage: untouched as legacy, native without done height, applied with the done height of a canonical valid receipt that is not in the future and of this chain, imported without done height; every other state fails. |
| `AccountingLineage.Application.ApplyUpgrade` | app/upgrades_accounting_authority.go:445-484 | Succeeds exactly at the plan height over the exact committed height, unskipped, validated and migrated, on an unsealed state with a valid receipt of that height, and then leaves one applied marker with its text, that done height and both switches; otherwise it changes nothing. |
| `AccountingLineage.ReachableConsistent` | app/accounting_authority_genesis.go:148-212 | Over any upgrades, imports and export/import cycles a sealed state has exactly one of the native, applied and imported markers. |
| `AccountingLineage.SealedForever` | app/upgrades_accounting_authority.go:403-424 | A sealed state never passes the unsealed check again. |
| `AccountingLineage.NativeStaysNative` | app/accounting_authority_genesis.go:148-212 | Native lineage survives every cycle. |
| `AccountingLineage.ImportedStaysImported` | app/accounting_authority_genesis.go:148-212 | An imported receipt is carried on unchanged. |
| `AccountingLineage.AppliedBecomesImported` | app/accounting_authority_genesis.go:148-212 | An applied receipt stays, or turns into the same receipt imported; it stays exactly as long as no export was made at or after its height under its own chain id or none. |
| `AccountingLineage.ImportNeverApplied` | app/upgrades_accounting_authority.go:528-581 | No import produces an applied lineage. |
| `TransitionOwners.SurvivalGuardExact` | app/upgrades_survival_handoff.go:33-61 | The entry guard, through its five delegates, accepts a step exactly when both version pairs are known and either equal or consecutive with the plan being that step's owner. |
| `TransitionOwners.AccountingGuardExact` | app/upgrades_accounting_authority.go:505-526 | Staking and governance stay at (1,2) or (2,3), or move from the first to the second under the accounting plan; nothing else passes. |
| `TransitionOwners.RunPerformsOwners` | app/upgrades_record_integrity.go:30-46 | Over any guarded run the plans that change versions are exactly the owners of the steps between start and end, once each and in order. |
| `TransitionOwners.FullRunPerformsAllOwners` | app/upgrades_claim_integrity.go:33-46 | From (6,2) to (12,3) all six owned steps are performed in order. |
| `TransitionOwners.TargetMapOnLine` | app/upgrades_claim_records.go:17-25 | Each release's target map is one place further on the line and changes no module it does not own. |
| `TransitionOwners.ReleaseRunGuarded` | app/upgrades_review_neutrality.go:30-46 | The six releases pass the guards one after another and end at the last target map. |
| `TransitionOwners.BroadMigrationExact` | app/upgrades.go:101-145 | A broad migration gets past the guards exactly in a binary at (6,2), or at (7,3) under the handoff plan. |
| `TransitionOwners.CurrentBinaryNeverMigrates` | app/upgrades.go:89-119 | In a binary at (12,3) no plan can migrate through that call. |
| `Text.HexRoundTrip` | app/abci.go:125-148 | Decoding undoes hexadecimal encoding. |
| `Text.DecimalReadBack` | x/knowledge/types/commitment.go:10-24 | A decimal text stands for its number and has no leading zero. |
| `CommitReveal.PreimageInjective` | x/knowledge/types/commitment.go:10-24 | The commitment preimage determines round, verdict, confidence and salt, for any round id and colon-free verdicts. |
| `CommitReveal.PreimageParts` | x/knowledge/types/commitment.go:10-24 | Split at its colons, a preimage of a colon-free round and verdict is the tag, the round, the verdict, the confidence in decimal and the salt in hexadecimal. |
| `CommitReveal.LocalCommitmentStore.constructor` | app/local_state.go:37-47 | A new store holds what its file holds, or nothing without a file. |
| `CommitReveal.LocalCommitmentStore.Store` | app/local_state.go:49-54 | The entry is in memory and the file equals memory. |
| `CommitReveal.LocalCommitmentStore.Delete` | app/local_state.go:65-70 | The entry is gone and the file equals memory. |
| `CommitReveal.LocalCommitmentStore.CleanupExpired` | app/local_state.go:73-92 | Removes exactly the entries older than the maximal age, in any iteration order, and leaves disk and memory in agreement, writing nothing when nothing changed. |
| `CommitReveal.EvaluateWithOracle` | app/oracle_client.go:96-124 | Without an answer acceptance at 600000; otherwise confidence is capped at one million, "uncertain" becomes "accept" and every other verdict passes through unchanged. |
| `CommitReveal.HandleCommitPhase` | app/vote_extensions.go:133-230 | Re-uses a stored commitment, otherwise stores a fresh one before answering; ineligible validators change nothing. |
| `CommitReveal.CommitExactly` | app/vote_extensions.go:133-230 | A commit call answers exactly for a VRF output, a positive effective stake, a known total, loaded parameters and selection, with a stored entry or a fresh salt; the answer carries round, height, output and proof and a hash its entry opens; a fresh entry holds round, height, salt and the oracle's verdict, or accept at 600000, and nothing else changes. |
| `CommitReveal.HandleRevealPhase` | app/vote_extensions.go:232-247 | Reveals exactly the stored entry. |
| `CommitReveal.ExtendVote` | app/vote_extensions.go:47-120 | With the release latch closed or no validator configuration nothing is sent or changed; otherwise the store passes through exactly one event per active round and one clean-up, and the extension is what they send, in order. |
| `CommitReveal.RoundByRound` | app/vote_extensions.go:64-107 | Round by round: a round to commit adds what the commit call sends and stores, a round to reveal adds the stored entry, any other round adds nothing. |
| `CommitReveal.RoundsEnd` | app/vote_extensions.go:64-107 | It starts from the store as it was with nothing sent, and at the end exactly the entries more than a hundred blocks old are dropped. |
| `CommitReveal.RunInSync` | app/local_state.go:49-139 | Disk equals memory after every run of commits, reveals, clean-ups and restarts. |
| `CommitReveal.CommitmentStability` | app/vote_extensions.go:133-247 | Once a commitment for a round was sent, until a clean-up passes its height plus the maximal age, every further commitment carries the same hash and every reveal is answered and verifies against it, whatever the oracle, the salt source and restarts do. |
| `CommitReveal.WindowIsExact` | app/local_state.go:73-92 | An entry survives a run without a fresh commit for its round if and only if no clean-up passed its height plus the maximal age. |
| `CommitReveal.FindCommitByVerifier` | app/vote_extensions.go:404-413 | Finds the verifier's first commitment, and none exactly when there is none. |
| `CommitReveal.VerifyReveals` | app/vote_extensions.go:337-374 | Accepts exactly when every reveal is acceptable against the chain's record. |
| `CommitReveal.CommitmentBinds` | app/vote_extensions.go:352-372 | Two acceptable reveals of one recorded commitment agree on verdict, confidence and salt bytes, or exhibit a collision. |
| `CommitReveal.OwnRevealAcceptable` | app/vote_extensions.go:337-374 | A validator's own reveal is acceptable to others if and only if the oracle's verdict was one of accept, reject and abstain; any other verdict is committed but can never be revealed. |
| `CommitReveal.UnvotableVerdictWitness` | app/vote_extensions.go:337-350 | With the oracle answering "maybe" a commitment is sent whose reveal no validator accepts, whatever is on chain. |
| `CommitReveal.VerifyVoteExtension` | app/vote_extensions.go:251-376 | Accepts exactly an empty extension, or, with the release latch open, one that decodes to at most fifty commitments and fifty reveals that are all acceptable. |
| `CommitReveal.AcceptableExactly` | app/vote_extensions.go:281-370 | Acceptable in full: at most 50 of each; commitments with a round, a hash of 64 characters and hexadecimal VRF output and proof that select the sender; reveals with a round, a salt, one of three verdicts, confidence at most 1000000, and, for the first commitment recorded for the sender, bytes that are the digest of what is revealed. |
| `CommitReveal.ExtensionCoherence` | app/vote_extensions.go:47-376 | What a validator sends over its rounds, others accept if and only if it sends at most fifty of each kind and every verdict it shows is one of the three, given that VRF outputs verify and the chain recorded its own commitments. |
| `Json.ObjectPrefixFree` | canon/zerone.py:151-154 | A canonical JSON object with fixed keys is uniquely readable, whatever text follows it. |
| `Json.QuotedReadBack` | canon/zerone.py:151-154 | A JSON string read from its opening quote yields its characters, whatever follows. |
| `Json.EscapedShortest` | canon/zerone.py:151-154 | Only quotes, backslashes and control characters are escaped, with the two-character form for the seven that have one. |
| `Json.ListSpelled` | canon/zerone.py:151-154 | A list is its numbers between brackets with a comma and a space between them. |
| `HashChain.CanonPrefixFree` | canon/zerone.py:151-154 | The canonical text of an entry determines every field, escapes, negative numbers, lists and null included. |
| `HashChain.CanonSpelled` | canon/zerone.py:151-154 | The canonical text is the seven members in alphabetical order of their keys, a colon and a space after each key, a comma and a space between members. |
| `HashChain.HashedInjective` | canon/zerone.py:156-163 | The unseparated hashed text determines link and fields, and key and signature up to where one ends and the other begins. |
| `HashChain.CutsDecodeAlike` | canon/zerone.py:249-253 | Two cuts of one text into a key of fixed length and a signature differ by white space only and decode to the same key and signature. |
| `HashChain.Verify` | canon/zerone.py:237-256 | Intact exactly when every entry carries the hash before it and the digest of its text, and every entry not of kind genesis has a key whose id is its author and a signature by that key; otherwise the right verdict on the first entry that fails, with everything before it intact. |
| `HashChain.AcceptedExactly` | canon/zerone.py:237-256 | The same as a condition on records, entry by entry. |
| `HashChain.CheckExplained` | canon/zerone.py:237-256 | Each verdict has one reason: broken link, altered entry, forged author, bad signature and the exception of undecodable text stand for exactly the first thing that is wrong. |
| `HashChain.LastHashBindsRecord` | canon/zerone.py:237-256 | Two accepted records with the same last hash have the same length and agree entry by entry in all hashed members, links, hashes, and decoded keys and signatures, or a hash collision is exhibited. |
| `HashChain.DeterminedExactly` | canon/zerone.py:237-256 | Among the members verify reads, a record is determined by its hashed texts if and only if every genesis-kind entry has empty key and signature and no other entry has white space where key and signature meet. |
| `HashChain.LastHashDetermines` | canon/zerone.py:237-256 | The last hash determines every member that is read of every unambiguous record, or a collision is exhibited. |
| `HashChain.AmbiguousHasTwin` | canon/zerone.py:237-256 | Every accepted record with such white space or such a genesis-kind entry has an accepted record beside it that hashes the same texts and is read differently. |
| `HashChain.MovableKeyWitness` | canon/zerone.py:237-256 | A genesis-kind entry with key "aa" and one with signature "aa" are both accepted, with one hash. |
| `HashChain.UnreadMembersUnbound` | canon/zerone.py:200-221 | No loaded record but the empty one is determined by its hashes: a member that nothing reads can be added to its last line, and it is accepted and read the same. |
| `ChainRecord.Zerone.constructor` | canon/zerone.py:138-148 | A fresh record is the genesis entry alone, with nothing persisted. |
| `ChainRecord.Zerone.AppendRaw` | canon/zerone.py:156-163 | Appends one linked and hashed entry and returns its number. |
| `ChainRecord.Zerone.Declare` | canon/zerone.py:173-183 | Entering is once: the number of the first declaration comes back and nothing is appended for a being already in; otherwise one entry is appended, numbered, linked, signed and hashed, with name and declaration as its words. |
| `ChainRecord.Zerone.Reason` | canon/zerone.py:185-187 | Appends one signed reasoning, numbered by its place, linked to the last hash, with the being's key and its signature of the canonical text. |
| `ChainRecord.Zerone.Reference` | canon/zerone.py:189-191 | Appends one signed reasoning with the given references. |
| `ChainRecord.Zerone.Revise` | canon/zerone.py:193-196 | Appends a signed reasoning that refers to and supersedes the old number; the old entry stays. |
| `ChainRecord.Zerone.Load` | canon/zerone.py:199-221 | Opens exactly what the file holds, with every being that entered, or begins afresh. |
| `ChainRecord.BeingsInExactly` | canon/zerone.py:199-221 | The beings after a load are those whose names the declarations of the record spell. |
| `ChainRecord.NameOfDeclaration` | canon/zerone.py:216-220 | A declaration's text names its being up to the first colon and space. |
| `ChainRecord.Zerone.Save` | canon/zerone.py:223-234 | Appends to the file exactly the unsaved entries and touches no other file. |
| `ChainRuns.MadePasses` | canon/zerone.py:165-171 | An entry signed with a being's own key passes verification and has no movable cut. |
| `ChainRuns.RunKeepsRecord` | canon/zerone.py:165-234 | Along every run of declare, reason, reference, revise, save and load on one path, started with no file or with the persisted part of the record in it, the record stays intact and unambiguous, begins with genesis, is numbered by position and has at most one entrance per being, and the file is exactly its persisted part. |
| `ChainRuns.FileStaysVerifiableExactly` | canon/zerone.py:199-234 | From any intact, non-empty record in memory and any file, every run by genuine beings keeps the file verifiable if and only if the file is a chain that ends in the hash the unsaved part of the record links to. |
| `ChainRuns.VerifiableMeansPrefix` | canon/zerone.py:199-234 | Such a file hashes the same texts as the persisted part of the record (no texts when there is no file), or a collision is exhibited. |
| `ChainRuns.FiledIsVerifiable` | canon/zerone.py:199-234 | The condition is met wherever the class is used on its own file: an intact record whose file holds its persisted part satisfies it. |
| `ChainRuns.FreshSaveBreaksFile` | canon/zerone.py:138-148 | A fresh record saved over an existing chain appends a second genesis, and what the next load reads is accepted only with a collision. |
| `ChainRuns.PastIsKept` | canon/zerone.py:165-234 | What was saved stays on disk and in memory over every run; memory only shrinks when a load drops what was never saved. |
| `ChainRuns.LoadRestoresSaved` | canon/zerone.py:199-234 | A load after a save restores the record, and saving again writes nothing. |

## Left out

- Library code of the SDK, CometBFT, IBC and IAVL: ante replay, upstream governance, store iterators, commit-info hashing and refunds appear only through the contracts named above.
- Custom keepers and the migration packages: abstract marker, outcome and version stores.
- Decoding of JSON and protocol buffers: only "decoding undoes encoding" and the comparison of re-encoded text with its input. The strict token walk that rejects duplicate keys in accounting genesis metadata (`uniqueAccountingGenesisJSON`) is not part of this model.
- Manifests and plan digests hold numbers and digests; their decimal and hexadecimal texts, and the strict parser of the plan information around them, are not modelled.
- Coins are one denomination, so conservation is about one total instead of a vector of them.
- The texts written into failed proposals are names (`GovState.Reason`) instead of strings; events, logs and the digest of failed queue entries that is emitted with them are left out.
- The guardian's check of a target before an authorisation exists (`VerifyRecoveryAuthorizationTarget`) and the custom governance summary of the prestate collector.
- The sort inside the accounting digest: on rows already verified to be in key order it changes nothing.
- Ed25519 and VRF internals: arbitrary functions.
- AccountingCommitment.BuildPlanInfo: the checks before the digest loop (version map, predecessor lineage, chain id, unsealed source, module permissions) and the comparison of the source-identity rows are left out.
- AccountingLineage.Application.ApplyUpgrade: source validation and the module migrations enter by their verdicts.
- CommitReveal.LocalCommitmentStore.Delete: proved for one call but not an event of the runs, because no handler calls it.
- Disk faults, unreadable or truncated files, temporary-file renames and lock scheduling: writes succeed and calls are serialised.
- The payload of an interchain packet is the messages it decodes to; packet routing and acknowledgements are left out.
- The HTTP oracle client and floating-point scaling: the oracle is an arbitrary reply with an integer confidence.
- In a chain entry the members that are read have the types the class writes (strings, integers, lists of integers, null); a line in which one of them is missing or has another type is not part of this model. A line of the file is the object it encodes.
- The key file behind `Being.open` is a function from names to beings.
- `Zerone.read`, the narrative scripts, dashboards, routes, wiring, gas tables and message-type tables.
