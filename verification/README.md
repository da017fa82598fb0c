# OVOTE node: a verified model

This project models the off-chain voting pipeline of the OVOTE node and proves its laws with Dafny 4.11:
`dafny verify dfyconfig.toml` checks everything.

A *census* assigns consecutive indexes to public keys, keeps a counter, a key table and a Merkle tree in step, and is
closed once to publish its root and serve proofs. A *process*, announced by a contract event, votes over a census
root until the block at which publishing starts. The *votes aggregator* accepts votes that carry a valid signature and
census proof into a constrained table, and turns the votes of a process into fixed-size circuit inputs with a second
tree of receipts.

The main results, and where they are:

- Exactly when votes accepted one at a time assemble into a complete witness, for every circuit size
  (`WitnessLaws.AssembleIff`; `Node.ElectionAssembles`, over every run of a census and of a node): in a circuit large
  enough for the census always, unless a stored vote is neither 0 nor 1. Every voter of an assembled witness then
  verifies from it alone (`WitnessVerify.WitnessVerifies`), and the result counts the right weights
  (`WitnessVerify.TallyCounts`).
- A census serves proofs for exactly the keys of its accepted batches, and what a verifier accepts is a leaf with its one
  proof (`CensusRuns.ServedOverRuns`, `CensusRuns.AcceptedProofIff`, `Trie.ProofIff`). Many censuses in one registry do
  not disturb each other, and all they hold survives a restart (`CensusBuilder.CensusesIsolated`,
  `CensusBuilder.ServedAfterRestart`).
- A proof is started and delivered exactly under the conditions of `ProofRecord.StartProofSpec` and
  `ProofRecord.FetchProofSpec`, once for each process, and then never changes (`ProofRecord.ProofDelivered`).
- A voter with a served proof is accepted exactly when neither the index nor the key has voted, in any process over
  any census (`Node.ServedVoteAcceptedIff`): leaves with different keys never share a proof, even across censuses
  (`Trie.ProofsDifferAcross`).
- Event delivery is confluent (`EthSync.DeliveryConfluent`).
- The status of every process after any run of blocks is determined (`Stepwise.StatusAfterRun`), and freezing block by
  block is freezing in bulk exactly when no process was skipped (`Stepwise.StepwiseIsBulkIff`).
- Event decoding inverts the encoding of sections "Formal Specification of the Encoding" and "Events" of the Solidity
  Contract ABI Specification, and the exact data on which it is its inverse is given (`Events`).

## How the parts fit

| file | models |
|---|---|
| Bytes.dfy, Results.dfy | machine integers, big-integer conversions, results |
| Trie.dfy | the Merkle tree, idealised |
| Types.dfy | codecs, hashes, vote verification |
| Census.dfy, CensusLaws.dfy, CensusRuns.dfy | one census: the class, one batch, runs |
| CensusBuilder.dfy | the registry of censuses |
| Database.dfy, VoteTable.dfy | the tables and their constraints |
| Witness.dfy, Votes.dfy | circuit inputs in arrays, the votes aggregator |
| WitnessLaws.dfy, WitnessVerify.dfy | assembly is total, witnesses verify, the tally |
| Events.dfy, EthSync.dfy, Stepwise.dfy | event codec, synchronisation, block-by-block freezing |
| ProofRecord.dfy | the proof record |
| Node.dfy | events, freezes and votes in any order |

Objects whose methods update fields are classes, and each method is proved against a function on the state before
(`Census.AddKeys`, `Votes.Assemble`, `EthSync.Deliver`, ...); the laws are lemmas about those functions and their runs.

## Assumptions

- The tree library is not part of this model. Its trees are taken to be compacted binary tries over the key bits, lowest
  bit first, with a leaf at the first level where its path is its own; a batch adds its leaves one after the other.
- Hashes are free constructors (`Trie.Digest`, `Trie.KeyHash`, `Types.Message`), so they have no collisions. Hashing
  fails exactly for inputs outside the scalar field. That it fails for negative inputs too is an assumption about the
  hash library, which is not part of this model; what `CensusLaws.AddKeysSpec`, `CensusRuns.ServedOverRuns` and
  `WitnessLaws.StoredVerifiesIff` say of negative weights rests on it. `Types.Crypto` holds the rest of the
  cryptography as arbitrary functions: signature decompression, signature verification, and the digest that a root's
  bytes stand for. A packed proof is its list of siblings with a number telling apart byte strings that unpack alike.
- A compressed public key determines the key, so tables are keyed by the key itself.
- `database/sql` refuses unsigned arguments with the high bit set, so every unsigned value stored in a column or passed
  to a query is below 2^63; block numbers are converted to `int` in the code and wrap instead.
- When a vote breaks several constraints of its table at once, which one is reported first is a choice of the model.
- Every exported operation is atomic. Go slices are shorter than 2^63.

## Findings

- The size of a census needs no overflow assumption. The index codec goes through a signed integer, so index i beyond
  2^63 has the tree key of 2^64 - i; the batch that would pass 2^63 + 1 keys is refused by the tree, long before the
  `MaxNLeafs` test, which can never fire (`CensusLaws.AddKeysSpec`). For the same reason a verifier accepts the mirror
  image of every index (`CensusRuns.MirrorAccepted`).
- The circuit of 128 votes and 7 levels, fixed in the code, is enough for every census of at most 128 keys. In a census
  of n > 128 keys only the indexes n - 128 .. 127 have proofs short enough, and one vote of any other index stops the
  inputs of its process for good; from 256 keys on no vote at all can be assembled
  (`WitnessLaws.AssembleOverCensusIff`, `WitnessLaws.LargeCensusOutOfReach`).
- A vote without a weight is checked with weight 1 and stored with weight 0, so its row verifies again exactly when the
  voter named a weight (`WitnessLaws.StoredVerifiesIff`).
- Index, key and proof are unique over the whole votes table, so voters of all processes compete for the same indexes,
  whatever their censuses: once voter 0 of one census has voted, voter 0 of every other census is turned away
  (`Node.TurnedAwayElsewhere`, exact condition in `Node.ServedVoteAcceptedIff`).
- Closing is final for a loaded census only: loading it again reopens it (`CensusRuns.ReloadReopens`), and the published
  root survives exactly when the census is closed again without a key accepted in between
  (`CensusRuns.PublishedRootSurvivesIff`).
- In `AdvanceBlock`, a process created after its own publishing block is never frozen (`Stepwise.LateStaysOn`), and an
  event that cannot be stored skips the freezing of its block for good (`Stepwise.DueAtFailureStaysOn`).
- The comment above the process event lists `typ` before `censusSize`; the parser reads it last, and the model follows
  the parser. The error text of the block guard in `GenerateProof` says the opposite of its test; the model has the test.

## Model

| member | source | states |
|---|---|---|
| Trie.InsertSpec | census/census.go:300-306 | a leaf goes in exactly when no stored key shares its bits, and then the tree holds one more entry, in shape |
| Trie.AddBatchSpec | types/zkinputs.go:196-203 | a batch has no invalid leaf exactly when its keys have paths of their own, and then adds exactly its entries |
| Trie.AddBatchAppend | census/census.go:300-306 | two batches in turn build the tree of both at once |
| Trie.DepthBound | types/zkinputs.go:148-150 | a tree whose keys are below 2^n is at most n levels deep, so no proof is longer |
| Trie.DepthSeparate | types/zkinputs.go:186-203 | a tree whose keys differ in their lowest n bits is at most n levels deep |
| Trie.ProofLengthIff | types/zkinputs.go:148-150 | in the tree over 0 .. n - 1 the proof of k has at most m siblings exactly when k < 2^m and n <= k + 2^m |
| Trie.ProofComplete | census/census.go:349-357 | exactly the leaves have proofs, and each proof recomputes the root |
| Trie.ProofIff | types/types.go:154-161 | a proof is accepted against a root exactly when it is the proof of one of its leaves, value included |
| Trie.ProofsDiffer | db/db.go:64 | two leaves of one tree never share a proof |
| Trie.ProofsDifferAcross | db/db.go:64 | nor do leaves with different keys of two trees over consecutive keys, whatever their sizes and values |
| Trie.Canonical | types/zkinputs.go:209-213 | trees with the same entries are equal, whatever the order of insertion |
| Trie.RootInjective | types/types.go:76-85 | the root determines the tree |
| Bytes.MinimalBERoundTrip | db/votepackages.go:77 | the stored bytes of a weight give the weight back, and start with no zero |
| Types.CodecRoundTripIff | types/types.go:237-254 | the index and weight codec gives a pair back exactly for indexes up to 2^63 and weights in 0 .. 2^256 - 1 |
| Types.DecodedPair | types/types.go:246-254 | what any other pair decodes to: the mirrored index and the absolute weight modulo 2^256 |
| Types.DecodeInverseIff | types/types.go:237-254 | the decoder takes any 40 bytes and no others; encoding again gives them back exactly when their index is at most 2^63 |
| Types.VerifySignatureIff | types/types.go:117-145 | a vote is well signed exactly when chain and process ids are below 2^63, the vote is below the field order, and the signature unpacks to one of these three under the voter's key |
| Types.CheckCensusProofIff | types/types.go:146-163 | a census proof is accepted exactly when key and weight hash, the siblings unpack, and they lead from the leaf of key and weight, 1 for none named, to the root |
| Types.VerifyIff | types/types.go:166-176 | a vote verifies exactly when it is well signed and proven, whatever its value |
| Types.IndexBytesEqualIff | types/types.go:179-181 | two indexes share their bytes exactly when equal or mirror images around 2^63 |
| Types.ReceiptKeyLossless | votesaggregator/votesaggregator.go:143-144 | cutting the key to ceil(nLevels/8) bytes loses nothing of an index below 2^nLevels |
| Types.ReceiptKeysDistinct | votesaggregator/votesaggregator.go:142-145 | different indexes keep different cut keys, different within their lowest nLevels bits |
| Types.ReceiptKeysCollideIff | votesaggregator/votesaggregator.go:142-145 | for all indexes: two cut keys are equal, and take the same path, exactly when the tree keys agree modulo 256^ceil(nLevels/8), and modulo 2^nLevels |
| Census.Census.AddPublicKeys | census/census.go:251-319 | commits the whole batch or changes nothing; the new state is that of the specified batch |
| Census.Census.Close | census/census.go:160-179 | sets the flag once and reports a second attempt |
| Census.Census.GetRoot | census/census.go:196-206 | the root, only when closed |
| Census.Census.GetInfo | census/census.go:215-247 | size, flag, message, and the root or the empty root |
| Census.Census.GetProof | census/census.go:323-367 | serves the proof of the specification, or its error |
| Census.Census.constructor | census/census.go:56-101 | loading keeps everything and opens the census |
| CensusLaws.AddKeysSpec | census/census.go:251-319 | a batch is accepted exactly when the census is open, all keys and weights hash and at most 2^63 + 1 keys result; it then appends leaves in order, points each key to its last position, and keeps leaves, counter and table in step |
| CensusLaws.GatherSpec | census/census.go:272-298 | the loop succeeds exactly on hashable input and gathers index keys, leaf values and table entries |
| CensusLaws.SeparateIff | census/census.go:268-271 | the new indexes have leaves of their own exactly up to the codec's range |
| CensusRuns.RunValid | census/census.go:251-319 | over every run the leaves are exactly 0 .. size - 1 and table and tree name the same keys |
| CensusRuns.TableIsAssigned | census/census.go:287-291 | over every run from any census each entry decodes to the index and weight of the key's last accepted occurrence, or to what was on record |
| CensusRuns.ServedProofsAccepted | census/census.go:323-381 | a closed census serves exactly its registered keys, and what it serves passes the check |
| CensusRuns.ServedOverRuns | census/census.go:251-381 | over every run that ends closed, from any census: served exactly to the keys on record and those of accepted batches, with the index and weight last given |
| CensusRuns.AcceptedProofIff | types/types.go:147-163 | what the verifier accepts against a census root is a leaf with this key and weight, and that leaf's one proof |
| CensusRuns.ServedWithoutWeightIff | types/types.go:183-190 | a registered key can leave out its weight exactly when it is 1 |
| CensusRuns.AcceptedKeyRegistered | types/types.go:147-163 | an accepted proof belongs to a registered key |
| CensusRuns.AcceptedIndexIff | types/types.go:147-163 | an accepted index is below the census size exactly when it is at most 2^63 |
| CensusRuns.MirrorAccepted | types/types.go:179-181 | the verifier does not tell an index from its mirror image |
| CensusRuns.ClosedIff | census/census.go:160-193 | a census is closed exactly when it was or the run closes it |
| CensusRuns.CloseIsFinal | census/census.go:160-206 | nothing is served before the first close; afterwards root, size and proofs are fixed and every batch fails |
| CensusRuns.RootKeptIff | census/census.go:251-319 | a run keeps the root exactly when it accepts no batch with keys in it |
| CensusRuns.ReloadReopens | census/census.go:90-93 | closing is not final across a reload: a reopened census with room left takes a key, and then has another root |
| CensusRuns.PublishedRootSurvivesIff | census/census.go:90-93 | after any run of a reloaded census the published root is the old one exactly when the run closes it again and accepts no key before |
| CensusRuns.RootsAgreeIff | census/census.go:196-206 | two censuses have the same root exactly when they have the same leaves |
| CensusRuns.BatchingDoesNotMatter | census/census.go:263-311 | one batch of two lists and the lists in turn succeed together and give the same census |
| CensusBuilder.CensusBuilder.NewCensus | censusbuilder/censusbuilder.go:134-160 | takes the next id with an empty census, or fails and changes nothing |
| CensusBuilder.CensusBuilder.LoadCensusIfNotYet | censusbuilder/censusbuilder.go:103-127 | loads a census from disk once, with all it held, and opens it |
| CensusBuilder.CensusBuilder.CloseCensus | censusbuilder/censusbuilder.go:163-171 | closes this census and no other |
| CensusBuilder.CensusBuilder.AddPublicKeys | censusbuilder/censusbuilder.go:198-215 | gives the batch to this census and no other |
| CensusBuilder.CensusBuilder.SetErrMsg | censusbuilder/censusbuilder.go:232-242 | stores the message in this census and no other |
| CensusBuilder.CensusBuilder.GetCensusRoot | censusbuilder/censusbuilder.go:174-184 | the root of this census |
| CensusBuilder.CensusBuilder.GetProof | censusbuilder/censusbuilder.go:246-259 | the proof of this census |
| CensusBuilder.CreateNumbers | censusbuilder/censusbuilder.go:134-160 | ids are handed out in order without repeats, until all 2^64 are taken |
| CensusBuilder.RunNumbers | censusbuilder/censusbuilder.go:134-160 | over every run the censuses in memory and on disk are 0 .. count - 1 |
| CensusBuilder.RestartNumbers | censusbuilder/censusbuilder.go:103-127 | a restart goes on counting where the last lifetime stopped |
| CensusBuilder.CensusesIsolated | censusbuilder/censusbuilder.go:103-215 | over every run from any registry each census is what the operations sent to it make of it alone; one on disk is first reopened, and unchanged until then |
| CensusBuilder.ServedAfterRestart | censusbuilder/censusbuilder.go:103-127 | after a restart and any run that closes the census again: served exactly to the keys on record and those added since, with the index and weight last given |
| CensusBuilder.ReloadAndClose | censusbuilder/censusbuilder.go:103-171 | a census closed again right after a restart has the same root and serves the same keys with the same indexes |
| Database.SQLite.StoreProcess | db/processes.go:14-46 | inserts a new process in status On, or fails on a taken id or a number that does not fit |
| Database.SQLite.UpdateProcessStatus | db/processes.go:50-66 | sets the status of one process |
| Database.SQLite.FrozeProcessesByCurrentBlockNum | db/processes.go:136-155 | each process On whose publishing has started becomes Frozen; nothing else changes |
| Database.SQLite.ReadProcessesByResPubStartBlock | db/processes.go:159-186 | every process starting at the block, each once |
| Database.SQLite.StoreVotePackage | db/votepackages.go:11-47 | adds the row last exactly when it fits, its process exists and no row has its index, key or proof; otherwise fails without a change |
| Database.SQLite.ReadVotePackagesByProcessID | db/votepackages.go:52-82 | the packages of a process, sorted by index |
| Database.SQLite.UpdateLastSyncBlockNum | db/db.go:132-148 | updates the block number, if there is a meta row |
| VoteTable.InsertVoteSpec | db/db.go:59-71 | a row is inserted exactly when it fits, its index, key and proof are new and its process exists |
| VoteTable.SelectSpec | db/votepackages.go:52-82 | a read holds exactly the rows of its process, strictly increasing in index |
| VoteTable.SelectIgnoresOrder | db/votepackages.go:54-58 | the order of arrival leaves no trace in a read |
| Witness.ZKInputs.constructor | types/zkinputs.go:54-94 | ten arrays of the size of the circuit, all zero |
| Witness.ZKInputs.MerkleProofToZKInputsFormat | types/zkinputs.go:143-161 | the siblings, padded with zeros to nLevels + 1, or an error if they do not unpack or are more than nLevels |
| Witness.ZKInputs.ComputeReceipts | types/zkinputs.go:167-232 | writes the root of the receipts tree and the padded proof of every receipt |
| Votes.VotesAggregator.AddVote | votesaggregator/votesaggregator.go:65-87 | stores a vote that `WitnessLaws.AcceptVoteSpec` says is acceptable, or fails without a change |
| Votes.VotesAggregator.FillVotes | votesaggregator/votesaggregator.go:112-153 | the loop writes each vote in its place and gathers receipts and result |
| Votes.VotesAggregator.GenerateZKInputs | votesaggregator/votesaggregator.go:90-165 | the object returned holds the assembled witness, or the first error in the order of the code |
| Votes.VotesAggregator.GenerateProof | votesaggregator/votesaggregator.go:168-224 | starts one proof for a process without one, as `ProofRecord.StartProofSpec` says |
| Votes.VotesAggregator.GetProof | votesaggregator/votesaggregator.go:227-254 | returns the record, asking the prover only while it is incomplete, as `ProofRecord.FetchProofSpec` says |
| WitnessLaws.AcceptVoteSpec | votesaggregator/votesaggregator.go:65-87 | a vote is accepted exactly when its process is On, it is well signed and proven for it, and index, key and proof are new; the table stays valid |
| WitnessLaws.StoredVerifiesIff | db/votepackages.go:32-39 | a stored vote verifies again exactly when the voter named a weight |
| WitnessLaws.StoredIntact | db/votepackages.go:37-80 | a vote with a weight comes back from the table unchanged |
| WitnessLaws.ProofsNeverClash | db/db.go:64 | stored rows of any censuses with different indexes have different proofs |
| WitnessLaws.ReceiptsIff | types/zkinputs.go:196-229 | the receipts tree takes all receipts exactly when their paths differ; then it holds one leaf for each, and proves each within its levels |
| WitnessLaws.ReceiptsTotal | types/zkinputs.go:196-229 | in particular the receipts of increasing indexes below 2^nLevels |
| WitnessLaws.AssembleIff | votesaggregator/votesaggregator.go:90-165 | for every valid table, circuit and root, assembly succeeds exactly when the process exists, its votes are 0 or 1 and no more than nMaxVotes, no proof has more than nLevels siblings, nLevels is at most 64 if there are votes, and the indexes differ modulo 2^nLevels |
| WitnessLaws.AssembleOverCensusIff | votesaggregator/votesaggregator.go:90-165 | over a census of n keys: exactly when the votes are 0 or 1, no more than nMaxVotes, and each index k has k < 2^nLevels and n <= k + 2^nLevels |
| WitnessLaws.LargeCensusOutOfReach | types/zkinputs.go:148-150 | from 2 * 2^nLevels keys on assembly succeeds exactly when there are no votes |
| WitnessLaws.AssemblyTotalIff | votesaggregator/votesaggregator.go:90-165 | for a census that fits the circuit, assembly succeeds exactly when every stored vote is 0 or 1 |
| WitnessVerify.WitnessVerifies | votesaggregator/votesaggregator.go:112-162 | whenever assembly succeeds, every row verifies from the witness alone: signature and receipt always, census proof exactly when the voter named a weight |
| WitnessVerify.ReceiptsAreCensusLeaves | votesaggregator/votesaggregator.go:142-162 | the receipts root commits to one leaf for each voter, a census leaf for every voter who named a weight |
| WitnessVerify.TallyCounts | votesaggregator/votesaggregator.go:103-156 | the result is the weight of the votes with value 1, the count is the number of rows, everything past them is zero |
| WitnessVerify.ResultWithinCensus | votesaggregator/votesaggregator.go:112-118 | the result never exceeds the weight of the census |
| WitnessVerify.OrderLeavesNoTrace | votesaggregator/votesaggregator.go:106-108 | tables with the same rows of a process give the same inputs |
| Node.RunFollows | db/processes.go:136-155 | over every run a process only ever changes by being frozen |
| Node.NeverReopens | votesaggregator/votesaggregator.go:75-78 | a process that has left On stays as it is |
| Node.RunKeepsVotesValid | votesaggregator/votesaggregator.go:65-87 | over every run each row verified for an existing process and no index, key or proof repeats |
| Node.ReadsPartition | db/votepackages.go:54-58 | each row is read for its own process and for no other |
| Node.ReadFixed | votesaggregator/votesaggregator.go:71-86 | once voting has ended the votes of a process are fixed |
| Node.InputsFixed | votesaggregator/votesaggregator.go:90-165 | and so are its circuit inputs |
| Node.AcceptAllIff | votesaggregator/votesaggregator.go:65-87 | votes are all accepted exactly when each is acceptable alone and no two share an index, key or proof |
| Node.ArrivalOrderIrrelevant | votesaggregator/votesaggregator.go:65-165 | votes accepted in one order are accepted in every order, with the same inputs |
| Node.ElectionAssembles | votesaggregator/votesaggregator.go:65-165 | end to end over every run of a census and a node, for every circuit: the exact condition for the inputs, which for a circuit that fits the census is that every stored vote is 0 or 1; and then every law of witnesses applies |
| Node.ServedVoteAcceptedIff | votesaggregator/votesaggregator.go:65-87 | a signed vote with a served proof is accepted exactly when neither index nor key has voted, in any process over any census |
| Node.TurnedAwayElsewhere | db/db.go:61 | a stored vote turns away the voter with the same index in the census of every other process |
| Events.NewProcessRoundTrip | eth/eth.go:286-326 | decoding the encoding of a creation event gives the event |
| Events.ResultPublishedRoundTrip | eth/eth.go:344-371 | the same for a published result |
| Events.ProcessClosedRoundTrip | eth/eth.go:386-406 | the same for a closed process |
| Events.NewProcessInverseIff | eth/eth.go:299-323 | encoding the decoded data gives the data exactly when its padding is zero |
| Events.ResultPublishedInverseIff | eth/eth.go:355-368 | the same for a published result |
| Events.ProcessClosedInverseIff | eth/eth.go:394-403 | the same for a closed process, whose flag word must be 0 or 1 |
| Events.RootSurvives | eth/eth.go:309-310 | the stored root, read little-endian, is the number in the event |
| EthSync.Client.ProcessEventLog | eth/eth.go:214-259 | logs are told apart by length and only creations change the table |
| EthSync.Client.SyncEventsHistory | eth/eth.go:191-212 | replays all logs, passing over those that fail |
| EthSync.Client.SyncHistory | eth/eth.go:161-187 | replays, then freezes in bulk |
| EthSync.AnnouncedProcessStored | eth/eth.go:227-234 | the log of an announced process stores its values, if they fit and the id is new |
| EthSync.DeliverSpec | eth/eth.go:214-259 | what becomes of any log: one of the length of a creation creates its process exactly if that fits and is new, the two other events are accepted without effect, all else is an error; no error changes the table |
| EthSync.DeliveryConfluent | eth/eth.go:79-106 | the same logs in any order, with repeats and earlier freezes, give the same table after a last freeze |
| EthSync.LiveEventsDoNoHarm | eth/eth.go:91-98 | a node that saw live events early or twice ends where a clean replay ends |
| EthSync.SwapIff | db/processes.go:14-46 | the order of two deliveries matters exactly when both create the same new process differently |
| EthSync.TestEthClient.AdvanceBlock | eth/tester.go:28-60 | stores the events of the next block and freezes the processes due at it, or stops at the first failure; keeps the table ready for the next block |
| Stepwise.AdvanceInStepIff | eth/tester.go:28-60 | a block that goes through stays in step with a bulk freeze exactly when its events are not late |
| Stepwise.AdvanceSucceedsIff | eth/tester.go:34-44 | a block goes through exactly when its events fit the database and their ids are new and different |
| Stepwise.AdvanceStores | eth/tester.go:34-44 | a block stores its events up to the first that does not fit, each as announced with the number of the block |
| Stepwise.AdvanceFailureFreezesNothing | eth/tester.go:34-44 | a block with a failing event freezes nothing |
| Stepwise.WentThroughIff | eth/tester.go:34-44 | the same of every block of a run, on the table that block finds |
| Stepwise.StatusAfterRun | eth/tester.go:28-60 | over any run, late events and failing blocks included: a process is Frozen exactly when it was at the start, or its publishing block was in the run, went through and found it there; otherwise it keeps its status |
| Stepwise.SkippedForGood | eth/tester.go:46-57 | once its publishing block is over a process never changes again |
| Stepwise.LateStaysOn | eth/tester.go:34-57 | a process created after its publishing block stays On whatever blocks follow |
| Stepwise.DueAtFailureStaysOn | eth/tester.go:34-44 | so does a process On whose publishing block fails |
| Stepwise.StepwiseIsBulkIff | eth/tester.go:28-60 | over any run the table is that of one bulk freeze exactly when no process was late or had its block fail |
| Stepwise.StepwiseRefinesBulk | eth/tester.go:28-60 | so after blocks that all went through with timely events a process is Frozen exactly when its publishing has started |
| ProofRecord.LatestSpec | db/proofs.go:72-93 | the answer for a process is one of its rows, filled in no earlier than any other, if it has one |
| ProofRecord.StartProofSpec | votesaggregator/votesaggregator.go:168-224 | exactly when GenerateProof succeeds; without a proof before, one empty row with the prover's id is then the answer for this process and no other; in every other case nothing changes |
| ProofRecord.ProofStartsIff | votesaggregator/votesaggregator.go:168-224 | the same in terms of the stored votes |
| ProofRecord.FetchProofSpec | votesaggregator/votesaggregator.go:227-254 | exactly when GetProof succeeds, what it returns and stores; a failure changes nothing |
| ProofRecord.ProofDelivered | votesaggregator/votesaggregator.go:168-254 | a proof started and answered in full is returned by every later GetProof |
| ProofRecord.OneProofEach | votesaggregator/votesaggregator.go:191-222 | over every run each process has at most one proof |
| ProofRecord.WrittenOnce | votesaggregator/votesaggregator.go:227-254 | once complete, the same proof is returned forever |
| ProofRecord.FirstAnswerRecorded | db/proofs.go:51-69 | the first complete answer is the one on record |

## Left out

- The HTTP interface, JSON and hex formats, command line, and the prover client and server: the prover's answers are parameters.
- The tree, hash, signature, key-value and SQL libraries, except as stated under Assumptions; disk and network failures.
- Concurrency inside one operation: a batch and a close of the same census may interleave in the node, and no lock spans the check and the commit.
- Timestamps: processes are not ordered by insertion time, and a proof row has a number for the time its bytes were added.
- ReadProcesses, ReadProcessesByStatus, GetProcessStatus and GetProofsByProcessID: further plain reads of the same tables.
- AddPublicKeysAndStoreError and CensusInfo of the registry: they combine operations that are modelled.
- SyncProcesses, which is unfinished, chain reorganisations, and the statuses ProofGenerating and ProofGenerated, which nothing sets.
- The timing of proofs: the block guard is modelled as its test stands, and no law says that it is the right one.
- The in-memory distinction between nil and empty byte slices, and nil weights in a batch of keys, which stop the node.
