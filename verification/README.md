# Celestia zkEVM IBC: a verified model

A Dafny 4.11 model of the parts of the Celestia zkEVM IBC demo that carry its correctness: the
Groth16 IBC light client and its store, Merkle-Patricia membership proofs, the pipeline that proves
a range of EVM blocks and relays it to the client, the layered trie database, the EVM-to-Celestia
indexer, the header keeper, and the data-square arithmetic of the block prover.
`dafny verify dfyconfig.toml` checks all of it.

| file | component |
|---|---|
| `Arithmetic.dfy`, `Bytes.dfy` | division by a variable; byte strings, fixed-width codings, lexicographic key order |
| `Keys.dfy`, `ClientStore.dfy`, `ClientWrites.dfy` | key space, reads, writes and pruning of a client store |
| `LightClient.dfy` | the client as a state machine: creation, verified updates, pruning, runs |
| `Attestation.dfy` | what a header's proof attests, and how far the stored state follows it |
| `Rlp.dfy`, `Mpt.dfy`, `Membership.dfy` | RLP, proof databases and walks, membership verdicts |
| `LayeredDb.dfy` | diff layers over a disk: reads, layer chains, commits |
| `Bincode.dfy`, `PublicValues.dfy` | the cursor buffer, the provers' encoding, the relayer's decoder |
| `Aggregation.dfy`, `Pipeline.dfy` | the aggregation program; height loop, range proof, header, whole relayed runs |
| `Indexer.dfy`, `Backfill.dfy` | the index under every interleaving; which heights a backfill visits |
| `HeaderKeeper.dfy` | header retention over every run |
| `Square.dfy` | share and row arithmetic |

The main results, each over all inputs or all runs:

- **The client's two structures agree.** In every run of creation, updates and prunings, a height's
  consensus state, metadata and index entry are present or absent together (`LightClient.Run`), so
  neighbour queries return the true neighbours and pruning removes exactly what `IsExpired` selects.
- **Trust descends to creation.** In every unpruned run each stored height is linked by verified
  proofs to the height the client was created at. A link says that a proof verified against the
  header's public values; that the stored height and root are the ones those values attest holds
  exactly for headers that repeat them (`Attestation.AttestedExactly`, `Attestation.RunIsAttested`).
- **Membership is binding**, within one client and between clients that follow the same rollup.
- **The client tracks the rollup.** In every run whose headers were built by the relayer from sound
  block proofs, the last of them for the rollup's latest block, every stored state root is the
  rollup's root at that height (`Pipeline.RunTracksRollup`), through the prover's loop, the
  aggregator's hash chain, bincode and the decoder.
- **Commit preserves reads** of the layered database, for any number of layers: always for path-keyed
  disks, and for hash-keyed ones under an exact condition on layers and disk.
- **Every interleaving of indexer workers**, with store errors and restarts, keeps the index
  justified, and stores a block exactly when some worker's store of its blob succeeded.

Where the code does something other than its comments or the obvious reading suggest, the model does
what the code does, and the exact condition is proved:

- `IsExpired` (`ibc/lightclients/groth16/consensus_state.go:42-46`) is true while the unbonding
  period has *not* passed, against its comment. Pruning is stated relative to that predicate; the
  latest state survives a prune only once that period has passed, and without it a relayer that
  trusts the latest height is refused for good: `LightClient.LatestSurvivesPruneExactly`,
  `LightClient.LostLatestIsFinal`.
- `UpdateState` stores the header's height and state root without comparing them with the public
  values it verified: `Attestation.AttestedExactly`, `Attestation.FieldsAreFree`.
- `UpdateState` assigns `LatestHeight`, so it can drop: `LightClient.LatestHeightCanDrop`,
  `LightClient.AcceptedUpdateExact`, and `LightClient.DisciplinedRun` for when it cannot.
- `latestHeight - retentionPeriod` wraps (`x/header/keeper.go:80-81`): until the retention period is
  reached, only the current header survives. `HeaderKeeper.RunIsWindow`, `HeaderKeeper.RetentionExact`.
- The backfill distance wraps (`indexer/main.go:265`): an indexer that is up to date visits the last
  101 heights again. `Backfill.VisitsExactlyMissed`, `Backfill.UpToDateVisitsAgain`.
- The indexer's HTTP lookup parses sixteen bits (`indexer/main.go:402`), so no range that ends
  at 65536 or above can be proven: `Indexer.ApiAnswersSmallNumbers`, `Pipeline.RangesEndBelowLimit`.
- The comment on `ReconstructProofDB` says "larger than 32 bytes"; the code hashes from 32 bytes on.
- `div_ceil(..) - 1` and floor division disagree at column 0: `Square.FormsAgree`, `Square.RowProofsExact`.
- Layers may close a cycle, on which the walk never ends: `LayeredDb.AddKeepsHealthyExactly`.
- The relayer's decoder lets inputs of the wrong length through: `PublicValues.EncodeOfDecodeAgg`,
  `PublicValues.ShortInputDecodes`.
- A hash-keyed commit can make a node readable that was not: `LayeredDb.HashCommitKeepsReads`.
- A failed store is skipped and the height recorded all the same: `Indexer.StoreErrorLosesBlob`,
  `Indexer.FinishedHeightsComplete`.

## Model

| member | source | states |
|---|---|---|
| `Keys.KeySpaceInjective` | ibc/lightclients/groth16/store.go:149-219 | equal keys come from equal slots: the client-state, consensus, processed-time, processed-height and iteration families are injective and pairwise disjoint over all uint64 heights, decimal parts included |
| `Keys.IterationKeyOrder` | ibc/lightclients/groth16/store.go:365-370 | iteration keys are in lexicographic order if and only if their heights are in (revision, height) order |
| `Keys.IterationKeyInverse` | ibc/lightclients/groth16/store.go:242-249 | GetHeightFromIterationKey gives back the height an iteration key was built from |
| `Keys.ParseOfDecimal` | indexer/main.go:159 | parsing the decimal form of any number gives the number back |
| `Keys.ParseOfHeightString` | ibc/lightclients/groth16/store.go:187-206 | a height string parses back to its revision and height, in that order around one dash |
| `Keys.ConsensusKeyFormat` | ibc/lightclients/groth16/store.go:20-35 | at revision 1, height 42 the consensus key is the ASCII text consensusStates/1-42 |
| `Keys.MetadataKeyFormats` | ibc/lightclients/groth16/store.go:149-182 | the metadata keys append /processedTime and /processedHeight |
| `Keys.IterationKeyFormat` | ibc/lightclients/groth16/store.go:216-219 | the iteration key of that height is iterateConsensusStates and two big-endian 64-bit numbers |
| `Bytes.LEByte` | indexer/main.go:125-131 | byte i of a little-endian coding is digit i of the number to base 256 |
| `Bytes.BEByte` | ibc/lightclients/groth16/store.go:365-370 | the same for big-endian codings, from the other end |
| `ClientStore.NextConsensusStateCorrect` | ibc/lightclients/groth16/store.go:271-291 | under the index invariant the query finds a state if and only if some stored height is above h, and it is the state at the least such height, whether or not h is stored |
| `ClientStore.PreviousConsensusStateCorrect` | ibc/lightclients/groth16/store.go:296-308 | the same for the greatest stored height below h |
| `ClientWrites.SetConsensusState` | ibc/lightclients/groth16/store.go:49-53 | writes the encoded state to the consensus slot of the height and changes nothing else |
| `ClientWrites.SetClientState` | ibc/lightclients/groth16/store.go:56-60 | writes the encoded client state to the client slot and changes nothing else |
| `ClientWrites.SetConsensusMetadata` | ibc/lightclients/groth16/store.go:376-390 | writes processed time, processed height and the index entry naming the consensus key, and changes nothing else |
| `ClientWrites.DeleteHeight` | ibc/lightclients/groth16/store.go:338-341 | removes the four keys of a height and no others |
| `ClientWrites.PutHeightKeepsIndex` | ibc/lightclients/groth16/store.go:382-390 | setting a state with its metadata keeps the index invariant; the state reads back, every other height and the client state read as before |
| `ClientWrites.MetadataReadsBack` | ibc/lightclients/groth16/store.go:153-206 | processed time and processed height of a written height read back as written, those of every other height as before |
| `ClientWrites.PutClientKeepsIndex` | ibc/lightclients/groth16/store.go:56-60 | setting the client state keeps the invariant and every consensus state, and reads back |
| `ClientWrites.CollectExpired` | ibc/lightclients/groth16/store.go:319-331 | the loop over an iteration collects the selected heights in order, stopping early exactly where a state cannot be read |
| `ClientWrites.DeleteHeights` | ibc/lightclients/groth16/store.go:338-341 | the loop removes the keys of all listed heights, one after the other |
| `ClientWrites.PruneAllExpiredConsensusStates` | ibc/lightclients/groth16/store.go:313-344 | the new store is the pruned old one; PruneExact says which keys that leaves |
| `ClientWrites.IterationVisitsStored` | ibc/lightclients/groth16/store.go:253-265 | under the invariant the iteration visits every stored height once, ascending, and every visited state can be read, so the early stop is unreachable |
| `ClientWrites.SelectedExact` | ibc/lightclients/groth16/store.go:319-331 | when every visited state can be read, the collected heights are exactly the visited expired ones |
| `ClientWrites.PruneExact` | ibc/lightclients/groth16/store.go:313-344 | a key is removed if and only if it belongs to a stored height IsExpired selects; every other key keeps its value |
| `ClientWrites.PruneKeepsIndex` | ibc/lightclients/groth16/store.go:313-344 | pruning keeps the invariant, the client state, and every state that is not expired |
| `LightClient.Initialize` | ibc/lightclients/groth16/client_state.go:100-110 | succeeds exactly for a consensus state of the right type and then writes the state, its metadata and the client state; otherwise nothing changes |
| `LightClient.InitializedFacts` | ibc/lightclients/groth16/client_state.go:100-110 | a new client satisfies the invariant, holds exactly its initial height and reads back what it was created with |
| `LightClient.UpdateState` | ibc/lightclients/groth16/client_state.go:298-356 | succeeds exactly for a header whose own proof the verifier accepts for its own public values under the client's two keys: for a verifier that decides a relation, exactly when (proof, public values, key hash, Groth16 key) is in it; names the reason otherwise; returns that height; the store changes only on success |
| `LightClient.UpdatedFacts` | ibc/lightclients/groth16/client_state.go:335-353 | after an update the invariant holds, the latest height is the header's, exactly one height is added or replaced, all else reads as before |
| `LightClient.MetadataRecorded` | ibc/lightclients/groth16/client_state.go:100-110 | a creation records the host chain's height and time for the initial height, an update for the header's height |
| `LightClient.ProcessUpdate` | ibc/lightclients/groth16/light_client_module.go:57-90 | verify-then-update accepts exactly when the client exists, the trusted height has a readable state, the header is above it and its proof verifies for its public values under the client's keys |
| `LightClient.AcceptsExactly` | ibc/lightclients/groth16/client_state.go:268-333 | the same condition for the acceptance the runs are built on |
| `LightClient.StepKeepsIndex` | ibc/lightclients/groth16/client_state.go:298-356 | every update, accepted or not, and every pruning keeps the index invariant |
| `LightClient.Run` | ibc/lightclients/groth16/client_state.go:100-110 | the store after creation and any sequence of updates and prunings satisfies the index invariant |
| `LightClient.TrustChain` | ibc/lightclients/groth16/client_state.go:277-356 | over every unpruned run: the initial state is never overwritten, only the latest height of the client state ever changes, it has a stored state, and every other stored height has a verified link to a strictly smaller stored one |
| `LightClient.TrustPathExists` | ibc/lightclients/groth16/client_state.go:277-295 | the links of any stored height form an ascending path from the height the client was created at |
| `LightClient.LinksAreProven` | ibc/lightclients/groth16/client_state.go:317-333 | with verifiers that decide what is proven, in every unpruned run each stored height but the initial one comes from a header whose proof proves its public values under the keys the client was created with, from a smaller stored height |
| `LightClient.DisciplinedStep` | testing/demo/pkg/transfer/update_groth16_client.go:165-174 | an accepted header that trusts the client's latest height strictly raises it and overwrites nothing; a rejected one changes nothing |
| `LightClient.DisciplinedRun` | testing/demo/pkg/transfer/update_groth16_client.go:113-144 | between any moment and the end of a disciplined unpruned run, the latest height does not drop, is the greatest stored one, and no stored state changes |
| `LightClient.AcceptedUpdateExact` | ibc/lightclients/groth16/client_state.go:341-353 | an accepted update raises the latest height if and only if its height is above it, and keeps all stored states if and only if its height is new or holds the same state already |
| `LightClient.SecondUpdateWins` | ibc/lightclients/groth16/client_state.go:344-345 | two updates that trust the initial height are both accepted whatever their heights, and the latest height is the second's |
| `LightClient.LatestHeightCanDrop` | ibc/lightclients/groth16/client_state.go:344-345 | a run in which the latest height goes from 10 to 7 |
| `LightClient.LatestSurvivesPruneExactly` | ibc/lightclients/groth16/store.go:313-344 | the state at the latest height survives a prune if and only if its timestamp plus the unbonding time is at most the block time; otherwise every header that trusts the latest height is refused |
| `LightClient.LostLatestIsFinal` | ibc/lightclients/groth16/client_state.go:277-295 | from a store whose latest height has no state, in every continuation by a relayer that trusts the latest height, with prunings, no update is ever accepted, the client state stays and stored heights only disappear |
| `Attestation.AttestedExactly` | ibc/lightclients/groth16/client_state.go:317-353 | after an accepted update the latest height and its stored root are the ones the verified public values attest if and only if those values decode and the header repeats both |
| `Attestation.FieldsAreFree` | ibc/lightclients/groth16/client_state.go:317-353 | an accepted header with another state root and another height is accepted if and only if that height is above the trusted one, and both are stored as given |
| `Attestation.RunIsAttested` | ibc/lightclients/groth16/client_state.go:298-356 | in every unpruned run of headers that repeat their public values, each stored height but the initial one holds a root that a header's public values attest for that height, and the header's proof was accepted for those values, and proves them, under the creation keys |
| `Rlp.SplitStringOfEncode` | ibc/lightclients/groth16/client_state.go:178 | decoding a string off the front of its RLP encoding gives it back with whatever follows |
| `Rlp.StringBytes` | ibc/lightclients/groth16/client_state.go:178 | the bytes of Appendix B for strings: the single byte, the 55-byte boundary, and the length bytes without leading zero |
| `Rlp.ListBytes` | ibc/lightclients/groth16/client_state.go:157 | the bytes of Appendix B for lists |
| `Rlp.EncodeStringInjective` | ibc/lightclients/groth16/client_state.go:178-182 | two byte strings with equal RLP encodings are equal |
| `Rlp.EncodeAccountInjective` | ibc/lightclients/groth16/client_state.go:151-164 | the RLP list of nonce, balance, storage hash and code hash determines all four |
| `Rlp.AccountBytes` | ibc/lightclients/groth16/client_state.go:151-157 | the account list holds nonce, balance, storage hash and code hash in that order, the integers without leading zeros |
| `Membership.BytesToHashValue` | ibc/lightclients/groth16/client_state.go:142 | a stored root of 32 bytes is used as it is; any other keeps its number modulo 2^256 |
| `Mpt.ReconstructProofDB` | ibc/mpt/mpt.go:26-39 | the loop builds the database in which later nodes replace earlier ones under the same key |
| `Mpt.ProofDbSound` | ibc/mpt/mpt.go:26-39 | every entry is a node of the proof under its own key, and every node of the proof has an entry under its key |
| `Mpt.LastNodeWins` | ibc/mpt/mpt.go:28-35 | a node added to a proof is what its key then holds, and no other key changes |
| `Mpt.HashKeyed` | ibc/mpt/mpt.go:28-35 | a node found under a 32-byte key hashes to that key |
| `Mpt.WalkExact` | ibc/mpt/mpt.go:20 | the walk proves v, or absence, or fails on a malformed node, if and only if hashed nodes of the proof form a path from the root, each handing the rest of the key to the hash of the next, whose last node says so; the second half up to a collision in the proof |
| `Mpt.VerifyProofExact` | ibc/mpt/mpt.go:15-21 | verification yields v if and only if such a path ends at v, or v is empty and one ends in absence; the second half up to a collision |
| `Mpt.MoreSteps` | ibc/mpt/mpt.go:20 | a walk that finishes has the same outcome under any larger step bound |
| `Mpt.WalksAgree` | ibc/mpt/mpt.go:15-21 | two proofs that settle a key under the same root settle it the same way, or a node of one collides with a node of the other |
| `Mpt.WalkMonotone` | ibc/mpt/mpt.go:26-39 | reordering, repeating or adding nodes does not change a settled outcome, unless nodes collide |
| `Membership.AcceptedExactly` | ibc/lightclients/groth16/client_state.go:139-187 | a proof is accepted if and only if its account path from the root ends at the encoding of the reported account and its storage path from the reported storage hash at the encoded value, the second half up to a collision; absence is never accepted |
| `Membership.VerdictExact` | ibc/lightclients/groth16/client_state.go:127-187 | the client's verdict at a height is that condition for the root with the number of the stored one modulo 2^256 |
| `Membership.StoredRootDecides` | ibc/lightclients/groth16/client_state.go:127-187 | with a stored root of 32 bytes the verdict is that condition for that root; without a readable state or a parsed proof it is the corresponding error |
| `Membership.BindingUnderRoot` | ibc/lightclients/groth16/client_state.go:139-187 | two proofs accepted under the same state root for the same address and storage key carry the same value, whatever their node lists and other fields, or exhibit a Keccak collision |
| `Membership.MembershipBinding` | ibc/lightclients/groth16/client_state.go:127-187 | the same within one store at one height, whatever the node lists |
| `Membership.MembershipMonotone` | ibc/lightclients/groth16/client_state.go:127-187 | an accepted proof stays accepted when its node lists are reordered, repeated or extended, unless nodes collide |
| `Membership.MembershipStable` | ibc/lightclients/groth16/client_state.go:127-187 | in a disciplined unpruned run the verdict at a stored height, positive or negative, never changes |
| `LayeredDb.ReadNode` | ibc/mpt/database.go:41-58 | the loop finds the newest layer that has the owner and path, fails if its node is deleted or has another hash, and falls through to the disk otherwise |
| `LayeredDb.DiskReads` | ibc/mpt/database.go:57 | the disk delivers a node exactly when it holds it under its hash, or under its owner and path and with the right hash |
| `LayeredDb.ReadByNewest` | ibc/mpt/database.go:41-58 | a read depends on the newest layer with the owner and path alone, or on the disk when no layer has them |
| `LayeredDb.Dirties` | ibc/mpt/database.go:108-131 | when the walk ends it returns the chain newest first, or its exact reverse, each root with its layer |
| `LayeredDb.ChainDistinct` | ibc/mpt/database.go:113-129 | a walk that ends visits no layer twice |
| `LayeredDb.ChainBoundIrrelevant` | ibc/mpt/database.go:113-129 | the visited chain does not depend on the step bound |
| `LayeredDb.TestDb.Update` | ibc/mpt/database.go:96-106 | adds the layer and its parent unless the root is its own parent or known; UpdateReads says what is then read |
| `LayeredDb.UpdateReads` | ibc/mpt/database.go:96-106 | after an update the new root's layers are the given layer on top of the parent's, so a read finds the layer's live nodes first and otherwise reads as the parent did |
| `LayeredDb.OtherLayersKept` | ibc/mpt/database.go:96-106 | every root whose walk does not end at the new root keeps its chain and its layers |
| `LayeredDb.LayersThroughNew` | ibc/mpt/database.go:96-106 | a root whose walk ended at the new root now reads on through the new layer and the parent's layers |
| `LayeredDb.TestDb.NodeReader` | ibc/mpt/database.go:81-84 | the reader's layers are those of the chain from the state root, newest first |
| `LayeredDb.AddKeepsHealthy` | ibc/mpt/database.go:96-106 | adding a fresh root keeps every walk finite, layers and parents paired, and the disk root out of the layers |
| `LayeredDb.AddKeepsHealthyExactly` | ibc/mpt/database.go:96-131 | for every root and parent, an update keeps all walks finite if and only if it changes nothing, or its root is the disk root, or the walk from its parent does not end at the new root; it keeps a healthy tree healthy under the same condition but for a layer under the disk root |
| `LayeredDb.CyclicWalkNeverEnds` | ibc/mpt/database.go:113-129 | two layers that name each other as parents make the walk endless |
| `LayeredDb.DropKeepsHealthy` | ibc/mpt/database.go:152-155 | forgetting a committed chain keeps every walk finite |
| `LayeredDb.DropKeepsLayers` | ibc/mpt/database.go:152-155 | after a commit a root's walk is what it was up to the first committed root, and no remaining layer changes |
| `LayeredDb.HistoryStaysHealthy` | ibc/mpt/database.go:96-157 | over every sequence of updates with fresh roots and commits the parent relation stays acyclic and every walk from every root ends |
| `LayeredDb.WriteLayer` | ibc/mpt/database.go:139-149 | whatever order owners and paths are taken in, each targeted disk key ends with the blob of one of its nodes and every other key is unchanged |
| `LayeredDb.TestDb.WritePending` | ibc/mpt/database.go:138-151 | layers are written oldest first and the disk root ends at the newest |
| `LayeredDb.TestDb.ForgetRoots` | ibc/mpt/database.go:152-155 | exactly the listed roots leave both maps |
| `LayeredDb.TestDb.Flush` | ibc/mpt/database.go:138-155 | the pending layers are on disk oldest first, the last root is the disk root, and exactly those roots are forgotten |
| `LayeredDb.TestDb.Commit` | ibc/mpt/database.go:133-157 | the chain of the root leaves the tree, the root becomes the disk root, and the disk holds the chain's layers written oldest to newest |
| `LayeredDb.CommittedChainIsEmpty` | ibc/mpt/database.go:108-131 | after a commit a reader for that root has no layers left |
| `LayeredDb.PathCommitExact` | ibc/mpt/database.go:133-157 | path-keyed: the disk after committing any number of layers answers every read as layers over disk did before |
| `LayeredDb.PathCommitKeepsReads` | ibc/mpt/database.go:81-157 | path-keyed: NodeReader(root) delivers the same bytes for every owner, path and hash before and after Commit(root); the result, with its error, is the same if and only if no layer has the owner and path or the newest one that does has the node |
| `LayeredDb.PathCommitKeepsDescendants` | ibc/mpt/database.go:81-157 | path-keyed: committing a root changes no read through any root above it |
| `LayeredDb.HashCommitPreserves` | ibc/mpt/database.go:133-157 | hash-keyed, without collisions: the disk after the commit has a hash if and only if some layer carried a live node with it or the disk had it; and what layers over disk delivered is what the disk then delivers |
| `LayeredDb.HashCommitKeepsReads` | ibc/mpt/database.go:81-157 | hash-keyed: a read through NodeReader(root) delivers the same bytes before and after Commit(root) if and only if the newest layer with the owner and path has the node, or no layer has them and the disk has the hash, or neither layers nor disk have the hash; likewise an exact condition for the same result with its error; every successful read is kept |
| `LayeredDb.ReplacedNodeUnreadable` | ibc/mpt/database.go:43-55 | hash-keyed: a node an upper layer replaced cannot be read before the commit |
| `LayeredDb.ReplacedNodeRevived` | ibc/mpt/database.go:138-151 | hash-keyed: after the commit it can, so failed reads are not preserved |
| `Bincode.DecodeOfEncode` | provers/blevm/blevm-aggregator/src/buffer.rs:33-53 | decoding a typed value off the front of its encoding gives it back with whatever follows |
| `Bincode.EncodeOfDecode` | provers/blevm/blevm-aggregator/src/buffer.rs:33-39 | what decodes is the encoding of the decoded value followed by the rest, so the serialized size is what was consumed |
| `Bincode.Buffer.From` | provers/blevm/blevm-aggregator/src/buffer.rs:19-24 | a buffer over the data with the cursor at the start |
| `Bincode.Buffer.Read` | provers/blevm/blevm-aggregator/src/buffer.rs:33-39 | returns the value whose encoding stands at the cursor and moves the cursor just past it; fails exactly when nothing of that type stands there |
| `Bincode.Buffer.Write` | provers/blevm/blevm-aggregator/src/buffer.rs:49-53 | appends the encoding and leaves the cursor |
| `Bincode.WriteThenRead` | provers/blevm/blevm-aggregator/src/buffer.rs:33-53 | any sequence of writes is returned in order by the same sequence of typed reads, with the cursor at the end of the data |
| `PublicValues.ParseOfEncodeOutput` | provers/blevm/common/src/lib.rs:3-13 | the aggregator's buffer reads back every block output the block program commits |
| `PublicValues.OutputLayout` | provers/blevm/common/src/lib.rs:3-13 | an encoded block output is its eight fields in the order of the struct, the numbers in eight little-endian bytes |
| `PublicValues.AggLayout` | provers/blevm/common/src/lib.rs:15-33 | an encoded aggregate is two hashes, a length, that many hashes, the state root and the height |
| `PublicValues.DecodePublicValues` | testing/demo/pkg/transfer/update_groth16_client.go:81-111 | a read error below 64 bytes; success exactly when the announced hashes and a state root fit; then the announced fields, with the height from the last eight bytes |
| `PublicValues.DecodeOfEncodeAgg` | testing/demo/pkg/transfer/update_groth16_client.go:81-111 | the decoder returns every aggregate output the prover encodes, with no slice out of range |
| `PublicValues.EncodeOfDecodeAgg` | testing/demo/pkg/transfer/update_groth16_client.go:94-107 | a decoded input is the encoding of the result if and only if it has the announced length |
| `PublicValues.ShortInputDecodes` | testing/demo/pkg/transfer/update_groth16_client.go:106-107 | 104 bytes that announce no hashes decode, with a height made of the last eight bytes of the state root, and do not re-encode to themselves |
| `PublicValues.ShortInputExists` | testing/demo/pkg/transfer/update_groth16_client.go:96 | 104 zero bytes are such an input |
| `Aggregation.CheckProofs` | provers/blevm/blevm-aggregator/src/main.rs:21-27 | passes if and only if every pair of key and public values has a proof |
| `Aggregation.ParseAll` | provers/blevm/blevm-aggregator/src/main.rs:29-34 | succeeds if and only if all public values parse, and yields the outputs in order |
| `Aggregation.CheckAdjacent` | provers/blevm/blevm-aggregator/src/main.rs:36-41 | passes if and only if every block names its predecessor in the list as parent |
| `Aggregation.CommitOutputs` | provers/blevm/blevm-aggregator/src/main.rs:36-56 | commits if and only if the list is not empty and adjacent blocks link, and then to its first and last block and all Celestia hashes |
| `Aggregation.Aggregate` | provers/blevm/blevm-aggregator/src/main.rs:13-59 | commits if and only if counts match, all proofs verify, all values parse, the list is not empty and adjacent blocks link; then to its first and last block |
| `Aggregation.ConsecutiveHeights` | provers/blevm/blevm-aggregator/src/main.rs:36-41 | in an accepted list of faithful outputs without a header collision, block i is at the first height plus i and its parent is block i - 1 |
| `Aggregation.AggregateIsRange` | provers/blevm/blevm-aggregator/src/main.rs:36-56 | the aggregate of N blocks has the newest height first + N - 1, the last block's root, the end blocks' hashes, and N Celestia hashes in block order |
| `Aggregation.SplitAndJoin` | provers/blevm/blevm-aggregator/src/main.rs:36-56 | a list is accepted if and only if both halves are and the boundary links; its aggregate is the join of theirs |
| `Pipeline.Resolve` | provers/evm-prover/src/main.rs:204-231 | between 1 and 11 lookups per height, all but the last "not found"; the result is the first other answer, and there is none exactly when that is a failure or all eleven say "not found" |
| `Pipeline.InputForExact` | provers/evm-prover/src/main.rs:203-254 | an input for a height is built if and only if one of the first eleven lookups finds the block after "not found" only, the commitment has 32 bytes, the executor has an input for the height, and the blob with that commitment is at the Celestia height found; it holds exactly these three |
| `Pipeline.CollectInputs` | provers/evm-prover/src/main.rs:203-255 | succeeds if and only if the services can build an input for every height in trusted+1..latest, and yields them in order |
| `Pipeline.ProveBlockRange` | provers/blevm/blevm-prover/src/prover.rs:430-452 | succeeds if and only if there are at least two blocks, all proofs exist and the aggregation commits; yields the encoded aggregate |
| `Pipeline.ProveStateTransition` | provers/evm-prover/src/main.rs:172-268 | refuses exactly when latest <= trusted; answers exactly when latest >= trusted+2 and the range is provable, with the aggregate of the proofs of the inputs the services build for trusted+1..latest, in order |
| `Pipeline.ChainBelowAnchor` | provers/blevm/blevm-aggregator/src/main.rs:36-41 | in an accepted list the blocks below a rollup block are the rollup's blocks, through parent hashes alone |
| `Pipeline.AnchoredRange` | provers/evm-prover/src/main.rs:188-267 | when block proofs are sound and one block of the range is known to be the rollup's, the hash chain puts every block at its height, and every block up to that one is the rollup's, with its hash and state root |
| `Pipeline.ResponseDescribesRange` | provers/evm-prover/src/main.rs:188-267 | from sound proofs and one anchored block: the decoded response has the latest height, the rollup's hash of block trusted+1 and latest - trusted Celestia hashes; anchored at the last block, also the rollup's root and hash there |
| `Pipeline.AssumptionsCanBeMet` | provers/evm-prover/src/main.rs:188-260 | sound proofs anchored at the last block exist for every range of at least two blocks |
| `Pipeline.RangesEndBelowLimit` | indexer/main.go:402-420 | if lookups are answered from an index over HTTP, every provable range ends below 65536 |
| `Pipeline.GetHeader` | testing/demo/pkg/transfer/update_groth16_client.go:113-144 | yields a header exactly when the range is provable and the trusted-height and timestamp queries answer; its height and root are those decoded from its public values, its trusted height is the one read after the proof |
| `Pipeline.RelayedHeaderFaithful` | testing/demo/pkg/transfer/update_groth16_client.go:134-141 | a relayed header whose last block is the rollup's names the rollup's latest height, at least two above the proof's start, and that block's root |
| `Pipeline.RelayRound` | testing/demo/pkg/transfer/update_groth16_client.go:113-174 | with a verified proof the client takes the header if and only if the range ends above its latest height, and then ends at the rollup's latest height and root; otherwise nothing changes |
| `Pipeline.RunTracksRollup` | testing/demo/pkg/transfer/update_groth16_client.go:113-144 | in every run of prunings and of updates relayed from sound proofs that end at the rollup's latest block, every consensus state a client can read has the rollup's state root at that height |
| `Pipeline.ClientsAgree` | ibc/lightclients/groth16/client_state.go:127-187 | any two clients that follow one rollup in such runs never accept different values for the same height, address and storage key, barring a collision |
| `Indexer.LookupIsLastWrite` | indexer/main.go:120-190 | getMapping answers with the last stored write for the number through the little-endian coding, and "not found" exactly when there is none |
| `Indexer.ApiAnswersSmallNumbers` | indexer/main.go:402-430 | the HTTP lookup answers a number below 65536 with the Celestia height and commitment of its last write, or "not found" when there is none, and refuses every other number |
| `Indexer.Database.StoreMapping` | indexer/main.go:120-135 | the bucket gains or replaces the one entry of the block number |
| `Indexer.Database.UpdateLastProcessedHeight` | indexer/main.go:138-144 | the last processed height is stored in decimal |
| `Indexer.Database.ProcessHeight` | indexer/main.go:334-382 | the index becomes the replay of earlier writes followed by one write per decodable, successfully stored blob in order; a failed fetch changes nothing |
| `Indexer.EveryRunSound` | indexer/main.go:251-382 | in every interleaving of workers, with store errors and restarts, the index is the replay of the writes so far, every write is justified by a blob at its height, and the last processed height is the last one finished |
| `Indexer.EveryAnswerJustified` | indexer/main.go:167-190 | in every interleaving an indexed entry n -> (h, commitment) has a blob at Celestia height h with that commitment that decodes to block n |
| `Indexer.LogExact` | indexer/main.go:348-375 | in every interleaving a mapping was written if and only if some worker busy at its height had a successful store for a blob that decodes to its number with its commitment |
| `Indexer.IndexedExactly` | indexer/main.go:120-190 | in every interleaving a block can be looked up if and only if some worker's store of a blob that decodes to it succeeded |
| `Indexer.FinishedHeightsComplete` | indexer/main.go:348-381 | in every interleaving all decodable blobs of a height are stored if and only if each has a successful store by a worker at that height; a height recorded as processed has them all when no store failed |
| `Indexer.FinishedExact` | indexer/main.go:377-381 | in every interleaving a height counts as processed if and only if some worker recorded it after handling all its blobs |
| `Indexer.LastProcessedExact` | indexer/main.go:138-144 | the stored last processed height is that of the last such event, and there is none exactly when there was no such event |
| `Indexer.LastHeightRead` | indexer/main.go:147-164 | it reads back as that height, and as zero when there is none |
| `Indexer.LastProcessedIsIndexed` | indexer/main.go:147-164 | then every decodable block at the height read back as last processed can be looked up |
| `Indexer.UninterruptedWork` | indexer/main.go:334-382 | the steps of one worker on its own write what processing the height in one go writes |
| `Indexer.StoreErrorLosesBlob` | indexer/main.go:370-381 | one store error suffices for a recorded height to miss a block |
| `Backfill.StartIsFirstVisited` | indexer/main.go:262-268 | the wrapped start height is the first visited height of the unbounded description whenever the loop runs, and never more than 100 below latest |
| `Backfill.VisitHeights` | indexer/main.go:259-274 | the loop ends for every last height and every latest below 2^64-1 after at most 101 heights, which are one interval ending at latest: max(last+1, latest-100)..latest when the node is ahead, the last 101 heights again when the indexer is up to date at 100 or later |
| `Backfill.VisitsExactlyMissed` | indexer/main.go:263-272 | exactly the missed heights are visited if and only if at most 101 were missed, or none was and the wrapped distance stays within the limit |
| `Backfill.UpToDateVisitsAgain` | indexer/main.go:263-272 | an indexer that has processed height 100 of 100 visits 0..100 |
| `HeaderKeeper.LatestIsGreatest` | x/header/keeper.go:101-115 | the reverse iterator's first key is a saved height and no saved height exceeds it |
| `HeaderKeeper.Keeper.DeleteBelow` | x/header/keeper.go:83-97 | deletes keys in order up to the first one not below the bound |
| `HeaderKeeper.Keeper.PruneBelow` | x/header/keeper.go:83-97 | what remains is exactly the headers at or above the bound, although the loop stops early |
| `HeaderKeeper.Keeper.PruneHeaders` | x/header/keeper.go:67-99 | the bound is the latest saved height minus the retention period, wrapped; an empty store is left alone |
| `HeaderKeeper.Keeper.BeginBlocker` | x/header/keeper.go:29-44 | prunes, then saves the current hash |
| `HeaderKeeper.RunIsWindow` | x/header/keeper.go:29-115 | after blocks 1..n the saved heights are one interval ending at n, each with its own hash, at most retentionPeriod+2 of them, and only n itself while the bound wraps |
| `HeaderKeeper.RetentionExact` | x/header/keeper.go:80-97 | pruning keeps everything within the retention period of the latest height if and only if that height has reached the retention period |
| `Square.FloorFormCorrect` | provers/blevm/blevm-prover/src/prover.rs:219-220 | for a share in the original quarter the floor form gives its row, and the index row*k + column |
| `Square.OdsIndexBijective` | provers/blevm/blevm-prover/src/prover.rs:219-220 | rows and columns below k correspond one to one to 0..k*k-1 |
| `Square.FormsAgree` | provers/blevm/blevm-prover/src/proofs.rs:78 | the ceiling form equals the floor form if and only if the index is not a multiple of 2k, and is one less otherwise |
| `Square.RowRangeExact` | provers/blevm/blevm-prover/src/proofs.rs:77-80 | the rows from the first share's to the computed last row are exactly the rows the blob's shares meet |
| `Square.RowRangeInBounds` | provers/blevm/blevm-prover/src/proofs.rs:95-99 | a blob that fits in the square has its row range within the square |
| `Square.RowProofsExact` | provers/blevm/blevm-prover/src/proofs.rs:77-99 | the row proofs cover exactly the rows the blob's shares meet if and only if the blob does not start at column 0 |

## Left out

- gRPC, HTTP, bolt, Celestia and Ethereum RPC, environment variables, timeouts and printing: their answers are parameters (`Verifier`, `World`, `Celestia`, `fetched`, `stored`).
- SP1 proving and verifying, Groth16 pairing, EVM execution, NMT and share proofs: a check is a parameter, and what a proof guarantees is the explicit assumption `Faithful`, or `SoundWorld` with `Anchored`.
- Keccak-256 is an arbitrary function into 32 bytes. No function from all byte strings into 32 bytes is injective, so results that rest on collision resistance are stated as "or these nodes collide", or assume that the blobs in play do not.
- Decoding of a trie node and the choice of its child are a parameter of the walk (Appendix D of the Ethereum Yellow Paper is not modelled); the walk carries a step bound, and a walk that never finishes is `OutOfSteps`. `Mpt.MoreSteps` shows that the bound does not matter once a walk finishes.
- The protobuf codec is a parameter with the round-trip law `Lawful`; a stored client state that does not decode makes the source panic and is "not found" here.
- JSON parsing of membership proofs: a proof that does not parse is `None`; a missing balance, on which the source panics, is an error.
- verifyNonMembership, whose own comment calls it incorrect; GetHeaderHash, which looks its result up a second time; IterateConsensusMetadata; misbehaviour, upgrade and recovery stubs; simapp wiring.
- A rejected update leaves the store unchanged because its transaction is rolled back; the transaction machinery itself is not modelled.
- Store iterators are taken over the contents at the time they are opened; deleting the current key during an iteration does not disturb the rest.
- The layered database's disk keys are abstract (`DiskKey`) instead of rawdb's byte prefixes; preimages are left out. Go's random map order is covered: owners and paths are taken in any order.
- Bincode over u64, byte arrays, vectors and structs only. Buffer::head, read_slice and write_slice would add only easy members.
- In DecodePublicValues a slice beyond the length of its input is out of range; Go would allow it up to the input's capacity. An announced length too large to allocate is out of range as well.
- RLP payloads and values are shorter than 2^64 bytes.
- The indexer's workers may take up any height in any order, which covers the live loop and the backfill goroutines; the order in which one goroutine takes its heights is in `Backfill` alone.
- Merkle tree construction in the row proofs; 64-bit overflow in the square arithmetic, other than the underflow at index 0, which is excluded from `Square.RowProofsExact`.
- In prove_state_transition the queries for the latest and the trusted height are taken to answer; a failed one is an error with no other effect.
- The mock mode of the aggregation prover, which skips proof verification.
- LayeredDb.TestDb.Commit: requires that every layer of the chain has a zero-owner set, because the source dereferences nil otherwise, and that the walk ends, because the source loops forever otherwise.
- ClientWrites.PruneAllExpiredConsensusStates: requires a well-formed index, because the source slices out of range on a malformed index key.
