# A verified model of the DHTDynamic audit strategy

This project models a dynamic provable-data-possession scheme: a client signs the blocks of a file, a verifier later
challenges some of them, and a prover shows with one short proof that it still holds them. Blocks are updated, inserted
and deleted while the file is stored, and a state store remembers a version and a timestamp for each of them. A tag signs
the position, the stored metadata and the content of its block, so tags, store and content have to stay in agreement.

The main results, each for all inputs:

- **Exact acceptance.** For arbitrary tags, content and challenges the verifier accepts the prover's proof exactly when a
  secret factor vanishes or the total error of the items is zero modulo the group order
  (`AuditTheorems.ExactAcceptance`). Completeness, detection of a single wrong tag, detection of altered content, the
  exact effect of skipped items and independence of the item order follow from it.
- **Agreement over whole runs.** From the first tagging on, through any run of update, insert and delete requests of any
  size, every stored tag is the signature of its index, the current metadata and the content, as long as the caller
  retags what it touched (`Agreement.RunKeepsAgreement`); every honest audit of such a state is accepted
  (`Agreement.EveryAuditOfARunPasses`, `ChallengeTheorems.IssuedAuditPasses`), also when the challenge travels
  through the codec (`Transport.ReceivedAuditPasses`). When tags are carried along with their blocks instead of being
  remade, an audit passes exactly when the weighted gaps between old and expected hashes cancel out
  (`Staleness.CarriedAudit`), and a single carried tag is right exactly when two hashes collide (`Staleness.CarriedTag`).
- **The store refines a list.** The clear-and-rebuild loops realise exact shift maps on sparse files, and list insertion,
  removal and update on dense ones, over any run. Versions and timestamps are found by tracing a block backwards through
  every shift (`Runs.VersionHistory`). No two slots ever share a metadata object.
- **Concurrent tagging.** Any number of workers interleave at every store access of a registered file. If no two of them
  want the same block that the store does not hold yet, every schedule ends where the same requests one after the other
  would end (`Concurrency.ConcurrentRunIsSequential`), and the merged tags pass any audit
  (`Concurrency.MergedTagsPassAudit`). That condition is exact: some schedule leaves a stale tag if and only if it fails
  (`Schedules.StaleExactlyWhenShared`). Some schedule throws if and only if the file is unregistered and there are at
  least two requests (`Schedules.ThrowsExactlyWhenUnregistered`).
- **Challenges.** Issued challenges are distinct, in range, bound to the store and blinded, and the retry loops terminate
  on fair streams. The codec decodes exactly the encodings.

How the model is written:

- Group elements are integer exponents modulo a prime group order `n`; the pairing multiplies exponents. The hash to the
  curve is an arbitrary function of the byte string. Whether the pairing refuses points at infinity is a parameter
  (`strict`), because the library behind it decides. Nothing is assumed: that the integers modulo a prime have no zero
  divisors is proved in `Modular`.
- Machine integers are integers below 2^64 and wrap where the code wraps: `blockIndex - 1` at index 0, `idx + 1` at the
  last slot, and `++version`.
- Scalars and the archive's integers are little-endian, as on the supported hosts; the block index inside the hash
  preimage is big-endian, as the code writes it. The raw-struct and binary fields of the archive are taken to be the bare
  bytes, 192 for a G2 point and 32 for a scalar.
- The clock and all random sources are parameters: arbitrary functions for timestamps, arbitrary streams for random
  draws. The loops that redraw need a fairness condition on the stream to terminate, and only for that.
- A C++ exception is a result value, and contracts state what the store looks like after it.
- Classes are kept where the code updates objects in place: metadata objects, collections, the store, archives and the
  challenge set. Specifications speak about the values behind the objects (`View`).

Where the code and its comments differ, the model follows the code:

- Comments ask for coefficients and scalars in Z_q*. The code checks that 32 raw bytes are not all zero, so a non-zero
  multiple of the group order passes (`ChallengeTheorems.OrderPassesRawCheck`, `ChallengeTheorems.UncheckedBlock`).
  Theorems therefore carry the case of a vanishing factor explicitly.
- `insertBlock` does not check the index. An index past the end leaves a gap (`Slots.InsertRefinesList` says exactly
  when), after which the entry count is no longer the largest index (`ChallengeTheorems.KnownExactlyWhenDense`).
- The verifier never skips an item although the prover does (`AuditTheorems.SkippedItems`).
- The documentation of tag generation asks the caller to make the new tags before `maintenance()` is called. A tag binds
  the stored metadata, so the order has to be the other way round: tags made first are stale after the update
  (`Staleness.TaggingBeforeUpdate`). The agreement theorems are about maintenance followed by tagging.
- An empty selector means the whole window. A caller with nothing to retag, as after the deletion of the last blocks,
  must not generate tags at all (`Agreement.MaintainAndRetag`).
- The comments cite sections 6.5 to 6.7 of a specification that the repository neither contains nor names; all formulas
  are taken from the code.

## Model

| member | source | states |
|---|---|---|
| Encoding.MetadataRoundTrip | source/state_stores/versioned_block_metadata.cpp:36-46 | the fixed-width metadata codec loses nothing |
| Encoding.ComputeBlockHash | source/common.cpp:43-62 | the hash is taken of the file, the index from its top byte down, then version and timestamp from their low bytes up, byte by byte |
| Encoding.ParseInvertsPreimage | source/common.cpp:51-60 | a preimage can be read back from its end, without a length prefix |
| Encoding.PreimageInjective | source/common.cpp:51-60 | two blocks share a preimage only if file, index, version and timestamp agree |
| Encoding.AccumulateBlockSegmentsScalar | source/common.cpp:93-124 | the sum over all bytes, byte i weighing 256^(i mod 32), modulo n |
| Encoding.SegmentSumWeighsBytes | source/common.cpp:98-121 | segments are 32 bytes long and read from their low byte up |
| Bytes.LowBytesFirst | source/state_stores/versioned_block_metadata.cpp:36-46 | the eight bytes of a field, from the low byte up |
| Encoding.SegmentSumAdditive | source/common.cpp:98-121 | segment sums add over concatenation at 32-byte boundaries |
| Encoding.AccumulateBlockSegmentsG1 | source/common.cpp:68-87 | one multiplication by the scalar sum is the sum of one point multiplication a segment |
| Encoding.PointSumIsScalarSum | source/common.cpp:68-87 | the documented point sum equals the scalar form, for blocks of any length |
| Audit.GenerateProofs | source/generate_proofs.cpp:65-188 | the proof in closed form, and exactly when there is one: some index from 1 on with a finite tag, and no failing pairing |
| Audit.AggregateHash | source/generate_proofs.cpp:250-269 | the verifier's fold is the weighted sum of all block hashes; it skips nothing |
| Audit.VerifyProofs | source/generate_proofs.cpp:194-313 | for each verdict the exact inputs that get it, the equation included |
| Audit.SumPermutation | source/generate_proofs.cpp:100-160 | weighted sums do not depend on item order |
| AuditTheorems.SumsBalance | source/generate_proofs.cpp:100-160 | prover sums, verifier sum and item errors balance over any challenge set |
| AuditTheorems.EquationIsError | source/generate_proofs.cpp:277-309 | the verification equation is r times g times the total error, through y = [a]g and R = [r]y |
| AuditTheorems.ExactAcceptance | source/generate_proofs.cpp:254-308 | acceptance for arbitrary tags and content, as an exact condition |
| AuditTheorems.Completeness | source/generate_proofs.cpp:92-188 | honest tags for all items: a proof exists and is accepted, up to the guards |
| AuditTheorems.HonestAuditPasses | source/generate_proofs.cpp:92-308 | finite honest tags for indices from 1 on: the proof exists and is accepted, with what has to be finite listed |
| AuditTheorems.SkippedAddsNothing | source/generate_proofs.cpp:101-131 | an item of index 0, without a tag, with a tag at infinity or with a failing pairing leaves the proof as it is |
| AuditTheorems.TaggedItemAdds | source/generate_proofs.cpp:126-159 | any other item adds its weighted signature and segment sum |
| AuditTheorems.SingleWrongTag | source/generate_proofs.cpp:254-308 | one wrong tag is rejected unless a factor vanishes |
| AuditTheorems.AlteredContent | source/generate_proofs.cpp:151-157 | one altered block is noticed exactly when its segment sum changes modulo n, unless a factor vanishes |
| AuditTheorems.SkippedItems | source/generate_proofs.cpp:100-166 | with honest present tags the full challenge is accepted exactly when the weighted hashes of the skipped items vanish |
| AuditTheorems.ProofOfSublist | source/generate_proofs.cpp:100-166 | the proof is the proof of the present items alone |
| AuditTheorems.StaleSignature | source/generate_tags.cpp:241-271 | signatures of different index or metadata agree exactly when the hashes collide |
| AuditTheorems.OrderIndependence | source/generate_challenges.cpp:153-196 | proof and verdict are the same for every order of the items |
| Slots.InsertKeepsEntries | source/state_stores/dynamic_hash_table_state_store.cpp:199-236 | on sparse files too every entry is kept, those from the index on one slot higher, and nothing else is added |
| Slots.DeleteKeepsEntries | source/state_stores/dynamic_hash_table_state_store.cpp:258-285 | every entry but the deleted one is kept, those above one slot lower |
| Slots.InsertAtIndexZero | source/state_stores/dynamic_hash_table_state_store.cpp:199-200 | index 0 is not refused and lands in the very last slot |
| Slots.DeleteUndoesInsert | source/state_stores/dynamic_hash_table_state_store.cpp:186-286 | deleting an inserted block restores the file exactly when no entry sat in the last slot |
| Slots.InsertsCommute | source/state_stores/dynamic_hash_table_state_store.cpp:186-237 | insertions commute after adjusting the upper index by one |
| Slots.DeletesCommute | source/state_stores/dynamic_hash_table_state_store.cpp:239-286 | deletions commute after adjusting the upper index by one |
| Slots.InsertBelowDelete | source/state_stores/dynamic_hash_table_state_store.cpp:186-286 | an insertion below a deletion moves the deleted index up |
| Slots.InsertAboveDelete | source/state_stores/dynamic_hash_table_state_store.cpp:186-286 | an insertion above a deletion lands one lower |
| Slots.InsertRefinesList | source/state_stores/dynamic_hash_table_state_store.cpp:186-237 | insertion is list insertion, and keeps a file dense exactly at 1 to count + 1 |
| Slots.DeleteRefinesList | source/state_stores/dynamic_hash_table_state_store.cpp:239-286 | deletion of an existing block is list removal |
| Rebuild.RebuildIsInsert | source/state_stores/dynamic_hash_table_state_store.cpp:206-236 | collect, clear and re-insert realise the upward shift without overwriting an entry |
| Rebuild.NoShiftIsInsert | source/state_stores/dynamic_hash_table_state_store.cpp:206-236 | with nothing to shift, the plain write is the same insertion |
| Rebuild.RebuildIsDelete | source/state_stores/dynamic_hash_table_state_store.cpp:266-285 | the rebuild of a deletion realises the downward shift |
| Store.VersionedBlockMetadata.Clone | include/DHTDynamicAuditStrategy/state_stores/versioned_block_metadata.h:76-78 | a clone is a new object of equal value |
| Store.VersionedBlockMetadata.Equals | include/DHTDynamicAuditStrategy/state_stores/versioned_block_metadata.h:85-87 | equality compares both fields |
| Store.VersionedBlockMetadata.Bump | include/DHTDynamicAuditStrategy/state_stores/versioned_block_metadata.h:94-99 | the version grows by one modulo 2^64 and the timestamp is the given time |
| Store.BlockMetadataCollection.GetSnapshot | source/state_stores/dynamic_hash_table_state_store.cpp:208-208 | the snapshot lists exactly the entries of the collection |
| Store.DynamicHashTableStateStore.AddFile | source/state_stores/dynamic_hash_table_state_store.cpp:51-60 | a new file is empty, an existing one is refused untouched, other files keep everything |
| Store.DynamicHashTableStateStore.AddFileWithBlocks | source/state_stores/dynamic_hash_table_state_store.cpp:62-82 | exactly the slots below the count, all at version 1 and stamped at their creation, or the matching exception without effect |
| Store.DynamicHashTableStateStore.RemoveFile | source/state_stores/dynamic_hash_table_state_store.cpp:84-93 | exactly the named file is gone |
| Store.DynamicHashTableStateStore.GetBlockMetadata | source/state_stores/dynamic_hash_table_state_store.cpp:103-130 | the stored object itself, or which exception |
| Store.DynamicHashTableStateStore.GetBlockCount | source/state_stores/dynamic_hash_table_state_store.cpp:132-141 | the number of entries, not the largest index |
| Store.DynamicHashTableStateStore.ModifyBlock | source/state_stores/dynamic_hash_table_state_store.cpp:159-184 | one block's value is bumped; by unaliased objects no other value in the store changes |
| Store.DynamicHashTableStateStore.InsertBlock | source/state_stores/dynamic_hash_table_state_store.cpp:186-237 | the shift map with a fresh object in the slot; other files untouched |
| Store.DynamicHashTableStateStore.DeleteBlock | source/state_stores/dynamic_hash_table_state_store.cpp:239-286 | the shift map, or the matching exception without effect |
| Store.DynamicHashTableStateStore.RegisterBlock | source/generate_tags.cpp:222-233 | a direct write of a fresh object, without shift |
| Runs.RunRefinesList | source/state_stores/dynamic_hash_table_state_store.cpp:159-286 | any fitting run succeeds, keeps the file dense and is the run on the list of blocks |
| Runs.VersionHistory | source/state_stores/dynamic_hash_table_state_store.cpp:172-236 | version and timestamp of every block after any run, through all shifts |
| Runs.OriginsAscend | source/state_stores/dynamic_hash_table_state_store.cpp:199-286 | no run duplicates or reorders blocks |
| Runs.ForwardInvertsHistory | source/state_stores/dynamic_hash_table_state_store.cpp:199-286 | tracing forwards and backwards are inverse; only deleted blocks are lost |
| Positions.DeletionsSucceed | source/maintain.cpp:211-217 | a deletion list succeeds exactly when its t-th index is at most count - t |
| Positions.DescendingDeletions | source/maintain.cpp:211-217 | a strictly descending list removes exactly the listed original positions |
| Positions.AscendingDeletions | source/maintain.cpp:211-217 | on an ascending list the t-th entry removes original position index + t |
| Positions.AscendingInsertions | source/maintain.cpp:185-191 | a strictly ascending list leaves fresh metadata at exactly the listed final positions |
| Positions.DeletionsUndoInsertions | source/maintain.cpp:173-221 | deleting the reverse of an inserted list restores the collection entry for entry, also on sparse files |
| Maintenance.HandleUpdate | source/maintain.cpp:138-169 | refused exactly for an empty list, thrown exactly when some named block is unknown; the run of bumps up to there |
| Maintenance.HandleInsert | source/maintain.cpp:174-195 | refused exactly for an empty list; the run of insertions in order |
| Maintenance.HandleDelete | source/maintain.cpp:200-221 | refused exactly for an empty list, thrown on a dense file exactly when the t-th index is no block of what is left; the run up to there |
| Maintenance.Maintain | source/maintain.cpp:81-133 | validation order, and what each operation leaves of a dense file: updated versions, one block more an index, or one block less an index |
| Requests.UpdateRequest | source/maintain.cpp:149-165 | the same blocks, each as many versions further as it was named, with the time of its last update; unnamed ones untouched |
| Requests.UpdatesThrow | source/maintain.cpp:149-165 | on any file an update request throws exactly when it names an unknown block |
| Requests.InsertRequest | source/maintain.cpp:185-191 | one block more an index; a strictly ascending list leaves new blocks at exactly the named positions |
| Requests.DeleteRequest | source/maintain.cpp:211-217 | one block less an index, all old; a strictly descending list keeps every block it does not name |
| Maintenance.StopsAtThrow | source/maintain.cpp:149-165 | what ran before an exception stays, and nothing runs after it |
| Selector.ResolveTargetBlockIndices | source/generate_tags.cpp:97-134 | an absent or empty selector gives every index of the window in order; any other is accepted exactly when distinct and inside, and sorted |
| Selector.SortSorts | source/generate_tags.cpp:127-128 | sorting keeps the entries and orders them |
| Selector.DistinctByCount | source/generate_tags.cpp:128-131 | distinctness is a property of the multiset, so it survives sorting |
| Tagging.SignBlock | source/generate_tags.cpp:241-271 | hash plus segment commitment, times the scalar, is the signature |
| Tagging.TagBlock | source/generate_tags.cpp:249-271 | the block is read by its index inside the window, which is in range |
| Tagging.ReadOrRegister | source/generate_tags.cpp:216-233 | stored metadata is used as it is, missing metadata is registered and used |
| Tagging.TagRunIsTagMap | source/generate_tags.cpp:215-281 | the loop registers exactly the missing targets and signs with what the store ends with |
| Tagging.GenerateTags | source/generate_tags.cpp:139-286 | which blocks get a tag, each the signature under the metadata the store ends with; the store keeps every entry and gains exactly the missing targets; a refused request leaves no trace |
| TaggingTheorems.WindowAgreement | source/generate_tags.cpp:171-184 | tagging any selector of any window is the restriction of tagging the whole file |
| TaggingTheorems.TaggingInParts | source/generate_tags.cpp:216-281 | two requests in sequence are one for the union, and repeating a request changes nothing |
| TaggingTheorems.FirstTaggingIsDense | source/generate_tags.cpp:203-233 | tagging a whole unregistered file leaves it dense |
| TaggingTheorems.TaggedFilePassesAudit | source/generate_proofs.cpp:92-308 | key pair, tagging, challenge, proof and verification together accept, barring infinity |
| Agreement.StepKeepsAgreement | source/maintain.cpp:119-132 | one request of any kind and size followed by retagging keeps the agreement; what was not retagged keeps its tag |
| Agreement.RunKeepsAgreement | source/maintain.cpp:81-133 | the agreement holds after any run |
| Agreement.FirstTaggingAgrees | source/generate_tags.cpp:203-281 | the first tagging of a file establishes the agreement |
| Agreement.AgreementPassesAudit | source/generate_proofs.cpp:254-308 | every in-range audit of an agreeing state is accepted, barring infinity |
| Agreement.EveryAuditOfARunPasses | source/generate_proofs.cpp:254-308 | from the first tagging through any run to any in-range audit |
| Agreement.MaintainAndRetag | source/maintain.cpp:81-133 | the step of the protocol is what the real store and tag generator do together, with or without blocks to retag |
| AuditTheorems.StaleTags | source/generate_proofs.cpp:254-308 | tags of any earlier state: accepted exactly when the weighted differences between old and expected commitments vanish, or a factor does |
| Staleness.CarriedTag | source/state_stores/dynamic_hash_table_state_store.cpp:199-286 | a tag moved along with its block is right exactly when two hashes collide, and their preimages differ for every touched block |
| Staleness.CarriedAudit | source/generate_proofs.cpp:254-308 | a whole audit over carried tags accepts exactly when the weighted hash gaps vanish, or a factor does |
| Requests.UpdatedBlock | source/maintain.cpp:149-165 | a request adds to each block as many versions as its list names the block, duplicates included |
| Staleness.TaggingBeforeUpdate | source/generate_tags.cpp:32-34 | tags made for the new content before the update are right afterwards exactly when two hashes of different preimages collide |
| Concurrency.StepKeepsInv | source/generate_tags.cpp:211-281 | every atomic access of every worker keeps the invariant |
| Concurrency.EveryScheduleIsSafe | source/generate_tags.cpp:211-281 | under every interleaving no request throws, nothing is lost, and each tag matches the store |
| Concurrency.ConcurrentRunIsSequential | tests/test_dht_dynamic_full_integration.cpp:1371-1391 | a complete concurrent run has the store and the tags of the sequential requests |
| Concurrency.WindowsMerge | tests/test_dht_dynamic_full_integration.cpp:1371-1391 | the union of the workers' tags is the tag map of the whole file over all their blocks |
| Concurrency.MergedTagsPassAudit | tests/test_dht_dynamic_full_integration.cpp:1371-1391 | after any complete schedule the merged tags pass any audit of tagged blocks, barring infinity |
| Schedules.EnoughTurnsFinish | source/generate_tags.cpp:216-281 | no schedule can block a worker |
| Schedules.SharedMissingGoesWrong | source/generate_tags.cpp:219-233 | two requests for one missing block: a complete schedule on clocks that never run backwards leaves a stale tag |
| Schedules.StaleExactlyWhenShared | source/generate_tags.cpp:219-233 | some schedule leaves a stale tag exactly when two requests want the same missing block |
| Schedules.ThrowsExactlyWhenUnregistered | source/generate_tags.cpp:211-213 | some schedule throws exactly when the file is unregistered and there are at least two requests |
| Sampling.DrawScalar | source/generate_challenges.cpp:183-191 | the retry loop stops at the next failure or non-zero scalar, and terminates on a fair source |
| Sampling.NextUsableIsFirst | source/generate_challenges.cpp:183-191 | only all-zero buffers are passed over |
| Sampling.PickBlocks | source/generate_challenges.cpp:152-161 | exactly count distinct blocks in range, as drawn, and the loop terminates on a fair stream |
| Sampling.PickedAreDrawn | source/generate_challenges.cpp:152-161 | the picked blocks are the drawn values, all of them and no others |
| Sampling.DrawRound | source/generate_challenges.cpp:175-196 | one round of coefficients with its running sum, or the failure in it |
| Sampling.DrawCoefficients | source/generate_challenges.cpp:174-203 | the coefficients of the first attempt whose sum is non-zero modulo n, or the failure in it; terminates on a fair source |
| Sampling.AttemptStands | source/generate_challenges.cpp:174-203 | an attempt is discarded exactly when its sum is zero, and the next one starts right behind it |
| Sampling.NothingSkipped | source/generate_challenges.cpp:178-196 | inside an attempt every answer is used but the all-zero ones |
| ChallengeGen.ItemCount | source/generate_challenges.cpp:148-150 | the requested count capped at the block count, or else the first draw |
| ChallengeGen.BindMetadata | source/generate_challenges.cpp:221-229 | every item carries the store's current metadata, or a block is unknown |
| ChallengeGen.GenerateChallenges | source/generate_challenges.cpp:64-243 | which result each input gets; an issued challenge has the explicit block count or else the number of entries, the requested or drawn number of distinct drawn blocks, and the stored metadata |
| ChallengeTheorems.KnownExactlyWhenDense | source/generate_challenges.cpp:113-116 | with the store's own count every block is known exactly when the file is dense |
| ChallengeTheorems.DenseKnowsItsBlocks | source/generate_challenges.cpp:113-116 | on a dense file every block is known exactly when the requested block count is at most the number of blocks |
| ChallengeTheorems.IssuedAuditPasses | source/generate_challenges.cpp:221-234 | an issued challenge on an agreeing state leads to an accepted audit, barring infinity |
| ChallengeTheorems.UncheckedBlock | source/generate_challenges.cpp:184-191 | a wrong tag escapes the audit exactly when the coefficient drawn for its block is a positive multiple of the group order |
| ChallengeTheorems.OrderPassesRawCheck | source/generate_challenges.cpp:184-191 | the order itself passes the raw check |
| ChallengeTheorems.SomeCoefficientCounts | source/generate_challenges.cpp:174-203 | the sum check ensures that some coefficient is non-zero modulo n |
| Keys.GenerateKeys | source/generate_keys.cpp:74-184 | three separate draws, y = [a]g, and which failures are reported |
| Keys.CommitmentIsFinite | source/generate_keys.cpp:123-149 | y is at infinity exactly when one of its factors vanishes |
| Keys.BlindedIsFinite | source/generate_challenges.cpp:205-218 | R is at infinity exactly when one of its factors vanishes |
| Codec.DHTDynamicChallenges.Serialize | source/challenges.cpp:46-67 | the archive gains exactly the encoding |
| Codec.DHTDynamicChallenges.Deserialize | source/challenges.cpp:69-95 | the fields and the rest of the archive after a read, or that a read throws |
| Codec.HeaderLayout | source/challenges.cpp:48-59 | point, scalar, block count and item count at their offsets |
| Codec.ItemLayout | source/challenges.cpp:60-65 | index, coefficient, version and timestamp of item j at their offsets |
| Codec.RoundTrip | source/challenges.cpp:46-95 | decoding an encoding returns the content and exactly the trailing bytes |
| Codec.DecodeExactly | source/challenges.cpp:46-95 | bytes decode to a content exactly when they are its encoding followed by the rest |
| Codec.TruncatedFails | source/challenges.cpp:69-95 | a truncated encoding never decodes |
| Transport.ReceivedIsSent | source/challenges.cpp:46-95 | the challenge that arrives is the one that was issued, whatever follows it in the stream |
| Transport.ReceivedAuditPasses | source/challenges.cpp:46-95 | an audit of an agreeing state accepts when prover and verifier work on the received challenge, barring infinity |
| Modular.NoZeroDivisors | source/generate_proofs.cpp:277-309 | the field property that the exact conditions rest on, proved from primality |

## Left out

- Curve arithmetic, pairing, hash to the curve and big integers: library code that the repository does not contain; group
  elements are exponents, so nothing is said about cryptographic hardness or probability.
- Request and parameter parsing from JSON and data maps, plugin and artifact factories, logging, capability flags, null
  and downcast checks: plumbing with one-branch facts.
- `DHTDynamicTag` operators and the serializers of parameters and proofs: thin wrappers over library calls.
- `blockToScalar` and `challengeToScalar`: deprecated, one library call each.
- Replacing the collection of a file (`setBlockMetadataCollection`), handing it out (`getBlockMetadataCollection`) and
  lazy or repository-backed collections: a caller could then share objects between files, and the unaliased-object
  invariant is about the store's own operations.
- The wall clock: timestamps are arbitrary, and nothing is claimed about their order because `bump` enforces none.
- Maintenance concurrent with tagging: the code gives no guarantee.
- Store accesses of concurrent workers are atomic steps; the locking inside the store and the collection is not modelled.
- Concurrency.Step: reading the metadata object and copying its value is one step, because only maintenance changes an
  object after registration.
- Keys.GenerateKeys: the SM9 file key pair is an input, because the library generates it.
- ChallengeGen.GenerateChallenges: items are listed in the order of first draw, where the code iterates a hash set in an
  unspecified order; OrderIndependence shows that neither proof nor verdict depends on it.
- Sampling.PickBlocks: a draw of the uniform distribution is one value of a stream, not the engine steps behind it.
- Codec.DHTDynamicChallenges.Deserialize: after a throwing read the object is partly overwritten, and which fields is not
  stated; a count too large for memory is not modelled apart from the read that fails.
- Store.DynamicHashTableStateStore.RemoveFile: says nothing about objects a caller still holds.
- `listFiles` and the string forms of error messages: they would only add easy members.
