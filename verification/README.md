# Verification of the publishing gateway's hard core

A Dafny model of four parts of the repository, and proofs about them.

- **The fee, change and selection balancer** of `cardano-poe-tx`: which inputs a
  Proof-of-Existence transaction spends, what it pays, and what it gives back. The size
  of a transaction depends on the CBOR widths of its fee and change coins, the coins
  depend on the fee, and the fee on the size. `Bytes`, `Cbor`, `PoeTx` (parameters,
  saturating arithmetic and a byte encoder for the transaction), `Orbits` and
  `FeeFixpoint` (the fee iteration as the orbit of a function), `Selection`,
  `GreedyCover`, `Balancer`, `ShortestPrefix`, `BuildPoeTx`, `BuildTheorems`,
  `RequestErrors`, `OrderIndependence`, `TxTokens` (the metered bytes read back).
- **The ANS-104 codec and what is hashed and signed** in `ans104`: tag blocks, the data
  item's frame, the deep hash, streaming signatures, the Arweave Merkle root, format-2
  transactions, and the recovery of a PSS salt length. `Varint`, `Tags`, `TagTheorems`,
  `TagBlocks`, `TagGrammar`, `DataItem`, `DataItemTheorems`, `DeepHashing`, `Signing`,
  `WireLayout`, `MerkleRoot`, `MerkleBinding`, `TxV2`, `Pss`, `PssLaws`.
- **The chain-attempt ledger** of `gateway-core`: every guarded update as a step on a
  table of rows, all interleavings of the steps, the replacement handoff, and the proof
  of death against a chain that rolls back. `Ledger`, `LedgerTheorems`, `LedgerLinks`,
  `Recording`, `Handoff`, `RowHistory`, `ProofOfDeath`, `PinTruth`.
- **The durable event stream** of `gateway-core`: one connection over a growing log,
  clients that reconnect, and the live-stream registry. `Sse`, `SseTheorems`,
  `SseVisibility`, `LastEventId`, `SseRegistry`.

## How it is built

Code that changes things step by step is a method, or a class whose methods update its
fields, proved equal to a specification function of its inputs or of the old state
(`Balancer.Settle`, `Ledger.ChainAttempts`, `Pss.Mgf1XorSha256`, `Sse.Connection`). The
theorems are about those functions. Two specifications are deliberately not the
source's loop: `Balancer.SettleSpec` says what fee a selection must pay without
iterating (the largest fee the iteration takes infinitely often), and
`SseTheorems.Between` says which events a stream must carry without reading a log twice.
What a specification function computes is stated again without it: by a grammar
(`TagGrammar.DecodesIffListed`), by the steps of a run (`RowHistory.RowHistoryTold`), by
events of the log (`SseVisibility.ServesVisibleEvents`), by octets and offsets (`PssLaws`,
`WireLayout`), or by what is shortest (`ShortestPrefix.BalanceTakesShortest`).
The assertions of the source are assertions of the methods, so the proofs show that
none can fail and that the trailing error of the balancing loop is never reached.

A hash is an arbitrary function of a fixed width. Binding theorems do not assume that
it is injective; they return two different strings with one digest, both among the
strings that were hashed for the two inputs.

A database query or update is one atomic step. The chain, the database clock, other
writers, and the timing of reads are arbitrary; the assumptions made of them are the
`Allowed`, `SeenTruly`, `Growing`, `CommitOrdered` and `RunNamesOwnRecords` predicates.

## What the proofs found

- `ans104/src/tx_v2.rs` says that an empty payload has the all-zero root. It has the
  root of one empty chunk (`MerkleRoot.EmptyPayloadRoot`); a transaction without a
  payload carries no root at all, as the code of `sign_v2` does.
- `gateway-core/src/api/sse.rs` says that registry entries are removed when they reach
  zero. That holds over every run exactly when the account cap is at least one or the
  instance cap is zero (`SseRegistry.ZeroEntriesIff`). The deployed gateway refuses a zero
  for either cap (`gateway/src/config.rs:1163-1168`), so only a caller of the library that
  builds its own limits can see an entry linger.
- A resumed connection's state frame carries the high-water id, so a client cut right
  after that frame skips what lay in between. `SseTheorems.SessionKeepsSyncIff` gives the
  exact condition under which nothing is lost, and `SseTheorems.CutCanLose` a loss.
- The reversal of a confirmation after a reorg puts a row back on the wire that may have
  no mempool entry and may still be superseded. `LedgerTheorems.StepKeepsWireIff` says
  exactly when that happens, and `Handoff.RevertCanBreakWireInv` gives a run from the
  empty table in which it does. What every run keeps is `Ledger.Inv`; what runs without
  such a reversal also keep is `Ledger.WireInv`. `gateway-core/src/chain/attempt.rs` calls
  `confirmed` terminal; it lasts exactly until a reversal of the row's own transaction at
  its pinned height, with nobody else active on its record
  (`LedgerTheorems.ConfirmedUntilReverted`).
- Nothing in the replacement handoff compares the records of the original and the
  replacement. Both producers of replacement jobs name an original of the same record
  (`gateway-core/src/chain/confirm.rs:2042-2047` from the attempt the loop holds,
  `gateway-core/src/chain/recover.rs:474-488` from the stranded row itself), which is the
  assumption of `LedgerLinks.EveryRunKeepsRecords`;
  `LedgerLinks.ForeignHandoffLeavesRecord` shows that it is needed.
- The settlement-deep query reads pinned heights and nothing else, so its answer is as good
  as the pin. If every sighting names a block that holds the transaction, a pin stays true
  until a rollback reaches it, and a conflict whose pin no rollback has reached since its last
  sighting is a proof (`PinTruth.UndoubtedConflictProves`). The condition is needed: between a
  shallow rollback and the next look at the row, a stale pin can name a killer that is off the
  chain (`PinTruth.StalePinMisleads`).
- The eight bytes of slack in the dust ceiling are not needed: the bound of
  `Balancer.FoldBound` is already tighter than the ceiling.
- A selection need not have any fee that is the exact linear fee of the body it is
  charged on: `BuildTheorems.CyclingSelection` gives one under mainnet parameters,
  `FeeFixpoint.ExactFeeExistsIff` says exactly when some fee is, and
  `FeeFixpoint.ExactAwayFromBoundaries` gives a condition that suffices for the charged one.
- Only two errors depend on the listing order: the one for malformed hashes names one of
  several, and the one for a repeated mandatory input names it in the caller's first
  spelling (`OrderIndependence.SpellingFollowsListing`).

## Model

| member | source | states |
|---|---|---|
| Cbor.HeadRoundTrip | cardano-poe-tx/src/build.rs:445-454 | the integer and length heads the body is metered with decode back to their argument (section 3 of RFC 8949) |
| Cbor.HeadIsShortest | cardano-poe-tx/src/build.rs:445-454 | no head that decodes to the argument is shorter than the encoder's (section 4.2.1 of RFC 8949) |
| PoeTx.LinearFeeStep | cardano-poe-tx/src/fee.rs:19-23 | more bytes cost at most their price more, with saturation |
| PoeTx.SizeForm | cardano-poe-tx/src/build.rs:445-454 | the encoded size is a base, the width of the fee coin and, with change, the framing and width of the change coin |
| PoeTx.InputCost | cardano-poe-tx/src/build.rs:469-471 | one more input costs at least 36 bytes |
| TxTokens.TransactionReadsBack | cardano-poe-tx/src/build.rs:458-483 | a CBOR reader finds in the metered bytes, between the fixed parts, exactly the selected references, the outputs under key 1 and the fee under key 2 |
| ShortestPrefix.LinearFeeIsCapped | cardano-poe-tx/src/fee.rs:19-23 | the fee is the per-byte price of the size and the constant, up to the largest amount |
| ShortestPrefix.FloorIsLedgerMinimum | cardano-poe-tx/src/build.rs:515-529 | a change coin is at or above its floor exactly when the output's own bytes and 160 more are paid for |
| FeeFixpoint.FewDistinctFees | cardano-poe-tx/src/build.rs:425-430 | the fee iteration never takes more than thirteen different values, for every selection and parameter set |
| FeeFixpoint.CycleSettled | cardano-poe-tx/src/build.rs:341-353 | the largest fee of a closed, covered cycle is the fee the iteration settles at |
| FeeFixpoint.SettledFeeCoversBody | cardano-poe-tx/src/build.rs:317-326 | the charged fee covers the emitted body's linear fee and overpays it by at most eight bytes |
| FeeFixpoint.OverpayIsTight | cardano-poe-tx/src/build.rs:317-326 | the eight bytes are attained by a metering that keeps its change |
| FeeFixpoint.ExactIffFixpoint | cardano-poe-tx/src/build.rs:295-298 | the charged fee is the exact linear fee if and only if the iteration converges instead of cycling |
| FeeFixpoint.ExactAwayFromBoundaries | cardano-poe-tx/src/build.rs:317-326 | the charged fee is exact whenever neither coin changes width between the narrowest and the widest shape's fee |
| FeeFixpoint.ExactFeeExistsIff | cardano-poe-tx/src/build.rs:317-326 | some fee is exact if and only if one of the twelve width sums has a payable linear fee that leaves coins of that sum |
| FeeFixpoint.UnaffordableTotal | cardano-poe-tx/src/build.rs:330-334 | a selection that cannot pay some fee of the iteration holds at most the widest shape's fee |
| Selection.TotalIsSaturatedSum | cardano-poe-tx/src/selection.rs:57-61 | the saturating fold is the saturated sum |
| Selection.Cover | cardano-poe-tx/src/selection.rs:44-53 | the shortest non-empty prefix worth the target, or none when even the whole list falls short |
| Selection.OrdersAreTotal | cardano-poe-tx/src/selection.rs:24-29 | both sort orders are total orders |
| Selection.SortSorted | cardano-poe-tx/src/selection.rs:33-36 | sorting sorts (that it permutes is Sort's own contract) |
| Selection.SortedUnique | cardano-poe-tx/src/selection.rs:24-36 | a collection has exactly one sorted arrangement |
| GreedyCover.LargestAreWorthMost | cardano-poe-tx/src/selection.rs:1-9 | no choice of inputs is worth more than as many of the largest ones |
| GreedyCover.CoverIsSmallest | cardano-poe-tx/src/selection.rs:38-53 | the covering prefix of the prioritised list uses no more inputs than any choice that reaches the target |
| Balancer.ChargeCycle | cardano-poe-tx/src/build.rs:341-357 | a closed cycle is charged its largest fee, which is the fee the specification asks for; the assertion that it covers the body never fails |
| Balancer.Settle | cardano-poe-tx/src/build.rs:304-364 | the iteration returns what charging the settled fee returns, or nothing when some fee cannot be paid; its sixteen-step assertion never fails |
| Balancer.SettleGuarantees | cardano-poe-tx/src/build.rs:286-304 | a kept change conserves value, is metered on the emitted body, covers its linear fee within eight bytes and carries a truthful floor flag; a fold happens only without a spare |
| Balancer.FoldIsAffordable | cardano-poe-tx/src/build.rs:407-416 | the fold's own refusal is never reached |
| Balancer.FoldBound | cardano-poe-tx/src/build.rs:544-558 | a folded residual exceeds the linear fee by at most the widest floor and the widest output's bytes |
| Balancer.FeeForGrows | cardano-poe-tx/src/build.rs:215-220 | a longer prefix's narrowest fee is at least a shorter prefix's widest |
| Balancer.Balance | cardano-poe-tx/src/build.rs:221-283 | the loop returns what the specification, whose prefix is the shortest that pays, returns; its fee assertion never fails and its trailing error is unreachable |
| ShortestPrefix.BalanceTakesShortest | cardano-poe-tx/src/build.rs:221-283 | what is spent is the shortest admissible prefix that pays for itself and clears its change floor, the whole list when none does; change is returned exactly when the selection pays; and the search fails exactly when not even the whole list affords its fee |
| BuildPoeTx.DecodeForced | cardano-poe-tx/src/build.rs:589-607 | the mandatory inputs in reference order, or the first repeated reference in the caller's first spelling, or a malformed hash |
| BuildPoeTx.OrderedListShape | cardano-poe-tx/src/build.rs:72-85 | an accepted request has a non-empty list with its mandatory inputs in front |
| BuildPoeTx.Build | cardano-poe-tx/src/build.rs:72-119 | the decision is the specification's, error cases included |
| RequestErrors.RefusedExactly | cardano-poe-tx/src/build.rs:72-85 | which requests are refused before balancing, with which error, in which order: address, network, no inputs at all, malformed hashes, a repeated mandatory reference |
| RequestErrors.SpendingOrder | cardano-poe-tx/src/selection.rs:24-29 | the list to spend from: mandatory references by id and index, then the others by falling value, then id, then index |
| RequestErrors.HexDecodesIff | cardano-poe-tx/src/build.rs:611-617 | a text decodes exactly when it has an even number of hexadecimal digits, of either case |
| RequestErrors.HexDecodeAt | cardano-poe-tx/src/build.rs:611-617 | each byte is its first digit times sixteen and its second |
| BuildTheorems.FeesNeverDecrease | cardano-poe-tx/src/build.rs:262-269 | adding inputs never lowers the fee, whether a selection converged, cycled or folded |
| BuildTheorems.BalanceGuarantees | cardano-poe-tx/src/build.rs:208-220 | a balanced build is sound, keeps the mandatory prefix, and folds only with everything selected |
| BuildTheorems.BuildTakesShortest | cardano-poe-tx/src/build.rs:100-111 | a build spends the shortest admissible prefix that pays, and no shorter one would |
| BuildTheorems.FoldWithinCeiling | cardano-poe-tx/src/build.rs:107-111 | a folded residual is within the backstop's ceiling |
| BuildTheorems.BuildIsSound | cardano-poe-tx/src/build.rs:72-119 | every successful build conserves value, keeps change only at or above its floor, folds only with everything selected, pays for its body and fits the size cap |
| BuildTheorems.BuildFailures | cardano-poe-tx/src/build.rs:100-111 | the fee backstop never fires; insufficient funds means everything was selected, the total is at most the widest shape's fee, and the fee named is the linear fee of the whole list without change; a size error names a size above the cap |
| BuildTheorems.FundedNeverInsufficient | cardano-poe-tx/src/build.rs:254-262 | inputs worth more than the linear fee of all of them with the widest coins are never reported as insufficient |
| BuildTheorems.UnderfundedExactly | cardano-poe-tx/src/build.rs:254-262 | insufficient funds exactly when no admissible prefix pays and the whole list cannot afford its fee |
| BuildTheorems.ConservesExactly | cardano-poe-tx/src/selection.rs:57-61 | fee plus change is the true sum exactly when the sum fits the amount type |
| BuildTheorems.OrderedListDistinct | cardano-poe-tx/src/build.rs:624-644 | given distinct candidates, no reference occurs twice however the lists overlap |
| BuildTheorems.SpendsMandatoryOnce | cardano-poe-tx/src/build.rs:77-85 | every mandatory reference is spent, and, when the candidates repeat no reference, none twice |
| BuildTheorems.FixpointMayNotExist | cardano-poe-tx/src/build.rs:317-326 | a metering whose iteration cycles and has no fixpoint at all |
| BuildTheorems.CyclingSelection | cardano-poe-tx/src/build.rs:317-364 | one concrete input, under mainnet parameters, that has this metering: no fee is exact for it, and it is charged the larger fee of its cycle and keeps the change |
| OrderIndependence.ListingOrderIrrelevant | cardano-poe-tx/src/selection.rs:1-9 | permuting the listed inputs changes neither selection, fee, change nor error, except which malformed hash is named and in which spelling a repeated mandatory one is |
| OrderIndependence.SpellingFollowsListing | cardano-poe-tx/src/build.rs:598-604 | two spellings of one mandatory reference are named in the one listed first |
| Varint.WriteVarint | ans104/src/tags.rs:44-58 | appends the zig-zag group string of the value |
| Varint.ReadVarint | ans104/src/tags.rs:62-82 | reads the value of at most ten groups, with the tenth group's high bits dropped, or refuses the block |
| Varint.VarintRoundTrip | ans104/src/tags.rs:43-82 | reading inverts writing for every 64-bit value at every position |
| Varint.VarintShortest | ans104/src/tags.rs:43-82 | no accepted spelling is shorter than the written one |
| Varint.CountsMerge | ans104/src/tags.rs:123-162 | one count takes no more bytes than two counts of its parts |
| TagBlocks.ZigZagCodes | ans104/src/tags.rs:43-58 | the non-negative numbers take the even codes, each negative one the odd code below its opposite's |
| TagBlocks.GroupsSpell | ans104/src/tags.rs:43-58 | the groups spell the code in base 128, least significant first, all marked but the last |
| TagGrammar.NumberReadIff | ans104/src/tags.rs:62-82 | a number is read exactly from one to ten groups marked but the last, whose value in base 128 is its code, with one bit of a tenth group |
| Tags.EncodeTags | ans104/src/tags.rs:88-112 | one positive block and a terminator, nothing for an empty list, or a refusal above 4096 bytes |
| Tags.DecodeTags | ans104/src/tags.rs:119-166 | accepts exactly the specified blocks, negative counts and several blocks included, and returns their entries in order |
| TagBlocks.BlockSpelled | ans104/src/tags.rs:88-112 | the bytes of the block of a short list, and the limit of 4096 bytes |
| TagGrammar.DecodesIffListed | ans104/src/tags.rs:119-166 | the decoder accepts exactly what the grammar generates within 4096 bytes: blocks with counts or negated counts and hints, however spelled, a closing zero, and nothing after it |
| TagTheorems.BlockRoundTrip | ans104/src/tags.rs:114-119 | decoding inverts encoding; the entry bound never rejects a real encoding |
| TagTheorems.EncodingInjective | ans104/src/tags.rs:5-7 | lists with one encoding are one list |
| TagTheorems.ReencodingNoLonger | ans104/src/data_item.rs:187-199 | re-encoding an accepted block never makes it longer, so it is never refused when re-hashed |
| TagTheorems.ReencodesIffCanonical | ans104/src/tags.rs:88-166 | re-encoding reproduces an accepted block if and only if it is canonical |
| DataItem.Serialize | ans104/src/data_item.rs:519-568 | the field layout, or the error of the first failing check |
| DataItem.Cursor.ReadBytes | ans104/src/data_item.rs:582-593 | takes exactly the asked bytes and advances past them, or reports truncation |
| DataItem.Cursor.ReadOptional32 | ans104/src/data_item.rs:607-619 | a flag byte of 0 or 1 and the field it announces; any other flag is refused |
| DataItem.Parse | ans104/src/data_item.rs:375-413 | accepts exactly the specified items and returns their fields, or fails with the specified error |
| DataItem.ReconstructPrefix | ans104/src/data_item.rs:457-511 | the item's bytes up to the payload, or the error of the first failing check |
| WireLayout.RegisteredTypes | ans104/src/sig_type.rs:42-85 | the seven registered signature types with their signature and owner lengths, and no other |
| WireLayout.ValidatesIff | ans104/src/data_item.rs:172-184 | which items may be signed, and which of the errors is named first |
| WireLayout.SerializesIff | ans104/src/data_item.rs:519-535 | which signatures an item is serialised with, and which of the errors is named first |
| WireLayout.ReconstructsIff | ans104/src/data_item.rs:457-511 | a prefix is reconstructed exactly for an envelope that frames an empty payload around a block the grammar generates |
| WireLayout.FrameOffsets | ans104/src/data_item.rs:519-568 | where each field of a serialised item lies, and how its numbers are written |
| DataItemTheorems.FrameRoundTrip | ans104/src/data_item.rs:519-626 | every field of a well-framed item is read back |
| DataItemTheorems.FrameReproduced | ans104/src/data_item.rs:375-413 | every byte of a parsed item is accounted for by its fields |
| DataItemTheorems.ParsesIff | ans104/src/data_item.rs:375-413 | the parser accepts exactly the frames whose tag block the grammar generates with as many entries as the frame counts |
| DataItemTheorems.ParseInvertsSerialize | ans104/src/data_item.rs:375-413 | parsing a serialised item returns exactly its fields, for all seven signature types |
| DataItemTheorems.ParsedIsSignable | ans104/src/data_item.rs:389-398 | whatever parses can be re-hashed and re-serialised |
| DataItemTheorems.SerializeInvertsParseIffCanonical | ans104/src/data_item.rs:519-568 | serialising a parsed item gives back its bytes if and only if its tag block is canonical |
| DeepHashing.DecimalInjective | ans104/src/deep_hash.rs:73-91 | different lengths have different decimal tags |
| DeepHashing.DeepHash | ans104/src/deep_hash.rs:73-91 | the recursive digest with its fold over children |
| DeepHashing.DeepHashBlobReader | ans104/src/deep_hash.rs:106-146 | for every way the reader splits the payload, the in-memory digest exactly when the byte count is the declared one, an error otherwise |
| WireLayout.DrainsWhatWasSplit | ans104/src/deep_hash.rs:106-147 | a stream drains to the payload it was cut from, and fails only on a failed read before its end |
| WireLayout.LeafLaw | ans104/src/deep_hash.rs:73-100 | a leaf's digest, from the text "blob", the length in decimal and the bytes |
| WireLayout.ListLaw | ans104/src/deep_hash.rs:73-100 | a list's digest, from the text "list", the count in decimal and the children in order |
| DeepHashing.FoldMatches | ans104/src/deep_hash.rs:153-160 | folding the children's digests is hashing the list |
| DeepHashing.DeepHashBinds | ans104/src/deep_hash.rs:73-91 | equal digests of different items, at any nesting depth, contain a collision |
| Signing.SignStreaming | ans104/src/data_item.rs:256-320 | for every split of a payload of the declared length, the in-memory envelope or error; on any other stream an error |
| Signing.PrefixCompletes | ans104/src/data_item.rs:440-457 | the reconstructed prefix followed by the payload is the serialised item |
| WireLayout.SignedItemParses | ans104/src/data_item.rs:114-165 | a signed item parses back to itself, with the id of its signature, which is the key's for the message the item hashes to |
| WireLayout.SignedListFollowsFrame | ans104/src/data_item.rs:187-202 | the signed list holds "dataitem", "1", the type in decimal, and the fields of the frame in the frame's order |
| Signing.StructureDeterminesItem | ans104/src/data_item.rs:187-199 | every field of an item can be read off what is hashed |
| Signing.SignatureCommits | ans104/src/data_item.rs:204-207 | different items with one signed message contain a collision |
| MerkleRoot.ChunkRanges | ans104/src/tx_v2.rs:328-349 | the loop pushes the ranges of the recursive chunker |
| MerkleRoot.RangesAreChunked | ans104/src/tx_v2.rs:322-328 | the ranges cover the payload contiguously, none above the maximum, all but the last above half of it, and the last empty, at least the minimum, or the whole payload |
| MerkleRoot.ChunkBoundaries | ans104/src/tx_v2.rs:328-355 | the chunks of payloads on either side of each boundary of the chunker |
| MerkleRoot.PairLayer | ans104/src/tx_v2.rs:368-378 | pairs adjacent nodes in order and promotes an odd last one |
| MerkleRoot.BuildRoot | ans104/src/tx_v2.rs:367-386 | the id of the last node left by repeated pairing |
| MerkleRoot.DataRoot | ans104/src/tx_v2.rs:307-315 | the root of the leaves of the chunked payload |
| MerkleRoot.NoteSpells | ans104/src/tx_v2.rs:402-409 | a byte range is noted in 32 bytes, most significant first |
| MerkleRoot.EmptyPayloadRoot | ans104/src/tx_v2.rs:300-307 | an empty payload has the root of one empty chunk |
| MerkleBinding.PairKeepsPayload | ans104/src/tx_v2.rs:368-378 | pairing with odd promotion keeps the leaves in order |
| MerkleBinding.DataTreeSpellsPayload | ans104/src/tx_v2.rs:307-315 | the data root is the digest of a tree whose leaves spell the payload |
| MerkleBinding.RootCoversPayload | ans104/src/tx_v2.rs:388-402 | the byte range the root node ends at is the payload's length |
| MerkleBinding.DataRootBinds | ans104/src/tx_v2.rs:307-315 | different payloads with one root yield a collision among the strings hashed for them |
| MerkleBinding.BoundariesBind | ans104/src/tx_v2.rs:357-410 | the id of a tree commits to its shape, its chunks and where each of them ends |
| MerkleBinding.TwoChunkRoot | ans104/src/tx_v2.rs:393-401 | the root of two chunks: the left id, the right id, and the byte where the left chunk ends |
| TxV2.SignTxV2 | ans104/src/tx_v2.rs:139-147 | a data carrier moves nothing, commits to its payload's root, or to none for an empty one, and signs exactly its fields; it fails exactly when the anchor or the key does, with that error |
| TxV2.SignTransferTxV2 | ans104/src/tx_v2.rs:159-181 | a malformed target, then one that is not 32 bytes, then a zero quantity is refused with its own error; any other transfer moves the quantity and no data and signs exactly its fields, or fails as the anchor or the key does |
| TxV2.SignedFieldsInOrder | ans104/src/tx_v2.rs:228-275 | the nine fields that are signed, in order, the numbers in decimal, and the root of a payload that is not empty |
| TxV2.SignedListInjective | ans104/src/tx_v2.rs:234-273 | the signed list determines every field but the payload, and the payload's length and root |
| TxV2.MessageBinds | ans104/src/tx_v2.rs:185-230 | different transactions with one signed message yield a collision of the deep hash or of the Merkle hash |
| Pss.Mgf1XorSha256 | ans104/src/verify.rs:161-175 | the buffer is masked in place with the mask of appendix B.2.1 of RFC 8017 |
| Pss.XorTwice | ans104/src/verify.rs:161-175 | the mask applied twice is the identity |
| PssLaws.CounterSpells | ans104/src/verify.rs:161-175 | the mask counter is its number in four octets, most significant first |
| PssLaws.MaskOctet | ans104/src/verify.rs:161-175 | each octet of the mask is taken from the hash of the seed and the number of the blocks before it (appendix B.2.1 of RFC 8017) |
| PssLaws.UnmaskedOctet | ans104/src/verify.rs:136-146 | the unmasked octets of an encoded message |
| Pss.RecoverPssSaltLen | ans104/src/verify.rs:95-157 | from the signature: its length and the modulus are checked, it is opened, and the length is read off the unmasked block, or the specified refusal |
| PssLaws.RecoveredIff | ans104/src/verify.rs:117-157 | the opened messages that carry a salt of a given length: no longer than the encoding, closed by the trailer, and zeros and a one before the salt; every other one is a bad signature |
| PssLaws.SignatureRefused | ans104/src/verify.rs:100-115 | a signature of another length than the modulus, one not below it, and the key's own error |
| Pss.RecoversSaltLength | ans104/src/verify.rs:85-95 | run on an encoding of section 9.1.1 of RFC 8017, returns the salt's length, for every digest, salt and modulus size |
| Pss.OctetsOfInt | ans104/src/verify.rs:115-127 | an encoded message comes back from its integer without its leading zeros |
| Pss.RecoversFromSignature | ans104/src/verify.rs:85-95 | the salt's length is recovered from every signature that opens to an encoding, for every key |
| Pss.EncodingVerifies | ans104/src/verify.rs:71-75 | every encoding is accepted with the recovered length |
| PssLaws.SpareBitsClearIff | ans104/src/verify.rs:144-146 | the spare high bits are clear exactly when the message fits the bits it has |
| PssLaws.EncodingFitsModulus | ans104/src/verify.rs:119-127 | an encoding made for a key is below its modulus |
| Pss.AutoAcceptsIffSomeLength | ans104/src/verify.rs:85-95 | locating the salt never changes the verdict: the recovered length is accepted if and only if some length is |
| Ledger.ChainAttempts.constructor | gateway-core/migrations/0001_baseline_schema.sql:1234-1323 | an empty table |
| Ledger.ChainAttempts.MarkSuperseded | gateway-core/src/chain/attempt.rs:500-519 | the guarded update, and whether it took effect |
| Ledger.ChainAttempts.RecordAttempt | gateway-core/src/chain/submit.rs:915-1018 | the whole handoff and insert, or the old table and the reason |
| Recording.RecordAnswers | gateway-core/src/chain/submit.rs:958-1027 | what each answer to recording an attempt means, for every table; only a recorded attempt leaves a trace |
| Ledger.ChainAttempts.RejectReplacement | gateway-core/src/chain/submit.rs:1626-1690 | abandon then un-supersede, or the old table when that would break the one-active index |
| Ledger.ChainAttempts.RevertConfirmed | gateway-core/src/chain/confirm.rs:1332-1353 | the guarded reversal of a confirmation, or the old table when that would break the one-active index |
| Ledger.ChainAttempts.Transit | gateway-core/src/chain/attempt.rs:427-486 | every other single-row transition is its guarded update and reports whether the guard held |
| LedgerTheorems.RowTransition | gateway-core/src/chain/attempt.rs:833-944 | a single-row transition keeps what a row says about itself, never makes a row active, and never unsets what is set once |
| LedgerTheorems.HandoffKeepsInv | gateway-core/src/chain/submit.rs:1026-1083 | the handoff keeps one active broadcaster per record, links to later conflicting rows, and the row rules |
| LedgerTheorems.RejectKeepsInv | gateway-core/src/chain/submit.rs:1626-1690 | the reject keeps the invariant |
| LedgerTheorems.RevertKeepsInv | gateway-core/src/chain/confirm.rs:1332-1353 | the reversal keeps the invariant and every row's history |
| LedgerTheorems.EveryRunKeepsInv | gateway-core/src/chain/attempt.rs:75-100 | over every interleaving of all the updates, reversals included: one active broadcaster per record, unique transactions, links to later conflicting rows, superseded rows with a link, recorded rows without a mempool entry, broadcast rows with one or with a sighting, confirmed rows with coordinates |
| LedgerTheorems.StepKeepsWireIff | gateway-core/src/chain/confirm.rs:1332-1353 | every step also keeps active rows without a link and broadcast rows with a mempool entry, if and only if it is not a reversal of a row that was superseded or never broadcast |
| LedgerTheorems.EveryCleanRunKeepsWire | gateway-core/src/chain/attempt.rs:75-100 | over every run without such a reversal, active rows have no link and broadcast rows have a mempool entry |
| LedgerTheorems.RunExtends | gateway-core/src/chain/attempt.rs:132-139 | over every run no row is lost or changes identity, abandoned is absorbing, and the first sighting never changes |
| LedgerTheorems.StepKeepsConfirmedIff | gateway-core/src/chain/confirm.rs:1332-1353 | a confirmed row stays confirmed across a step if and only if the step is not a reversal of its own transaction at its pinned height with nobody else active on its record |
| LedgerTheorems.ConfirmedUntilReverted | gateway-core/src/chain/attempt.rs:132-139 | a confirmed row is confirmed throughout a run if and only if no reversal of the run takes effect on it; stale ones do not |
| LedgerLinks.NoCycles | gateway-core/migrations/0001_baseline_schema.sql:1283-1293 | no walk along superseded-by links visits a row twice |
| LedgerLinks.LastHeir | gateway-core/migrations/0001_baseline_schema.sql:1283-1293 | the walk from original to replacement ends at a row of the same record that nothing supersedes |
| LedgerLinks.RecordKeepsRecordsIff | gateway-core/src/chain/submit.rs:1026-1083 | a handoff keeps links within records if and only if the replacement names an original of its own record |
| LedgerLinks.EveryRunKeepsRecords | gateway-core/src/chain/confirm.rs:2042-2047 | over every run whose replacements name an original of their own record, as both producers of replacement jobs do, links stay within their record |
| LedgerLinks.ForeignHandoffLeavesRecord | gateway-core/src/chain/submit.rs:1034-1083 | a two-step run without that assumption whose link leaves its record |
| Handoff.HandoffMovesRole | gateway-core/src/chain/attempt.rs:488-500 | a handoff within a record never meets the one-active index and moves the role from the original to the replacement |
| Handoff.RejectRestoresIff | gateway-core/src/chain/attempt.rs:521-536 | a reject gives the role back exactly when the original still waits on that replacement and nobody else on the record is active |
| Handoff.ActiveReplacementRestores | gateway-core/src/chain/submit.rs:1600-1606 | a replacement rejected while it is the active broadcaster always restores its original |
| Handoff.RejectUndoesHandoff | gateway-core/src/chain/attempt.rs:521-554 | rejecting right after the handoff gives the role back and leaves only the dead replacement behind; an original no reversal touched is as it was, but no longer stuck |
| Handoff.RevertCanBreakWireInv | gateway-core/src/chain/confirm.rs:1332-1353 | a run from the empty table whose reversal leaves an attempt on the wire superseded and without a mempool entry |
| Handoff.EverySentAttemptWatched | gateway-core/src/chain/attempt.rs:640-718 | after any run, an attempt ever sent is in exactly one of the two confirm passes, before their limits, unless dead or deferred, and raises no alert before the threshold has passed since its send |
| RowHistory.AdmitsIff | gateway-core/src/chain/attempt.rs:427-976 | the statuses from which each update of one row is admitted, and the status it sets |
| RowHistory.RowHistoryTold | gateway-core/src/chain/attempt.rs:824-976 | after every run a row's pin is the height and time of its last sighting, absent unless one stands since the last reversal or abandonment; it is confirmed exactly when a confirmation has not been reversed; its first sighting, its mempool entry, its retry hint and its yields are those of the steps in effect on it |
| RowHistory.PassesTold | gateway-core/src/chain/attempt.rs:640-718 | which attempts each confirm pass and the alert pass select, told by what happened to the attempt |
| ProofOfDeath.SettlementDeepConflictingSpend | gateway-core/src/chain/attempt.rs:770-822 | nothing exactly when no other confirmed attempt of the wallet spends the input at or below the height the depth asks for, otherwise one of least height with its depth; an overflow error otherwise |
| ProofOfDeath.ReportedDepth | gateway-core/src/chain/attempt.rs:813-820 | the reported depth reaches the threshold and is exact unless no depth was asked for and the conflict sits one above the tip |
| ProofOfDeath.DeadForGood | gateway-core/src/chain/attempt.rs:755-770 | a transaction proved dead is never on the chain again, over every run of blocks, bounded rollbacks and updates, reversals included |
| PinTruth.RunKeepsPinsTrue | gateway-core/src/chain/attempt.rs:883-944 | when every sighting names a block that holds the transaction, every pin is true after any run that no rollback has reached since its last sighting |
| PinTruth.UndoubtedConflictProves | gateway-core/src/chain/attempt.rs:755-822 | from the empty table, the query's answer proves its loser dead for good whenever the winner's pin is not in doubt |
| PinTruth.SettledPinUndoubted | gateway-core/src/chain/attempt.rs:755-770 | a pin at the settlement depth is out of reach of every allowed rollback |
| PinTruth.StalePinMisleads | gateway-core/src/chain/attempt.rs:781-803 | at every depth above one, an allowed run with true sightings after which the query names a killer by a stale pin while the supposed victim is on the chain |
| ProofOfDeath.AbandonedForGood | gateway-core/src/chain/attempt.rs:864-881 | an attempt abandoned any time after its proof stays abandoned and off the chain; the update takes effect unless the attempt is confirmed at that moment |
| ProofOfDeath.RollbackBoundIsTight | gateway-core/src/chain/attempt.rs:755-770 | at every depth a run from the empty table records, sends, buries and confirms the killer and proves the victim dead, after which a rollback one block deeper than allowed lets it land |
| ProofOfDeath.LinkedRowsNeverBothLand | gateway-core/src/chain/submit.rs:1044-1058 | a superseded original and its replacement are never both on the chain |
| Sse.Connection.NextFrame | gateway-core/src/api/sse.rs:463-537 | each poll sends the next frame the connection still owes over the reads left to it |
| Sse.OpenStream | gateway-core/src/api/sse.rs:421-545 | the frames of the whole connection, for any sequence of reads |
| SseTheorems.DeliversExactly | gateway-core/src/api/sse.rs:492-537 | whatever the timing of its reads, exactly the visible events past the start, in order and once each |
| SseTheorems.DrainsLog | gateway-core/src/api/sse.rs:492-537 | after any reads of the growing log that do not fail, as many more as it then has events past the start deliver all of it |
| SseVisibility.ServesVisibleEvents | gateway-core/src/api/sse.rs:463-537 | the first frame carries the high water; every later one is an event past the start that the projection shows to accounts, under its name, in order, and none such is left out below the last |
| SseVisibility.DrainsVisibleEvents | gateway-core/src/api/sse.rs:762-772 | enough good reads send exactly the events past the start that accounts may see |
| SseVisibility.FramesNeedSnapshots | gateway-core/src/api/sse.rs:525-531 | no frame is sent on a failed snapshot, nor after a failed read |
| SseTheorems.SessionKeepsSyncIff | gateway-core/src/api/sse.rs:478-491 | a connection, wherever it is cut, keeps the client in sync exactly unless it is a resumed one cut after its state frame with visible events in between |
| SseTheorems.CutCanLose | gateway-core/src/api/sse.rs:478-491 | a client that loses an event to that cut |
| SseTheorems.ReconnectsLoseNothing | gateway-core/src/api/sse.rs:409-420 | however often a client reconnects by its last received id, it loses nothing and repeats nothing, that cut excepted |
| LastEventId.EchoedIdResumes | gateway-core/src/api/sse.rs:775-781 | a header that echoes the id of any frame, padded or not, resumes after exactly that frame |
| LastEventId.NegativeIdIgnored | gateway-core/src/api/sse.rs:775-781 | a negative id never resumes |
| LastEventId.ResumesIff | gateway-core/src/api/sse.rs:775-781 | a header resumes at an id exactly when it is the id's digits, with blanks around them, leading zeros, a plus sign or, for zero, a minus sign, and the id fits 63 bits |
| SseRegistry.Registry.TryAcquire | gateway-core/src/api/sse.rs:184-203 | a slot when both caps allow one, and the counts after |
| SseRegistry.Registry.Release | gateway-core/src/api/sse.rs:152-167 | the counts after a drop, with an account that has none left forgotten |
| SseRegistry.EveryRunAccounted | gateway-core/src/api/sse.rs:133-203 | the counts are the slots out and within both caps, and an open is granted exactly when they are below both |
| SseRegistry.ZeroEntriesIff | gateway-core/src/api/sse.rs:138-141 | entries of zero never linger, over every run, exactly when the account cap admits a stream or the instance cap none |

## Left out

- Pallas, minicbor, bech32, base64url and hex internals: the transaction is encoded by a small encoder with arbitrary bytes for the parts no coin or input touches, an address is at least 29 bytes, and decoders are parameters.
- SHA-256, SHA-384, Blake2b, Ed25519 and the RSA operation: arbitrary functions; the library's fixed-salt verifier is taken to be section 9.1.2 of RFC 8017.
- Selection.Sort: is an insertion sort, not the library's stable sort; the order is total, so the result is the same.
- Selection.OrdersAreTotal: the reference order breaks a tie of equal references by lovelace, which the source's key does not have; equal references are refused by every build.
- BuildPoeTx.Build: stops at the decision; the assembled bytes, their hashes, the auxiliary-data check, the order of inputs inside the body and the panic of the builder on inputs already validated are not modelled. Balancing is not complete over subsets and is not claimed to be.
- Pss.RecoverPssSaltLen: does not model the 32-bit wrap of the mask counter, which takes a modulus of 128 GiB.
- Signed bytes, fees and produced outputs of an attempt (but for the fee's overflow), wallet rows, and record rows: whether a submit's record claim and leases hold is an input of the step.
- Ledger.ChainAttempts.RecordAttempt: which of several violated constraints the database names first is fixed to the one-active index before the transaction hash.
- The submit, confirm and recover loops, and the fairness and liveness of loaders with limits.
- ProofOfDeath.SettlementDeepConflictingSpend: does not model the bigint overflow of the database for a tip at 2^63 - 1 and a conflict at height 0.
- JSON payloads and their snapshots, keep-alive pings, notification channels and timers: a wake is any further read.
- The rest of the gateway, the conformance harness, identifiers, metadata chunking, bundles, wire projections and floating-point rewards: plumbing around these four parts, out of the model's scope.
