# Astreum in Dafny

A model of the parts of the Astreum blockchain node that are algorithms with a
simple specification, and proofs that they meet it. Code that works by changing
things step by step is modelled by methods and classes; each is proved against
functions on values, and the properties are proved about those functions.

- **Cold store** (`ColdFormat`, `ColdStore`, `ColdTable`): the log-structured
  store of `storage/cold` at the level of index and data bytes. It always equals
  a plain map, and its merge cascade ends.
- **Era bloom tree** (`BloomFilters`, `EraTrees`, `BloomTrees`, `EraSearch`):
  tiered filters, the lazily loaded tree over 1024 blocks, and the ancestor
  lookup that it speeds up. No stored subtree is lost, nothing inserted is missed,
  and the lookup agrees with the walk along the chain.
- **Merkle tree** (`Merkle`): the builder, the proof generator and the verifier
  against section 2.1 of RFC 6962.
- **Transactions** (`Ledgers`, `TransactionApply`): settlement, rollback with
  aliased account objects, and conservation over whole blocks.
- **Storage replies** (`ExprCodec`, `FoundPages`, `ExprRequests`, `Shapes`,
  `Culling`, `StorageGets`): paging, staging as a protocol over its steps, shape
  walks, culling and the STORAGE_GET wire format.
- **Statistics windows** (`RateWindow`): the power-of-two windows equal exact sums
  over history at every height.
- **Round trips and arithmetic** (`IntCodec`, `Exprs`, `TransactionMessages`,
  `Printing`, `QuadraticForms`): the transaction message, the printer and parser,
  and Gauss reduction with its encoding.
- **Stake draw, route and hot cache** (`ValidatorDraws`, `Routes`, `HotStorages`).

BLAKE3 and the content hash of a cell are parameters. A property that needs a hash
without collisions asks for it on the finite set of inputs that are really hashed.
Files are maps from names to byte sequences, clocks and random numbers are
parameters, and a lock makes each call of a run one step.

A definition that several properties share has a law of its own that does not go
through it: byte layouts and printed forms are stated byte by byte (`IndexLayout`,
`WireBytes`, `PageLayout`, `EntryLayout`, `IntBytes`, `WrittenForms`), what a decoder
accepts by the converse of its round trip (`DecodedIsBuilt`, `DecodedGetIsWritten`,
`ParsesIff`), and the rules of a ledger, a registry or a draw from their inputs alone
(`ReceiptRule`, `BalancesAfter`, `StagingRule`, `HalvedStake`).

Where a property fails for some input, the exact condition is proved, and a lemma
beside it gives an input that fails:
STORAGE_GET requests round-trip exactly when every resolution is below 0x80
(`GetRoundTrip`, `HighResolutionIsLost`); a radix param is read back exactly when its
offset and lengths are below 2^21 (`RadixKeyRoundTrip`, `LongKeyIsLost`); reduction ends exactly when
D <= 0 and no outer coefficient is negative (`ReductionEndsIffReducible`,
`NegativeFormNeverReduces`); a transaction arrives identical exactly when its data is
folded and it is signed (`ArrivesUnchanged`, `SentAndChanged`), and decodes at all
exactly when its data has no unfolded composite with a payload that its decoder refuses
(`TransactionRoundTrip`, `SentAndRaised`), where the documentation of
`decode_transaction_message` promises None and the code raises; an insert without a
storage handle keeps the tree exactly when its path is loaded
(`InsertKeepsTreeIffLoaded`, `StoredChildIsLost`); balances stay non-negative exactly
when no TRANSFER overdraws its recipient, which a negative amount can do
(`BalancesStayNonNegativeIff`, `NegativeAmountOverdraws`); a pair of printable parts
reads back exactly when its parts are not both known by hash (`PairReadsBackIff`,
`HashPairIsAmbiguous`), and a symbol of digits of another script reads back as a number
(`DigitSymbolReadsAsInt`).
`count_nearer` promises a count of at most `limit`, which holds exactly for a limit of
at least 1 or when no key is nearer (`CountWithinLimitIff`, `ZeroLimitCountsOne`).
The third rollback of `_apply_tx_effects`, after an unaffordable
settlement, and the late refusal of `put_expr_in_hot_storage` can never be reached;
the model says so where they stand.

Verify with `dafny verify dfyconfig.toml`.

## Model

| member | source | states |
|---|---|---|
| `ColdFormat.FindInIndex` | src/astreum/storage/cold/find.py:77-95 | the binary search returns the position and size of the key's own entry, and None exactly when no entry has the key |
| `ColdFormat.WriteIndex` | src/astreum/storage/cold/collate.py:98-148 | the index file holds the entry count and, per key, the key, the running offset and the size, and fails exactly when a number does not fit its field |
| `ColdFormat.IndexLayout` | src/astreum/storage/cold/collate.py:98-148 | byte by byte: 64 bytes of count, then 160 bytes per entry with key, position and size, the numbers highest byte first |
| `ColdFormat.LessAtFirstDifference` | src/astreum/storage/cold/collate.py:70-97 | the key order is that of bytes: the first byte that differs decides, and a prefix comes first |
| `Endian.BigDigit` | src/astreum/storage/cold/collate.py:98-148 | byte k of a big-endian number is its digit of 256^(w - 1 - k) |
| `ColdFormat.KeyFoundOnce` | src/astreum/storage/cold/find.py:77-95 | in a strictly sorted index a key stands at one place only, so the search result is determined |
| `ColdFormat.SpanCutsValue` | src/astreum/storage/cold/collate.py:98-148 | position and size of entry i cut exactly value i out of the concatenated data file |
| `ColdStore.WrittenSegmentOk` | src/astreum/storage/cold/collate.py:98-148 | an index and a data file written from ascending keys represent exactly those keys with their values |
| `ColdStore.CostOfSequence` | src/astreum/storage/cold/insert.py:12-28 | the cost of a set of keys is one index entry and one value for each, so what is written for distinct keys costs exactly that |
| `ColdTable.PackFiles` | src/astreum/storage/cold/collate.py:70-167 | collation turns the loose files into one segment that represents exactly the same map, sorted |
| `ColdTable.GatherLevel` | src/astreum/storage/cold/merge.py:31-104 | the merged index knows exactly the keys of all segments of the level, each pointing at bytes of its value |
| `ColdTable.PackLevel` | src/astreum/storage/cold/merge.py:88-147 | the merged segment represents exactly the union of the level's segments and is no larger than them together |
| `ColdTable.GetFromLevel` | src/astreum/storage/cold/get.py:58-100 | a level lookup finds the stored bytes of a key, and None exactly when no segment of the level has it |
| `ColdTable.GetManyFromLevel` | src/astreum/storage/cold/get.py:139-178 | the batched level lookup finds exactly the pending keys that the level holds, each with its stored bytes |
| `ColdTable.Table.Collate` | src/astreum/storage/cold/collate.py:70-167 | a successful collation empties level_0 into level_1 and the table still holds the same map; a failed one changes nothing in level_0 |
| `ColdTable.Table.Merge` | src/astreum/storage/cold/merge.py:59-168 | a merge empties one level into the next, keeps the map, touches no other level and never raises the total bytes |
| `ColdTable.Table.CascadeStep` | src/astreum/storage/cold/insert.py:119-141 | one turn of the cascade: a level over its limit is emptied into the next and the others stay, a level within it leaves all levels as they were; the levels below stay within theirs, and no level number passes the total bytes |
| `ColdTable.LimitGrowsTenfold` | src/astreum/storage/cold/insert.py:30-50 | the limit of level 0 is the base size, and that of every further level ten times the one before |
| `ColdTable.Table.Cascade` | src/astreum/storage/cold/insert.py:106-141 | the cascade loop ends, keeps the map, leaves every level within its limit, and changes nothing if every level already is |
| `ColdTable.Table.Put` | src/astreum/storage/cold/insert.py:53-141 | a put adds exactly one key to the map through every collation and merge it triggers, keeps the level limits, and collates exactly when the tracked bytes pass the base size |
| `ColdTable.Table.PutTree` | src/astreum/storage/cold/insert.py:53-118 | storing an expression stores its children and then itself: the map gains exactly those content-addressed entries, and while 64-bit offsets suffice it succeeds and keeps the level limits |
| `ColdTable.Table.Get` | src/astreum/storage/cold/get.py:30-100 | a lookup returns exactly what the plain map of all puts holds for the key, from level_0 or any level |
| `ColdTable.Table.GetMany` | src/astreum/storage/cold/get.py:103-178 | the batched lookup agrees with the plain map key by key: the found keys are exactly the asked keys that the map holds |
| `BloomFilters.EnsureTier` | src/astreum/crypto/bloom_filter/insert.py:42-68 | the active tier i of the next element is the one with 2^i - 1 <= count < 2^(i+1) - 1, and exactly the missing tiers are appended, empty |
| `BloomFilters.BloomInsert` | src/astreum/crypto/bloom_filter/insert.py:71-85 | an insert sets the element's positions in the active tier and nothing else |
| `BloomFilters.BloomTest` | src/astreum/crypto/bloom_filter/test.py:7-23 | the test answers yes exactly when some tier has all positions of the element set; what the positions are is in the next three rows |
| `BloomFilters.PositionIsSlice` | src/astreum/crypto/bloom_filter/insert.py:23-39 | position k is the base-256 number of digest bytes 8k to 8k + 7, highest first, less a multiple of the tier's bits, and below them |
| `BloomFilters.OneElementFilter` | src/astreum/crypto/bloom_filter/test.py:7-23 | after one insert a test says yes if and only if every slice of the asked element agrees modulo 16 with some slice of the inserted one |
| `BloomFilters.NotEveryElementIsFound` | src/astreum/crypto/bloom_filter/test.py:7-23 | two elements that the filter tells apart |
| `BloomFilters.TierDoubles` | src/astreum/crypto/bloom_filter/insert.py:58-66 | the first tier has 16 bits and every further one twice as many |
| `BloomFilters.RunRepresents` | src/astreum/crypto/bloom_filter/insert.py:42-85 | after any run of inserts bit b of tier i is set exactly when an element numbered for tier i has position b |
| `BloomFilters.MembershipIsExact` | src/astreum/crypto/bloom_filter/test.py:7-23 | a test answers yes if and only if the elements of one tier cover all positions of the asked element |
| `BloomFilters.NoFalseNegatives` | src/astreum/crypto/bloom_filter/test.py:7-23 | every element ever inserted is found, through all tiers |
| `EraTrees.LeafSetMeans` | src/astreum/crypto/bloom_tree/tree.py:176-217 | sealing a leaf with storage loads its whole path and changes, in the fully loaded tree, only the block of that leaf, if it exists |
| `EraTrees.WalkedMeans` | src/astreum/crypto/bloom_tree/tree.py:100-132 | inserting along a loaded path, with or without a storage handle, is inserting into the fully loaded tree |
| `EraTrees.InsertKeepsTreeIffLoaded` | src/astreum/crypto/bloom_tree/tree.py:134-155 | an insert without storage equals the insert into the fully loaded tree if and only if no node of its path is left in storage |
| `EraTrees.StoredChildIsLost` | src/astreum/crypto/bloom_tree/tree.py:134-155 | a tree of full height with a stored child on the path loses that child to such an insert |
| `EraTrees.NextPathLoaded` | src/astreum/crypto/bloom_tree/tree.py:100-132 | with the path to offset p loaded and nothing inserted beyond it, the path to p + 1 needs no stored node |
| `EraTrees.QuietBlock` | src/astreum/consensus/validation/worker.py:419-434 | a block without transactions leaves the history tree unchanged |
| `EraTrees.SealedBlock` | src/astreum/crypto/bloom_tree/tree.py:157-217 | naming the block of an offset is setting that leaf alone |
| `EraTrees.NewestInsert` | src/astreum/crypto/bloom_tree/tree.py:84-132 | an insert at the newest offset turns the tree of a history into the tree of the history with those elements appended |
| `EraTrees.SaveSavesAll` | src/astreum/crypto/bloom_tree/tree.py:232-234 | writing only the touched nodes puts every loaded node in the store: the untouched ones are there already |
| `EraTrees.SavedMeans` | src/astreum/crypto/bloom_tree/expr.py:44-91 | the written root, read back in full, is the tree that was in memory |
| `EraTrees.BlockKeepsEra` | src/astreum/consensus/validation/worker.py:419-434 | one block (load the root, seal the previous leaf, insert without storage, rewrite the root) takes the stored tree of a history to that of the longer history |
| `EraTrees.EraIsWhole` | src/astreum/consensus/validation/worker.py:419-434 | after any blocks of an era the stored tree is complete and equals the tree defined by the history alone: no stored subtree is ever replaced |
| `EraTrees.EraWidth` | src/astreum/crypto/bloom_tree/tree.py:84-98 | the ten levels of a tree cover exactly an era of 1024 blocks |
| `EraSearch.EraSearchFinds` | src/astreum/crypto/bloom_tree/tree.py:303-333 | searching the stored tree of an era for an inserted element finds the leaf of its offset, with that block's id once it has a successor |
| `EraSearch.FoundLeavesAreReal` | src/astreum/crypto/bloom_tree/tree.py:303-333 | every leaf that a search returns is a leaf of the history with its right block, and its filter may hold the element |
| `EraSearch.FoundLeavesAscend` | src/astreum/crypto/bloom_tree/tree.py:303-333 | the leaves are found in the order of their blocks, each once |
| `EraSearch.StorageFindLeaf` | src/astreum/crypto/bloom_search/block_search.py:72-108 | the descent loop returns the start hash of the leaf of the offset in the fully read tree, None when the path breaks off |
| `EraSearch.DescentReachesLeaf` | src/astreum/crypto/bloom_search/block_search.py:85-108 | the binary descent by offset reaches exactly the leaf written for it: a block id if and only if something was inserted there and a successor sealed it |
| `EraSearch.BuiltBlocksAreIndexed` | src/astreum/crypto/bloom_search/block_search.py:29-69 | a block whose tree was built along its era carries the index that the lookup relies on, in every later store |
| `EraSearch.AncestorExists` | src/astreum/crypto/bloom_search/block_search.py:29-69 | the plain walk finds a block exactly at the heights from 0 to the start, and it has that height |
| `EraSearch.FindBlockByHeight` | src/astreum/crypto/bloom_search/block_search.py:11-69 | whatever headers and tree cells can be read, a found block is the true ancestor, the lookup finds whatever the plain previous-block walk over the same headers finds, and it raises only when the ancestor's own header cannot be read; with all headers lookup and walk are equal |
| `BloomTrees.BloomNode.Walk` | src/astreum/crypto/bloom_tree/tree.py:100-132 | the mutable walk changes the nodes as the value-level insert says |
| `BloomTrees.BloomNode.ResolveChild` | src/astreum/crypto/bloom_tree/tree.py:134-155 | a child is the stored one if it can be read with the handle, else a new empty node |
| `BloomTrees.BloomNode.SetLeaf` | src/astreum/crypto/bloom_tree/tree.py:176-217 | sealing a leaf on mutable nodes is the value-level operation, with the same found flag |
| `BloomTrees.BloomNode.Write` | src/astreum/crypto/bloom_tree/expr.py:44-91 | the written cells are those of the touched nodes and the returned id is the root's hash |
| `BloomTrees.BloomTree.Insert` | src/astreum/crypto/bloom_tree/tree.py:84-98 | an insert on a tree object, with the root created when missing |
| `BloomTrees.BloomTree.SetLeafStartHash` | src/astreum/crypto/bloom_tree/tree.py:157-174 | sealing does nothing without a root and loads and seals the path otherwise |
| `BloomTrees.BuildBlockTree` | src/astreum/consensus/validation/worker.py:419-434 | the per-block cycle on mutable trees yields exactly the next era state of the run |
| `Merkle.CreateMerkleTree` | src/astreum/crypto/merkle.py:28-53 | the level loop builds exactly the levels with odd-node promotion and accepts exactly lists of 32-byte values; the root is the tree hash of section 2.1 of RFC 6962, written out with its prefix bytes 0 and 1 |
| `Merkle.GenerateProof` | src/astreum/crypto/merkle.py:56-77 | for any tree object a proof exists exactly for an index in range, and is the siblings met on the way up through its levels |
| `Merkle.BuiltPathIsAuditPath` | src/astreum/crypto/merkle.py:56-77 | in every built tree that proof is the audit path of section 2.1.1 of RFC 6962 |
| `Merkle.VerifyProof` | src/astreum/crypto/merkle.py:80-123 | the shift loop accepts exactly when the sizes are right and the climb ends at the root with the proof used up |
| `Merkle.TopIsTreeHash` | src/astreum/crypto/merkle.py:28-53 | the level-by-level root equals the recursive tree hash of section 2.1 of RFC 6962 |
| `Merkle.SiblingPathIsAuditPath` | src/astreum/crypto/merkle.py:56-77 | the siblings met from leaf to root are the audit path of section 2.1.1 of RFC 6962 |
| `Merkle.SiblingPathClimbs` | src/astreum/crypto/merkle.py:80-123 | every generated path climbs to the root |
| `Merkle.ClimbIsUnique` | src/astreum/crypto/merkle.py:80-123 | without a hash collision a climb that reaches the root started at the tree's own node and used its siblings |
| `Merkle.VerificationIsExact` | src/astreum/crypto/merkle.py:80-123 | acceptance at (count, index) against the RFC 6962 tree hash of the values holds if and only if the value is the one at that index and the proof is its audit path |
| `Ledgers.SettleFees` | src/astreum/consensus/transaction/fees.py:62-94 | the settlement loop pays everything, or the fees in order until the balance is gone and no transfer amount |
| `Ledgers.SettlementRule` | src/astreum/consensus/transaction/fees.py:1-20 | a failure pays min(balance, owed), a later fee only after the earlier ones are paid in full, and never more than the balance |
| `Ledgers.SupplyAfterTransaction` | src/astreum/consensus/transaction/apply.py:631-700 | one application lowers the sum of balances by exactly the receipt's transaction and data fee, self-transfer and transfer to the storage account included |
| `Ledgers.SenderStaysNonNegative` | src/astreum/consensus/transaction/apply.py:686-691 | no transaction drives its sender negative, the credit-funding codes included, which alone admit a sender below the base fee |
| `Ledgers.BalancesStayNonNegativeIff` | src/astreum/consensus/transaction/apply.py:187-222 | no balance at all becomes negative if and only if no TRANSFER takes more from its recipient than there is; an amount of zero or more suffices |
| `Ledgers.NegativeAmountOverdraws` | src/astreum/consensus/transaction/apply.py:216-219 | a TRANSFER of a negative amount takes from its recipient: one with -50 leaves the recipient at -45 |
| `Ledgers.RunStaysNonNegative` | src/astreum/consensus/transaction/apply.py:187-222 | over any run of handler-free transactions without negative amounts no balance becomes negative |
| `Ledgers.FailureTouchesOnlyFees` | src/astreum/consensus/transaction/apply.py:187-208 | a failed transaction leaves every account but sender and storage account as it was, and moves no transfer amount |
| `Ledgers.SuccessPaysInFull` | src/astreum/consensus/transaction/apply.py:628-660 | a success paid every fee in full and moved exactly the amount |
| `Ledgers.CounterRule` | src/astreum/consensus/transaction/apply.py:131-137 | a transaction with another counter than its sender's fails; one with the sender's counter raises it by one, success or not, and no other counter changes |
| `Ledgers.NoReplay` | src/astreum/consensus/transaction/apply.py:131-137 | over any run the successes of one sender carry strictly increasing counters, none below the one that the sender starts with: no transaction succeeds twice |
| `Ledgers.ReceiptRule` | src/astreum/consensus/transaction/apply.py:131-660 | the whole receipt from the sender's account, the transaction and the fees: exactly when it is a success, and what each fee is |
| `Ledgers.BalancesAfter` | src/astreum/consensus/transaction/apply.py:686-700 | the whole ledger after one transaction, account by account, under every aliasing of sender, recipient and storage account |
| `Ledgers.WrittenIsLast` | src/astreum/consensus/transaction/apply.py:224-499 | after a handler's writes an account shows the last of them and the counter that it had |
| `Ledgers.RewardGoesToValidator` | src/astreum/consensus/validation/worker.py:202-230 | the validator gains max(fees, 1) and every other account is as it was |
| `Ledgers.SupplyAfterBlock` | src/astreum/consensus/block/reward.py:6-20 | a block of handler-free transactions changes the supply, after the validator reward, by exactly max(0, 1 - fees) |
| `TransactionApply.Block.GetAccount` | src/astreum/consensus/models/accounts.py:49-111 | reading an account caches one object per address and changes no account |
| `TransactionApply.Block.Snapshot` | src/astreum/consensus/models/block.py:136-165 | the snapshot holds fresh clones with the values of the cached accounts, the involved addresses and the block's own pending exprs and counters |
| `TransactionApply.Block.Rollback` | src/astreum/consensus/transaction/apply.py:192-208 | the rollback restores exactly the accounts, the involved addresses and the block's own fields of the snapshot, and reads the sender and storage objects again |
| `TransactionApply.Block.GetOrCreate` | src/astreum/consensus/transaction/apply.py:165-182 | the recipient is the sender's or the storage account's own object when the addresses agree, a new pending object when there is none |
| `TransactionApply.Block.RunCode` | src/astreum/consensus/transaction/apply.py:216-499 | running a code on account objects has the effect on the ledger that the code means, through aliased objects too |
| `TransactionApply.Block.Execute` | src/astreum/consensus/transaction/apply.py:131-503 | up to point 1: the effect of the code when it ran, exactly the old ledger when it did not |
| `TransactionApply.PriceFees` | src/astreum/consensus/transaction/apply.py:519-626 | which fees are added, and exactly when the checks let the transaction succeed |
| `TransactionApply.Block.CheckFees` | src/astreum/consensus/transaction/apply.py:505-640 | up to point 2: the final status, the owed storage fee, and the old ledger again after a late failure |
| `TransactionApply.Block.WriteBack` | src/astreum/consensus/transaction/apply.py:686-700 | the deductions and write-back charge the sender once, also when sender, recipient and storage account share objects |
| `TransactionApply.Block.Apply` | src/astreum/consensus/transaction/apply.py:69-717 | the whole application on mutable accounts equals the value-level transaction, with its receipt, and what a handler left in the block's own fields stays only on success; it raises exactly on a wrong chain id, a missing sender, or a balance below the base fee for a code that is not credit-funding |
| `TransactionApply.Block.AwardValidatorReward` | src/astreum/consensus/validation/worker.py:202-230 | the reward reaches the validator's account, created when missing |
| `TransactionApply.Block.ApplyAll` | src/astreum/consensus/validation/worker.py:436-452 | the transaction loop on the mutable block leaves the ledger and the receipts of the value-level run, passing over what raises |
| `TransactionApply.Block.ApplyBlock` | src/astreum/consensus/validation/worker.py:436-499 | transactions and reward on the mutable block: the validator's balance is that after the run plus max(fees, 1), every other account is as after the run, and without handlers the supply changes by exactly max(0, 1 - fees) |
| `RateWindow.UpdateStatistics` | src/astreum/consensus/block/rate_window.py:4-48 | the update loop yields the totals and one entry per power of two up to the height |
| `RateWindow.UpdateKeepsExact` | src/astreum/consensus/block/rate_window.py:10-48 | one block keeps every window entry exact, the window born at this height included |
| `RateWindow.RunIsExact` | src/astreum/consensus/block/rate_window.py:10-48 | at every height of every run each entry holds the sums over the last completed aligned window and over the current one so far |
| `RateWindow.WindowWithinTotals` | src/astreum/consensus/block/rate_window.py:10-48 | the last and the current window together never exceed the all-time totals |
| `RateWindow.EstimateBounds` | src/astreum/consensus/block/rate.py:64-98 | the estimated storage rate lies between the current rate and twice it; exactly what it is, is in the next row |
| `RateWindow.EstimateIsGrowth` | src/astreum/consensus/block/rate.py:64-98 | on every run the estimate exceeds the current rate exactly when the rate grew over the window, and by exactly that growth, the window being the current one completed by its share of the last |
| `RateWindow.FeeIsCeiling` | src/astreum/consensus/block/rate.py:36-61 | the fee is twice the least number of units that pays for the bytes at the parent's rate, 0 without a parent, and an error without parent fees |
| `RateWindow.RateFeeIsCeiling` | src/astreum/consensus/block/rate.py:101-113 | the fee at a rate is twice the least number of units that pays for the bytes at it |
| `RateWindow.EstimateCoversNextBlock` | src/astreum/consensus/block/rate.py:36-61 | a fee computed from the estimate covers what the next block charges for the same bytes |
| `RateWindow.FeeIgnoresTerms` | src/astreum/consensus/block/rate.py:101-113 | a fee at a rate depends on the value of the rate only, not on its terms |
| `QuadraticForms.StepProgress` | src/astreum/crypto/quadratic_form.py:86-102 | a Gauss step on an unreduced reducible form lowers a, or keeps a and comes nearer to reduced, despite the uneven rounding for negative b |
| `QuadraticForms.ReductionEndsIffReducible` | src/astreum/crypto/quadratic_form.py:78-84 | for every form, repeated steps reach a reduced form if and only if D <= 0 and neither outer coefficient is negative; for D < 0 exactly when the first coefficient is positive |
| `QuadraticForms.NegativeFormNeverReduces` | src/astreum/crypto/quadratic_form.py:138-146 | the form (-1, 1, -1) with D = -3 decodes, and its reduction never ends |
| `QuadraticForms.ReductionEquivalent` | src/astreum/crypto/quadratic_form.py:78-102 | the reduced form represents the same integers and has the same discriminant |
| `QuadraticForms.EquivalentKeepsPrimitive` | src/astreum/crypto/quadratic_form.py:48-59 | equivalent forms are primitive together |
| `QuadraticForms.ReducedIsSmall` | src/astreum/crypto/quadratic_form.py:36-45 | a reduced form has 3a^2 <= |D| and |b| <= a |
| `QuadraticForms.ReducedIsUnique` | src/astreum/crypto/quadratic_form.py:36-45 | two reduced forms with one D < 0 that represent the same integers have the same a, the same c and the same |b|; with a = c the same b, which is not negative |
| `QuadraticForms.TieIsReducedToPositive` | src/astreum/crypto/quadratic_form.py:78-102 | (2, -1, 2) with D = -15 is not reduced, and reduces to (2, 1, 2) |
| `QuadraticForms.ShiftRange` | src/astreum/crypto/quadratic_form.py:86-102 | a step puts b into [-a, a) for b >= 0, but only into [a, 3a) for b < 0 |
| `QuadraticForms.ReducedFits` | src/astreum/crypto/quadratic_form.py:128-136 | the fixed width holds both coefficients of every reduced form, and is the bytes that the bits of |D| take, plus one |
| `QuadraticForms.EncodingRoundTrip` | src/astreum/crypto/quadratic_form.py:128-146 | a reduced primitive form always encodes, and decoding gives it back, already reduced, if and only if its first coefficient is not zero |
| `QuadraticForms.SignedBytes` | src/astreum/crypto/quadratic_form.py:128-136 | a coefficient is written highest byte first in two's complement |
| `QuadraticForms.QuadraticForm.Reduce` | src/astreum/crypto/quadratic_form.py:78-84 | on every form on which it ends, the reduce loop yields the reduced form, equivalent to the old one, with discriminant and primitivity kept |
| `QuadraticForms.QuadraticForm.FromBytes` | src/astreum/crypto/quadratic_form.py:138-146 | where its reduction ends, decoding fails exactly when a is zero or a check fails, and yields the reduced form of the decoded coefficients |
| `ExprCodec.DecodeEncodedExpr` | src/astreum/expression/encoding/encoder.py:12-34 | decoding the bytes of a cell gives the cell back |
| `ExprCodec.EncodeExprInjective` | src/astreum/expression/encoding/decoder.py:7-32 | two cells with the same bytes are the same cell |
| `ExprCodec.WireBytes` | src/astreum/expression/encoding/encoder.py:12-34 | byte by byte: tag 0 and the hashes of head and tail, tag 1 and the text, or tag 2 and the bytes |
| `ExprCodec.DecodedIsEncoded` | src/astreum/expression/encoding/decoder.py:7-32 | decoding accepts exactly the encodings, and links with any bytes after them |
| `ExprCodec.ValidIsUtf8` | src/astreum/expression/encoding/decoder.py:7-32 | the texts accepted are exactly the UTF-8 encodings of sequences of characters, by the table of RFC 3629 |
| `FoundPages.GroupExprs` | src/astreum/communication/storage_response/storage_found.py:70-84 | the greedy loop groups exactly the packable exprs in order, no page empty or over budget, no break before it is forced, the root first |
| `FoundPages.GreedyUnique` | src/astreum/communication/storage_response/storage_found.py:70-84 | there is only one such grouping, so the pages are determined |
| `FoundPages.GreedyIsFewest` | src/astreum/communication/storage_response/storage_found.py:70-84 | no split of the packable exprs, in their order, into pages within the budget has fewer pages than the greedy one |
| `FoundPages.PageFits` | src/astreum/communication/storage_response/storage_found.py:17-37 | a page within the budget has at most 13077 exprs, so its counters fit, and the payload fits the datagram |
| `FoundPages.PageHolds` | src/astreum/communication/storage_response/storage_found.py:40-87 | a page fits exactly if it and 118 bytes of framing and headers take at most 65507 bytes; each expr takes 4 bytes and its own, and is packable exactly if it fits a page alone |
| `FoundPages.PageLayout` | src/astreum/communication/storage_response/storage_found.py:17-37 | byte by byte: type 1, number, total and count in two bytes each, then every expr behind its length in four |
| `FoundPages.EncodeFoundPages` | src/astreum/communication/storage_response/storage_found.py:40-87 | an error exactly for no exprs, an oversized root or more than 65535 pages, else the numbered payloads of the greedy pages |
| `FoundPages.DecodeFoundPage` | src/astreum/communication/storage_response/storage_found.py:90-129 | the decode loop accepts exactly the well-formed payloads, UTF-8 of symbols included, with the same error branches |
| `FoundPages.DecodeBuiltPage` | src/astreum/communication/storage_response/storage_found.py:90-129 | decoding a built page gives its number, the total and its exprs |
| `FoundPages.DecodedHeader` | src/astreum/communication/storage_response/storage_found.py:90-129 | the header bytes of every page that decodes, its number within its total and its exprs as many as it says |
| `FoundPages.DecodedIsBuilt` | src/astreum/communication/storage_response/storage_found.py:90-129 | the converse: a page that decodes is the built page of its exprs, but for surplus bytes in its links |
| `FoundPages.LongerPageIsRefused` | src/astreum/communication/storage_response/storage_found.py:90-129 | a page that decodes is refused with any byte more |
| `ExprRequests.Registry.ClaimExprReq` | src/astreum/storage/requests.py:100-135 | a claim registers a request exactly when none is live, replacing an expired one |
| `ExprRequests.Registry.StageFoundPage` | src/astreum/storage/requests.py:152-209 | a page is staged, ignored or completes the request, by liveness, bound sender, bound total, range and repetition |
| `ExprRequests.Registry.PruneExpired` | src/astreum/storage/requests.py:276-293 | exactly the expired requests are removed and counted |
| `ExprRequests.StagingRule` | src/astreum/storage/requests.py:152-209 | exactly which page is accepted, and everything that it changes: the binding, the deadline, the pages, and whether the request completes |
| `ExprRequests.EveryEntrySound` | src/astreum/storage/requests.py:185-209 | in every run a pending request holds pages numbered within its bound total and lacks at least one |
| `ExprRequests.CompletesAtMostOnce` | src/astreum/storage/requests.py:185-209 | in every run the completions of an id, plus the pending request, never outnumber its successful claims |
| `ExprRequests.ClaimBeforeCompletion` | src/astreum/storage/requests.py:185-209 | between two completions of an id, and before the first, lies a claim that registered it |
| `ExprRequests.AllPagesComplete` | src/astreum/storage/requests.py:185-209 | once a request is bound, if every page it lacks arrives from the bound sender under the bound total while it is live, with no pop between, it completes, whatever else happens |
| `ExprRequests.EncodedPagesAreHonest` | src/astreum/communication/storage_response/handle.py:54-71 | every encoded payload parses to the page of the greedy reply with its number and the reply's total, so replaying payloads in any order is honest |
| `ExprRequests.CompletedReplyIsWhole` | src/astreum/communication/storage_response/handle.py:83-95 | whenever a request completes, every page number is there once, and if it is bound to the reply's sender and page count the join is exactly the packable exprs in order, whatever other senders sent and whatever the sender itself sent under other totals |
| `ExprRequests.JoinPages` | src/astreum/communication/storage_response/handle.py:83-86 | the join over the sorted page numbers is the concatenation in page order |
| `Shapes.ParseInvertsEncode` | src/astreum/expression/shape.py:50-114 | parsing gives a rule if and only if the bytes are those that pair, repeat, HOLD and SEND build for it and it is at most 128 deep |
| `Shapes.ReadEncoded` | src/astreum/expression/shape.py:94-110 | a rule is read wherever its bytes stand inside longer data, unless it reaches below the depth limit |
| `Shapes.WalkShape` | src/astreum/expression/shape.py:117-167 | on an acyclic store the explicit-stack walk ends and lists exactly the first visits of the recursive preorder meaning, found and missing apart |
| `Shapes.RulesOnOneLink` | src/astreum/expression/shape.py:117-167 | what every kind of rule reaches of a link of two byte strings, in order, with and without known hashes |
| `Shapes.FirstVisitsAreTheTrace` | src/astreum/expression/shape.py:135-167 | the listed hashes are distinct and exactly the reached ones on their side of the store |
| `Culling.CullFull` | src/astreum/communication/storage_response/cull.py:99-114 | FULL keeps exactly the delivered exprs reachable from the root, each once, root first: the early exit loses none |
| `Culling.CullList` | src/astreum/communication/storage_response/cull.py:83-97 | LIST keeps the root's tail chain within the delivered exprs, up to a repetition |
| `Culling.TailChainIsMaximal` | src/astreum/communication/storage_response/cull.py:83-97 | each hash that LIST keeps is the tail of the cell before it, and the chain ends only where it cannot go on |
| `Culling.CullToResolution` | src/astreum/communication/storage_response/cull.py:39-114 | what each resolution keeps of the delivered exprs |
| `Culling.KeptIsDelivered` | src/astreum/communication/storage_response/cull.py:39-114 | at every resolution only delivered exprs are kept, each at most once, root first |
| `Culling.RadixKeepsAll` | src/astreum/communication/storage_response/cull.py:39-114 | the radix resolutions keep every delivered expr; SINGLE, and no resolution, only the root |
| `StorageGets.VarintBytes` | src/astreum/communication/storage_request/model.py:39-56 | the varint loop emits the base-128 digits, lowest first |
| `StorageGets.VarintDigit` | src/astreum/communication/storage_request/model.py:39-56 | byte k is the digit of 128^k, and all bytes but the last, which is not zero in a longer one, have the bit 0x80 |
| `StorageGets.ReadVarint` | src/astreum/communication/storage_request/model.py:59-80 | the read loop decodes at most three bytes and fails when cut short or longer |
| `StorageGets.VarintRoundTrip` | src/astreum/communication/storage_request/model.py:39-80 | a varint of at most three bytes is read back wherever it stands |
| `StorageGets.VarintLength` | src/astreum/communication/storage_request/model.py:39-80 | three bytes are enough exactly below 2^21 |
| `StorageGets.RadixKeyIsLocal` | src/astreum/communication/storage_request/model.py:166-189 | a radix param ends where its own bytes say, inside any longer buffer, canonical varints or not |
| `StorageGets.RadixKeyLayout` | src/astreum/communication/storage_request/model.py:137-163 | exactly when a radix param can be built, and its parts in order |
| `StorageGets.RadixKeyRoundTrip` | src/astreum/communication/storage_request/model.py:137-208 | a built radix param parses to its offset, key and value shape if and only if the offset and both lengths are below 2^21 |
| `StorageGets.LongKeyIsLost` | src/astreum/communication/storage_request/model.py:137-208 | a key of 2^21 bytes is encoded and not read back |
| `StorageGets.VarintTooLong` | src/astreum/communication/storage_request/model.py:59-80 | a varint of more bytes than the read allows is refused, wherever it stands |
| `StorageGets.EntrySizeIsExact` | src/astreum/communication/storage_request/model.py:262-285 | get_entry_size equals the bytes really written for the entry |
| `StorageGets.EntryRoundTrip` | src/astreum/communication/storage_request/model.py:426-456 | an entry of any kind is read back inside a longer body and ends where it should |
| `StorageGets.GetToBytes` | src/astreum/communication/storage_request/model.py:416-462 | the encoding loop writes the entries in order and fails in the source's cases |
| `StorageGets.GetWritten` | src/astreum/communication/storage_request/model.py:416-462 | exactly when a request can be written, its size, and its header bytes |
| `StorageGets.EntryPlace` | src/astreum/communication/storage_request/model.py:416-462 | entry k of a written request stands behind the header and the entries before it |
| `StorageGets.EntryLayout` | src/astreum/communication/storage_request/model.py:426-456 | exactly when an entry can be written, and its bytes: id, resolution with the scope bit, block, and what the resolution needs |
| `StorageGets.GetFromBytes` | src/astreum/communication/storage_request/model.py:533-586 | the decoding loop reads count entries and accepts no byte more |
| `StorageGets.DecodedGetIsWritten` | src/astreum/communication/storage_request/model.py:533-586 | the converse: a request that decodes is the written one, but for padded lengths and its first byte |
| `StorageGets.LongerGetIsRefused` | src/astreum/communication/storage_request/model.py:533-586 | a request that decodes is refused with any byte more |
| `StorageGets.GetRoundTrip` | src/astreum/communication/storage_request/model.py:416-586 | decoding an encoded request gives the same entries if and only if every resolution is below the scope flag 0x80 |
| `StorageGets.HighResolutionIsLost` | src/astreum/communication/storage_request/model.py:416-586 | a plain entry of resolution 200 is encoded and does not come back |
| `StorageGets.BatchFitsDatagram` | src/astreum/communication/storage_request/model.py:312-322 | a batch fits the datagram if and only if its entry sizes fit get_body_budget |
| `StorageGets.EntryWithinMax` | src/astreum/communication/storage_request/model.py:288-309 | no entry made within the size limits exceeds max_get_entry_bytes |
| `StorageGets.MaxIsRadixEntry` | src/astreum/communication/storage_request/model.py:288-309 | max_get_entry_bytes is the size of the scoped entry with the longest radix param |
| `IntCodec.WidthSuffices` | src/astreum/expression/expr.py:61-71 | the width chosen from the bit length always holds the signed integer |
| `IntCodec.DecodeEncodedInt` | src/astreum/expression/expr.py:61-83 | every integer survives the signed little-endian codec |
| `IntCodec.IntBytes` | src/astreum/expression/expr.py:61-71 | lowest byte first, in two's complement, in as few bytes as leave room for a sign bit above the magnitude |
| `IntCodec.SignedLittleBytes` | src/astreum/expression/expr.py:74-83 | every byte string is what its own integer is written as at its width |
| `Exprs.PlainKeepsHash` | src/astreum/expression/expr.py:154-191 | a composite and the link of its payload and type symbol have one hash |
| `Exprs.CanonOfPlain` | src/astreum/consensus/transaction/message.py:123-153 | a tree and its form with composites as links are rebuilt for the same trees, and rebuilding undoes writing composites as links |
| `Exprs.ReconstructBuiltinComposites` | src/astreum/consensus/transaction/message.py:123-153 | rebuilding raises exactly when some unfolded composite has a payload that its decoder refuses, and else folds every composite |
| `Exprs.CanonFixesFolded` | src/astreum/consensus/transaction/message.py:123-153 | rebuilding changes nothing if and only if no composite stands unfolded |
| `Exprs.CanonKeepsHash` | src/astreum/expression/encoding/encoder.py:24-34 | hashing a rebuilt tree anew gives the old hash if its ints are canonical |
| `Exprs.CanonHashIff` | src/astreum/expression/encoding/encoder.py:24-34 | without collisions it gives the old hash if and only if its ints are canonical; the cached hash of a decoded expr stays in any case |
| `TransactionMessages.Walk` | src/astreum/consensus/transaction/message.py:62-80 | the recursive walk appends each new cell once, by hash, and skips known type symbols |
| `TransactionMessages.WalkSends` | src/astreum/consensus/transaction/message.py:40-82 | every cell of the tree is sent, none that is not of the tree |
| `TransactionMessages.FlattenedOnce` | src/astreum/consensus/transaction/message.py:40-82 | no cell but that of NIL is sent twice, and no builtin type symbol is sent |
| `TransactionMessages.FlattenedOrder` | src/astreum/consensus/transaction/message.py:62-80 | a link is sent before its head and its tail, a composite before its payload |
| `TransactionMessages.EncodeTransactionMessage` | src/astreum/consensus/transaction/message.py:29-82 | encoding succeeds exactly when all cells fit one page, and is then that page |
| `TransactionMessages.LinkTree` | src/astreum/consensus/transaction/message.py:156-190 | relinking yields the one tree that the hashes name, and fails exactly when a hash is missing |
| `TransactionMessages.SentIsLinked` | src/astreum/consensus/transaction/message.py:156-190 | relinking what was sent gives the original tree, composites as links |
| `TransactionMessages.SentIsAcyclic` | src/astreum/consensus/transaction/message.py:156-190 | the receiver's table of every sent tree has no cycle, so linking it ends |
| `TransactionMessages.DecodeTransactionMessage` | src/astreum/consensus/transaction/message.py:85-120 | the decoder returns the transaction that the payload's linked tree means, one with None in an int field, or None, or raises, exactly as the tree says, with the hashes that its cells came with |
| `TransactionMessages.TransactionLayout` | src/astreum/consensus/transaction/model.py:28-76 | the tree of a transaction: its eight fields in order, the signature or 32 zero bytes, and the symbol transaction |
| `TransactionMessages.ParsesIff` | src/astreum/consensus/transaction/message.py:207-275 | the parser accepts exactly the trees of a body with the eight fields of a transaction, a known code and a signature |
| `TransactionMessages.DecodedIsTransaction` | src/astreum/consensus/transaction/message.py:85-120 | only a single page with a link first decodes to anything; it raises exactly if a composite of the linked tree cannot be rebuilt, and gives a transaction only under the symbol transaction, by the parser |
| `TransactionMessages.DecodesOnce` | src/astreum/consensus/transaction/message.py:85-120 | a payload decodes to one thing only |
| `TransactionMessages.RefKeepsHash` | src/astreum/consensus/transaction/message.py:103-108 | every linked tree has the hash that named it, whatever the payload |
| `TransactionMessages.ReceivedHash` | src/astreum/consensus/transaction/message.py:205-275 | a received transaction has the hash of the first cell of its payload |
| `TransactionMessages.TransactionRoundTrip` | src/astreum/consensus/transaction/message.py:40-190 | an encoded transaction decodes to itself, with every field, its data with composites folded and the hashes of the sent tree, if and only if every unfolded composite of its data has a payload that its decoder accepts; otherwise the receiver raises |
| `TransactionMessages.EncodedIsAcyclic` | src/astreum/consensus/transaction/message.py:85-120 | every encoded transaction parses to a table on which the decoder may be called |
| `TransactionMessages.ArrivesUnchanged` | src/astreum/consensus/transaction/message.py:40-190 | the transaction arrives identical if and only if its data is folded and a signature is set; its hash and body hash are those of the sent tree for all data that decode |
| `TransactionMessages.SentAndChanged` | src/astreum/consensus/transaction/message.py:40-190 | two transactions that fit their page and arrive changed: one with an unfolded int, one without a signature |
| `TransactionMessages.SentAndRaised` | src/astreum/consensus/transaction/message.py:110-113 | data (0xff . str) and (0x01 . fp64) are encoded on one page, and the receiver raises |
| `TransactionMessages.SignedHashArrives` | src/astreum/consensus/transaction/model.py:28-76 | the body hash that the receiver computes from the fields, for the signature check, is the one that the sender signed |
| `Printing.Repr` | src/astreum/expression/expr.py:219-275 | the printer's loop yields the recursive text of an expr |
| `Printing.WrittenForms` | src/astreum/expression/expr.py:219-275 | the texts of atoms, lists and dotted pairs, a tail that ends in a builtin type symbol in its own parentheses |
| `Printing.IntForm` | src/astreum/expression/expr.py:219-275 | an int prints as plain digits, a minus if negative and no zero in front |
| `Printing.HexForm` | src/astreum/expression/expr.py:234-235 | bytes print as two lower-case hex digits each, the high one first |
| `Printing.Tokenize` | src/astreum/machine/tokenizer.py:4-165 | the index loops yield the tokens that a scan of the remaining text defines |
| `Printing.CommentIsSkipped` | src/astreum/machine/tokenizer.py:31-64 | a comment reaches to the end of its line and ends a token |
| `Printing.QuotedWord` | src/astreum/machine/tokenizer.py:128-160 | a quoted word is a list of the quote and the word |
| `Printing.QuotedList` | src/astreum/machine/tokenizer.py:66-110 | a quoted list is a list of the quote and that list |
| `Printing.ParseOne` | src/astreum/machine/parser.py:29-107 | the recursive descent returns an expr and next position exactly when the tokens parse, and it is that expr |
| `Printing.HashAndBytesIff` | src/astreum/machine/parser.py:78-107 | tokens that begin like a hash or like bytes are refused exactly when malformed, and no other atom is |
| `Printing.FromHexIff` | src/astreum/machine/parser.py:78-91 | hex is read exactly from an even number of hex digits of either case |
| `Printing.OddLists` | src/astreum/machine/parser.py:29-76 | the empty list is the list of a quote; unbalanced brackets and misplaced dots are refused |
| `Printing.IntRoundTrip` | src/astreum/machine/parser.py:92-96 | printed integers parse to themselves, whatever digits of other scripts Python knows |
| `Printing.HexRoundTrip` | src/astreum/expression/expr.py:234-235 | printed bytes read back from hex |
| `Printing.TextScans` | src/astreum/machine/tokenizer.py:112-165 | scanning a printed expr before a boundary gives its own tokens and leaves the rest |
| `Printing.TokensParse` | src/astreum/machine/parser.py:48-107 | parsing the tokens of an expr gives the expr and leaves the rest |
| `Printing.ParseUndoesPrint` | src/astreum/machine/parser.py:109-120 | parse(tokenize(repr(e))) is e with no tokens left, for every printable expr: proper, dotted and builtin-tagged tails, bare hash links included; a symbol that reads as a number in the digits of any script is not printable |
| `Printing.PairReadsBackIff` | src/astreum/machine/parser.py:48-76 | a pair of printable parts reads back if and only if its parts are not both known by hash; otherwise the parser merges it into one link |
| `Printing.DigitSymbolReadsAsInt` | src/astreum/machine/parser.py:92-96 | a symbol that is one decimal digit beyond ASCII prints as itself and parses to an int |
| `Printing.HashPairIsAmbiguous` | src/astreum/machine/parser.py:62-66 | a pair of two bare hash pointers prints like a link known by both hashes, so it cannot read back |
| `ValidatorDraws.NextBlockTimeIsFirst` | src/astreum/consensus/validation/validator.py:50-72 | the chosen time ends a slot, is not before now plus the estimate, and ends the first slot that is not |
| `ValidatorDraws.SameSlotSameDraws` | src/astreum/consensus/validation/validator.py:231-240 | a target time draws k validators if and only if it lies in slot k |
| `ValidatorDraws.DrawsAgree` | src/astreum/consensus/validation/validator.py:156-240 | the stakes and the generator determine every draw |
| `ValidatorDraws.SameSlotSameValidator` | src/astreum/consensus/validation/validator.py:231-240 | any two timestamps inside one slot give the same validator and the same stakes and balances |
| `ValidatorDraws.LandsInCountedSlot` | src/astreum/consensus/validation/validator.py:50-72 | next_block_time lands in exactly the slot that it counted |
| `ValidatorDraws.PickValidator` | src/astreum/consensus/validation/validator.py:156-175 | the pick is the key whose cumulative interval holds the choice; the final fallback is never reached |
| `ValidatorDraws.PickIsUnique` | src/astreum/consensus/validation/validator.py:156-175 | a choice lies in one interval only |
| `ValidatorDraws.ChancesAreStakes` | src/astreum/consensus/validation/validator.py:156-175 | of the choices below the total a validator is picked by exactly as many as it has stake |
| `ValidatorDraws.Draw.HalveStake` | src/astreum/consensus/validation/validator.py:177-229 | halving fails exactly without a positive stake, pays the difference from the treasury to the validator, and returns it; what is left is in the next row |
| `ValidatorDraws.HalvedStake` | src/astreum/consensus/validation/validator.py:188-190 | a stake of 1 stays 1, a larger one s leaves n with 2n <= s < 2n + 2, and no other stake and no third balance changes |
| `ValidatorDraws.RepeatedHalving` | src/astreum/consensus/validation/validator.py:231-240 | over any run of picks a stake s that is picked j times ends at max(1, s / 2^j) |
| `ValidatorDraws.Draw.DrawFor` | src/astreum/consensus/validation/validator.py:231-240 | the slot loop draws once per slot, each pick being the key that the round's choice falls on with the stakes as the picks before left them, halves it, and returns the last pick |
| `ValidatorDraws.DrawsConserve` | src/astreum/consensus/validation/validator.py:177-240 | over any number of draws the balances add up to what they were, and no positive stake reaches zero or grows |
| `ValidatorDraws.TreasuryBacksStakes` | src/astreum/consensus/validation/validator.py:177-229 | over any run of picks the treasury's balance minus the stakes that it holds for the others stays the same |
| `ValidatorDraws.HalvingKeepsBacking` | src/astreum/consensus/validation/validator.py:177-229 | one halving: the treasury pays, and the validator gets, exactly what the stake loses |
| `Routes.BucketDistance` | src/astreum/communication/models/route.py:17-22 | matching i leading bits puts the distance in [2^(n-1-i), 2^(n-i)), and matching all of them means equal keys |
| `Routes.XorBit` | src/astreum/communication/util.py:56-68 | bit k of the exclusive or is set exactly when it differs in the operands |
| `Routes.DistanceIsXor` | src/astreum/communication/util.py:56-68 | the distance of two keys is the exclusive or of the keys read as integers, highest byte first |
| `Routes.DistanceTellsBucket` | src/astreum/communication/util.py:56-68 | a distance in that range means exactly i matching bits |
| `Routes.MoreBitsIsNearer` | src/astreum/communication/util.py:56-68 | a key that shares more leading bits is nearer |
| `Routes.MatchingLeadingBits` | src/astreum/communication/models/route.py:17-22 | the byte loop counts the matching leading bits |
| `Routes.TargetSharesBits` | src/astreum/communication/self_lookup.py:137-157 | the random target shares exactly the asked number of leading bits, whatever the random bytes |
| `Routes.TargetIsRandomBelow` | src/astreum/communication/self_lookup.py:137-157 | below the flipped bit the target has the bits of the random bytes |
| `Routes.Route.AddPeer` | src/astreum/communication/models/route.py:30-40 | every bucket keeps only its own keys, without repetition and within its size; a full bucket drops the key but the peer is kept |
| `Routes.WithoutOk` | src/astreum/communication/models/route.py:42-54 | removing a key keeps the bucket sound and drops exactly that key |
| `Routes.WithoutKeepsOrder` | src/astreum/communication/models/route.py:42-54 | the first occurrence goes and the other keys keep their order |
| `Routes.Route.RemovePeer` | src/astreum/communication/models/route.py:42-54 | exactly the key leaves its bucket |
| `Routes.Route.ClosestKey` | src/astreum/communication/models/route.py:56-81 | the search returns a known key at minimal distance, and none exactly when all buckets are empty |
| `Routes.Route.ClosestPeerForHash` | src/astreum/communication/models/route.py:56-81 | the peer of the closest key is returned, None when that key has no peer or no key is known |
| `Routes.DistanceInjective` | src/astreum/communication/util.py:56-68 | no two keys are equally far from a target |
| `Routes.ClosestIsUnique` | src/astreum/communication/models/route.py:56-81 | there is one closest key only, so the returned peer is determined |
| `Routes.NearerBucketsAreEmpty` | src/astreum/communication/self_lookup.py:160-189 | the buckets nearer than that of the closest key are empty |
| `Routes.CountNearer` | src/astreum/communication/models/route.py:83-118 | the count is the number of distinct nearer keys, cut off at the limit, and at 1 for a limit of 0 |
| `Routes.CountWithinLimitIff` | src/astreum/communication/models/route.py:83-118 | the count is at most the limit if and only if the limit is at least 1 or no key is nearer |
| `Routes.ZeroLimitCountsOne` | src/astreum/communication/models/route.py:83-118 | with a limit of 0 and one nearer key the count is 1 |
| `Routes.SelfLookup.Step` | src/astreum/communication/self_lookup.py:94-134 | one step of the walk asks, waits or ends as the state says |
| `Routes.StepRule` | src/astreum/communication/self_lookup.py:94-134 | exactly when a step asks, when it ends, and that it changes nothing otherwise |
| `Routes.WalkComesNearer` | src/astreum/communication/self_lookup.py:94-134 | every walk asks strictly nearer peers, at most self_lookup_rounds of them |
| `HotStorages.HotStorage.Get` | src/astreum/storage/exprs/hot.py:9-27 | a hit refreshes the timestamp of the key and nothing else |
| `HotStorages.HotStorage.FindVictim` | src/astreum/storage/exprs/hot.py:72-83 | the victim is an oldest entry other than the one replaced |
| `HotStorages.HotStorage.Put` | src/astreum/storage/exprs/hot.py:59-105 | a put succeeds exactly when the expr itself fits (the late refusal is never reached); the tracked size stays the sum of the stored sizes within the limit, and only entries no newer than every survivor go, each when room was needed |
| `HotStorages.StoreOutcome` | src/astreum/storage/exprs/hot.py:59-105 | making room by oldest entries and storing the expr gives exactly the allowed outcome |
| `HotStorages.HotStorage.PutTree` | src/astreum/storage/exprs/hot.py:48-57 | storing a tree is the run of puts of its exprs, children first, each with its own reading of the clock and whatever becomes of it, and succeeds by the size of the root alone |

## Left out

- ColdTable.GatherLevel: a truncated or malformed index file, and an index without its data file, do not occur; the table's invariant excludes them, and file errors, temporary files and fsync are not modelled.
- ColdTable.Table.Get: returns the stored bytes; the decoding of the bytes to an expression, and its failure, are not part of it.
- ColdTable.Table.Put: keys are content hashes; the records table with explicit keys, whose values can change, is not modelled, because merge order then decides which value wins.
- BloomFilters.BloomInsert: a filter is a value owned by its node, and its tiers are bit sequences instead of bytearrays.
- BloomTrees.BloomNode.Walk: membership in the tree's `_touched` is a flag of the node; the cached expression of a node and the block references of its children are not modelled.
- EraTrees.EraIsWhole: every read of a stored cell succeeds; what a failed read does is in `Resolved`, and `InsertKeepsTreeIffLoaded` tells when an unread child matters.
- EraSearch.FindBlockByHeight: every block's tree was built along its era.
- TransactionApply.Block.RunCode: a handler is an arbitrary list of account writes and an arbitrary change of the block's own fields, and then succeeds or fails; what the entry check asks for it, or that it is credit-funding, is given with it.
- TransactionApply.Block.ApplyAll: the branch for NotImplementedError, which would end the loop, is left out; nothing in the repository raises it.
- TransactionApply.Block.Apply: top-level transactions only; the storage account exists, as genesis creates it. The other fees, logs and mints of a handler, the bloom inserts and the receipts trie are not modelled. The storage fees are given numbers, or None where an expression cannot be sized, and the receipt's fee fixed point is one of them.
- Ledgers.SupplyAfterBlock: credit-funding codes, code accounts and other handlers are not in a conserved block.
- RateWindow.EstimateBounds: fractions are not brought to lowest terms (`FeeIgnoresTerms` shows that it does not matter); `windowed_rate_fraction` and `windowed_claims` blend floats and are left out.
- QuadraticForms.QuadraticForm.Reduce: called on the forms on which the loop ends in a reduced form (`ReductionEndsIffReducible`); on the others the source loops forever or divides by zero.
- QuadraticForms.QuadraticForm.FromBytes: only for decoded forms on which reduction ends; `__mul__`, `modinv` and the proofs of `wesolowski.py` are left out.
- ExprRequests.Registry.StageFoundPage: the second provider contact of a request is not modelled; the clock is an integer.
- Shapes.WalkShape: no chain of hashes returns to where it was; found exprs are given by hash.
- Culling.CullFull: the root is one of the delivered exprs, as the only caller picks it.
- Culling.CullToResolution: for DYNAMIC with a valid shape the delivered exprs form no cycle.
- StorageGets.GetToBytes: expr ids and block hashes have 32 bytes by type; STORAGE_PUT and STORAGE_INDEX_REQUEST are fixed layouts and left out.
- TransactionMessages.LinkTree: the hashes of the table form no cycle, as in every sent table (`SentIsAcyclic`); a table with one would need a cycle of hashes, and the object that the source then links is no tree.
- TransactionMessages.DecodeTransactionMessage: exprs are values, so the sharing of decoded objects is not modelled; the hashes of a message form no cycle (`EncodedIsAcyclic`); strings and floats stand for their payload bytes, and a tree is not deeper than Python can recurse.
- Printing.ParseUndoesPrint: floats print through IEEE formatting and are left out, and so are integers beyond Python's digit limit for `int` and `str`; which characters beyond ASCII are decimal digits, and which tokens `float` accepts, are parameters.
- ValidatorDraws.Draw.HalveStake: records without loans; the record's other fields, the stake trie and the fetching of accounts are not modelled.
- ValidatorDraws.Draw.DrawFor: records without loans; the sorted key order and the generator's choices are parameters.
- Routes.Route.ClosestPeerForHash: `closest_peers`, `refresh_one_bucket` and the timer around the walk are left out.
- HotStorages.HotStorage.Put: the size of an expr is a number fixed when it is first asked for, as `Expr.size` caches it; ties between equally old entries are open, where the code takes the first in dictionary order.
- Sockets, threads, queues, logging, configuration and handshake cryptography are not modelled, nor are the treasury, channel and storage contracts, the radix tree, block encoding and verification, `assemble_env`, the machine's operators and the fixed-layout records: library calls, code outside these files, or easy members.
