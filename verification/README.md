# A verified model of the dcrdata chain engine

This project models the `blockchain/` package of the repository, a full Decred chain engine, in
Dafny 4.11 and proves what the package is for: that connecting, disconnecting and reorganising blocks
keep the stored unspent outputs, spend journal and running totals equal to a fold over the current
main chain; that the best chain is chosen correctly whatever blocks arrive in whatever order; that
the storage formats round trip; that the memoised agenda state machine agrees with its plain
recursion; that the concurrent script validator neither deadlocks nor errs; and that the retarget
arithmetic keeps its bounds. `dafny verify dfyconfig.toml` checks everything.

How the modules build on each other:

- `Transactions`, `BlockNodes`, `Wrappers`, `GoArithmetic`: transactions and blocks, the block tree
  with its ancestor and fork relations, Go's integer arithmetic.
- `Buffers` and `Vlq`, `Amounts`, `ScriptCodec`, `TxOutCodec`, `SpendJournal`, `UtxoEntries`,
  `UtxoCodec`: the storage formats. Each has encoding and decoding functions with round trips, and
  methods in the source's form (pre-sized buffers, running offsets, loops) proved against them.
- `UtxoState`: what the unspent output set *is*. A block is a list of spend and create events,
  `UtxosAt(node)` folds them from genesis along the node's own branch (a block that disapproves its
  parent is connected to the parent without its regular tree), and `JournalOk` says which journal
  entries can undo a block.
- `ChainHistory`: what that fold means, told without it. An output is unspent exactly when it was created
  on the branch and not spent since; the stored bytes say so, where its transaction stands, and what a
  ticket bought.
- `UtxoViews`: the view, an overlay of lazily loaded entries over the stored set. The predicate
  `Stands` says which set a view over the stored bytes stands for, and `Kept` that entries without unspent outputs still
  have the right header; every operation of the view is proved to step both. `TemplateViews`: the view
  for a template on the parent of the tip, which is never stored.
- `BlockJournals`, `ChainStates`, `BlockIndexes`, `OrphanPools`, `ChainViews`, `BlockChains`: the
  journal of whole blocks as stored bytes, the stored state of a tip, the block index with its flags
  and chain tips, the orphan pool, the flat chain view, and on top of them the class `BlockChain`
  with reorganisation, chain selection and block processing. `BlockChains.Run` states what holds
  after any sequence of blocks.
- `StakeNodes`: reconstruction of pruned stake states.
- `Counting`: numbers of votes and blocks of a kind, as sizes of sets of places; the tallies are proved
  to be such numbers.
- `MedianTime`, `StakeVersions`, `VoteBits`, `Thresholds`: past median time, majority versions with
  their caches, vote tallies and the agenda state machine with its cache.
- `ScriptValidators`: the validator as a transition system over all interleavings.
- `Difficulty`, `WorkDifficulty`: supply estimate, ticket price and proof of work retargeting.

Some results are conditions rather than plain equalities, because the code meets its intention only
under them. Each is an if and only if; the members named as examples give inputs that fail:

- A view of the parent becomes a view of the block when no ticket of the block has an entry in it
  without its ticket data (`UtxoViews.UtxoViewpoint.ConnectBlock`). Views of what is stored never have
  such entries, but disconnecting a block makes them, so a view for a template beside the tip lacks
  the ticket data of the tickets both blocks buy (`TemplateViews.FetchUtxoViewParentTemplate`,
  `TemplateViews.SharedTicketExample`).
- The supply estimate is exact when block one would not already have been reduced
  (`Difficulty.EstimateIsExact`, `Difficulty.EstimateOffExample`).
- The computed ticket price is that of DCP0001 when its quotient fits 64 bits or the difference is
  hidden by the limits (`Difficulty.StakeDiffMeetsSpecification`, `Difficulty.StakeDiffWrapsExample`).
- The work target stays in the adjustment range unless the average rounds to zero
  (`WorkDifficulty.TargetBounds`, `WorkDifficulty.ZeroBranchExample`).
- The comment on finding the previous regular target (blockchain/difficulty.go:62-63) says it is that
  of the last block to which the special rule was not applied. It is when that block's target is not
  the easiest one or all blocks before it in its full span have the easiest target
  (`WorkDifficulty.LastWithoutRule`); otherwise the code passes over that block too and finds a harder
  target (`WorkDifficulty.HarderAgainExample`).
- The comment on the orphan pool (blockchain/chain.go:461-463) says that the oldest orphan is removed when
  the limit is exceeded, so that the limit holds. It is when the pointer to the oldest orphan was not left
  behind by one that has gone while no orphan in the pool is older
  (`OrphanPools.OrphanPool.AddOrphanBlock`, `OrphanPools.LeftBehindExample`).
- The order in which a tally is scanned decides the expected stake version with exactly two votes of
  different versions in the interval, or two header versions when an interval is two blocks
  (`StakeVersions.ThreeQuartersAmbiguous`, `StakeVersions.UndecidedExactly`), which does not happen
  when each block has no votes or at least three and intervals are longer
  (`StakeVersions.DeterminedByVotes`).

Where the documentation disagrees with the code the model follows the code: half a coin compresses to 48,
as the tests say (blockchain/compress_test.go:319-321), and not to 47 (blockchain/compress.go:492).

Assumptions are preconditions or parameters, never axioms: keys recovered from their compressed form
are the original keys (`ScriptCodec.RecoversKeys`), a positive verdict of the block validation rules
means the block is valid where it stands (`BlockChains.Sound`), blocks are added fast only when they
are known to fit (`BlockChains.Trusted`), connecting and undoing a stake state are inverse
(`StakeNodes.StakeNodeCache.UndoInvertsConnect`), hashes identify blocks (`OrphanPools.Commits`,
`StakeVersions.Identified`), a coinbase has one input, and the genesis block holds nothing but its
coinbase (`ChainStates.GenesisOk`). That the fraud-proof fields of an input tell the truth about the output
it spends, and that heights, indexes and compressed amounts fit their stored fields, is part of what
makes an event valid (`UtxoState.ValidEvent`).

## Model

| member | source | states |
|---|---|---|
| Vlq.RoundTrip | blockchain/compress.go:60-114 | decoding an encoded number followed by anything gives the number and the length of its encoding |
| Vlq.Canonical | blockchain/compress.go:74-114 | every complete byte string in range decodes to a number that encodes to the same bytes: there is one encoding per number |
| Vlq.EncodeIs | blockchain/compress.go:16-49 | the encoding is the number in base 128, most significant group first, less one for every group that is shifted out; the high bit is set on all bytes but the last |
| Vlq.DocumentedValues | blockchain/compress.go:37-49 | the bytes of the numbers the documentation lists, the largest and smallest of each length among them |
| Vlq.SerializeSizeVLQ | blockchain/compress.go:60-67 | the computed size is the number of bytes written |
| Vlq.PutVLQ | blockchain/compress.go:74-96 | writing least significant group first and reversing in place fills exactly the encoding's bytes and touches nothing else |
| Vlq.DeserializeVLQ | blockchain/compress.go:101-114 | the reading loop computes the decoding function for any input, complete or not |
| Vlq.ReverseRange | blockchain/compress.go:91-95 | the in-place swap loop reverses the range and leaves the rest of the buffer alone |
| Amounts.DecompressUndoesCompress | blockchain/compress.go:500-565 | decompression inverts compression of every amount |
| Amounts.CompressUndoesDecompress | blockchain/compress.go:500-565 | compression inverts decompression of every number, so the two are bijections |
| Amounts.CompressedIs | blockchain/compress.go:463-525 | the last decimal digit of a compressed amount is the number of zeros taken off, its other digits hold what is left |
| Amounts.DocumentedAmounts | blockchain/compress.go:485-495 | the compressed amounts the documentation and the tests list |
| Amounts.FitsRoundTrip | blockchain/compress.go:500-565 | in 64-bit arithmetic both round trips hold wherever the mathematical value fits |
| Amounts.MoneyFits | blockchain/compress.go:463-565 | every amount up to the total money supply fits in compressed form |
| Amounts.CompressTxOutAmount | blockchain/compress.go:500-525 | the digit-stripping loop computes the compressed amount modulo 2^64 |
| Amounts.DecompressTxOutAmount | blockchain/compress.go:530-565 | the digit and scaling loop computes the decompressed amount modulo 2^64 |
| ScriptCodec.DecompressUndoesCompress | blockchain/compress.go:317-458 | every script survives compression, special forms and general form alike |
| ScriptCodec.Delimits | blockchain/compress.go:289-370 | the size decoded from the front of a compressed script with anything behind it is the script's own size, and the special tags 0 to 5 never collide with the general form |
| ScriptCodec.FormsAre | blockchain/compress.go:118-145 | the stored bytes of each standard script: the tag and the hash, or the x coordinate of the key under a tag that tells the oddness of y and whether the key was written out in full |
| ScriptCodec.OthersAreKept | blockchain/compress.go:118-145 | every other script is stored whole after its size plus 64 |
| ScriptCodec.RecoveryIs | blockchain/compress.go:424-449 | the tag of a full key becomes the first byte under which its x coordinate is parsed, and the recovered key goes back into a full script |
| ScriptCodec.CompressedScriptSize | blockchain/compress.go:266-283 | the computed size is the length of the compressed script |
| ScriptCodec.PutCompressedScript | blockchain/compress.go:317-370 | the writer fills exactly the compressed script |
| TxOutCodec.TxOutRoundTrip | blockchain/compress.go:586-694 | an encoded output decodes to itself and its byte count with anything behind it, precompressed or not, with or without amount |
| TxOutCodec.TxOutLayout | blockchain/compress.go:568-641 | amount if kept, version, script, in this order |
| TxOutCodec.CompressedTxOutSize | blockchain/compress.go:586-604 | the computed size is the length of the encoding |
| TxOutCodec.PutCompressedTxOut | blockchain/compress.go:614-641 | the writer fills exactly the encoding |
| TxOutCodec.FlagsRoundTrip | blockchain/compress.go:732-763 | the flag byte gives back coinbase, expiry, type and fully-spent flags |
| TxOutCodec.FlagBits | blockchain/compress.go:697-751 | what each bit of the flag byte says, the unused ones being zero |
| TxOutCodec.MinimalRoundTrip | blockchain/chainio.go:74-177 | minimal outputs of a ticket delimit themselves with anything behind them |
| TxOutCodec.MinimalLayout | blockchain/chainio.go:86-100 | the number of outputs, then each in order with amount, version, size and script |
| TxOutCodec.MinimalReadBack | blockchain/chainio.go:86-134 | reading gives back every output with its value, version and script, whatever follows |
| TxOutCodec.DeserializeToMinimalOutputs | blockchain/chainio.go:104-134 | the reader computes the decoding function and the size read; none where the source would read beyond its buffer |
| TxOutCodec.SerializeSizeForMinimalOutputs | blockchain/chainio.go:74-84 | the computed size is the length of the encoding |
| TxOutCodec.PutTxToMinimalOutputs | blockchain/chainio.go:89-100 | the writer fills exactly the encoding |
| TxOutCodec.ReadDeserializeSizeOfMinimalOutputs | blockchain/chainio.go:136-177 | the reader finds the size of the encoding or the same errors as the decoding function; a count that is negative as a signed number reads no output |
| SpendJournal.EntryRoundTrip | blockchain/chainio.go:532-767 | a journal entry read in reverse with its block's inputs gives every spent output in its own slot and consumes the whole buffer |
| SpendJournal.EntryOrder | blockchain/chainio.go:737-767 | the entry of any spent output stands behind those of the outputs spent later and before those spent earlier |
| SpendJournal.StxoLayout | blockchain/chainio.go:553-576 | flag byte, version and script, and for the final spend of a transaction its version and, of a ticket, its outputs |
| SpendJournal.ScriptsSurvive | blockchain/chainio.go:590-649 | the script of an entry read back decompresses to the script that was spent |
| SpendJournal.CountIsSpends | blockchain/chainio.go:658-672 | the reader expects as many entries as the block spends outputs, stakebases and coinbase left out |
| SpendJournal.SpentTxOutSerializeSize | blockchain/chainio.go:532-551 | the computed size is the length of one entry's encoding |
| SpendJournal.PutSpentTxOut | blockchain/chainio.go:557-576 | the writer fills exactly one entry's encoding |
| SpendJournal.SerializeSpendJournalEntry | blockchain/chainio.go:737-767 | the pre-sized buffer ends up holding exactly the encoded entry; the size check never fails |
| SpendJournal.DeserializeSpendJournalEntry | blockchain/chainio.go:658-733 | the loops over transactions and inputs compute the decoding function, with the error for a missing entry |
| UtxoCodec.HeaderCodeRoundTrip | blockchain/chainio.go:836-919 | the header code with its N-1 rule gives back the number of bitmap bytes and outputs 0 and 1 |
| UtxoCodec.HeaderCodeBits | blockchain/chainio.go:853-875 | the two lowest bits say whether outputs 0 and 1 are unspent, the others the number of bitmap bytes, less one when both are spent |
| UtxoCodec.BitmapRoundTrip | blockchain/chainio.go:960-980 | the bitmap with its offset of two gives back exactly the unspent outputs from 2 on |
| UtxoCodec.BitmapBit | blockchain/chainio.go:960-980 | bit j of byte i of the bitmap is set if and only if output 2 + 8i + j is unspent |
| UtxoCodec.EntryRoundTrip | blockchain/chainio.go:923-1135 | reading a stored entry gives precisely its unspent outputs and header fields |
| UtxoCodec.OutputPlace | blockchain/chainio.go:982-999 | an unspent output stands between those of lower and those of higher index, with its amount, version and script |
| UtxoCodec.SecondOutputExample | blockchain/chainio_test.go:986-1004 | the bytes of the entry in this test, for every hash |
| UtxoCodec.UtxoEntryHeaderCode | blockchain/chainio.go:887-919 | from the highest output of an entry: the bitmap reaches every unspent output, and the error comes if and only if the entry is fully spent with no output above 1 |
| UtxoCodec.SerializeUtxoEntry | blockchain/chainio.go:923-1005 | the pre-sized buffer ends up holding exactly the encoded entry; nothing is stored for a fully spent one |
| UtxoCodec.DeserializeUtxoEntry | blockchain/chainio.go:1010-1135 | the offset-driven reader computes the decoding function, errors included |
| UtxoState.AdequateAsRead | blockchain/chainio.go:590-733 | a journal restored from storage, with amount, height and index taken from the spending inputs, undoes the events as well as the one that was stored |
| UtxoState.RegularFacts | blockchain/utxoviewpoint.go:780-822 | in a valid block no input refers to its own or a later transaction of its tree and all transactions differ |
| UtxoState.StakeInputsBefore | blockchain/utxoviewpoint.go:843-874 | in a valid block no stake transaction spends a regular transaction of the same block |
| UtxoState.ChainWellFormed | blockchain/utxoviewpoint.go:300-426 | along a valid chain every unspent output has the contents its transaction committed to |
| ChainHistory.UnspentExactly | blockchain/utxoviewpoint.go:300-426 | along a valid chain an output is in the unspent set if and only if it is spendable and was created on the branch and not spent since, with the value, version and script its transaction gives it |
| ChainHistory.TreeEventsAre | blockchain/utxoviewpoint.go:360-426 | the events of a tree are one creation per transaction under the height of the block and its own index, and one spend per input, other than of a coinbase or the first of a vote |
| ChainHistory.EntryPlace | blockchain/utxoviewpoint.go:300-353 | the height and index of an unspent transaction are those of a block of the branch and its place in the tree of the block; the flags and the type are the transaction's |
| ChainHistory.TicketDataKept | blockchain/utxoviewpoint.go:306-315 | from the ticket data of every unspent ticket all its outputs are read back, in order, with value, version and script; other transactions have none |
| ChainHistory.StoredExactly | blockchain/chainio.go:1010-1219 | all this of the bytes stored for the tip: which outputs are unspent, what they are, where their transactions stand and what tickets bought |
| UtxoState.CoinbaseBlockIsValid | blockchain/utxoviewpoint.go:360-426 | a block with nothing but a new coinbase is valid on any chain and adds exactly the coinbase's outputs |
| UtxoState.TicketBlockIsValid | blockchain/utxoviewpoint.go:360-426 | a block that buys one new ticket with an unspent output is valid and leaves the ticket unspent |
| UtxoViews.UtxoViewpoint.AddTxOuts | blockchain/utxoviewpoint.go:300-353 | afterwards all spendable outputs of the transaction are unspent with their value, version and script; height, index, flags and type are as given; an entry that was already there keeps its ticket data, a new one of a ticket gets the minimal encoding of all its outputs |
| UtxoViews.UtxoViewpoint.SpendInput | blockchain/utxoviewpoint.go:365-419 | spending one input moves the view by one spend event and appends a journal entry that can undo it |
| UtxoViews.UtxoViewpoint.ConnectTransaction | blockchain/utxoviewpoint.go:360-426 | connecting a transaction moves the view by its spends and its creation and extends the journal accordingly; a ticket the view had an entry for without ticket data stays without it, and no other |
| UtxoViews.UtxoViewpoint.RestoreInput | blockchain/utxoviewpoint.go:487-527 | with the journal entry of a spend the view goes back to before it; a missing entry only occurs for the entry flagged fully spent, and takes the version of the spending transaction |
| UtxoViews.UtxoViewpoint.DisconnectTree | blockchain/utxoviewpoint.go:432-530 | disconnecting the transactions of a tree in reverse with the end of the journal undoes them |
| UtxoViews.UtxoViewpoint.FetchRegularInputUtxos | blockchain/utxoviewpoint.go:780-835 | after loading, all inputs of the regular tree are available and the view stands for the same set, early additions of the block's own transactions aside |
| UtxoViews.UtxoViewpoint.FetchInputUtxos | blockchain/utxoviewpoint.go:843-874 | the same for both trees of a block |
| UtxoViews.UtxoViewpoint.DisconnectDisapprovedBlock | blockchain/utxoviewpoint.go:555-582 | a view of a block, written to the store or not, becomes a view of the block without its regular tree |
| UtxoViews.UtxoViewpoint.ConnectBlock | blockchain/utxoviewpoint.go:599-639 | a view of the parent, written to the store or not, becomes a view of the block, also when it disapproves the parent, if and only if no ticket of the block that is unspent after it had an entry without its ticket data; for a block that does not spend its own tickets, if and only if no ticket of the block had; the collected journal can then undo the block |
| UtxoViews.UtxoViewpoint.DisconnectBlock | blockchain/utxoviewpoint.go:657-707 | with its journal a view of a block, written to the store or not, becomes a view of its parent, also when it had disapproved the parent; the tickets then without ticket data are exactly those that were before and the tickets of the block the view had no entry for |
| UtxoViews.UtxoViewpoint.CountSpentOutputs | blockchain/chain.go:999-1026 | the count is the number of spend events of the block |
| UtxoViews.UtxoViewpoint.FetchUtxoEntry | blockchain/chainio.go:1142-1175 | what the stored bytes of a transaction decode to, nothing when there are none, an error exactly when they cannot be decoded |
| UtxoViews.UtxoViewpoint.PutUtxoView | blockchain/chainio.go:1181-1219 | writing the bytes of the changed entries and deleting the fully spent ones makes the stored bytes decode to exactly the set the view stands for |
| UtxoViews.UtxoViewpoint.Commit | blockchain/utxoviewpoint.go:716-725 | after pruning and unmarking the view only caches what is stored |
| UtxoViews.StorableEntry | blockchain/chainio.go:923-1005 | every entry of a view with 32-bit height and index meets what the storage format asks for |
| UtxoViews.UndoOnView | blockchain/utxoviewpoint.go:599-707 | connecting any valid block and disconnecting it with the collected journal on one view, nothing being stored in between, makes every transaction look through the view as it did before: amount, script, height, index, flags, type and ticket data of every unspent output; the view must not begin with an entry that lacks its ticket data for a ticket of that block |
| UtxoViews.UndoRestores | blockchain/utxoviewpoint.go:599-707 | the same through the store: connecting with one view, writing it, disconnecting with another and writing it restores the stored set |
| TemplateViews.FetchUtxoViewParentTemplate | blockchain/headercmt.go:58-117 | anything but a template on the parent of the tip is refused; disconnecting the tip and connecting the template on one view gives a view of the template if and only if no ticket that both blocks buy is unspent after the template and not spent by the tip; otherwise it is one but for the ticket data of just those tickets |
| TemplateViews.SharedTicketExample | blockchain/headercmt.go:101-114 | a tip and a template that buy the same ticket: the view is not one of the template |
| UtxoViews.BareExact | blockchain/utxoviewpoint.go:312-346 | an overlay lacking the ticket data of some tickets stands for the set if and only if none of them is unspent in it |
| BlockNodes.Ancestor | blockchain/blockindex.go:242-253 | following parents finds the ancestor at a height, nothing outside the chain |
| BlockNodes.ForkPointIsHighest | blockchain/chainview.go:293-323 | the fork point is above every other common ancestor and exists when the genesis block is shared |
| ChainViews.FastLog2Floor | blockchain/chainview.go:22-33 | five mask tests compute the integer logarithm of every 32-bit number |
| ChainViews.ChainView.SetTip | blockchain/chainview.go:115-147 | growing, shrinking or switching branches with reuse of the backing array and early stop makes slot i the tip's ancestor at height i |
| ChainViews.ChainView.Contains | blockchain/chainview.go:189-232 | membership is exactly being the tip or one of its ancestors |
| ChainViews.ChainView.Next | blockchain/chainview.go:253-259 | the successor of a node of the view on the branch of the tip, nothing for the tip and for other nodes |
| ChainViews.ChainView.FindFork | blockchain/chainview.go:293-323 | the result is the fork point of the node's branch and the view |
| ChainViews.ChainView.BlockLocator | blockchain/chainview.go:356-413 | for a node on or off the view the locator holds exactly the ancestors at the doubling steps, and as many as its capacity was computed for from the 32-bit height |
| ChainViews.LocatorReachesGenesis | blockchain/chainview.go:356-413 | locator heights strictly descend and end with genesis, with height+1 entries at first and 12 plus the logarithm of height-10 later |
| ChainViews.LocatorDistances | blockchain/chain.go:58-72 | the first twelve entries are neighbours, from then on each distance is twice the one before |
| ChainViews.DocumentedLocator | blockchain/chain.go:66-71 | the heights of the locator the documentation gives for a block at height 17 |
| ChainViews.FirstEntryWithinTwice | blockchain/chainview.go:356-413 | for a fork d blocks below the head the first entry at or below it is at most 2d below the head |
| ChainViews.LocatorRestart | blockchain/chain.go:1842-1887 | for a peer on any branch the search through its locator restarts at an ancestor of the fork point at most twice as deep |
| ChainViews.FirstKnownIs | blockchain/chain.go:1855-1866 | the search ends at the first locator entry that is on the main chain, at genesis when there is none |
| ChainViews.LocatedRange | blockchain/chain.go:1867-1887 | the located blocks end with the stop block if it comes after on the main chain, else with the tip, unless the limit is reached before |
| ChainViews.ChainView.LocateInventory | blockchain/chain.go:1842-1887 | start and count of the blocks after the first known locator entry, up to the stop block and the limit |
| ChainViews.ChainView.LocateBlocks | blockchain/chain.go:1896-1912 | the answer is the contiguous main chain run after that entry |
| StakeNodes.StakeNodeCache.FetchStakeNode | blockchain/stakenode.go:96-205 | with the tip loaded and any other nodes pruned the result is the replay from genesis, an error if and only if some block of the branch has no block its maturing tickets could be bought in; everything filled in on the way is right |
| StakeNodes.TicketsBoughtAre | blockchain/stakenode.go:49-58 | the tickets of a block are the ticket purchases of its stake tree, each at the place given by how many come before it; an identifier is among them if and only if a purchase at some index has it |
| StakeNodes.StakeNodeCache.MaturingAre | blockchain/stakenode.go:28-58 | the tickets that mature at a block are none below the enabled height, else the purchases of the block a maturity period below, missing exactly when there is no such block |
| StakeNodes.StakeNodeCache.ReplayStep | blockchain/stakenode.go:96-205 | the state of a block is that of its parent connected with what the block spent and those tickets |
| StakeNodes.StakeNodeCache.AlwaysReplays | blockchain/stakenode.go:36-48 | that never happens when tickets mature no later than stake is enabled |
| BlockJournals.ReadBack | blockchain/chainio.go:658-818 | the stored journal entry of a valid block reads back as a journal that undoes the block |
| BlockJournals.StoreSpendJournalEntry | blockchain/chainio.go:737-818 | the bytes put in the database are an entry that can undo the block; every entry of a valid block fits the format |
| BlockJournals.FetchSpendJournalEntry | blockchain/chainio.go:658-805 | what is fetched from those bytes can undo the block, an empty entry included |
| ChainStates.CalculateAddedSubsidy | blockchain/subsidy.go:127-140 | the loop adds the vote subsidies to the approved parent's coinbase subsidy (what that is: `ChainStates.SubsidyAdded`) |
| ChainStates.SubsidyAdded | blockchain/subsidy.go:123-140 | a block adds the value of the inputs of its stake tree that spend no output and, when it approves its parent, of those of the parent's regular tree |
| ChainStates.SubsidyCounted | blockchain/chain.go:751-770 | along a valid chain the subsidy total is the value of all such inputs up to the block |
| ChainStates.TransactionsCounted | blockchain/chain.go:751-770 | the transaction total is the number of transactions created along the branch and those of genesis |
| ChainStates.JournalAdded | blockchain/chain.go:740-770 | adding a block's entry keeps the journal at exactly the main chain blocks |
| ChainStates.JournalRemoved | blockchain/chain.go:917-945 | removing a block's entry keeps the journal at exactly the main chain blocks |
| BlockIndexes.BlockIndex.AddNode | blockchain/blockindex.go:357-380 | filing a node keeps the index closed under parents and the chain tips exactly the childless nodes, once each |
| BlockIndexes.BlockIndex.RemoveChainTip | blockchain/blockindex.go:392-410 | one occurrence of the node leaves its list, and the list goes with its last node |
| BlockIndexes.BlockIndex.SetStatusFlags | blockchain/blockindex.go:445-453 | flags are only added, to this node only, and stay consistent |
| BlockIndexes.MarkKeepsFlags | blockchain/blockindex.go:34-47 | marking keeps: valid blocks have valid ancestors and are not marked invalid, an invalid-ancestor mark has a failed ancestor |
| BlockIndexes.FailedIsNotValid | blockchain/blockindex.go:34-47 | a block with a failed block on its branch is not marked valid |
| BlockIndexes.ChildlessAfter | blockchain/blockindex.go:357-369 | a new node changes only whether its parent has children, and has none itself |
| OrphanPools.OrphanPool.RemoveOrphanBlock | blockchain/chain.go:425-456 | taking out a block, also a stale one, keeps pool and index by parent in step and touches no other list |
| OrphanPools.OrphanPool.AddOrphanBlock | blockchain/chain.go:464-505 | the block is added, expired blocks go, and at most one other goes and only when the pool is full; that one is an oldest orphan, if and only if the pointer to the oldest orphan was not left behind by one that is gone; the pool stays within its limit if and only if it was, and there was room or the pointer led to an orphan of the pool |
| OrphanPools.LeftBehindExample | blockchain/chain.go:464-485 | after three blocks, the last arriving when the first has expired, the pointer is left at the first, which is gone |
| BlockChains.BlockChain.constructor | blockchain/chainio.go:1521-1619 | a new chain has genesis as its valid tip, no unspent outputs and the genesis totals |
| BlockChains.BlockChain.ConnectBlock | blockchain/chain.go:678-859 | the tip moves to the block and the stored outputs, journal and totals become those of the block |
| BlockChains.BlockChain.DisconnectBlock | blockchain/chain.go:873-995 | the tip moves to the parent and the stored outputs, journal and totals become those of the parent |
| BlockChains.BlockChain.CollectAttachNodes | blockchain/chain.go:1083-1109 | the list is the path from the fork to the target, or the target gets marked when something on the path is known to be invalid |
| BlockChains.BlockChain.DetachTo | blockchain/chain.go:1111-1174 | popping blocks with their journals ends at the fork with the stored state of the fork |
| BlockChains.BlockChain.AttachBlocks | blockchain/chain.go:1187-1256 | pushing blocks ends at the target, or at the block before the first failing one with that one and everything above it marked |
| BlockChains.BlockChain.ReorganizeChainInternal | blockchain/chain.go:1082-1259 | ends at the target on success; a target known to be valid always succeeds and changes no flag |
| BlockChains.BlockChain.ReorganizeChain | blockchain/chain.go:1278-1344 | ends at the target on success; on a rule error at the original tip with the unspent outputs, totals and journaled blocks of before, after going there and back, and the target known to be invalid |
| BlockChains.BlockChain.ConnectBestChain | blockchain/chain.go:1446-1582 | afterwards no block that could still be connected has more work than the tip; the tip only changes to the new block, only for strictly more work; the returned length is the distance to the fork; with and without fast adding |
| BlockChains.BlockChain.MaybeAcceptBlock | blockchain/accept.go:29-154 | exactly the blocks passing the checks before are filed, others change nothing; the tip stays the best |
| BlockChains.BlockChain.AcceptChildren | blockchain/process.go:56-91 | on success every pooled child of the block has been accepted and queued |
| BlockChains.BlockChain.ProcessOrphans | blockchain/process.go:46-93 | terminates; on success no orphan is left whose parent was just accepted and every orphan taken out has been filed |
| BlockChains.BlockChain.ProcessBlock | blockchain/process.go:109-213 | duplicates and blocks the sanity or checkpoint rules refuse change nothing, blocks pass into the orphan pool exactly when their parent is not known, the others are filed exactly when the rules on their place allow it; all invariants are kept and the tip never loses work |
| BlockChains.Run | blockchain/process.go:109-213 | after any run of arriving blocks from genesis: stored state is that of the tip, the main chain is marked valid, more work than the tip only on branches with a failed block, chain tips and orphan index are exact |
| MedianTime.CalcPastMedianTime | blockchain/blockindex.go:268-301 | the collected and sorted timestamps give the past median time, also in the first few blocks |
| MedianTime.SortKeeps | blockchain/blockindex.go:280-285 | sorting orders the timestamps and keeps them |
| MedianTime.MedianMonotone | blockchain/blockindex.go:268-301 | when each block is newer than its parent's past median time, past median time never decreases along a chain |
| MedianTime.MedianIsMiddle | blockchain/blockindex.go:268-301 | the past median time is one of the last eleven timestamps, or of all there are; at most half of them, rounded down, are below it and more than that are not above it |
| GoArithmetic.DivisionIs | blockchain/stakeversion.go:35-43 | division rounds towards zero: quotient times divisor and remainder give the dividend, the remainder on the dividend's side of zero |
| GoArithmetic.ConversionsAre | blockchain/difficulty.go:640-652 | conversions to 32 and 64 bits keep the low bits and land in the range of the type |
| StakeVersions.WantHeightIsIntervalEnd | blockchain/stakeversion.go:35-43 | the wanted height is the only interval end among the heights of one interval before; below the first interval it is not below at all |
| StakeVersions.MajorityUnique | blockchain/stakeversion.go:151-156 | when twice the required count exceeds the total, at most one version has a majority, so the order of the scan does not matter |
| StakeVersions.ThreeQuartersAmbiguous | blockchain/stakeversion.go:204-212 | for three quarters two versions have a majority exactly with two votes of different versions |
| StakeVersions.StakeVersionUnique | blockchain/stakeversion.go:251-296 | without ambiguous intervals there is one expected stake version |
| StakeVersions.DeterminedExactly | blockchain/stakeversion.go:145-212 | for three quarters no interval of a branch is ambiguous if and only if none holds just two votes of different versions, nor, with intervals of two blocks, two different header versions |
| StakeVersions.DeterminedByVotes | blockchain/stakeversion.go:145-212 | no interval is ambiguous on a branch whose blocks have no votes or at least three |
| StakeVersions.UndecidedExactly | blockchain/stakeversion.go:251-296 | for three quarters two stake versions can be expected of one block if and only if version 3 is enforced in the interval they come from and either it holds just two votes of different versions, one of them zero or no majority of the headers before with a version at or above both, or intervals are two blocks, the two headers before differ, and the higher one is above a vote |
| StakeVersions.RequiredIs | blockchain/stakeversion.go:204-206 | the required count is the share of the total, rounded down, while the product fits 32 bits |
| StakeVersions.LatestIsLatest | blockchain/stakeversion.go:223-244 | no interval after the one found has a version that enough of its votes carry |
| StakeVersions.StakeVersionByCounts | blockchain/stakeversion.go:170-296 | by the numbers of votes and headers in its interval: zero when the version voted for is zero or version 3 is not enforced, else that version or a higher one that enough headers have |
| StakeVersions.HaveUpgradedIs | blockchain/chain.go:635-650 | the test asks how many of the last blocks have at least the version |
| StakeVersions.StakeVersionCaches.FindStakeVersionPriorNode | blockchain/stakeversion.go:59-71 | the final block of the previous interval, none before the first |
| StakeVersions.StakeVersionCaches.IsStakeMajorityVersion | blockchain/stakeversion.go:81-117 | from any coherent cache the answer is the uncached one and the cache stays coherent |
| StakeVersions.StakeVersionCaches.CalcPriorStakeVersion | blockchain/stakeversion.go:124-159 | the same for the version most headers of the prior interval have |
| StakeVersions.StakeVersionCaches.CalcVoterVersionInterval | blockchain/stakeversion.go:170-215 | the same for the version most votes of an interval have; misuse is reported exactly when the node does not end an interval |
| StakeVersions.StakeVersionCaches.CalcVoterVersion | blockchain/stakeversion.go:223-244 | the latest interval with a majority of votes, and its version; misuse never occurs |
| StakeVersions.StakeVersionCaches.CalcStakeVersion | blockchain/stakeversion.go:251-296 | from any coherent caches the answer is one the uncached definition allows and all caches stay coherent |
| StakeVersions.StakeVersionCaches.IsMajorityVersion | blockchain/chain.go:635-650 | stopping early does not change whether enough of the last blocks have the version |
| VoteBits.Condition | blockchain/votebits.go:96-134 | each choice gets the votes of the version that select it; an empty mask is the only error |
| VoteBits.DroppedAll | blockchain/votebits.go:101-128 | masking and shifting selects the choice under the mask with the zero bits below it dropped |
| VoteBits.SelectedIs | blockchain/votebits.go:101-128 | the selected number is what the bits under the mask are, read from the lowest bit of the mask on |
| VoteBits.CountForIs | blockchain/votebits.go:96-134 | the tally of a choice is the number of votes of the version whose bits under the mask are those of the choice |
| Thresholds.CountWindow | blockchain/thresholdstate.go:329-361 | all votes of the window are counted, in 32 bits, without walking past genesis |
| Thresholds.DecideByCounts | blockchain/thresholdstate.go:363-414 | the branches compute the uncached decision (what it is: `Thresholds.DecidedByVotes`) |
| Thresholds.DecidedByVotes | blockchain/thresholdstate.go:326-414 | by the votes of the window: without quorum, or when no choice reaches its share, a started agenda stays; else the first choice that does, abstaining aside, locks it in if it is for the change and fails it if not, and is the choice of the new state |
| Thresholds.FailsWhen | blockchain/thresholdstate.go:326-414 | a started agenda fails if and only if its end time has come or the first such choice is against the change |
| Thresholds.StartsWhen | blockchain/thresholdstate.go:289-325 | when a defined agenda starts, fails or stays, by times, heights, the expected stake version and the blocks that have upgraded |
| Thresholds.LockedInByVotes | blockchain/thresholdstate.go:326-414 | an agenda is locked in after a window only by the votes of that window |
| Thresholds.StartedIsHigh | blockchain/thresholdstate.go:329-361 | a window counted in a started agenda has a window before it |
| Thresholds.ThresholdStateCache.Update | blockchain/thresholdstate.go:182-189 | the entry is set and everything not in the database yet stays among the updates |
| Thresholds.ThresholdStateCache.MarkFlushed | blockchain/thresholdstate.go:194-198 | after a flush nothing is left to write and no entry is lost |
| Thresholds.NextThresholdState | blockchain/thresholdstate.go:220-436 | on every branch and from any coherent cache the answer is one the uncached recursion over window ends gives, errors included, it is the cached one when the window is cached and cached from then on, and the cache stays coherent; where the stake version is determined it is the only one |
| Thresholds.StateUnique | blockchain/thresholdstate.go:220-436 | without ambiguous intervals (`StakeVersions.DeterminedExactly`) the uncached recursion gives one state |
| Thresholds.TargetIs | blockchain/thresholdstate.go:220-241 | the state asked for is that after the last full window the branch has completed, counted from the stake validation height; none before |
| Thresholds.SameWindow | blockchain/thresholdstate.go:220-241 | the answers are the same for every block of a window |
| Thresholds.WindowFollows | blockchain/thresholdstate.go:253-261 | with the timestamp rule a state of a window follows a state of the window before: the shortcut before the start time never skips one |
| Thresholds.History | blockchain/thresholdstate.go:286-433 | states go defined, started, then locked in for exactly one window and active forever with the choice kept, or failed forever |
| Thresholds.ActiveWasVotedIn | blockchain/thresholdstate.go:286-433 | a locked in or active agenda was voted in, with its choice, by the votes of some window of the branch |
| Thresholds.StateLastChanged | blockchain/thresholdstate.go:472-516 | the returned block starts the earliest window since which the state has been the current one, the window before having another; none when it never changed |
| Thresholds.OneStateBack | blockchain/thresholdstate.go:472-516 | where the stake version is determined a window has one state, so having another is not having this one |
| ScriptValidators.RunInv | blockchain/scriptval.go:41-181 | in every interleaving each item handed out is with one worker or its result received, nobody leaves and nothing is lost while Validate loops |
| ScriptValidators.HandedOutOnce | blockchain/scriptval.go:155-168 | an item handed out is with no other worker and its result has not been received |
| ScriptValidators.NeverHandedOutAgain | blockchain/scriptval.go:136-168 | two steps of a run that hand out an item hand out different items, whoever the workers are |
| ScriptValidators.ResultIsRight | blockchain/scriptval.go:127-181 | Validate returns nil exactly when all items are valid, all of them processed, and an error only after receiving a failed one |
| ScriptValidators.NoDeadlock | blockchain/scriptval.go:127-181 | before Validate returns some goroutine can always go on |
| ScriptValidators.NoLeak | blockchain/scriptval.go:41-123 | when nothing can happen any more, Validate has returned and every worker has exited |
| ScriptValidators.RunsAreFinite | blockchain/scriptval.go:41-181 | every schedule ends within five steps per item and two more |
| Difficulty.EstimateSupply | blockchain/difficulty.go:546-572 | the loop over reductions computes the closed form |
| Difficulty.EstimateIsExact | blockchain/difficulty.go:546-572 | the closed form is block one's subsidy plus the reduced subsidies of blocks 2 to h if and only if the interval is above one or the first reduction changes nothing |
| Difficulty.EstimateIsScheduled | blockchain/difficulty.go:535-572 | for every schedule of subsidies, reduced by the ratio and rounded down whenever an interval is over, the estimate is block one's subsidy plus those scheduled from block two on, if and only if block one's is not reduced |
| Difficulty.HasSchedule | blockchain/difficulty.go:546-572 | there is such a schedule of any length |
| Difficulty.EstimateOffExample | blockchain/difficulty.go:546-572 | with a reduction at every block the estimate for block one is negative |
| Difficulty.CalcNextStakeDiffV2 | blockchain/difficulty.go:600-662 | dividing twice is the single quotient of DCP0001, converted to 64 bits and limited |
| Difficulty.PriceIs | blockchain/difficulty.go:600-662 | while the quotient fits 64 bits the price is the current one times the square of the pool size over the previous and the target pool size, rounded down, between the minimum and the share of the supply per ticket of a full pool |
| Difficulty.StakeDiffMeetsSpecification | blockchain/difficulty.go:606-661 | the computed price is the specified one if and only if the quotient fits 64 bits or the limits hide the difference |
| Difficulty.StakeDiffWrapsExample | blockchain/difficulty.go:640-661 | a price and a pool size that fit their header fields for which the 64-bit conversion turns the maximum price into the minimum |
| Difficulty.StakeDiffMonotone | blockchain/difficulty.go:600-662 | a larger ticket pool never lowers the price while the quotient fits 64 bits |
| Difficulty.SumPurchasedTickets | blockchain/difficulty.go:577-587 | the tickets of the most recent blocks, down to genesis |
| Difficulty.PoolSizeAllIs | blockchain/difficulty.go:577-587 | the pool size counts the live tickets of the block and those bought in the last blocks up to it, as many as it takes to mature |
| Difficulty.CalcNextRequiredStakeDifficultyV2 | blockchain/difficulty.go:669-721 | the price changes only at the start of a window and then by the pool sizes before this and the previous window |
| WorkDifficulty.SumWindows | blockchain/difficulty.go:143-203 | the single loop over blocks adds up the weighted change of each window, staying at genesis |
| WorkDifficulty.RawTargetIs | blockchain/difficulty.go:143-203 | the raw target is the old one times the average change of the windows, each a span of the given number of blocks counting 2^alpha times the next older one |
| WorkDifficulty.RecentCountsMore | blockchain/difficulty.go:165-173 | a longer recent window raises the raw target at least as much as an older one longer by the same, and more for alpha above zero when rounding does not hide it |
| WorkDifficulty.RecentWindowExample | blockchain/difficulty.go:143-226 | two windows of one block with alpha one: a last block that took twice its time moves the target from 600 to 999 |
| WorkDifficulty.CalcNextRequiredDifficulty | blockchain/difficulty.go:92-239 | at the retarget points the limited average; elsewhere the target stays or, on test networks, is the easiest for a late block and else the last regular one |
| WorkDifficulty.FindPrevTestNetDifficulty | blockchain/difficulty.go:66-85 | the walk finds the nearest block below that starts a full span or does not have the easiest target |
| WorkDifficulty.ResumedTarget | blockchain/difficulty.go:66-117 | on a branch that keeps the rule, late blocks do not change what the blocks of a window go on with |
| WorkDifficulty.LastWithoutRule | blockchain/difficulty.go:62-117 | on a branch that keeps the rule, the search finds the target of the last block without the special rule if and only if that target is not the easiest or all blocks before that block in its full span have the easiest target; always when that block does not start a window |
| WorkDifficulty.WindowGoesOn | blockchain/difficulty.go:66-117 | a block that is not late has the target its window started with if and only if that is not the easiest or all blocks before the window in its full span have the easiest target |
| WorkDifficulty.HarderAgainExample | blockchain/difficulty.go:62-117 | a branch keeping all rules that ends in a block eased to the easiest target by the ordinary rule: the search passes over it, though the special rule did not apply to it, and the next block is held to the harder target before |
| WorkDifficulty.OnTargetUnchanged | blockchain/difficulty.go:122-226 | when every window hits its timespan the target does not change |
| WorkDifficulty.TargetBounds | blockchain/difficulty.go:208-226 | the target respects the highest target and the lower bound, and the upper bound if and only if the average does not round to zero or the highest target is within it |
| WorkDifficulty.LimitedIsNearest | blockchain/difficulty.go:205-226 | unless the average is zero, the new target is the one within the factor and the highest target that is closest to the raw one |
| WorkDifficulty.ZeroBranchExample | blockchain/difficulty.go:208-226 | a branch that keeps the past median time rule and the target rule, ending in two equal timestamps, for which the zero branch leaves the adjustment range |
| WorkDifficulty.CalcEasiestDifficulty | blockchain/difficulty.go:29-60 | stopping at the limit early does not change the easiest target, one adjustment per retarget that can have happened |
| WorkDifficulty.EasingBounded | blockchain/difficulty.go:44-57 | no sequence of that many retargets within the factor and the highest target reaches an easier one |
| WorkDifficulty.EasingReached | blockchain/difficulty.go:44-57 | and some sequence reaches it |
| WorkDifficulty.RetargetsIs | blockchain/difficulty.go:44-52 | there are as many retargets as spans of the target timespan times the factor have begun |

## Left out

- The HTTP, explorer, websocket, pub-sub, configuration, logging, exchange and RPC collection packages: input and output plumbing.
- The database engine, its transactions, flushing of the block index and upgrade code: storage is maps updated atomically. The spend journal and the unspent outputs are stored as bytes.
- Mutexes and notifications: block processing is sequential. Only the script validator is modelled as concurrent.
- `checkBlockSanity`, the checkpoint rules, `checkBlockPositional` and `checkBlockContext` are arbitrary verdicts that may differ from one arriving block to the next; `checkConnectBlock` is an arbitrary verdict on the node, a positive one being assumed to mean validity and to leave the view where `connectBlock` of the view would. Forced reorganisations, header commitments and filters are not modelled.
- Heights and cumulative work are derived from the parents of a node, a node carries its block, and a transaction identifier stands for the content it commits to: hashes are free of collisions.
- The amount of work of a target, script parsing and execution (what a validation worker finds out about one item), public key arithmetic, the ticket lottery and the compact form of targets are outside components: parameters or numbers.
- The work sum written with the best state: on a disconnect the source stores that of the disconnected block (blockchain/chain.go:920), so nothing is claimed about it.
- UtxoViews.UndoRestores: does not state the transaction version, because a resurrected entry takes the version of the spending transaction (blockchain/utxoviewpoint.go:497), which `UtxoViews.UtxoViewpoint.RestoreInput` states of one input.
- TemplateViews.FetchUtxoViewParentTemplate: for a template that disapproves the parent of the tip, asks that the tip makes no transaction which that parent had already made and spent in full; identifiers that commit to their inputs do not allow that.
- UtxoViews.UndoOnView: asks that the view begins with no entry that lacks its ticket data for a ticket of the block, because a journal collected over such an entry lacks the data as well when the block spends the ticket.
- UtxoViews: entries are values in a map that the methods replace, so sharing of one entry object between two holders of the view is not captured. The missing outputs and entries that the source answers with an assertion error cannot occur for the valid blocks the methods ask for.
- UtxoState.ChainWellFormed: spendable output values, totals and subsidies are unbounded integers; 64-bit overflow of sums of money is not modelled.
- Thresholds.NextThresholdState: timestamps are not reduced to unsigned 64 bits, which block headers cannot exceed.
- StakeVersions.StakeVersionCaches.IsStakeMajorityVersion: the counters of blocks and votes are unbounded; only the product in the required count wraps at 32 bits.
- WorkDifficulty.CalcNextRequiredDifficulty: does not model the 64-bit sum of weights, which the parameters keep small, or the compact form's loss of precision.
- Difficulty.EstimateSupply: does not model 64-bit overflow of the supply.
- The original ticket price algorithm and its estimators, sequence locks, and the remaining getters: repetitive or easy.
- The codecs of the block index entry and of the best state: further fixed layouts over the same building blocks.
