# Consensus state, peers and exact arithmetic of a Bitcoin node

A Dafny model of the stateful cores of a Bitcoin Core 0.12.1 derivative, with proofs of what they promise. Objects that
the node updates in place are classes here, and each method is proved against a function or relation on plain values
(maps, sequences, numbers) about which the laws are proved. Hashes, bucket functions and checksums are parameters;
collision freedom is assumed only where a contract says `Injective` or `TxidsInjective`. Clocks are parameters and random
choices are arbitrary. `dafny verify dfyconfig.toml` checks everything.

The main results:

- **Undo.** Connecting any block that `ConnectBlock` accepts and disconnecting it with the undo data produced restores the
  coins exactly and reports clean, even when inputs of one transaction are interleaved or outputs are created and spent
  inside the block (`BlockUndo.DisconnectInvertsConnect`). That the transaction ids of such a block are distinct is proved
  from BIP 30 and input availability, not assumed.
  Conversely any disconnection that is reported clean lost nothing, whatever the undo data (`Redo.ConnectInvertsDisconnect`).
- **Acceptance.** `ConnectBlock` is characterised without its intermediate views: it accepts a block if and only if each
  transaction spends distinct outputs that exist, are unspent, mature and cover its own (`Acceptance.BlockAcceptedIff`).
- **Reorganisation.** Over every run of chain activation, including ones that stop at an invalid block, the coins at the tip
  are the replay from genesis of exactly the blocks of the active chain, and a block is called invalid only if its connection
  is refused (`Reorg.Chainstate.ActivateBestChainStep`). The one
  exception is the disconnection of a block that skipped the BIP 30 scan and whose coinbase overwrote unspent coins:
  `Reorg.Chainstate.DisconnectTip` restores the replay if and only if the block is not of that kind, and
  `BlockUndo.ExemptBlockUndone` says what is lost otherwise.
- **Caches.** A stack of write-back caches of any depth is observationally a plain map (`CoinsCache.Run`).
- **Value.** Connecting a block changes the total unspent value by coinbase outputs minus fees minus unspendable outputs.
- **Block index.** Skip-list ancestors, the indexed chain, linking in any arrival order, and the per-peer download lists with
  exact counters over every run. For every arrival order the most-work search finds, among the complete blocks of most work,
  one that was complete first (`BlockManager.BlockManager.ReceiveAllAndFind`).
- **Address manager.** Every operation keeps the conditions of `Check_` on tables, indexes, counters and times, and writing
  and reading back is a renumbering.
- **Check queue.** In every interleaving `Wait` returns true exactly when every check added was run once and succeeded; and
  every schedule of the threads that is not disturbed by new work, starts or spurious wake-ups ends with `Wait` returned.
- **Merkle trees.** Partial trees are complete, sound and authentic; the constant-space root computation equals the recursive
  definition; its mutation flag makes the root binding.
- **Arithmetic.** Multi-limb operators modulo 2^(32 * WIDTH), exact division, Base58 as a bijection with sufficient buffers.

Four places where the code does not do what one might expect, stated as it is:

- `base_uint::operator*=` applied to the object itself gives zero, because the target is cleared before the operand is read
  (`ArithUint256.BaseUint.MulAssign` states both cases).
- The documented limit of 2N-1 flag bits for N hashes of a partial Merkle tree (src/merkleblock.h:47) holds exactly when no
  matched transaction lies below a node with a single child (`PartialMerkleTree.FlagBitBoundIff`).
- A block exempt from the BIP 30 scan is undone exactly if and only if its coinbase overwrote nothing unspent
  (`BlockUndo.ExemptBlockUndoneIff`); the two blocks the code names (src/main.cpp:2268-2270) did overwrite coins.
- Flushing a cache that never read its best block into another cache makes the parent forget its own best-block hash and show
  that of the layer below it (`CoinsCache.CoinsViewCache.Flush`).

## Model

| member | source | states |
|---|---|---|
| Coins.CleanupInPlace | src/coins.h:113-118 | the popping loop leaves exactly the outputs up to the last unspent one |
| Coins.FromTx | src/coins.h:89-95 | a record holds exactly the spendable outputs of the transaction with its height, version and coinbase flag, has no trailing spent output, and is pruned only if it is empty |
| Coins.ClearUnspendableIdempotent | src/coins.h:120-126 | clearing unspendable outputs of a record already cleared changes nothing, which DisconnectBlock relies on when it compares |
| Ledger.HaveInputsSpendable | src/coins.cpp:246-258 | available inputs without repetition can all be spent in turn, so the assertion in UpdateCoins cannot fail |
| Ledger.SpendableMeansDistinct | src/main.cpp:1739-1771 | conversely, inputs that can be spent in turn were all available and distinct |
| Ledger.SpendInputsEffect | src/coins.cpp:35-42 | spending a list of inputs makes exactly those outpoints unavailable and adds no record |
| Ledger.UndoInputInverts | src/main.cpp:1980-2004 | the undo record of one spent output restores outputs, height, coinbase flag and version, whether or not it was the last |
| Ledger.UndoInputsInverts | src/main.cpp:2049-2060 | undo records applied last to first restore all inputs of a transaction, several of which may share a record |
| Ledger.DisconnectTxInverts | src/main.cpp:2025-2061 | one transaction whose id had nothing unspent is undone exactly and reported clean |
| Ledger.CoinbaseUndoneIffNothingOverwritten | src/main.cpp:2262-2289 | undoing a coinbase is exact if and only if it overwrote nothing unspent, the reason for BIP 30 |
| Ledger.UpdateCoinsWellFormed | src/main.cpp:1739-1771 | a checked transaction leaves only records with positive height, a trailing unspent output and non-negative values |
| BlockUndo.ConnectTxsWellFormed | src/main.cpp:2331-2389 | an accepted transaction list keeps the view well formed and creates no ids but its own |
| BlockUndo.SpentStaysSpent | src/main.cpp:2331-2389 | an output spent inside the block is never available again later in the block |
| BlockUndo.AcceptedTxidsDistinct | src/main.cpp:2282-2289 | BIP 30 and input availability force the transaction ids of an accepted block apart |
| BlockUndo.DisconnectTxsInverts | src/main.cpp:2025-2061 | the reverse loop over all transactions restores the view before the block |
| BlockUndo.DisconnectInvertsConnect | src/main.cpp:2006-2072 | disconnecting what ConnectBlock accepted, with its undo data, restores the view exactly and reports clean |
| BlockUndo.OverwrittenCoinsForgotten | src/main.cpp:1763-1770 | what a coinbase overwrites has no influence on the outcome of connecting the block |
| BlockUndo.ExemptBlockUndone | src/main.cpp:2268-2289 | disconnecting a block that skipped the scan cleanly restores everything but the coins its coinbase overwrote |
| BlockUndo.ExemptBlockUndoneIff | src/main.cpp:2268-2289 | so it is undone exactly if and only if its coinbase overwrote nothing unspent |
| Redo.ApplyCleanIff | src/main.cpp:1980-2004 | an undo record applies cleanly if and only if it carries metadata exactly when the record is missing and its output is not there yet |
| Redo.RespendInput | src/main.cpp:1980-2004 | what a clean undo record puts back can be spent again, which gives the old view and the same undo record |
| Redo.RespendInputs | src/main.cpp:2049-2060 | the same for all inputs of a transaction |
| Redo.ReconnectTx | src/main.cpp:2025-2061 | a transaction disconnected cleanly can be applied again, with the old view and the undo data that was used |
| Redo.ConnectInvertsDisconnect | src/main.cpp:2006-2072 | whatever the undo data, a clean disconnection loses nothing: if the block connects again it leads back to the same coins and undo data |
| Acceptance.CheckTransactionIff | src/main.cpp:956-1003 | CheckTransaction passes exactly non-empty transactions with non-negative outputs totalling at most 21 million coins, distinct inputs, and a coinbase script of 2 to 100 bytes or no null input |
| Acceptance.CheckTxInputsIff | src/main.cpp:1795-1837 | CheckTxInputs passes exactly if all inputs are there, coinbases are 100 blocks deep, and the total in range covers the outputs |
| Acceptance.AvailableIff | src/main.cpp:2331-2389 | in the middle of a block an output is available exactly if it was there before or is created earlier in the block and nothing earlier spends it |
| Acceptance.ListAcceptedIff | src/main.cpp:2331-2389 | the transaction loop accepts exactly the lists in which every transaction fits after the earlier ones |
| Acceptance.BlockAcceptedIff | src/main.cpp:2221-2389 | under BIP 30 ConnectBlock accepts a block if and only if its transactions pass, its ids are new and distinct, and each transaction spends only unspent, mature outputs that cover its own |
| Acceptance.NoDoubleSpend | src/main.cpp:2331-2389 | no two inputs of an accepted block spend the same output, and none spends an output of its own or a later transaction |
| Acceptance.AcceptedInputsMature | src/main.cpp:1809-1815 | every input of an accepted block spends a record of the view at that point which, if a coinbase, is at least 100 blocks deep |
| Acceptance.OwnCoinbaseNotSpent | src/main.cpp:1809-1815 | no transaction spends the coinbase of its own block |
| Conservation.ExemptBlockLosesOverwrittenValue | src/main.cpp:2268-2289 | the conservation law for such a block, less the value its coinbase overwrote |
| Conservation.TotalConnectTxs | src/main.cpp:2331-2389 | total value after an accepted list: coinbase outputs in, fees and unspendable outputs out, fees not negative |
| Conservation.ConnectBlockConservesValue | src/main.cpp:2221-2389 | the same for every block ConnectBlock accepts |
| Conservation.TotalSpendInputs | src/coins.cpp:234-244 | spending inputs lowers the total by exactly GetValueIn |
| CoinsCache.MergedView | src/coins.cpp:162-205 | merging one entry keeps the FRESH and DIRTY meanings and writes exactly that entry into the merged view |
| CoinsCache.CreatedAndSpent | src/coins.cpp:162-205 | coins created and spent between two flushes leave no trace in the parent |
| CoinsCache.StoredEntryKeepsOverlay | src/coins.cpp:162-205 | writing an entry down neither changes what the child shows nor breaks its other flags |
| CoinsCache.BlankFreshEntrySoundIff | src/coins.h:429-438 | a blank FRESH entry is sound if and only if the parent shows nothing unspent; otherwise unspent coins are hidden |
| CoinsCache.CoinsViewDB.BatchWrite | src/txdb.cpp:51-73 | the database becomes what the cache above it showed; a null block hash is not written |
| CoinsCache.CoinsViewCache.FetchCoins | src/coins.cpp:72-88 | reading changes no view of any layer, finds what the view shows, and leaves a clean copy in this cache |
| CoinsCache.CoinsViewCache.HaveCoins | src/coins.cpp:138-145 | answers exactly whether something is unspent |
| CoinsCache.CoinsViewCache.GetBestBlock | src/coins.cpp:152-156 | the best block through the stack, cached on the way |
| CoinsCache.CoinsViewCache.ModifyCoins | src/coins.cpp:99-118 | opening a modifier changes no view and hands out what the view shows; the entry is dirty, and fresh exactly if it was or if the parent shows nothing |
| CoinsCache.CoinsViewCache.ModifyNewCoins | src/coins.cpp:120-127 | hands out an empty record under the precondition that the parent shows nothing unspent |
| CoinsCache.CoinsViewCache.ReleaseModifier | src/coins.cpp:284-296 | the view then shows the trimmed record, or nothing if it is pruned, and a fresh pruned entry is gone from the cache |
| CoinsCache.CoinsViewCache.BatchWrite | src/coins.cpp:162-205 | the cache shows what its child showed, and every entry of it is the merge of its own and the child's |
| CoinsCache.CoinsViewCache.Flush | src/coins.cpp:207-212 | the parent shows what the child showed, the child's view is unchanged; what becomes of the best block in each case |
| CoinsCache.CoinsViewCache.Uncache | src/coins.cpp:214-221 | an unmodified entry is dropped, any other stays, and no view changes |
| CoinsCache.CoinsViewCache.HaveAllInputs | src/coins.cpp:246-258 | the loop decides whether all inputs are available in the view |
| CoinsCache.Perform | src/coins.cpp:72-296 | every operation on the stack is one step of a machine over two plain maps, with the same answer |
| CoinsCache.Run | src/coins.cpp:72-296 | every sequence of operations on a stack of any depth gives the plain map's answers |
| BlockConnection.UpdateCoins | src/main.cpp:1739-1771 | on a cache: the view becomes that of the specification and the undo data is the specified one |
| BlockConnection.CheckTransaction | src/main.cpp:956-1003 | the loops with running total and set of outpoints decide the specified condition |
| BlockConnection.CheckBlock | src/main.cpp:3288-3302 | accepts exactly a coinbase followed by other transactions, all of which pass |
| BlockConnection.CheckTxInputs | src/main.cpp:1795-1837 | accepts if and only if the specified condition holds, which Acceptance.CheckTxInputsIff spells out; the fee is the difference |
| BlockConnection.FindOverwrite | src/main.cpp:2282-2289 | the scan finds a transaction with unspent coins if and only if there is one |
| BlockConnection.ConnectBlock | src/main.cpp:2221-2389 | accepts exactly what the specification accepts, which Acceptance.BlockAcceptedIff spells out, with its view, undo data and fees; the layer below is untouched |
| BlockConnection.ApplyTxInUndo | src/main.cpp:1980-2004 | reports clean exactly when the specification does, which Redo.ApplyCleanIff spells out, and then has its effect |
| BlockConnection.DisconnectBlock | src/main.cpp:2006-2072 | succeeds exactly when the specification restores cleanly, and then has its effect |
| BlockTree.WalkCompose | src/chain.cpp:78-101 | walking to a height in two stages is walking there at once, which justifies following skip pointers |
| BlockTree.InvertLowestOneClearsIt | src/chain.cpp:64-65 | the bit trick turns off exactly the lowest one bit |
| BlockTree.SkipHeightEven | src/chain.cpp:68-76 | an even height skips to itself without its lowest one bit |
| BlockTree.SkipHeightOdd | src/chain.cpp:68-76 | an odd height skips to itself without its second and third lowest one bits |
| BlockTree.GetAncestor | src/chain.cpp:78-101 | following skip pointers ends at the block that walking pprev reaches, or null for a height out of range |
| BlockTree.AddToBlockIndex | src/main.cpp:3068-3100 | insertion keeps the tree and its skip pointers sound and changes no other entry; a new header starts without data, counts, sequence number and flags |
| ActiveChain.AlreadyInPlace | src/chain.cpp:13-23 | one matching entry means the whole path below matches, so SetTip may stop early |
| ActiveChain.Chain.SetTip | src/chain.cpp:13-23 | the vector is exactly the path to the new tip |
| ActiveChain.Chain.FindFork | src/chain.cpp:53-62 | the highest block shared by the chain and the path to the argument |
| Reorg.UndoLast | src/main.cpp:2652-2698 | undoing the last block of a path leads back to the replay of the rest, less what an exempt coinbase overwrote |
| Reorg.ReplayWellFormed | src/main.cpp:2710-2765 | replaying any path keeps all stored heights positive and records trimmed |
| Reorg.Chainstate.ConnectTip | src/main.cpp:2710-2765 | connects the block if and only if the other checks pass and ConnectBlock accepts it on the tip coins; then the chain grows by it and its undo data is stored; otherwise only the failure mark and the candidate set change, and only if the data may not be corrupt |
| Reorg.Chainstate.DisconnectTip | src/main.cpp:2652-2698 | cannot fail without an I/O error and takes exactly the last block off; the tip coins are the replay of the rest if and only if that block overwrote nothing unspent, and what is missing otherwise |
| Reorg.Chainstate.ActivateBestChainStep | src/main.cpp:2841-2912 | cannot fail without an I/O error; keeps what the chain shares with the path to the candidate, connects the path up to the first block that beats the old tip or up to the candidate, and reports an invalid block if and only if it comes to one on the way that is refused; the exact index, chain and candidates that result, with the tip coins the replay of the chain |
| BlockLinking.LinkedIffAllReceived | src/main.cpp:3103-3146 | the cumulative count is non-zero exactly when the block and all ancestors are received, is then the sum along the path, and the unlinked map holds exactly the received blocks still waiting |
| BlockLinking.LinkFront | src/main.cpp:3119-3137 | one round of the linking queue keeps the invariant with the children queued |
| BlockLinking.ArrivalLinks | src/main.cpp:3103-3118 | a block with linked ancestors starts the queue |
| BlockLinking.ArrivalWaits | src/main.cpp:3138-3143 | any other block is entered among the waiting ones |
| BlockManager.BlockManager.ReceivedBlockTransactions | src/main.cpp:3103-3146 | the queue terminates; exactly the newly linked blocks no worse than the tip become candidates; they are numbered consecutively from the old counter, parents first; linked blocks do not change |
| BlockManager.BlockManager.ReceiveAll | src/main.cpp:3103-3146 | any arrival order leaves counts and candidates that depend only on what has arrived, and a block complete earlier has the smaller sequence number |
| BlockManager.BlockManager.ReceiveAllAndFind | src/main.cpp:2771-3146 | for every arrival order the block then found is complete, none complete has more work, and one of the same work was not complete any earlier |
| BlockManager.BlockManager.FindMostWorkChain | src/main.cpp:2771-2823 | a usable candidate of most work, of the smallest sequence number among those, or null if there is none; each candidate given up is unusable and is marked failed, or waits for its parent again, or lacks data itself; the best-invalid marker has the most work; a tip that is a candidate stays one |
| Candidates.BestExists | src/main.cpp:127-146 | the comparator has a maximum on every non-empty set of candidates |
| Candidates.PruneBlockIndexCandidates | src/main.cpp:2826-2832 | removes exactly the candidates worse than the tip |
| Candidates.NotWorseThanAncestor | src/main.cpp:127-146 | a block never sorts before one of its ancestors, since every block adds work |
| Reorg.Chainstate.PruneCandidates | src/main.cpp:2833-2834 | exactly the candidates worse than the new tip go; the block that activation works towards is left, so the assertion that the set is not empty holds |
| BlockDownload.RemoveKeeps | src/main.cpp:368-388 | taking a received block off keeps the global map and the peers' lists in bijection with exact counters |
| BlockDownload.AppendKeeps | src/main.cpp:391-410 | so does a new request |
| BlockDownload.DepartKeeps | src/main.cpp:337-364 | so does the departure of a peer |
| BlockDownload.NoPeersNothingInFlight | src/main.cpp:358-363 | with no peers nothing is in flight, preferred or downloading |
| BlockDownload.Tracker.UpdatePreferredDownload | src/main.cpp:320-328 | recomputes the flag and keeps the counter exact |
| BlockDownload.Tracker.MarkBlockAsReceived | src/main.cpp:368-388 | says whether the block was requested, removes that request and nothing else; the peer's times are restarted as specified |
| BlockDownload.Tracker.MarkBlockAsInFlight | src/main.cpp:391-410 | the block is then requested from this peer alone, at the end of its list, and the download clock starts with the first request |
| BlockDownload.Tracker.FinalizeNode | src/main.cpp:337-364 | the peer and its requests are gone, and the three assertions after the last peer hold |
| BlockDownload.OwnersAfterDeparture | src/main.cpp:337-364 | what a departing peer's list names is exactly what the global map attributes to it |
| BlockDownload.Run | src/main.cpp:320-410 | every run of arrivals, requests, receipts and departures follows a plain map from block to peer, with exact counters |
| AddrManState.SwapKeeps | src/addrman.cpp:99-117 | exchanging two positions of vRandom keeps all indexes |
| AddrManState.RemoveRef | src/addrman.cpp:133-146 | taking a reference out keeps all indexes |
| AddrManState.AddRef | src/addrman.cpp:294-309 | putting a reference into an empty slot at its computed position keeps them, up to eight references |
| AddrManState.EnterTried | src/addrman.cpp:189-194 | entering the computed tried slot keeps them |
| AddrManState.LeaveTried | src/addrman.cpp:167-176 | leaving the tried table keeps them |
| AddrManState.DropLast | src/addrman.cpp:119-131 | deleting an entry that is in neither table keeps them |
| AddrManState.AddEntry | src/addrman.cpp:87-97 | a fresh id at the end of vRandom keeps them |
| AddrManState.SourceGroupReach | src/addrman.cpp:18-24 | whatever a network group announces ends up in at most 64 of the 1024 new buckets |
| AddrManState.GroupReach | src/addrman.cpp:11-16 | the addresses of one network group end up in at most 8 of the 256 tried buckets |
| AddrMan.AddrMan.Create | src/addrman.cpp:87-97 | a new entry in neither table, everything else unchanged |
| AddrMan.AddrMan.SwapRandom | src/addrman.cpp:99-117 | its assertions hold for any two positions and only positions change |
| AddrMan.AddrMan.Delete | src/addrman.cpp:119-131 | the entry leaves all indexes and the counters follow |
| AddrMan.AddrMan.ClearNew | src/addrman.cpp:133-146 | the slot is empty; its entry lost one reference, or left with the last |
| AddrMan.AddrMan.MakeTried | src/addrman.cpp:148-194 | the entry takes its tried slot and leaves the new table; a displaced one is new again with one reference, in the slot of its own source; nothing else but positions and references changes, all consistency conditions hold |
| AddrMan.AddrMan.Good | src/addrman.cpp:196-243 | a known address with this port ends tried with its statistics reset, and both tables are given; any other address changes nothing |
| AddrMan.AddrMan.FindBucket | src/addrman.cpp:222-233 | the bucket search always succeeds for a new entry |
| AddrMan.AddrMan.Add | src/addrman.cpp:245-311 | says exactly when an address is new; an unknown one is kept exactly when its slot can be taken; a known one gains a reference exactly when the news is newer, it is untried, has fewer than 8 references, wins a draw that is twice as hard for each, and its slot is free or held by a terrible entry; the resulting table, counts and entry are given |
| AddrMan.TerribleIff | src/addrman.cpp:32-51 | the time limits and failure counts beyond which an entry is not worth keeping |
| AddrMan.AddrMan.Attempt | src/addrman.cpp:313-330 | only the statistics of that address change, and the times stay in order exactly for a non-negative time |
| AddrMan.AddrMan.Select | src/addrman.cpp:332-377 | finds something exactly when the table asked for is not empty, in the tried table exactly when the coin toss or an empty new table says so |
| AddrMan.AddrMan.GetAddr | src/addrman.cpp:457-476 | 23 percent of the entries but at most 2500, or all that are not terrible if those are fewer; distinct, none terrible, under arbitrary random choices |
| AddrMan.AddrMan.Connected | src/addrman.cpp:478-496 | only the time of that address changes |
| AddrManRenumbering.NthRank | src/addrman.h:293-302 | numbers assigned on writing are a bijection with the entries, new ones before tried ones |
| AddrManRenumbering.RenumberedCore | src/addrman.h:330-425 | the renumbered indexes are consistent |
| AddrManSerialization.Serialize | src/addrman.h:280-327 | writes exactly the specified stream, format numbers included, and its assertions about nNew and nTried hold |
| AddrManSerialization.Unserialize | src/addrman.h:330-425 | reading it into a fresh manager yields the renumbered state; no collision, loss or pruning occurs |
| AddrManSerialization.EntriesSurvive | src/addrman.h:280-425 | every entry survives with everything but nLastTry and its position |
| AddrManSerialization.SaveAndLoad | src/addrman.h:280-425 | the round trip, with the same counters and all consistency conditions |
| CheckQueue.StepKeepsInv | src/checkqueue.h:69-127 | every step of every thread keeps nTodo, nIdle and nTotal exact, accounts for every check, and keeps the flags truthful |
| CheckQueue.InitialInv | src/checkqueue.h:130-131 | the invariant holds of a new queue |
| CheckQueue.WaitResult | src/checkqueue.h:91-104 | Wait returns true if and only if every check added since its last return was run exactly once and succeeded |
| CheckQueue.IdleAfterWait | src/checkqueue.h:164-168 | the queue is idle when Wait returns |
| CheckQueue.IdleUntilAdd | src/checkqueue.h:184-191 | it stays idle until something is added, so the controller's assertion holds |
| CheckQueue.BlockedMasterHasHelp | src/checkqueue.h:76-104 | while the master is blocked without a notification some worker holds a batch |
| CheckQueue.NoDeadlock | src/checkqueue.h:69-127 | while the master waits some thread can go on without a spurious wake-up |
| CheckQueue.WorkDecreases | src/checkqueue.h:69-127 | every critical section and every check run uses up work |
| CheckQueue.UndisturbedRunsEnd | src/checkqueue.h:69-127 | a run of critical sections and checks alone has at most as many steps as there was work |
| CheckQueue.WaitReturns | src/checkqueue.h:69-127 | every such run that cannot be continued contains the step in which Wait returns and ends with the master outside |
| CheckQueue.BatchWithinLimits | src/checkqueue.h:105-117 | a batch comes off the end of the queue, is the equal share of every thread but at least one check and at most the configured size, and is only skipped once a failure is known |
| CheckQueue.AddWakes | src/checkqueue.h:146-158 | several checks wake every worker, a single one wakes one, and the master is never woken |
| MerkleTree.NodesDiffer | src/merkleblock.cpp:118-122 | nodes of one level over distinct ids have different hashes |
| MerkleTree.WidthIff | src/merkleblock.h:66-68 | a position is inside the tree exactly when its first leaf is a transaction |
| PartialMerkleTree.DecodeEncode | src/merkleblock.cpp:80-132 | decoding a node's encoding yields its hash and matches, consumes exactly the encoding, and fails exactly if siblings on the way to a match have equal hashes |
| PartialMerkleTree.HashesFit | src/merkleblock.h:39 | at most one hash for each transaction below a node |
| PartialMerkleTree.HashesByMatches | src/merkleblock.h:40 | at most one hash more than matches times height |
| PartialMerkleTree.FlagBitBoundIff | src/merkleblock.h:47 | the documented limit on flag bits holds exactly when no match lies under a single-child node |
| PartialMerkleTree.FlagBitBoundFails | src/merkleblock.h:47 | three transactions of which the last is matched exceed it |
| PartialMerkleTree.ExtractEncoded | src/merkleblock.cpp:150-181 | extraction from an encoding, padded or not, gives the root and exactly the matched ids; it fails exactly above 16666 transactions or for equal siblings on the way to a match |
| PartialMerkleTree.DistinctHasNoTwins | src/merkleblock.cpp:118-122 | distinct ids never give equal siblings |
| PartialMerkleTree.NothingLeftOver | src/merkleblock.cpp:150-181 | a root comes out only if all hashes and all bits but the padding of the last byte were used |
| PartialMerkleTree.ExtractSound | src/merkleblock.cpp:150-181 | whatever the bits and hashes, if the true root comes out the matches are a selection of the block's ids in order |
| PartialMerkleTree.ExtractAuthentic | src/merkleblock.cpp:150-181 | with given flag bits only one list of hashes gives a root, so any damage to a hash shows |
| MerkleBlock.PackingRoundTrip | src/merkleblock.h:88-105 | packing and unpacking returns the bits followed by zeros up to the byte |
| MerkleBlock.PackBits | src/merkleblock.h:100-103 | the loop sets exactly the bits of the vector |
| MerkleBlock.UnpackBits | src/merkleblock.h:95-98 | the loop reads every bit of every byte |
| MerkleBlock.CPartialMerkleTree.TraverseAndBuild | src/merkleblock.cpp:80-96 | appends exactly the node's encoding |
| MerkleBlock.CPartialMerkleTree.TraverseAndExtract | src/merkleblock.cpp:98-132 | consumes and finds exactly what the decoding specifies, and only adds to the failure flag |
| MerkleBlock.CPartialMerkleTree.ExtractMatches | src/merkleblock.cpp:150-181 | the root, or null on any of the failures; a failed traversal damages the object for good |
| MerkleBlock.RelayMatches | src/merkleblock.cpp:134-181 | building, packing, unpacking and extracting returns the root and exactly the matched ids for every block up to the limit without such siblings, in particular with distinct ids |
| MerkleRootComputation.ComputeMerkleRoot | src/consensus/merkle.cpp:42-133 | the constant-space computation gives the recursively defined root, and the flag is set exactly when two complete siblings are equal |
| MerkleRootComputation.RootBinding | src/consensus/merkle.cpp:5-39 | without collisions, equal roots at equal tree height mean equal lists unless one is flagged as mutated |
| MerkleRootComputation.RootBindingAnyHeight | src/consensus/merkle.cpp:5-39 | across tree heights too, unless the first id of the shorter tree is itself the hash of a pair |
| MerkleRootComputation.RootOfPair | src/consensus/merkle.cpp:5-39 | that exception is real: a pair and the list of just its hash share a root |
| MerkleRootComputation.DistinctNotMutated | src/consensus/merkle.cpp:5-39 | a list of distinct ids is never flagged |
| ArithUint256.BaseUint.AddAssign | src/arith_uint256.h:135-145 | the sum modulo 2^(32 * WIDTH), also when an object is added to itself |
| ArithUint256.BaseUint.Negated | src/arith_uint256.h:77-84 | the negative modulo 2^(32 * WIDTH) |
| ArithUint256.BaseUint.SubAssign | src/arith_uint256.h:147-151 | the difference modulo 2^(32 * WIDTH) |
| ArithUint256.BaseUint.Increment | src/arith_uint256.h:173-180 | one more, wrapping at the top |
| ArithUint256.BaseUint.Decrement | src/arith_uint256.h:190-197 | one less, wrapping at zero |
| ArithUint256.BaseUint.MulAssign32 | src/arith_uint256.cpp:56-65 | the product modulo 2^(32 * WIDTH), with every intermediate value below 2^64 |
| ArithUint256.BaseUint.MulAssign | src/arith_uint256.cpp:68-81 | the product modulo 2^(32 * WIDTH) without overflow of a carry, and zero when multiplied by itself |
| ArithUint256.BaseUint.ShiftLeft | src/arith_uint256.cpp:22-36 | multiplication by a power of two, modulo 2^(32 * WIDTH), for any distance |
| ArithUint256.BaseUint.ShiftRight | src/arith_uint256.cpp:39-53 | floor division by a power of two, for any distance |
| ArithUint256.BaseUint.CompareTo | src/arith_uint256.cpp:110-119 | the order of the numbers |
| ArithUint256.BaseUint.Bits | src/arith_uint256.cpp:172-184 | the position of the highest set bit plus one |
| ArithUint256.BaseUint.DivAssign | src/arith_uint256.cpp:84-107 | the exact floor quotient for every non-zero divisor, the remainder in num, and an error with a cleared object for zero |
| ArithUint256.Divided | src/arith_uint256.cpp:97-104 | one round of the division loop finds one quotient bit |
| ArithUint256.SetClearBit | src/arith_uint256.cpp:100 | setting a clear bit of the quotient adds its weight |
| LimbShifts.ShiftedLeftValue | src/arith_uint256.cpp:22-36 | the limbs a left shift leaves have the shifted value |
| LimbShifts.ShiftedRightValue | src/arith_uint256.cpp:39-53 | the limbs a right shift leaves have the shifted value |
| Base58.EncodeBase58 | src/base58.cpp:67-100 | one '1' for each leading zero byte, then the shortest base-58 digits of the number; the carry is always absorbed |
| Base58.DecodeBase58 | src/base58.cpp:21-65 | accepts exactly one word over the alphabet between spaces and returns its bytes; the carry is always absorbed |
| Base58.DigitIff | src/base58.cpp:19 | the digits are exactly the letters and numerals other than 0, I, O and l, in this order of value: numerals, capitals, small letters |
| Base58.EncodeBufferSuffices | src/base58.cpp:76 | the factor 138/100 is enough for inputs of any length |
| Base58.DecodeBufferSuffices | src/base58.cpp:33 | the factor 733/1000 is enough for inputs of any length |
| Base58.DecodeEncode | src/base58.cpp:21-100 | decoding undoes encoding for every byte sequence |
| Base58.EncodeDecode | src/base58.cpp:21-100 | encoding undoes decoding: every accepted word is the encoding of its bytes |
| Base58.DecodeBase58Check | src/base58.cpp:121-136 | accepts exactly the encodings of data with its checksum and returns the data |

## Left out

- Script execution, signature-operation counts, lock times, proof of work and other verdicts on a block: one arbitrary verdict (`otherChecks`, or `Verdicts` for all blocks of an activation step) stands for them, and another for whether a failure may be due to corrupt data. Size limits of CheckTransaction and CheckBlock are not modelled.
- Blocks exempt from the BIP 30 scan: of their transactions only the coinbase may repeat an id with unspent coins, as the code argues for itself (src/main.cpp:2272-2277) and as ModifyNewCoins demands (src/coins.h:429-437).
- Reorg.Chainstate.ActivateBestChainStep: asks of the active blocks off the path to the candidate that they can be undone, in the sense of `Undoable`; after disconnecting one that cannot, coins are missing from the view. It also asks that every block adds work to its parent's, which the proof-of-work check of headers ensures, and that the candidate comes from the candidate set.
- BlockConnection.ApplyTxInUndo: when it reports unclean the resulting view is not specified, because a pruned cache entry may still carry old metadata that the view does not show.
- BlockConnection.DisconnectBlock: likewise only the clean outcome is specified; the variant with a separate clean flag used by VerifyDB is not modelled.
- BlockConnection.ConnectBlock: fees are unbounded integers; the code's 64-bit sum is not checked for overflow across transactions.
- BlockConnection.UpdateCoins: requires spendable inputs, which `BlockUndo.AcceptedTxSpendable` derives for every accepted transaction; the other caller, mempool acceptance, is not modelled.
- BlockManager.BlockManager.ReceivedBlockTransactions: assumes no failure flags and fewer than 2^32 transactions on any path; with more, the 32-bit count could wrap to zero. InvalidateBlock and ReconsiderBlock are not modelled.
- Redo.ReconnectTx: for versions that are not negative, since DisconnectBlock does not compare negative ones, and undo data with real outputs, as it is written.
- AddrMan.AddrMan.Select: which entry is drawn, chances and the number of probes are not modelled, only what can be drawn.
- AddrMan.AddrMan.Good: conditions -1, -6 and -8 of Check_ survive exactly if the given time is positive. Condition -16, that the secret key is not null, is not modelled: the key only appears through the bucket functions.
- AddrManSerialization.Unserialize: only for streams that Serialize wrote; other versions, changed bucket counts and damaged files are not modelled. Into a manager already in use the code would keep old entries, because Clear does not empty mapInfo and mapAddr.
- CheckQueue.StepKeepsInv: there is one master at a time, as the controller object ensures; fQuit, which nothing sets, is not modelled.
- MerkleRootComputation.ComputeMerkleRoot: up to 2^31 leaves, beyond which the 32-bit counter of the final sweep overflows; the branch output is not modelled.
- MerkleRootComputation.RootBinding: for equal tree heights; `MerkleRootComputation.RootBindingAnyHeight` covers the rest.
- ArithUint256: conversion to hexadecimal, doubles and the compact target format.
- CChain::GetLocator, per-entry memory accounting, and all other networking, wallet, RPC, storage and start-up code.
- Block and undo files: reliable maps; pruning of files and read errors are not modelled.
