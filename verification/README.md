# Verified core of the DxChain node

DxChain is a fork of go-ethereum. This Dafny project models four parts of the node whose correctness rests on invariants
that no single function shows, and three small concurrency protocols, and proves those invariants for every input, every
run and every interleaving.

`dafny verify dfyconfig.toml` checks the whole project.

## What is modelled

- **The transaction pool** (`core/tx_pool.go`, `core/tx_list.go`). Five structures must agree after every operation: the
  pending and the queued lists, the lookup of all transactions, the price heap and the virtual nonces. The bottom layer is
  container/heap (`Heap`), the heap-indexed map with its sorted cache (`TxSortedMaps`), the list with its cost and gas caps
  (`TxLists`) and the lazily cleaned price heap (`PricedLists`), each a class proved against functions on plain values
  (`TxListSpec`). The pool itself (`TxPools`) holds its lists as those values. `PoolModel`, `PoolSteps`, `PoolReadiness` and
  `PoolResets` hold the invariants and the lemmas about single steps, `PoolStays` what leaves the pool and why, `PoolMoments`
  the pool over time, `PoolExamples` concrete pools. The main results are:
  the lookup is exactly the disjoint union of pending and queue (`Consistent`), every pooled transaction is in the price heap
  (`Covers`), and everything pending can be executed on the chain state (`Executable`), after any sequence of operations;
  pending nonces run without a gap from the chain nonce to the virtual nonce (`GapFree`), and the transaction an account would
  execute next is not left in its queue (`Settled`), after any sequence of operations in which no reset that puts transactions
  back refills an account only partly or lacks room for them (`Gentle`). `TxPool.Run` states this for
  every moment of a run, and `TxPool.Reset` states exactly when a reset with room keeps the pool gap-free.
- **The canonical chain** (`core/headerchain.go`, `core/blockchain.go`). `ChainStore` has headers and branches, `HeaderChains`
  the header chain with its number map and total difficulties, `BranchTxs` the transactions of a branch and their index,
  `BlockChains` block import with reorganisations and the stream of change events, and `Reinjections` the part of the pool's
  reset that finds what a reorganisation took off the chain.
- **The section indexer** (`core/chain_indexer.go`), as the steps that run under its lock or between two reads, in any order.
- **Gas accounting** (`core/state_transition.go`, `core/state_processor.go`, `core/gaspool.go`, `core/block_validator.go`),
  with 64-bit arithmetic written out.
- **Three protocols**: the event feed (`event/feed.go`), taking several locks at once (`common/trylock.go`) and the message
  buffer of a peer (`eth/dispatcher.go`, `eth/storagehandler.go`, `eth/peer.go`).

Conventions. A transaction is identified by its value, which stands for its hash; a header hash names one header. The EVM is a
given outcome (the world it leaves, gas left, refund counter, error). Random tie-breaks, readiness of channels and the order of
Go's map iteration are nondeterministic choices. Time is a number passed in.

Where comment and code disagree the model follows the code. The comment on the queue limit (`core/tx_pool.go:1075`) speaks of
dropping the oldest transactions, but the accounts are taken from the end of a list sorted by rising heartbeat, so the most
recently active accounts lose theirs first (`LatestFirst`). Admission to the pool compares a transaction's cost with the
unfrozen balance (`core/tx_pool.go:616`), while promotion and demotion compare it with the whole balance; so does the model.

Properties that fail, each with an input and a condition under which they hold:

- A reset that puts transactions back can leave a gap among pending nonces (`PartialRefill`, `GapAfterPartialRefill`). With room
  for what is put back, it does so exactly if an account's nonce falls back, what can be executed again starts at it without
  reaching up to the pending transactions, and these can still be executed (`TxPool.Reset`, `ResetOutcome`).
- Without room, discarding a transaction whose nonce the chain has passed leaves the virtual nonce below the chain nonce, and the
  account's next transaction stays queued (`StrandedBelowChain`, `VirtualBelowChain`). With room everyone is settled after a reset
  (`TxPool.Reset`).
- A section that the backend refuses removes section heads without the lock. If a reorg notice removes some at the same time, all
  interleavings of the two leave one chain of heads exactly if a single section is stored (`CutsCollide`); otherwise a head may be
  left above the count, or the count exceed the heads (`TwoSectionsCollide`). Over whole runs, two cuts have overlapped exactly
  if both were at work at some moment, which takes both a refusal and a reorg notice; as long as they have not, the heads are one
  chain whenever no cut is at work. In any case every head is the last block of its section (`ChainIndexer.Run`).
- A reorg notice that arrives between the last read of a section and its end does not undo it, so the head recorded may be of an
  abandoned branch (`AbandonedHeadRecorded`). It is canonical if the chain has kept the blocks read (`ChainIndexer.End`).
- `GetAncestor` answers the zero hash, asked for at a number above the head, as if it were canonical, and this is the only such
  case (`HeaderChain.GetAncestor`, `ZeroHashPasses`).
- `CalcGasLimit` breaks the rule of section 4.3.4 of the Ethereum Yellow Paper in a corner just above the minimum gas limit, and
  only there (`StepWithinBound`, `BoundFailsAtMinimum`).

## Model

| member | source | states |
|---|---|---|
| `Heap.RootIsMinimal` | core/tx_list.go:30-48 | the head of a heap in container/heap's array layout is minimal |
| `Heap.Push` | core/tx_list.go:71-79 | pushing keeps the heap order and adds exactly the element |
| `Heap.Pop` | core/tx_list.go:81-98 | popping yields a minimum, keeps the order and loses nothing else |
| `Heap.Init` | core/tx_list.go:100-123 | any sequence becomes a heap of the same elements |
| `Heap.Remove` | core/tx_list.go:150-169 | deleting at any index, sifting up or down, keeps the order and loses exactly that element |
| `Heap.Sort` | core/tx_list.go:125-148 | what is asked of sort.Sort: an ordered permutation |
| `Transactions.ListingIsUnique` | core/tx_list.go:200-216 | the nonce-sorted listing of a map is unique, so a cached and a rebuilt one agree |
| `TxListSpec.LowestMeaning` | core/tx_list.go:125-148 | dropping the highest nonce one by one keeps exactly the threshold many, all below all dropped ones |
| `TxListSpec.RunEnd` | core/tx_list.go:171-193 | the first absent nonce from a given one on |
| `TxListSpec.ReadyEnd` | core/tx_list.go:171-193 | Ready's run is the maximal consecutive one from the least nonce, and empty if that exceeds the start |
| `TxListSpec.AcceptsMeaning` | core/tx_list.go:251-262 | a list takes a transaction exactly if its nonce is free or it bids more by one and by the bump percentage, rounded down |
| `TxListSpec.PriceAfter` | core/tx_list.go:251-262 | what it takes to replace a transaction k times: at least k, and at least k times the percentage of the first price |
| `TxSortedMaps.HeadIsMinimum` | core/tx_list.go:81-98 | the head of the index heap is the least stored nonce |
| `TxSortedMaps.TxSortedMap.Put` | core/tx_list.go:71-79 | inserts or overwrites; heap and cache agree with the map again |
| `TxSortedMaps.TxSortedMap.Forward` | core/tx_list.go:81-98 | removes exactly the nonces below the threshold, returned in order; a cache is shifted to match |
| `TxSortedMaps.TxSortedMap.Filter` | core/tx_list.go:100-123 | removes exactly what the filter selects, and rebuilds the heap |
| `TxSortedMaps.TxSortedMap.Cap` | core/tx_list.go:125-148 | keeps the lowest nonces, returns the others from the top; a cache is cut to match |
| `TxSortedMaps.CappedCache` | core/tx_list.go:125-148 | cutting the back off a cached listing leaves the listing of what Cap keeps |
| `TxSortedMaps.TxSortedMap.Remove` | core/tx_list.go:150-169 | deletes one nonce and reports whether it was there |
| `TxSortedMaps.TxSortedMap.Ready` | core/tx_list.go:171-193 | takes out exactly the run described by ReadyEnd, in order |
| `TxSortedMaps.TxSortedMap.Flatten` | core/tx_list.go:200-216 | the nonce-sorted contents, which the cache then holds |
| `TxLists.FastPath` | core/tx_list.go:287-297 | when the caps bound every entry and are within the limits, a full scan would remove nothing and change nothing |
| `TxLists.FilterMeaning` | core/tx_list.go:281-314 | Filter splits the list in three; a strict one keeps exactly the nonces below the lowest removed |
| `TxLists.FilteredCaps` | core/tx_list.go:296-298 | lowering the caps to the limits keeps them bounds |
| `TxLists.TxList.Add` | core/tx_list.go:246-272 | accepts exactly what meets no equal nonce or outbids it by the bump; raises the caps; hands back what it replaced |
| `TxLists.TxList.Forward` | core/tx_list.go:274-279 | as the map's, with the caps still bounds |
| `TxLists.TxList.Filter` | core/tx_list.go:281-314 | equals the full scan, fast path or not |
| `TxLists.TxList.Cap` | core/tx_list.go:316-320 | as the map's, with the caps still bounds |
| `TxLists.TxList.Remove` | core/tx_list.go:322-336 | removes by nonce; a strict list gives up exactly the higher nonces too |
| `TxLists.TxList.Ready` | core/tx_list.go:338-347 | as the map's, with the caps still bounds |
| `PricedLists.PricedList.Put` | core/tx_list.go:413-416 | adds one entry, keeps the heap order |
| `PricedLists.PricedList.Removed` | core/tx_list.go:418-436 | counts a stale entry, and past a quarter of the heap rebuilds it to hold exactly the pooled transactions |
| `PricedLists.PricedList.Cap` | core/tx_list.go:438-467 | returns exactly the pooled remote transactions below the price, stale entries or not; the others stay in the heap |
| `PricedLists.PricedList.Underpriced` | core/tx_list.go:469-493 | for a remote sender and a non-empty pool: true exactly if no pooled price is below the new one |
| `PricedLists.PricedList.Discard` | core/tx_list.go:495-520 | no remote transaction left is cheaper than one dropped, or as cheap with a higher nonce; fewer than asked only if the remote ones run out |
| `PricedLists.CheapestFirst` | core/tx_list.go:373-383 | nothing in the heap sorts below its head |
| `PoolModel.StoredOnce` | core/tx_pool.go:900-939 | a pooled transaction is in exactly one of pending and queue, and its nonce not in the other |
| `PoolModel.AccountUpdate` | core/tx_pool.go:944-1160 | a change to one account keeps the whole pool consistent if that account's part is |
| `PoolModel.RemovedPending` | core/tx_pool.go:914-930 | removing a pending transaction and queueing the higher nonces loses nothing but it |
| `PoolModel.RemovedQueued` | core/tx_pool.go:932-938 | removing a queued transaction by nonce loses nothing but it |
| `PoolModel.Promoted` | core/tx_pool.go:956-999 | an account's promotion and drops keep the lookup the disjoint union of the lists |
| `PoolModel.TotalStored` | core/tx_pool.go:1004-1008 | storing one account's list changes the total by that account's change |
| `PoolModel.CountAll` | core/tx_pool.go:1004-1008 | the summation over accounts in any order is the total |
| `PoolSteps.GaplessCut` | core/tx_pool.go:914-930 | cutting pending at a nonce and lowering the virtual nonce to it leaves no gap |
| `PoolSteps.RunContinues` | core/tx_pool.go:977-984 | in a gap-free pool the run that Ready takes starts exactly at the virtual nonce |
| `PoolSteps.GaplessRun` | core/tx_pool.go:977-984 | promoting that run leaves no gap |
| `PoolSteps.QueueTurnTaken` | core/tx_pool.go:1091-1113 | one account visited by the queue truncation: earlier visited were at least as recently active, and only high nonces go |
| `PoolSteps.LoweredKeeps` | core/tx_pool.go:1026-1050 | lowering all offenders to the newest one's length keeps the bounds on what was trimmed, and levels them |
| `PoolSteps.Levelled` | core/tx_pool.go:1054-1071 | lowering level offenders to the allowance leaves every remote account at most the allowance |
| `PoolSteps.Longest` | core/tx_pool.go:1012-1024 | the next offender has a longest list |
| `PoolSteps.Demoted` | core/tx_pool.go:1120-1160 | an account's demotion keeps the lookup the disjoint union of the lists |
| `PoolSteps.LastNonceGapless` | core/tx_pool.go:449-453 | a contiguous list that starts at the chain nonce is gap-free up to its last nonce plus one |
| `PoolReadiness.RemovalKeeps` | core/tx_pool.go:914-930 | after a removal pending is still executable, and no virtual nonce is queued that was not before |
| `PoolReadiness.ReadyTakesVirtual` | core/tx_pool.go:977-984 | after Ready is taken out, the virtual nonce the promotion sets is not queued, gap-free or not |
| `PoolReadiness.HopelessDropped` | core/tx_pool.go:961-976 | Forward and Filter together drop exactly what has a passed nonce, cannot be paid for, or fits no block |
| `PoolReadiness.CapDrops` | core/tx_pool.go:985-994 | the account limit drops nothing, or leaves exactly the limit with everything dropped above everything kept |
| `PoolReadiness.NextIsVirtual` | core/tx_pool.go:786-788 | without gaps, the nonce an account would execute next is its virtual nonce |
| `PoolReadiness.AddedSize` | core/tx_pool.go:652-669 | how large one addition can make the pool: at most the capacity, or not larger than before, unless all are local |
| `PoolReadiness.ExecutableMeans` | core/tx_pool.go:1117-1160 | pending is executable exactly if no nonce has passed, every account has the money and a block can hold the gas |
| `TxPools.TxPool.constructor` | core/tx_pool.go:236-282 | the empty pool is valid, gap-free and settled |
| `TxPools.TxPool.Enqueue` | core/tx_pool.go:714-740 | the whole new state of enqueueTx, replacement and refusal included |
| `TxPools.TxPool.EnqueueAll` | core/tx_pool.go:921-924 | postponing transactions that meet no queued nonce loses none, though enqueueTx's result is ignored |
| `TxPools.TxPool.RemoveTx` | core/tx_pool.go:898-939 | exactly the transaction leaves the pool; all invariants are kept, price coverage included |
| `TxPools.TxPool.PromoteTx` | core/tx_pool.go:754-791 | the whole new state of promoteTx, heartbeat and virtual nonce included |
| `TxPools.TxPool.PromoteRun` | core/tx_pool.go:977-984 | a consecutive run becomes pending, none refused, and the virtual nonce is its end |
| `TxPools.TxPool.PromoteAccount` | core/tx_pool.go:956-999 | an account's turn keeps all invariants, promotes exactly the run from the virtual nonce, and drops exactly the hopeless plus the excess of a remote queue |
| `TxPools.TxPool.LowerTo` | core/tx_pool.go:1031-1049 | a level group is lowered in rounds, stays level, not below the floor, until pending fits; never a full round too many |
| `TxPools.TxPool.Equalize` | core/tx_pool.go:1011-1051 | if pending is still too large afterwards, all offenders are equally long and nobody else is above the allowance |
| `TxPools.TxPool.TruncatePending` | core/tx_pool.go:1004-1074 | only remote accounts above the allowance are trimmed, from the top and not below it; pending fits or every remote account is within the allowance; pending stays above the limit less the offenders, who are among the remote accounts above the allowance |
| `TxPools.TxPool.TruncateQueue` | core/tx_pool.go:1075-1114 | exactly the limit is left or only local accounts are; local queues are untouched; only high nonces go, from the most recently active accounts first |
| `TxPools.TxPool.PromoteExecutables` | core/tx_pool.go:944-1115 | all invariants are kept; every visited account has its hopeless ones dropped, its ready run promoted and its queue capped, exactly; both truncations take only from the top of remote lists, only over the limits, and no more than they must |
| `TxPools.TxPool.SweepAll` | core/tx_pool.go:950-1002 | the turns of the accounts, whatever their order: pending list, queue and virtual nonce of each, exactly |
| `TxPools.TxPool.DemoteAccount` | core/tx_pool.go:1120-1159 | what is left pending starts at the chain nonce and is contiguous if it was; exactly the hopeless leave the pool |
| `TxPools.TxPool.DemoteUnexecutables` | core/tx_pool.go:1117-1160 | the same for all accounts: everything pending is executable, and demotion loses nothing else |
| `TxPools.TxPool.Reset` | core/tx_pool.go:430-457 | what is left can be executed; whatever was pooled or put back and is gone is hopeless on the new state, outbid, discarded as cheapest, beyond a full remote queue or truncated from the top, and with room never discarded nor truncated from pending; in a modest pool exactly the hopeless leave; without reinjection a gap-free pool is in order; with room it is gap-free exactly if no account is refilled only partly, and everyone is settled |
| `TxPools.TxPool.Revalidate` | core/tx_pool.go:442-457 | demotion and virtual nonces, exactly, then the promotion of everyone |
| `TxPools.TxPool.Demote` | core/tx_pool.go:442-453 | exactly the hopeless leave, the lists are what demotion leaves of them, and virtual nonces follow the last pending ones |
| `PoolResets.PendingNoncesStay` | core/tx_pool.go:441 | re-adding changes no pending nonce |
| `PoolResets.RemainingMeaning` | core/tx_pool.go:1120-1160 | demotion leaves exactly what is below every unexecutable nonce, if that starts at the chain nonce |
| `PoolResets.RejoinedRemaining` | core/tx_pool.go:438-447 | what re-adding, promotion and demotion leave of an account has a gap exactly if it was refilled only partly |
| `PoolResets.ResetAccount` | core/tx_pool.go:430-457 | the whole reset for one account: gap-free exactly if not refilled partly, and settled |
| `PoolResets.ResetOutcome` | core/tx_pool.go:430-457 | the whole reset for all accounts |
| `PoolResets.NobodyFellBack` | core/tx_pool.go:430-457 | if no account with pending transactions has a lower nonce on the new state, none is refilled partly |
| `PoolResets.TotalAtMost` | core/tx_pool.go:1004-1009 | pending lists together hold no more than the lookup, so a small pool is not truncated |
| `PoolResets.AdmittedMeans` | core/tx_pool.go:589-631 | admitted exactly if signed, payable from unfrozen money, not behind the chain, within the size and gas limits, covering its intrinsic gas, and local or at the gas price |
| `PoolStays.SweepLoses` | core/tx_pool.go:956-999 | the turns of the accounts lose only hopeless queued transactions and what exceeds full remote queues |
| `PoolStays.TruncationLoses` | core/tx_pool.go:1004-1114 | truncation loses only from the top of remote lists, and only over the limits |
| `PoolStays.PromotionLoses` | core/tx_pool.go:944-1115 | the two together |
| `PoolStays.ModestPromotion` | core/tx_pool.go:944-1115 | with few enough transactions only hopeless queued ones leave |
| `PoolStays.FreeMeaning` | core/tx_pool.go:671-712 | the list where a transaction belongs takes it exactly if it outbids its twin anywhere in the pool |
| `PoolStays.FilesLoses` | core/tx_pool.go:641-712 | an addition takes out only what it discards and the twin it outbids |
| `PoolStays.BatchLoses` | core/tx_pool.go:849-860 | so does a batch, from any point on |
| `PoolStays.BatchAdds` | core/tx_pool.go:849-860 | a batch brings in only what is offered and admitted |
| `PoolStays.FilesPriced` | core/tx_pool.go:608-712 | an addition keeps every remote transaction at the gas price: a local bid for a pending nonce of a remote account pays more than what it replaces |
| `PoolStays.NextPromoted` | core/tx_pool.go:827-835 | in a pool without gaps the transaction with the virtual nonce becomes pending |
| `PoolStays.ResetLoses` | core/tx_pool.go:430-457 | why a transaction is gone after a reset, by stage |
| `PoolStays.RoomyReset` | core/tx_pool.go:430-457 | with room for what is put back nothing is discarded and nothing pending truncated |
| `PoolStays.ModestReset` | core/tx_pool.go:430-457 | in a modest pool exactly the hopeless leave, once what is put back has taken its place |
| `PoolStays.ResetExecutable` | core/tx_pool.go:442-457 | what is left after a reset, pending or queued, can be executed |
| `PoolResets.GapAfterPartialRefill` | core/tx_pool.go:1145-1151 | pending 3, 5, 6, 7 on a chain at 3 survive demotion, and have a gap whatever the virtual nonce |
| `PoolResets.VirtualBelowChain` | core/tx_pool.go:926-928 | a virtual nonce below the chain nonce keeps everything queued from being promoted, and no list is gap-free with it |
| `PoolExamples.PartialRefill` | core/tx_pool.go:430-457 | a reset of a concrete gap-free pool that leaves a gap |
| `PoolExamples.StrandedBelowChain` | core/tx_pool.go:663-667 | a concrete full pool in which putting back another account's transaction discards a stale nonce and leaves the account's next transaction queued |
| `TxPools.TxPool.UpdateNonces` | core/tx_pool.go:449-453 | virtual nonces follow the last pending ones |
| `TxPools.TxPool.MakeRoom` | core/tx_pool.go:654-669 | a full pool refuses exactly the remote transactions no dearer than all pooled ones; otherwise only remote ones go, the cheapest first, at least one if there is any, and not more than it takes to be one below the capacity |
| `TxPools.TxPool.Insert` | core/tx_pool.go:671-712 | the new transaction replaces its pending or queued twin if it outbids it, is queued if there is none, or changes nothing |
| `TxPools.TxPool.Add` | core/tx_pool.go:633-712 | which error in which case, what leaves to make room, what is filed where, who becomes local; a pool with room ends within its capacity, and a full one with a remote transaction does not grow; a refusal changes the pool exactly if it is full and the transaction worthy, valid and new, with some remote transaction pooled |
| `TxPools.TxPool.AddTx` | core/tx_pool.go:821-837 | succeeds exactly if the transaction is new, admitted, worthy of a full pool and outbids its twin there; it is then pooled unless squeezed out from above, and pending if it was next in a pool in order or replaces a pending one; the lists stage by stage; the exact condition for a refusal that changes the pool, and bounds on its size |
| `TxPools.TxPool.AddTxs` | core/tx_pool.go:847-870 | error, room and filing of every transaction of the batch, local or remote, then the promotion of the accounts that gained something; all invariants are kept; bounds on the size; with room the outcome is a function of the pool |
| `TxPools.TxPool.AddEach` | core/tx_pool.go:849-860 | the loop over the batch, transaction by transaction: error, room made, filing, who becomes local, who is to be promoted |
| `TxPools.TxPool.SetGasPrice` | core/tx_pool.go:488-499 | exactly the remote transactions below the price leave; all invariants are kept |
| `TxPools.TxPool.Evict` | core/tx_pool.go:336-351 | exactly the queues of remote accounts without a heartbeat, or without a recent one, are gone |
| `TxPools.TxPool.HandleHead` | core/tx_pool.go:309-320 | a new head turns the Homestead rules on for good before the reset; a pool in order stays so if the reset has room and refills nobody partly under the new rules; in a modest pool exactly the hopeless leave |
| `TxPools.TxPool.HandleTx` | core/tx_pool.go:821-837 | one addition over time: in a modest pool an admitted transaction that outbids its twin is pooled, only the twin and hopeless ones leave, and a refusal changes nothing |
| `TxPools.TxPool.HandleTxs` | core/tx_pool.go:847-870 | a batch over time |
| `PoolMoments.RunAdmits` | core/tx_pool.go:589-631 | over any run remote transactions pay the gas price, and everything covers the intrinsic gas of the rules that held at the start |
| `TxPools.TxPool.Perform` | core/tx_pool.go:287-366 | an operation that is gentle on the pool as it is keeps it in order; only a new head moves the chain, only a repricing sets the price, only a local addition makes accounts local; what is new was offered and admitted; and each operation has its result |
| `TxPools.TxPool.Run` | core/tx_pool.go:287-366 | at every moment of any sequence of operations the structures agree, pending is executable, every remote transaction pays the gas price and everything covers its intrinsic gas, if it was so at the start; gap-free and settled at every moment before which each operation was gentle on the pool it found; each moment follows from the one before by its operation |
| `PoolSteps.Config.Sanitize` | core/tx_pool.go:160-197 | every limit is workable, and workable configurations are unchanged |
| `Reinjections.TxDifference` | core/types/transaction.go:368-385 | exactly the entries of the first list that are not in the second, in order |
| `Reinjections.BranchDifference` | core/tx_pool.go:396-425 | two branches differ in exactly the transactions above where they part |
| `Reinjections.Reinject` | core/tx_pool.go:378-428 | on a complete store, exactly the transactions on the old branch and not on the new one; nothing if the heads are more than 64 apart |
| `IntrinsicGas.Compute` | core/state_transition.go:80-111 | the 64-bit computation gives the exact price, and fails exactly when that does not fit |
| `IntrinsicGas.PriceOfByte` | core/state_transition.go:80-111 | the base price, and what each byte adds |
| `StateTransitions.GasPool.AddGas` | core/gaspool.go:28-35 | panics exactly when the sum would not fit |
| `StateTransitions.GasPool.SubGas` | core/gaspool.go:37-45 | refuses exactly what is not there |
| `StateTransitions.FeesConserved` | core/state_transition.go:236-257 | fees only move: a message changes the supply only as the EVM does |
| `StateTransitions.WhoGetsWhat` | core/state_transition.go:236-257 | the coinbase gets the price of the used gas, the sender that of the rest, nobody else anything |
| `StateTransitions.GasUsed` | core/state_transition.go:242-262 | the gas paid for is what was spent less the refund, or half of what was spent, rounded up, if the refund exceeds the other half |
| `StateTransitions.StateTransition.BuyGas` | core/state_transition.go:155-170 | which error when; on success exactly the prepaid amount and gas move |
| `StateTransitions.StateTransition.PreCheck` | core/state_transition.go:172-183 | nonce errors before purchase errors; failures change nothing |
| `StateTransitions.StateTransition.RefundGas` | core/state_transition.go:242-257 | the refund is capped to half of the used gas; panics exactly when the pool would overflow |
| `StateTransitions.StateTransition.TransitionDb` | core/state_transition.go:185-240 | fails with exactly the first thing wrong; on success the pool gives up exactly the gas used, the coinbase gets its price, the sender the price of the rest, and nobody else anything; never overflows the pool |
| `StateProcessors.ApplyTransaction` | core/state_processor.go:90-134 | the running total grows by the receipt's gas, with the transaction's verdict as the error |
| `StateProcessors.Process` | core/state_processor.go:50-88 | used gas is the receipts' gas and the limit less the gas left; supply is conserved if the EVM conserves it; a coinbase that neither sends nor is touched by the EVM gains exactly the sum of gas times price over the receipts; otherwise the verdict on the first bad transaction |
| `StateProcessors.CoinbaseStep` | core/state_processor.go:90-134 | a transaction makes an idle coinbase richer by exactly its fee |
| `StateProcessors.SetReceiptsData` | core/blockchain.go:789-825 | fails exactly on a count mismatch; otherwise each gas is the 64-bit difference of cumulative gas |
| `StateProcessors.ReceiptsRecovered` | core/blockchain.go:808-813 | those differences recover every receipt of a processed block from its stored form |
| `GasLimit.StepApproaches` | core/block_validator.go:120-155 | a step strictly approaches the range from outside and never leaves it from inside |
| `GasLimit.RunConverges` | core/block_validator.go:120-155 | however full the blocks are, the limit enters the range in finitely many steps and stays |
| `GasLimit.StepWithinBound` | core/block_validator.go:124-155 | a step changes the limit by less than a 1024th exactly unless the given corner below 5120 applies |
| `GasLimit.BoundFailsAtMinimum` | core/block_validator.go:124-155 | a full block at the minimum limit breaks that bound |
| `ChainStore.PathOfAncestor` | core/headerchain.go:396-408 | the branch of an ancestor is a prefix of the branch |
| `ChainStore.PathsMeet` | core/headerchain.go:170-183 | branches that agree at a height agree below it |
| `ChainStore.WalkIsPath` | core/headerchain.go:345-357 | walking back over parents is indexing the branch |
| `HeaderChains.WeighedMore` | core/headerchain.go:140-157 | writing a header keeps every total difficulty the sum over its branch and the head's the maximum |
| `HeaderChains.RewritingDone` | core/headerchain.go:170-189 | when the rewriting meets the old branch the number map follows the new head everywhere |
| `HeaderChains.HeaderChain.DeleteAbove` | core/headerchain.go:158-168 | exactly the numbers above the new head are cleared |
| `HeaderChains.HeaderChain.WriteHeader` | core/headerchain.go:125-198 | the number map names the head's ancestor at every height up to the head and nothing above, difficulties are exact, the head is heaviest; chosen exactly if heavier or on an equal weight by the coin |
| `HeaderChains.HeaderChain.InsertHeaderChain` | core/headerchain.go:254-298 | keeps all that for a batch and stops exactly at the first header without a parent |
| `HeaderChains.HeaderChain.GetAncestor` | core/headerchain.go:323-358 | a non-zero answer is the plain walk exactly unless the zero-hash corner applies; an existing walk is refused exactly when the budget is too small; the budget falls by the non-canonical headers stepped over |
| `HeaderChains.ZeroHashPasses` | core/headerchain.go:341-344 | the zero-hash corner is real |
| `HeaderChains.JumpIsWalk` | core/headerchain.go:341-344 | from a canonical header, reading the number map is walking back |
| `BranchTxs.WriteEntries` | core/rawdb/accessors_indexes.go:41-58 | every transaction of the block is indexed with its position, and no other entry changes |
| `BranchTxs.NextIndexed` | core/blockchain.go:1535-1543 | indexing the next block of a branch indexes the longer branch |
| `BlockChains.CommonAncestor` | core/blockchain.go:1477-1523 | both lists ascend, link up, share no block and start right above the common block; fails only if an ancestor is missing |
| `BlockChains.CutIsHighest` | core/blockchain.go:1501-1523 | a block is on both branches exactly when it is below the cut |
| `BlockChains.ChangeReplays` | core/events.go:50-53 | a subscriber with the old branch has the new one after replaying the event |
| `BlockChains.ReorgEnds` | core/blockchain.go:1544-1552 | deleting what was reverted and not applied again leaves the index of exactly the new branch |
| `BlockChains.BlockChain.ApplyBlocks` | core/blockchain.go:1535-1543 | after inserting the new blocks lowest first, number map and index follow the new branch |
| `BlockChains.BlockChain.Reorg` | core/blockchain.go:1442-1571 | number map and index are those of the new branch, and the event leads from the old branch to it |
| `BlockChains.BlockChain.WriteBlockWithoutState` | core/blockchain.go:925-938 | stores a fork block, keeping all that is known of the head |
| `BlockChains.BlockChain.WriteBlockWithState` | core/blockchain.go:940-1078 | replaying all events gives the genesis-to-head path; number map and index agree with it; a heavier block becomes the head and a lighter does not; of equally heavy ones the lower is the head; at equal number too a preserved head stays, and otherwise a preserved block or the coin wins; no stored block is heavier than the head, or as heavy and lower, if none was |
| `BlockChains.PreferredChosen` | core/blockchain.go:1026-1045 | the choice keeps the head heaviest, and lowest among the heaviest |
| `BlockChains.BlockChain.Perform` | core/blockchain.go:925-1078 | one write: a block without a stored parent changes nothing, any other is stored, and the head is chosen as above |
| `BlockChains.BlockChain.Run` | core/blockchain.go:940-1078 | after any run of writes of blocks from one tree: exactly the blocks with a stored parent are stored, each moment follows from the one before, and if all are written with state no stored block is heavier than the head, or as heavy and lower |
| `ChainIndexers.ChainIndexer.SetValidSections` | core/chain_indexer.go:452-465 | without interruption, exactly the heads at and above the new count go |
| `ChainIndexers.ChainIndexer.NewHead` | core/chain_indexer.go:238-296 | a reorg notice starts a cut to its section exactly if more is stored, and lowers the known sections; a new head makes known exactly what it confirms |
| `ChainIndexers.ConfirmedMeaning` | core/chain_indexer.go:272-276 | a section is confirmed exactly if as many blocks as required come after its last one |
| `ChainIndexers.CutStepSound` | core/chain_indexer.go:459-464 | a cut that nobody disturbs leaves one chain after every statement, but for the head about to be removed |
| `ChainIndexers.ChainIndexer.StepNotice` | core/chain_indexer.go:459-464 | one statement of a notice's cut, in any interleaving |
| `ChainIndexers.ChainIndexer.Begin` | core/chain_indexer.go:315-332 | a section is started exactly if one is known and not stored, from the head below it |
| `ChainIndexers.ChainIndexer.Refuse` | core/chain_indexer.go:387-390 | a refused section starts to invalidate everything, without the lock |
| `ChainIndexers.ChainIndexer.StepRefusal` | core/chain_indexer.go:387-390 | one statement of a refused section's cut, in any interleaving |
| `ChainIndexers.CutsCollide` | core/chain_indexer.go:387-390 | all interleavings of a notice's and a refused section's cut end in one chain exactly if a single section is stored |
| `ChainIndexers.TwoSectionsCollide` | core/chain_indexer.go:452-465 | with two sections stored, a head may survive above the count, or the count exceed the heads |
| `ChainIndexers.ChainIndexer.ProcessBlock` | core/chain_indexer.go:392-406 | goes on exactly if the block now canonical is there and continues the last one |
| `ChainIndexers.ChainIndexer.End` | core/chain_indexer.go:343-363 | the section is recorded exactly if it succeeded and the head below it is still the same; without overlapping cuts it is then the next one; its head is canonical if the chain kept the blocks read |
| `ChainIndexers.AbandonedHeadRecorded` | core/chain_indexer.go:345-348 | a notice that comes before the end of the section it is for leaves a head of an abandoned branch |
| `ChainIndexers.Completes` | core/chain_indexer.go:345-348 | the unchanged head below means no section was invalidated meanwhile, and the new head is one section above it |
| `ChainIndexers.HeadsOnOneBranch` | core/chain_indexer.go:467-478 | stored section heads lie on one hash chain, sectionSize parent links apart |
| `ChainIndexers.NewestDetermines` | core/chain_indexer.go:467-478 | the newest head determines all below it |
| `ChainIndexers.ChainIndexer.Run` | core/chain_indexer.go:300-376 | after any interleaving of notices, chain moves, processing and the statements of cuts every head ends its section; cuts have overlapped exactly if both were at work at some moment, never in runs without a refusal or without a reorg notice; without overlap the heads are one chain below the count whenever no cut is at work |
| `ChainIndexers.ChainIndexer.Take` | core/chain_indexer.go:238-465 | each step does to the whole state what the step function says, and is skipped where it does not apply |
| `Feeds.Find` | event/feed.go:212-220 | the first index of the channel, or -1 exactly if absent |
| `Feeds.Delete` | event/feed.go:222-225 | in place, exactly the case at the index is gone and the order kept |
| `Feeds.Deactivate` | event/feed.go:227-232 | in place, the case changes places with the last active one |
| `Feeds.Feed.Subscribe` | event/feed.go:73-93 | adds exactly the channel |
| `Feeds.Feed.Remove` | event/feed.go:104-125 | removes exactly the channel, from inbox or cases |
| `Feeds.Served` | event/feed.go:156-165 | serving an active case keeps active and served cases a split of the registered ones |
| `Feeds.Withdrawn` | event/feed.go:169-177 | so does a removal while sending, in either part |
| `Feeds.Feed.Select` | event/feed.go:168-179 | one select serves a waiting channel, or takes out one whose removal was requested |
| `Feeds.AllCounted` | event/feed.go:127-190 | everyone is served or gone |
| `Feeds.Feed.Send` | event/feed.go:127-190 | each channel registered when the lock is taken gets the value exactly once, or its removal was requested and it is removed while waiting; only requested channels are removed; the count is the deliveries; without requests everyone is served and stays; it terminates |
| `TryLocks.InvKept` | common/trylock.go:60-86 | ownership and program position agree after every step of every thread |
| `TryLocks.RunIsSafe` | common/trylock.go:35-86 | in every state of every run, whatever order callers unlock in, a waiting thread has no lock and a finished call has all of its locks |
| `TryLocks.NoCycle` | common/trylock.go:35-86 | the wait-for graph never has a cycle |
| `TryLocks.NoDeadlock` | common/trylock.go:35-86 | whoever is waited for can take a step |
| `TryLocks.UnlocksOwn` | common/trylock.go:70-82 | only own locks are unlocked, none twice |
| `TryLocks.FailedRoundUndoes` | common/trylock.go:70-82 | a failed round unlocks exactly what it took, each lock once |
| `TryLocks.UndoingStepByStep` | common/trylock.go:70-82 | the steps of a failed round are those unlocks, in order |
| `TryLocks.BlocksOnBusy` | common/trylock.go:60-86 | a thread whose attempt on a lock fails undoes its round and then blocks on that lock |
| `MessageBuffers.InvKept` | eth/storagehandler.go:68-101 | every step keeps order, and announces what the handler has not seen |
| `MessageBuffers.RunIsSafe` | eth/dispatcher.go:42-55 | in every interleaving messages are handled once each in order of arrival, and a waiting handler with work has a signal set or about to be |
| `MessageBuffers.HandlerCatchesUp` | eth/peer.go:142-163 | from every reachable state in which it has not been told to quit, the handler gets through everything that has arrived, given the signal the reader may still owe |

## Left out

- In-place update and aliasing of the pool's lists: the pool holds list values; that the classes do what those values say is proved for the lists themselves.
- TxPools.TxPool.Reset: for resets that put transactions back without room for them nothing is claimed about gaps and settledness; which transactions are then discarded and truncated on the way decides. What leaves, and why, is claimed in any case.
- TxPools.TxPool.MakeRoom: that room for exactly one transaction is made is not claimed, because a hash that was removed and added again has two entries in the price heap, and Discard may return it twice.
- PricedLists.PricedList.Removed: the stale counter is not related to the number of stale entries, for the same reason.
- Wrap-around of 64-bit nonces, of block numbers and of the pool's configured limits.
- Signatures and hashing: a transaction says whether its sender can be recovered; sizes and costs are given.
- Journal, metrics, logs, event feed of the pool, and the status loop.
- HeaderChains.HeaderChain.GetAncestor: reads by hash and number as the database does. The caches of headers and difficulties answer by hash alone, so they agree with it only where the number asked for is the header's own.
- Interrupted and failing database writes, the aborted import of InsertHeaderChain, and header verification.
- The heads of headers and fast sync, which insert moves along with the block head on a new branch.
- Number map entries above the head in block import, which insert and reorg do not clear; the claims are up to the head.
- Log and side-chain feeds of a reorganisation, trie garbage collection, receipts storage, and the DPoS context.
- BlockChain.SetHead, Rollback, repair and InsertReceiptChain, which move heads without change events.
- Checkpoints, child indexers, the throttled update signal and the persisted count of the section indexer; reads and writes of its count within one statement are not split.
- StateProcessors.Process: the engine's rewards and Finalize, and forks in the state rules.
- StateProcessors.SetReceiptsData: transaction hashes, contract addresses and log positions, which are plain copies.
- Feeds.Feed.Subscribe: a channel subscribed twice, and type checks with their panics; subscriptions made during a Send, which only reach the inbox.
- TryLocks.Step: a thread that calls Lock again while it has locks.
- MessageBuffers.Step: sharing of the underlying array between the buffer and its snapshots.
- The EVM, state tries, consensus engine, storage contracts, RLP, network and user interface code.
