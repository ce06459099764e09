/** The transaction pool (core/tx_pool.go). Lists are held as values; their operations are the functions that the
    classes TxSortedMap and TxList are proved against. */
module TxPools {
  import opened Wrappers
  import opened Transactions
  import opened TxListSpec
  import opened TxSortedMaps
  import opened TxLists
  import opened PricedLists
  import opened PoolModel
  import opened PoolSteps
  import opened PoolReadiness
  import opened PoolResets
  import opened PoolStays
  import opened PoolMoments

  class TxPool {
    const config: Config
    const all: TxLookup
    const priced: PricedList
    var gasPrice: nat
    var homestead: bool
    var locals: set<Address>
    var chain: ChainState
    /** Virtual nonces set since the last reset; an account without one has its chain nonce. */
    var managed: map<Address, nat>
    var pending: Accounts
    var queue: Accounts
    var beats: map<Address, nat>

    function Virtual(a: Address): nat
      reads this
    {
      VirtualOf(managed, chain, a)
    }

    /** The lists, the lookup and the price heap agree. */
    ghost predicate Valid()
      reads this, all, priced
    {
      && priced.all == all && config.Workable()
      && Consistent(pending, queue, all.txs)
      && priced.Ordered() && priced.Covers(all.txs)
    }

    /** Every account's pending nonces run without a gap from the chain nonce to the virtual nonce. */
    ghost predicate GapFree()
      reads this
    {
      NoGaps(pending, chain, managed)
    }

    /** Every pending transaction is one that its account can pay for and a block can hold, and not behind the chain. */
    ghost predicate Executable()
      reads this
    {
      AllExecutable(pending, chain)
    }

    /** The transaction the account would execute next is not waiting in its queue. */
    ghost predicate Settled(a: Address)
      reads this
    {
      SettledIn(pending, queue, chain, a)
    }

    /** Gap-free, and nobody's next transaction is left queued. */
    ghost predicate InOrder()
      reads this
    {
      GapFree() && forall a :: Settled(a)
    }

    /** The account's virtual nonce is not queued. Without gaps the virtual nonce is the next one to execute; with them
        it may be another. */
    ghost predicate VirtualFree(a: Address)
      reads this
    {
      VirtualFreeIn(queue, chain, managed, a)
    }

    /** What every operation on a given chain state leaves as good as it was. */
    twostate predicate Keeps()
      reads this
    {
      && (old(GapFree()) ==> GapFree())
      && (old(Executable()) ==> Executable())
      && (forall a :: old(VirtualFree(a)) ==> VirtualFree(a))
    }

    /** What Keeps says of virtual nonces is, without gaps, what it takes to stay in order. */
    twostate lemma OrderStays()
      requires Keeps() && chain == old(chain)
      ensures old(InOrder()) ==> InOrder()
    {
      hide NoGaps, VirtualFreeIn, SettledIn;
      forall a | VirtualFreeIn(old(queue), chain, old(managed), a) ensures VirtualFreeIn(queue, chain, managed, a) {
        assert old(VirtualFree(a)) ==> VirtualFree(a);
      }
      OrderKept(old(pending), old(queue), old(managed), pending, queue, managed, chain);
      if old(InOrder()) {
        forall a ensures SettledIn(old(pending), old(queue), chain, a) { assert old(Settled(a)); }
        forall a ensures Settled(a) { assert SettledIn(pending, queue, chain, a); }
      }
    }

    constructor (config: Config, chain: ChainState, locals: set<Address>, homestead: bool)
      ensures Valid() && InOrder() && Executable() && (forall a :: VirtualFree(a)) && fresh(all) && fresh(priced)
      ensures all.txs == {} && this.chain == chain && this.locals == locals && this.config == config.Sanitize()
      ensures pending == queue == map[] && gasPrice == this.config.priceLimit
    {
      this.config := config.Sanitize();
      var lookup := new TxLookup();
      all := lookup;
      priced := new PricedList(lookup);
      gasPrice := config.Sanitize().priceLimit;
      this.homestead, this.locals, this.chain := homestead, locals, chain;
      managed, pending, queue, beats := map[], map[], map[], map[];
    }

    /** Drops transactions, already taken out of their list, from the lookup and tells the price heap. */
    method Forget(txs: set<Tx>)
      requires priced.all == all && priced.Ordered()
      modifies all, priced
      ensures all.txs == old(all.txs) - txs && priced.Ordered()
      ensures old(priced.Covers(all.txs)) ==> priced.Covers(all.txs)
    {
      hide PriceHeap;
      var rest := txs;
      while rest != {}
        invariant rest <= txs && all.txs == old(all.txs) - (txs - rest) && priced.Ordered()
        invariant old(priced.Covers(all.txs)) ==> priced.Covers(all.txs)
        decreases rest
      {
        var tx :| tx in rest;
        all.txs := all.txs - {tx};
        priced.Removed();
        rest := rest - {tx};
      }
    }

    /** enqueueTx: files a transaction in the queue unless a same-nonce transaction there is not cheaper enough. */
    method Enqueue(tx: Tx) returns (replaced: bool, ok: bool)
      requires priced.all == all && priced.Ordered()
      modifies this`queue, all, priced
      ensures priced.Ordered() && ok == old(ListOf(queue, tx.from, false)).Accepts(tx, config.priceBump)
      ensures !ok ==> queue == old(queue) && all.txs == old(all.txs) && priced.items == old(priced.items) && !replaced
      ensures ok ==> queue == old(queue)[tx.from := old(ListOf(queue, tx.from, false)).Added(tx)]
      ensures ok ==> replaced == (tx.nonce in ItemsOf(old(queue), tx.from))
      ensures ok ==>
                all.txs == old(all.txs) - (if replaced then {ItemsOf(old(queue), tx.from)[tx.nonce]} else {}) + {tx}
      ensures ok && !replaced && tx in old(all.txs) ==> priced.items == old(priced.items)
      ensures old(priced.Covers(all.txs)) ==> priced.Covers(all.txs)
    {
      hide PriceHeap, ListValue.Added;
      var l := ListOf(queue, tx.from, false);
      replaced, ok := false, l.Accepts(tx, config.priceBump);
      if !ok {
        return;
      }
      queue := queue[tx.from := l.Added(tx)];
      if tx.nonce in l.items {
        all.txs := all.txs - {l.items[tx.nonce]};
        priced.Removed();
        replaced := true;
      }
      if tx !in all.txs {
        all.txs := all.txs + {tx};
        priced.Put(tx);
      }
    }

    /** Postpones transactions of one account that are still in the lookup. None of them can meet a queued nonce, so
        ignoring the result of Enqueue loses nothing. */
    method EnqueueAll(a: Address, txs: Items)
      requires priced.all == all && priced.Ordered()
      requires a in queue ==> ListOk(a, queue[a], false) && queue[a].items != map[]
      requires forall n :: n in txs ==> txs[n].nonce == n && txs[n].from == a && txs[n].signed && txs[n] in all.txs
      requires forall n :: n in txs ==> n !in ItemsOf(queue, a)
      modifies this`queue, all, priced
      ensures priced.Ordered() && all.txs == old(all.txs) && priced.items == old(priced.items)
      ensures SameBut(old(queue), queue, a)
      ensures a in queue ==> ListOk(a, queue[a], false) && queue[a].items != map[]
      ensures ItemsOf(queue, a) == ItemsOf(old(queue), a) + txs
    {
      hide PriceHeap, ListValue.Added, ListOk, ListValue.Accepts, SameBut, ItemsOf;
      var rest := txs.Keys;
      NothingAdded(queue, a, map[], 0);
      assert ItemsOf(queue, a) + map[] == ItemsOf(queue, a) && txs - rest == map[];
      while rest != {}
        invariant rest <= txs.Keys && priced.Ordered() && all.txs == old(all.txs) && priced.items == old(priced.items)
        invariant SameBut(old(queue), queue, a)
        invariant a in queue ==> ListOk(a, queue[a], false) && queue[a].items != map[]
        invariant ItemsOf(queue, a) == ItemsOf(old(queue), a) + (txs - rest)
        decreases rest
      {
        var n :| n in rest;
        PostponedOne(old(queue), queue, a, txs, rest, n, config.priceBump);
        var replaced, ok := Enqueue(txs[n]);
        rest := rest - {n};
      }
      assert txs - {} == txs;
    }

    /** The pending half of removeTx, entered once the transaction has left the lookup: it and everything above it leave
        the pending list, the latter for the queue, and the virtual nonce drops to it. */
    method RemovePendingTx(tx: Tx, ghost txs: set<Tx>)
      requires priced.all == all && priced.Ordered()
      requires Consistent(pending, queue, txs) && Stored(pending, tx) && all.txs == txs - {tx}
      modifies this`pending, this`queue, this`managed, this`beats, all, priced
      ensures priced.Ordered() && Consistent(pending, queue, all.txs)
      ensures all.txs == old(all.txs) && priced.items == old(priced.items)
      ensures Cut(old(pending), old(queue), pending, queue, tx)
      ensures managed == if old(Virtual(tx.from)) > tx.nonce then old(managed)[tx.from := tx.nonce] else old(managed)
      ensures beats == if tx.from in pending then old(beats) else old(beats) - {tx.from}
      ensures Keeps()
    {
      hide PriceHeap, ListOk, Consistent, NoGaps, From, Below, SameBut, Store, AllExecutable, VirtualFreeIn;
      var a := tx.from;
      var items := pending[a].items;
      assert ItemsOf(pending, a) == items && tx.nonce in items;
      hide ItemsOf, Stored;
      var above := From(items, tx.nonce + 1);
      InvalidsPooled(pending, queue, txs, tx, above);
      if old(GapFree()) {
        GaplessCut(pending, chain, managed, a, tx.nonce);
      }
      pending := Store(pending, a, pending[a].(items := Below(items, tx.nonce)));
      if a !in pending {
        beats := beats - {a};
      }
      EnqueueAll(a, above);
      RemovedPending(old(pending), old(queue), txs, tx, queue);
      if Virtual(a) > tx.nonce {
        managed := managed[a := tx.nonce];
      }
      RemovalKeeps(old(pending), old(queue), txs, chain, old(managed), tx, pending, queue, managed);
    }

    /** removeTx: deletes by nonce, which is right because no nonce is both pending and queued. */
    method RemoveTx(tx: Tx, outOfBound: bool)
      requires priced.all == all && priced.Ordered() && Consistent(pending, queue, all.txs)
      modifies this`pending, this`queue, this`managed, this`beats, all, priced
      ensures priced.Ordered() && Consistent(pending, queue, all.txs)
      ensures all.txs == old(all.txs) - {tx}
      ensures old(priced.Covers(all.txs)) ==> priced.Covers(all.txs)
      ensures !outOfBound ==> priced.items == old(priced.items)
      ensures tx !in old(all.txs) ==> pending == old(pending) && queue == old(queue) && managed == old(managed)
      ensures tx in old(all.txs) && Stored(old(pending), tx) ==>
                && Cut(old(pending), old(queue), pending, queue, tx)
                && managed == if old(Virtual(tx.from)) > tx.nonce
                              then old(managed)[tx.from := tx.nonce] else old(managed)
      ensures tx in old(all.txs) && Stored(old(queue), tx) ==>
                && pending == old(pending) && managed == old(managed) && beats == old(beats)
                && queue == Store(old(queue), tx.from,
                     old(queue)[tx.from].(items := old(queue)[tx.from].items - {tx.nonce}))
      ensures Keeps()
    {
      hide PriceHeap, ListOk, Consistent, NoGaps, Cut, AllExecutable, VirtualFreeIn;
      if tx !in all.txs {
        assert all.txs - {tx} == all.txs;
        return;
      }
      ghost var txs := all.txs;
      StoredOnce(pending, queue, all.txs, tx);
      all.txs := all.txs - {tx};
      if outOfBound {
        priced.Removed();
      }
      if tx.from in pending && tx.nonce in pending[tx.from].items {
        RemovePendingTx(tx, txs);
        return;
      }
      if tx.from in queue {
        RemovedQueued(pending, queue, txs, tx);
        queue := Store(queue, tx.from, queue[tx.from].(items := queue[tx.from].items - {tx.nonce}));
        FewerQueued(old(queue), queue, chain, managed, tx.from);
      }
    }

    /** promoteTx: files a transaction as pending and moves the virtual nonce past it. */
    method PromoteTx(a: Address, tx: Tx, now: nat) returns (ok: bool)
      requires priced.all == all && priced.Ordered()
      modifies this`pending, this`managed, this`beats, all, priced
      ensures priced.Ordered() && ok == old(ListOf(pending, a, true)).Accepts(tx, config.priceBump)
      ensures ok ==> pending == old(pending)[a := old(ListOf(pending, a, true)).Added(tx)]
      ensures ok ==> managed == old(managed)[a := tx.nonce + 1] && beats == old(beats)[a := now]
      ensures ok ==>
                var was := ItemsOf(old(pending), a);
                all.txs == old(all.txs) - (if tx.nonce in was then {was[tx.nonce]} else {}) + {tx}
      ensures !ok ==>
                && pending == old(pending) && managed == old(managed) && beats == old(beats)
                && all.txs == old(all.txs) - {tx}
      ensures ok && tx in old(all.txs) && tx.nonce !in ItemsOf(old(pending), a) ==> priced.items == old(priced.items)
      ensures old(priced.Covers(all.txs)) ==> priced.Covers(all.txs)
    {
      hide PriceHeap, ListValue.Added;
      var l := ListOf(pending, a, true);
      ok := l.Accepts(tx, config.priceBump);
      if !ok {
        all.txs := all.txs - {tx};
        priced.Removed();
        return;
      }
      pending := pending[a := l.Added(tx)];
      if tx.nonce in l.items {
        all.txs := all.txs - {l.items[tx.nonce]};
        priced.Removed();
      }
      if tx !in all.txs {
        all.txs := all.txs + {tx};
        priced.Put(tx);
      }
      beats := beats[a := now];
      managed := managed[a := tx.nonce + 1];
    }

    /** Promotes a consecutive run of one account, lowest nonce first. */
    method PromoteRun(a: Address, ready: Items, low: nat, end: nat, now: nat)
      requires priced.all == all && priced.Ordered()
      requires low <= end && forall n :: n in ready <==> low <= n < end
      requires forall n :: n in ready ==>
                 && ready[n].nonce == n && ready[n].from == a && ready[n].signed && ready[n] in all.txs
                 && n !in ItemsOf(pending, a)
      requires a in pending ==> ListOk(a, pending[a], true) && pending[a].items != map[]
      modifies this`pending, this`managed, this`beats, all, priced
      ensures priced.Ordered() && all.txs == old(all.txs) && priced.items == old(priced.items)
      ensures SameBut(old(pending), pending, a) && ItemsOf(pending, a) == ItemsOf(old(pending), a) + ready
      ensures a in pending ==> ListOk(a, pending[a], true) && pending[a].items != map[]
      ensures managed == if low < end then old(managed)[a := end] else old(managed)
      ensures beats == if low < end then old(beats)[a := now] else old(beats)
    {
      hide PriceHeap, ListValue.Added, ListOk, ListValue.Accepts, SameBut, ItemsOf, Below;
      RunEnds(ready, low, end);
      NothingAdded(pending, a, ready, low);
      for next := low to end
        invariant priced.Ordered() && all.txs == old(all.txs) && priced.items == old(priced.items)
        invariant SameBut(old(pending), pending, a)
        invariant ItemsOf(pending, a) == ItemsOf(old(pending), a) + Below(ready, next)
        invariant a in pending ==> ListOk(a, pending[a], true) && pending[a].items != map[]
        invariant managed == if low < next then old(managed)[a := next] else old(managed)
        invariant beats == if low < next then old(beats)[a := now] else old(beats)
      {
        AddedNext(old(pending), pending, a, ready, next, config.priceBump);
        var ok := PromoteTx(a, ready[next], now);
      }
    }

    /** The first part of one account's turn in promoteExecutables: of its queue l0, what is too old (l0 without l1) or
        unpayable (l1 without l2) is dropped, and the run that continues the virtual nonce (l2 without l3) is
        promoted. */
    method PromoteReady(a: Address, now: nat) returns (l1: ListValue, l2: ListValue, l3: ListValue)
      requires Valid() && a in queue
      modifies this`pending, this`managed, this`beats, all, priced
      ensures priced.Ordered() && priced.Covers(all.txs)
      ensures Stages(a, queue[a], chain.Nonce(a), old(Virtual(a)), l1, l2, l3)
      ensures all.txs == old(all.txs) - Txs(queue[a].items - l1.items.Keys) - Txs(l1.items - l2.items.Keys)
      ensures SameBut(old(pending), pending, a)
      ensures ItemsOf(pending, a) == ItemsOf(old(pending), a) + (l2.items - l3.items.Keys)
      ensures a in pending ==> ListOk(a, pending[a], true) && pending[a].items != map[]
      ensures old(GapFree()) ==> GapFree()
      ensures old(Executable()) ==> Executable()
      ensures Virtual(a) !in l3.items && SameVirtual(old(managed), managed, chain, a)
      ensures LosesHopeless(old(all.txs), all.txs, queue[a].items, chain, a)
      ensures l2.items == PayableItems(queue, chain, a)
      ensures SweptAt(old(pending), queue, old(managed), pending, map[a := l3], managed, chain, a, true)
    {
      hide PriceHeap, ListOk, Consistent, NoGaps, ListValue.Filtered, Txs, From, ReadyEnd, RunStart, Stages;
      hide AllExecutable;
      hide Bearable, Hopeless, ListValue.Unaffordable, SweptAt;
      var virtual := Virtual(a);
      QueuePooled(pending, queue, all.txs, a);
      StagesHold(a, queue[a], chain.Nonce(a), chain.Balance(a), chain.maxGas, virtual);
      var l0 := queue[a];
      assert l0.items == ItemsOf(queue, a);
      l1 := l0.(items := From(l0.items, chain.Nonce(a)));
      Forget(Txs(l0.items - l1.items.Keys));
      l2 := l1.Filtered(chain.Balance(a), chain.maxGas);
      Forget(Txs(l1.items - l2.items.Keys));
      var end := ReadyEnd(l2.items, virtual);
      l3 := l2.(items := From(l2.items, end));
      ReadyTakesVirtual(l2.items, virtual);
      QueueDrops(old(pending), queue, old(all.txs), chain, a);
      ReadyPooled(a, l0, chain.Nonce(a), virtual, l1, l2, l3, old(pending), all.txs, old(all.txs));
      PromoteRun(a, l2.items - l3.items.Keys, RunStart(l2.items, end), end, now);
      SweptRun(old(pending), queue, old(managed), pending, l3, managed, chain, a);
      if old(GapFree()) {
        GaplessRun(old(pending), queue, chain, old(managed), a, l1, l2, l3, pending, managed);
      }
      if old(Executable()) {
        RunExecutable(old(pending), pending, chain, a, l2.items, l3.items.Keys);
      }
    }

    /** One account's turn in promoteExecutables: after the promotions, what a remote account leaves queued is
        capped. */
    method PromoteAccount(a: Address, now: nat)
      requires Valid()
      modifies this`pending, this`queue, this`managed, this`beats, all, priced
      ensures Valid() && Keeps()
      ensures SameBut(old(pending), pending, a) && SameBut(old(queue), queue, a)
      ensures SubMap(ItemsOf(old(pending), a), ItemsOf(pending, a))
      ensures a !in locals ==> |ItemsOf(queue, a)| <= config.accountQueue
      ensures VirtualFree(a)
      ensures TurnDrops(old(queue), old(all.txs), queue, all.txs, chain, a, a !in locals, config.accountQueue)
      ensures SweptAt(old(pending), old(queue), old(managed), pending, queue, managed, chain, a, true)
      ensures QueueSwept(old(queue), old(managed), queue, chain, a, true, a in locals, config.accountQueue)
      ensures SameVirtual(old(managed), managed, chain, a)
      ensures a !in old(queue) ==>
                pending == old(pending) && queue == old(queue) && managed == old(managed) && all.txs == old(all.txs)
    {
      hide PriceHeap, Consistent, NoGaps, AllExecutable, VirtualFreeIn, TurnDrops, SweptAt, QueueSwept;
      if a in queue {
        PromoteQueued(a, now);
      } else {
        NoTurn(queue, all.txs, chain, managed, a, a !in locals, config.accountQueue);
        NothingSwept(pending, queue, managed, chain, a);
        NothingQueueSwept(queue, managed, chain, a, a in locals, config.accountQueue);
      }
    }

    method PromoteQueued(a: Address, now: nat)
      requires Valid() && a in queue
      modifies this`pending, this`queue, this`managed, this`beats, all, priced
      ensures Valid() && Keeps()
      ensures SameBut(old(pending), pending, a) && SameBut(old(queue), queue, a)
      ensures SubMap(ItemsOf(old(pending), a), ItemsOf(pending, a))
      ensures a !in locals ==> |ItemsOf(queue, a)| <= config.accountQueue
      ensures VirtualFree(a)
      ensures TurnDrops(old(queue), old(all.txs), queue, all.txs, chain, a, a !in locals, config.accountQueue)
      ensures SweptAt(old(pending), old(queue), old(managed), pending, queue, managed, chain, a, true)
      ensures QueueSwept(old(queue), old(managed), queue, chain, a, true, a in locals, config.accountQueue)
      ensures SameVirtual(old(managed), managed, chain, a)
    {
      hide PriceHeap, ListOk, Consistent, NoGaps, Txs, Lowest, Stages, AllExecutable, VirtualFreeIn, Hopeless;
      hide TurnDrops;
      hide SameVirtual, LosesHopeless, SameBut, SubMap, Store, SweptAt, PayableItems, QueueSwept, From, ReadyEnd;
      var l1, l2, l3 := PromoteReady(a, now);
      StagesShrink(a, queue[a], chain.Nonce(a), old(Virtual(a)), l1, l2, l3);
      ghost var mid := all.txs;
      var l4 := CapQueue(a, l3);
      TurnDropped(old(pending), queue, old(all.txs), chain, a, mid, l3, l4, a !in locals, config.accountQueue);
      PromotionAdds(old(pending), queue, old(all.txs), a, l1.items, l2.items, l3.items);
      Promoted(old(pending), queue, old(all.txs), a, pending, l1.items, l2.items, l3.items, l4);
      queue := Store(queue, a, l4);
      assert Virtual(a) !in l4.items by { NotAmongFewer(l3.items, l4.items, Virtual(a)); }
      VirtualFreeUpdate(old(queue), queue, chain, old(managed), managed, a);
      SweptCapped(old(pending), old(queue), old(managed), pending, l3, l4, queue, managed, chain, a);
      QueueCapped(old(queue), old(managed), queue, chain, a, l1, l2, l3, l4, a in locals, config.accountQueue);
    }

    /** Caps what a remote account leaves queued. */
    method CapQueue(a: Address, l3: ListValue) returns (l4: ListValue)
      requires priced.all == all && priced.Ordered() && ListOk(a, l3, false)
      modifies all, priced
      ensures l4 == if a !in locals then l3.(items := Lowest(l3.items, config.accountQueue)) else l3
      ensures ListOk(a, l4, false) && SubMap(l4.items, l3.items) && (a !in locals ==> |l4.items| <= config.accountQueue)
      ensures all.txs == old(all.txs) - Txs(l3.items - l4.items.Keys) && priced.Ordered()
      ensures old(priced.Covers(all.txs)) ==> priced.Covers(all.txs)
    {
      hide PriceHeap, ListOk, Txs, Lowest;
      l4 := l3;
      if a !in locals {
        l4 := l3.(items := Lowest(l3.items, config.accountQueue));
        Forget(Txs(l3.items - l4.items.Keys));
      }
      CappedHolds(a, l3, l4, config.accountQueue);
    }

    // ---------- fairness: truncating pending ----------

    /** Caps one pending list by one: its highest nonce leaves the pool and the virtual nonce drops to it. */
    method DropLast(a: Address)
      requires Valid() && a in pending && |pending[a].items| >= 2
      modifies this`pending, this`managed, all, priced
      ensures Valid() && Keeps() && all.txs <= old(all.txs)
      ensures pending == old(pending)[a := Shorter(old(pending)[a], 1)]
      ensures Total(pending) == Total(old(pending)) - 1
    {
      hide PriceHeap, ListOk, Consistent, NoGaps, Total, Lowest, AllExecutable, VirtualFreeIn;
      var l := pending[a];
      var top := Maximum(l.items.Keys);
      TopDropped(pending, queue, all.txs, a);
      TopKeeps(pending, queue, all.txs, chain, managed, a);
      pending := pending[a := Shorter(l, 1)];
      all.txs := all.txs - {l.items[top]};
      priced.Removed();
      if old(GapFree()) {
        GaplessTop(old(pending), chain, managed, a);
      }
      if Virtual(a) > top {
        managed := managed[a := top];
      }
    }

    /** One round over a group of equally long lists: each loses its highest nonce. */
    method DropRound(group: seq<Address>, length: nat, count: nat) returns (left: nat)
      requires Valid() && Distinct(group) && count == Total(pending) && length >= 2
      requires forall i :: 0 <= i < |group| ==> group[i] in pending && |pending[group[i]].items| == length
      modifies this`pending, this`managed, all, priced
      ensures Valid() && Keeps() && all.txs <= old(all.txs)
      ensures pending.Keys == old(pending).Keys && left == Total(pending) == count - |group|
      ensures forall a :: a in pending ==>
                pending[a] == if a in group then Shorter(old(pending)[a], 1) else old(pending)[a]
      ensures forall i :: 0 <= i < |group| ==> group[i] in pending && |pending[group[i]].items| == length - 1
    {
      hide PriceHeap, Consistent, NoGaps, Total, AllExecutable, VirtualFreeIn;
      left := count;
      for i := 0 to |group|
        invariant Valid() && Keeps() && all.txs <= old(all.txs)
        invariant pending.Keys == old(pending).Keys && left == Total(pending) == count - i
        invariant forall a :: a in pending ==>
                    pending[a] == if a in group[..i] then Shorter(old(pending)[a], 1) else old(pending)[a]
      {
        var a := group[i];
        assert a !in group[..i];
        assert group[..i + 1] == group[..i] + [a];
        DropLast(a);
        left := left - 1;
      }
      assert group[..|group|] == group;
      forall i | 0 <= i < |group| ensures |pending[group[i]].items| == length - 1 {
        LowestMeaning(old(pending)[group[i]].items, length - 1);
      }
    }

    /** Rounds over a group of equally long lists, until pending fits or the lists are down to the floor. */
    method LowerTo(group: seq<Address>, floor: nat, count: nat) returns (left: nat)
      requires Valid() && Distinct(group) && group != [] && Level(pending, group) && count == Total(pending)
      requires |pending[group[|group| - 1]].items| >= floor >= 1
      modifies this`pending, this`managed, all, priced
      ensures Valid() && Keeps() && all.txs <= old(all.txs)
      ensures Lowered(old(pending), pending, group, floor) && left == Total(pending)
      ensures left <= config.globalSlots || |pending[group[|group| - 1]].items| == floor
      ensures if count <= config.globalSlots then pending == old(pending) else left + |group| > config.globalSlots
    {
      hide PriceHeap, Consistent, NoGaps, Total, TrimmedList, Shorter, Lowered, AllExecutable, VirtualFreeIn;
      left := count;
      NothingLowered(pending, group, floor);
      while left > config.globalSlots && |pending[group[|group| - 1]].items| > floor
        invariant Valid() && Keeps() && all.txs <= old(all.txs)
        invariant Level(pending, group) && Lowered(old(pending), pending, group, floor) && left == Total(pending)
        invariant |pending[group[|group| - 1]].items| >= floor
        invariant if count <= config.globalSlots then pending == old(pending) else left + |group| > config.globalSlots
        decreases left
      {
        ghost var before := pending;
        left := DropRound(group, |pending[group[|group| - 1]].items|, left);
        LoweredMore(old(pending), before, pending, group, floor);
      }
    }

    /** The equalizing phase: the longest remaining remote list joins the offenders, and the earlier offenders, which
        are all equally long, are cut down to its length, until pending fits or no list above the allowance is left. */
    method Equalize(start: nat) returns (offenders: seq<Address>, count: nat)
      requires Valid() && start == Total(pending) > config.globalSlots
      modifies this`pending, this`managed, all, priced
      ensures Valid() && Keeps() && all.txs <= old(all.txs)
      ensures count == Total(pending) && count + |offenders| > config.globalSlots
      ensures Offending(old(pending), pending, offenders, locals, config.accountSlots)
      ensures count > config.globalSlots ==>
                Level(pending, offenders) && Waiting(pending, offenders, {}, locals, config.accountSlots)
    {
      hide PriceHeap, Consistent, NoGaps, Total, Trimmed, Offending, Waiting, Lowered, AllExecutable, VirtualFreeIn;
      ghost var p0 := pending;
      var spammers := set a | a in pending && a !in locals && |pending[a].items| > config.accountSlots;
      offenders, count := [], start;
      NoOffenders(p0, spammers, locals, config.accountSlots);
      while count > config.globalSlots && spammers != {}
        invariant Valid() && Keeps() && all.txs <= old(all.txs)
        invariant count == Total(pending) && count + |offenders| > config.globalSlots
        invariant Offending(p0, pending, offenders, locals, config.accountSlots)
        invariant Waiting(pending, offenders, spammers, locals, config.accountSlots)
        invariant count > config.globalSlots ==> Level(pending, offenders) && LongerThan(pending, offenders, spammers)
        decreases spammers
      {
        offenders, spammers, count := NextOffender(offenders, spammers, count, p0);
      }
    }

    /** One turn of the equalizing phase. */
    method NextOffender(offenders0: seq<Address>, spammers0: set<Address>, count0: nat, ghost p0: Accounts)
      returns (offenders: seq<Address>, spammers: set<Address>, count: nat)
      requires Valid() && spammers0 != {} && count0 == Total(pending) > config.globalSlots
      requires Offending(p0, pending, offenders0, locals, config.accountSlots)
      requires Waiting(pending, offenders0, spammers0, locals, config.accountSlots)
      requires Level(pending, offenders0) && LongerThan(pending, offenders0, spammers0)
      modifies this`pending, this`managed, all, priced
      ensures Valid() && Keeps() && all.txs <= old(all.txs) && spammers < spammers0
      ensures count == Total(pending) && count + |offenders| > config.globalSlots
      ensures Offending(p0, pending, offenders, locals, config.accountSlots)
      ensures Waiting(pending, offenders, spammers, locals, config.accountSlots)
      ensures count > config.globalSlots ==> Level(pending, offenders) && LongerThan(pending, offenders, spammers)
    {
      hide PriceHeap, Consistent, NoGaps, Total, Trimmed, Offending, Waiting, Lowered, AllExecutable, VirtualFreeIn;
      SpammersPending(pending, offenders0, spammers0, locals, config.accountSlots);
      var o := Longest(pending, spammers0);
      Joins(p0, pending, offenders0, spammers0, locals, config.accountSlots, o);
      offenders, spammers, count := offenders0 + [o], spammers0 - {o}, count0;
      if |offenders| > 1 {
        var group := offenders[..|offenders| - 1];
        var threshold := |pending[o].items|;
        count := LowerTo(group, threshold, count);
        LoweredKeeps(p0, old(pending), pending, offenders, spammers, locals, config.accountSlots);
      }
    }

    /** The equalizing phase followed by the reduction of all offenders, still equally long, down to the allowance. The
        ghost result is the pending map between the two. */
    method TruncatePending() returns (offenders: seq<Address>, ghost equalized: Accounts)
      requires Valid()
      modifies this`pending, this`managed, all, priced
      ensures Valid() && Keeps() && all.txs <= old(all.txs)
      ensures Trimmed(old(pending), pending, locals, config.accountSlots)
      ensures forall a :: a in pending && a in old(pending) && a !in offenders ==> pending[a] == old(pending)[a]
      ensures forall i :: 0 <= i < |offenders| ==>
                && offenders[i] in old(pending) && offenders[i] !in locals
                && |old(pending)[offenders[i]].items| > config.accountSlots
      ensures Total(pending) <= config.globalSlots
              || forall a :: a in pending ==> a in locals || |pending[a].items| <= config.accountSlots
      ensures if Total(old(pending)) <= config.globalSlots
              then pending == old(pending) && managed == old(managed) && all.txs == old(all.txs)
              else && Total(pending) + |offenders| > config.globalSlots
                   && |offenders| <= |Spammers(old(pending), locals, config.accountSlots)|
      ensures Total(equalized) > config.globalSlots ==> Level(equalized, offenders) && Level(pending, offenders)
    {
      hide PriceHeap, Consistent, NoGaps, Total, Trimmed, Lowered, Level, Waiting, Offending, AllExecutable, Spammers;
      hide VirtualFreeIn;
      offenders, equalized := [], pending;
      UntouchedPending(pending, locals, config.accountSlots);
      var count := CountAll(pending);
      if count > config.globalSlots {
        offenders, count := Equalize(count);
        equalized := pending;
        OffendersStart(old(pending), pending, offenders, locals, config.accountSlots);
        OffendersFew(old(pending), pending, offenders, locals, config.accountSlots);
        if count > config.globalSlots && |offenders| > 0 {
          LastPending(old(pending), pending, offenders, locals, config.accountSlots);
          count := LowerTo(offenders, config.accountSlots, count);
          Levelled(old(pending), equalized, pending, offenders, locals, config.accountSlots);
        } else if count > config.globalSlots {
          NobodyAbove(pending, locals, config.accountSlots);
        }
      }
    }

    // ---------- truncating the queue ----------

    /** Removes queued transactions of one account, one by one. */
    method RemoveQueuedTxs(a: Address, txs: seq<Tx>)
      requires Valid() && a in queue && forall i :: 0 <= i < |txs| ==> Stored(queue, txs[i]) && txs[i].from == a
      requires forall i, j :: 0 <= i < j < |txs| ==> txs[i].nonce != txs[j].nonce
      modifies this`pending, this`queue, this`managed, this`beats, all, priced
      ensures Valid() && Keeps() && pending == old(pending) && managed == old(managed) && beats == old(beats)
      ensures queue == Store(old(queue), a, old(queue)[a].(items := old(queue)[a].items - NoncesOf(txs)))
      ensures all.txs <= old(all.txs)
    {
      hide PriceHeap, Consistent, NoGaps, Cut, Store, NoncesOf, AllExecutable, VirtualFreeIn;
      NothingRemoved(pending, queue, all.txs, a);
      for i := 0 to |txs|
        invariant Valid() && Keeps() && pending == old(pending) && managed == old(managed) && beats == old(beats)
        invariant queue == Store(old(queue), a, old(queue)[a].(items := old(queue)[a].items - NoncesOf(txs[..i])))
        invariant all.txs <= old(all.txs)
      {
        OneMoreRemoved(pending, old(queue), queue, all.txs, a, txs, i);
        RemoveTx(txs[i], true);
      }
      assert txs[..|txs|] == txs;
    }

    function Beat(a: Address): int
      reads this
    {
      BeatOf(beats, a)
    }

    /** The account with the latest heartbeat: the end of the list that the source sorts by heartbeat. */
    method Latest(accounts: set<Address>) returns (a: Address)
      requires accounts != {}
      ensures a in accounts && forall b :: b in accounts ==> Beat(b) <= Beat(a)
    {
      a :| a in accounts;
      var rest := accounts - {a};
      while rest != {}
        invariant a in accounts && rest <= accounts
        invariant forall b :: b in accounts && b !in rest ==> Beat(b) <= Beat(a)
        decreases rest
      {
        var b :| b in rest;
        if Beat(b) > Beat(a) {
          a := b;
        }
        rest := rest - {b};
      }
    }

    /** Drops whole remote queues, the most recently active first, and of the last one only its highest nonces, until
        exactly the limit is left or only local accounts are. */
    method TruncateQueue()
      requires Valid()
      modifies this`pending, this`queue, this`managed, this`beats, all, priced
      ensures Valid() && Keeps() && pending == old(pending) && managed == old(managed) && beats == old(beats)
      ensures all.txs <= old(all.txs)
      ensures Total(old(queue)) <= config.globalQueue ==> queue == old(queue)
      ensures Total(old(queue)) > config.globalQueue ==>
                Total(queue) == config.globalQueue || (Total(queue) > config.globalQueue && queue.Keys <= locals)
      ensures QueueShortened(old(queue), queue, locals)
      ensures LatestFirst(old(queue), queue, locals, beats)
    {
      hide PriceHeap, Consistent, NoGaps, Total, QueueShortened, QueueTurn, AllExecutable, VirtualFreeIn;
      var queued := CountAll(queue);
      ghost var q0, beat := queue, beats;
      QueueTurnStarts(queue, locals, beats);
      if queued <= config.globalQueue {
        return;
      }
      var accounts := set a | a in queue && a !in locals;
      var drop := queued - config.globalQueue;
      while drop > 0 && accounts != {}
        invariant Valid() && Keeps() && pending == old(pending) && managed == old(managed) && beats == beat
        invariant all.txs <= old(all.txs) && drop >= 0 && Total(queue) == config.globalQueue + drop
        invariant QueueTurn(q0, queue, accounts, locals, beat, drop > 0)
        decreases |accounts|
      {
        var a := Latest(accounts);
        drop := DropQueued(a, drop, q0, accounts);
        accounts := accounts - {a};
      }
      QueueTurnEnds(q0, queue, accounts, locals, beat, drop > 0);
    }

    /** One account's turn: its whole queue goes if that is not more than there is to drop, or else its highest
        nonces. */
    method DropQueued(a: Address, drop: nat, ghost q0: Accounts, ghost accounts: set<Address>) returns (left: nat)
      requires Valid() && drop > 0 && QueueTurn(q0, queue, accounts, locals, beats, true)
      requires a in accounts && forall b :: b in accounts ==> Beat(b) <= Beat(a)
      modifies this`pending, this`queue, this`managed, this`beats, all, priced
      ensures Valid() && Keeps() && pending == old(pending) && managed == old(managed) && beats == old(beats)
      ensures all.txs <= old(all.txs) && left < drop && Total(queue) == Total(old(queue)) - (drop - left)
      ensures QueueTurn(q0, queue, accounts - {a}, locals, beats, left > 0)
    {
      hide PriceHeap, Consistent, NoGaps, Store, NoncesOf, Total, Keyed, Lists, LastFirst, QueueTurn, AllExecutable;
      hide VirtualFreeIn;
      QueueTurnFacts(q0, queue, accounts, locals, beats, true, a);
      QueueKeyed(pending, queue, all.txs, a);
      QueuePooled(pending, queue, all.txs, a);
      var size := |queue[a].items|;
      var txs := Flattened(queue[a].items);
      ListingStored(queue, a, txs);
      if size <= drop {
        assert txs[|txs| - size..] == txs;
        QueueTurnTaken(q0, queue, accounts, locals, beats, a, txs, size, txs, drop > size);
        RemoveQueuedTxs(a, txs);
        left := drop - size;
      } else {
        LastFirstStored(queue, a, txs, drop);
        QueueTurnTaken(q0, queue, accounts, locals, beats, a, txs, drop, LastFirst(txs, drop), false);
        RemoveQueuedTxs(a, LastFirst(txs, drop));
        left := 0;
      }
    }

    // ---------- the operations ----------

    function Books(): Book
      reads this, all
    {
      Book(Content(pending, queue, all.txs), managed)
    }

    /** promoteExecutables: promotes the given accounts, then truncates pending and queue to the global limits. The
        ghost result is the pool between the two. */
    method PromoteExecutables(accounts: set<Address>, now: nat) returns (ghost swept: Book)
      requires Valid()
      modifies this`pending, this`queue, this`managed, this`beats, all, priced
      ensures Valid() && Keeps() && all.txs <= old(all.txs)
      ensures Total(pending) <= config.globalSlots
              || forall a :: a in pending ==> a in locals || |pending[a].items| <= config.accountSlots
      ensures Total(queue) <= config.globalQueue || queue.Keys <= locals
      ensures forall a :: a in accounts ==>
                VirtualFree(a) && (a in locals || |ItemsOf(queue, a)| <= config.accountQueue)
      ensures Promotes(old(Books()), swept, Books(), chain, accounts, locals, config)
      ensures LatestFirst(swept.content.queue, queue, locals, beats)
      ensures |old(all.txs)| <= config.globalSlots ==>
                forall a ::
                  SweptAt(old(pending), old(queue), old(managed), pending, queue, managed, chain, a, a in accounts)
    {
      hide PriceHeap, Consistent, NoGaps, Total, Trimmed, Level, QueueShortened, LatestFirst;
      hide AllExecutable, VirtualFreeIn, SweptAt, NotYetSwept, Swept, QueueSwept;
      swept := SweepAll(accounts, now);
      NoTruncation(pending, queue, all.txs, old(all.txs));
      var offenders, equalized := TruncatePending();
      TruncateQueue();
      ShortenedCapped(swept.content.queue, queue, locals);
      if |old(all.txs)| <= config.globalSlots {
        SweptTruncated(old(Books()), swept, Books(), chain, accounts, locals, config.accountQueue);
      }
    }

    /** The turns of the accounts. */
    method SweepAll(accounts: set<Address>, now: nat) returns (ghost swept: Book)
      requires Valid()
      modifies this`pending, this`queue, this`managed, this`beats, all, priced
      ensures Valid() && Keeps() && all.txs <= old(all.txs)
      ensures forall a :: a in accounts ==>
                VirtualFree(a) && (a in locals || |ItemsOf(queue, a)| <= config.accountQueue)
      ensures swept == Books() && Swept(old(Books()), swept, chain, accounts, locals, config.accountQueue)
    {
      hide PriceHeap, Consistent, NoGaps, SameBut, SubMap;
      hide AllExecutable, VirtualFreeIn, SweptAt, NotYetSwept, SameVirtual, QueueSwept, Swept;
      ghost var p0, q0, m0 := pending, queue, managed;
      NobodySwept(pending, queue, managed, chain);
      var rest := accounts;
      while rest != {}
        invariant rest <= accounts && Valid() && Keeps() && all.txs <= old(all.txs)
        invariant forall a :: a in accounts && a !in rest ==>
                    VirtualFree(a) && (a in locals || |ItemsOf(queue, a)| <= config.accountQueue)
        invariant forall a :: a !in accounts || a in rest ==> NotYetSwept(p0, q0, m0, pending, queue, managed, chain, a)
        invariant forall a :: a in accounts && a !in rest ==>
                    && SweptAt(p0, q0, m0, pending, queue, managed, chain, a, true)
                    && QueueSwept(q0, m0, queue, chain, a, true, a in locals, config.accountQueue)
        decreases rest
      {
        var a :| a in rest;
        ghost var p1, q1, m1 := pending, queue, managed;
        PromoteAccount(a, now);
        OthersCapped(q1, queue, a);
        SweptNext(p0, q0, m0, p1, q1, m1, pending, queue, managed, chain, a);
        QueueSweptFrom(p0, q0, m0, p1, q1, m1, pending, queue, managed, chain, a, locals, config.accountQueue);
        assert all.txs <= old(all.txs);
        rest := rest - {a};
      }
      swept := Books();
      EveryoneSwept(old(Books()), swept, chain, accounts, locals, config.accountQueue);
    }

    /** Postpones the invalidated transactions of an account and, when the front of what is left is missing, that
        too. */
    method Postpone(a: Address, invalid: Items, left: ListValue) returns (postponed: Items, rest: ListValue)
      requires priced.all == all && priced.Ordered()
      requires a in queue ==> ListOk(a, queue[a], false) && queue[a].items != map[]
      requires forall n :: n in invalid ==>
                 invalid[n].nonce == n && invalid[n].from == a && invalid[n].signed && invalid[n] in all.txs
      requires forall n :: n in left.items ==>
                 left.items[n].nonce == n && left.items[n].from == a && left.items[n].signed && left.items[n] in all.txs
      requires forall n :: n in invalid ==> n !in ItemsOf(queue, a)
      requires forall n :: n in left.items ==> n !in ItemsOf(queue, a) && n !in invalid
      modifies this`queue, all, priced
      ensures priced.Ordered() && all.txs == old(all.txs) && priced.items == old(priced.items)
      ensures if left.items != map[] && chain.Nonce(a) !in left.items
              then postponed == invalid + left.items && rest == left.(items := map[])
              else postponed == invalid && rest == left
      ensures SameBut(old(queue), queue, a) && ItemsOf(queue, a) == ItemsOf(old(queue), a) + postponed
      ensures a in queue ==> ListOk(a, queue[a], false) && queue[a].items != map[]
    {
      hide PriceHeap, ListOk, SameBut;
      EnqueueAll(a, invalid);
      postponed, rest := invalid, left;
      if left.items != map[] && chain.Nonce(a) !in left.items {
        ghost var between := queue;
        EnqueueAll(a, left.items);
        SameButTwice(old(queue), between, queue, a);
        postponed := invalid + left.items;
        assert ItemsOf(queue, a) == ItemsOf(old(queue), a) + postponed;
        rest := left.(items := map[]);
      }
    }

    /** One account's turn in demoteUnexecutables. */
    method DemoteAccount(a: Address)
      requires Valid() && a in pending
      modifies this`pending, this`queue, this`beats, all, priced
      ensures Valid() && SameBut(old(pending), pending, a) && all.txs <= old(all.txs)
      ensures ItemsOf(pending, a) == Remaining(old(pending)[a], chain, a)
      ensures FrontAt(ItemsOf(pending, a), chain.Nonce(a))
      ensures Contiguous(ItemsOf(old(pending), a)) ==> Contiguous(ItemsOf(pending, a))
      ensures LosesHopeless(old(all.txs), all.txs, old(pending)[a].items, chain, a)
      ensures SameBut(old(queue), queue, a) && OnlyPostponed(old(pending), old(queue), queue, a)
      ensures beats == if a in pending then old(beats) else old(beats) - {a}
    {
      hide PriceHeap, ListOk, Consistent, Txs, From, Contiguous, FrontAt, Parts, SubMap, SameBut, Store, LosesHopeless;
      hide Remaining;
      hide ListValue.Filtered, ListValue.Unaffordable, ListValue.Invalidated;
      var l0 := pending[a];
      PendingPooled(pending, queue, all.txs, a);
      DemotionHolds(a, l0, chain.Nonce(a), chain.Balance(a), chain.maxGas);
      var l1 := l0.(items := From(l0.items, chain.Nonce(a)));
      Forget(Txs(l0.items - l1.items.Keys));
      var gone := l1.Unaffordable(chain.Balance(a), chain.maxGas);
      var invalid := l1.Invalidated(chain.Balance(a), chain.maxGas);
      var left := l1.Filtered(chain.Balance(a), chain.maxGas);
      Forget(Txs(gone));
      PendingDrops(old(pending), old(queue), old(all.txs), chain, a);
      PartsPooled(old(pending), old(queue), old(all.txs), a, l1.items, gone, invalid, left.items);
      var postponed, rest := Postpone(a, invalid, left);
      Demoted(old(pending), old(queue), old(all.txs), a, queue, l1.items, l1.items - gone.Keys, postponed, rest);
      PostponedPending(l0.items, l1.items, gone, postponed, rest.items);
      pending := Store(pending, a, rest);
      if a !in pending {
        beats := beats - {a};
      }
    }

    /** demoteUnexecutables: afterwards every pending list starts at its account's chain nonce and can be executed, no
        list that was contiguous has become anything else, and only the hopeless have left the pool. */
    method DemoteUnexecutables()
      requires Valid()
      modifies this`pending, this`queue, this`beats, all, priced
      ensures Valid() && Executable()
      ensures forall a ::
                ItemsOf(pending, a) == if a in old(pending) then Remaining(old(pending)[a], chain, a) else map[]
      ensures forall a :: FrontAt(ItemsOf(pending, a), chain.Nonce(a))
      ensures forall a :: Contiguous(ItemsOf(old(pending), a)) ==> Contiguous(ItemsOf(pending, a))
      ensures forall tx :: tx in all.txs <==>
                tx in old(all.txs) && !(Stored(old(pending), tx) && Hopeless(chain, tx.from, tx))
      ensures forall a :: OnlyPostponed(old(pending), old(queue), queue, a)
    {
      hide PriceHeap, Consistent, Contiguous, FrontAt, Remaining, Hopeless, AllExecutable, ListsOk, DemotedSoFar;
      hide LosesHopeless;
      hide OnlyPostponed, SameBut;
      var rest := pending.Keys;
      DemotionStarts(pending, queue, all.txs, chain);
      NothingPostponed(pending, queue);
      NothingAtFront(pending, chain);
      while rest != {}
        invariant Valid()
        invariant forall a :: a in rest ==> Undemoted(old(pending), pending, a)
        invariant forall a :: a !in rest ==>
                    && ItemsOf(pending, a) ==
                       (if a in old(pending) then Remaining(old(pending)[a], chain, a) else map[])
                    && FrontAt(ItemsOf(pending, a), chain.Nonce(a))
        invariant forall a :: Contiguous(ItemsOf(old(pending), a)) ==> Contiguous(ItemsOf(pending, a))
        invariant DemotedSoFar(old(pending), rest, old(all.txs), all.txs, chain)
        invariant forall a :: OnlyPostponed(old(pending), old(queue), queue, a)
        invariant forall a :: a in rest ==> ItemsOf(queue, a) == ItemsOf(old(queue), a)
        decreases rest
      {
        var a :| a in rest;
        ghost var before, queued, txs := pending, queue, all.txs;
        DemoteAccount(a);
        PostponedNext(old(pending), old(queue), before, queued, queue, a);
        DemotedNext(old(pending), rest, old(all.txs), txs, all.txs, chain, a);
        rest := rest - {a};
        OthersUndemoted(old(pending), before, pending, a);
      }
      RemainingExecutable(old(pending), pending, chain);
      DemotionEnds(old(pending), old(all.txs), all.txs, chain);
    }

    /** Room for all of a batch among the pending, so that nothing is discarded or truncated on its account. */
    predicate Roomy(txs: seq<Tx>)
      reads this, all
    {
      |all.txs| + |txs| <= config.globalSlots
    }

    /** Putting the transactions back on the given chain state would refill the account only partly: its nonce has
        fallen back, what can be executed again starts at it but does not reach the pending ones, and these can still be
        executed. */
    ghost predicate PartlyRefilled(state: ChainState, reinject: seq<Tx>, a: Address)
      reads this, all
    {
      var r := AddedAll(Content(pending, queue, all.txs), reinject, false, |reinject|, RulesOn(state));
      GapAt(r.content, r.dirty, state, a, chain.Nonce(a))
    }

    /** reset: moves to a new chain state (or, when that cannot be loaded, does nothing), puts back the transactions
        that a reorganisation took off the chain, and revalidates the pool. What is left in the pool can be executed;
        whatever was in it, or was put back, and is not there afterwards is hopeless on the new state, was discarded or
        outbid, or squeezed out, at a stage of the course that is the ghost result. Without transactions to put back a
        gap-free pool is in order afterwards; with some, and room for them, it is gap-free exactly if no account is
        refilled only partly, and everyone is settled in any case. */
    method Reset(state: Option<ChainState>, reinject: seq<Tx>, now: nat) returns (ghost course: Course)
      requires Valid()
      modifies this, all, priced
      ensures Valid() && locals == old(locals) && gasPrice == old(gasPrice) && homestead == old(homestead)
      ensures state.None? ==> Books() == old(Books()) && chain == old(chain) && beats == old(beats)
      ensures state.None? && old(InOrder()) ==> InOrder()
      ensures state.Some? ==> chain == state.value && Executable()
      ensures state.Some? ==>
                && course.Leads(old(Books()).(managed := map[]), Books(), reinject, old(RulesOn(state.value)), config)
                && (forall tx :: tx in old(all.txs) && tx !in all.txs ==>
                      course.Loses(Books(), reinject, old(RulesOn(state.value)), config, 0, tx))
                && (forall i :: 0 <= i < |reinject| && course.batch.errs[i] == None && reinject[i] !in all.txs ==>
                      course.Loses(Books(), reinject, old(RulesOn(state.value)), config, i + 1, reinject[i]))
                && (old(Roomy(reinject)) ==> forall i: nat, tx ::
                      course.Loses(Books(), reinject, old(RulesOn(state.value)), config, i, tx) ==>
                        course.LosesWithRoom(Books(), reinject, old(RulesOn(state.value)), config, i, tx))
      ensures state.Some? ==> forall tx :: tx in all.txs ==> !Hopeless(chain, tx.from, tx)
      ensures state.Some? && Modest(|old(all.txs)| + |reinject|, config) ==>
                forall tx :: tx in all.txs <==>
                  && tx in AddedAll(old(Content(pending, queue, all.txs)), reinject, false, |reinject|,
                                    old(RulesOn(state.value))).content.all
                  && !Hopeless(chain, tx.from, tx)
      ensures forall tx :: tx in all.txs ==>
                tx in old(all.txs)
                || (state.Some? && tx in reinject && Validity(tx, false, old(RulesOn(state.value))) == None)
      ensures state.Some? && reinject == [] && old(GapFree()) ==> InOrder()
      ensures state.Some? && old(GapFree()) && old(Roomy(reinject)) ==>
                && (GapFree() <==> forall a :: !old(PartlyRefilled(state.value, reinject, a)))
                && forall a :: Settled(a)
      ensures state.Some? && old(GapFree()) && old(Roomy(reinject)) ==>
                (!FallsBack(old(pending), old(chain), state.value) ==> InOrder())
    {
      hide PriceHeap, Consistent, NoGaps, AllExecutable, VirtualFreeIn, SettledIn, GapAt, AddedAll, Hopeless, Validity;
      hide Course.Leads, Course.Loses, Course.LosesWithRoom;
      course := Course(Batch([], [], []), Books(), Books(), Books(), Books());
      if state.None? {
        forall a ensures old(Settled(a)) ==> Settled(a) { }
        return;
      }
      course := ResetTo(state.value, reinject, now);
      ghost var start, r := old(Books()).(managed := map[]), old(RulesOn(state.value));
      ResetKeeps(course, start, Books(), reinject, r, config);
      if old(GapFree()) && old(Roomy(reinject)) {
        ghost var mid := AddedAll(old(Content(pending, queue, all.txs)), reinject, false, |reinject|, r);
        forall a ensures old(PartlyRefilled(state.value, reinject, a)) <==>
                         GapAt(mid.content, mid.dirty, state.value, a, old(chain).Nonce(a)) { }
        forall a ensures ItemsOf(mid.content.pending, a).Keys == ItemsOf(old(pending), a).Keys {
          PendingNoncesStay(old(Content(pending, queue, all.txs)), reinject, false, |reinject|, r, a);
        }
        if !FallsBack(old(pending), old(chain), state.value) {
          NobodyFellBack(old(pending), mid.content, mid.dirty, old(chain), state.value);
        }
      }
    }

    method ResetTo(state: ChainState, reinject: seq<Tx>, now: nat) returns (ghost course: Course)
      requires Valid()
      modifies this, all, priced
      ensures Valid() && locals == old(locals) && gasPrice == old(gasPrice) && homestead == old(homestead)
      ensures chain == state && Executable()
      ensures course.Leads(old(Books()).(managed := map[]), Books(), reinject, old(RulesOn(state)), config)
      ensures |old(all.txs)| + |reinject| <= Capacity() ==>
                && Refill(course.batch.Last().book.content, course.batch.Last().dirty)
                   == AddedAll(old(Content(pending, queue, all.txs)), reinject, false, |reinject|, old(RulesOn(state)))
                && |course.batch.Last().book.content.all| <= |old(all.txs)| + |reinject|
      ensures reinject == [] && old(GapFree()) ==> InOrder()
      ensures old(GapFree()) && old(Roomy(reinject)) ==>
                var last := course.batch.Last();
                && (GapFree() <==> forall a :: !GapAt(last.book.content, last.dirty, state, a, old(chain).Nonce(a)))
                && forall a :: Settled(a)
    {
      hide PriceHeap, Consistent, NoGaps, Contiguous, AllExecutable, VirtualFreeIn, SettledIn, SweptAt, AddedAll;
      hide Remaining, OnlyPostponed, GapAt, Hopeless, Promotes, Files;
      ghost var p0, c0, chain0, m0 := pending, Content(pending, queue, all.txs), chain, managed;
      if old(GapFree()) {
        NoGapsContiguous(pending, chain, managed);
      }
      chain := state;
      managed := map[];
      var errs;
      ghost var log, swept;
      errs, log, swept := AddTxs(reinject, false, now);
      ghost var rejoined := Books();
      ghost var demoted, reswept := Revalidate(now);
      course := Course(log, swept, rejoined, demoted, reswept);
      if reinject == [] && old(GapFree()) {
        NextIsVirtual(pending, queue, chain, managed);
        forall a ensures Settled(a) { assert SettledIn(pending, queue, chain, a); }
      }
      if old(GapFree()) && old(Roomy(reinject)) {
        ghost var last := log.Last();
        forall a ensures ItemsOf(last.book.content.pending, a).Keys == ItemsOf(p0, a).Keys {
          PendingNoncesStay(c0, reinject, false, |reinject|, RulesOn(chain), a);
        }
        ResetOutcome(p0, chain0, m0, last.book.content, last.dirty,
                     rejoined.content.pending, rejoined.content.queue, rejoined.managed, rejoined.content.all,
                     demoted.content.pending, demoted.content.queue, demoted.managed, demoted.content.all,
                     pending, queue, managed, chain);
        forall a ensures Settled(a) { assert SettledIn(pending, queue, chain, a); }
      }
    }

    /** The last part of reset: demotion, virtual nonces, promotion of everyone. The ghost results are the pool before
        the promotion and before its truncations. */
    method Revalidate(now: nat) returns (ghost demoted: Book, ghost reswept: Book)
      requires Valid()
      modifies this`pending, this`queue, this`managed, this`beats, all, priced
      ensures Valid() && Executable() && all.txs <= old(all.txs) && forall a :: VirtualFreeIn(queue, chain, managed, a)
      ensures Demotes(old(Books()), demoted, chain)
      ensures forall a :: OnlyPostponed(old(pending), old(queue), demoted.content.queue, a)
      ensures Promotes(demoted, reswept, Books(), chain, demoted.content.queue.Keys, locals, config)
      ensures |old(all.txs)| <= config.globalSlots ==>
                forall a :: SweptAt(demoted.content.pending, demoted.content.queue, demoted.managed,
                                    pending, queue, managed, chain, a, a in demoted.content.queue)
      ensures old(managed) == map[] && (forall a :: Contiguous(ItemsOf(old(pending), a))) ==> GapFree()
    {
      hide PriceHeap, Consistent, NoGaps, Contiguous, AllExecutable, VirtualFreeIn, SweptAt;
      hide OnlyPostponed, Promotes, Demotes;
      demoted := Demote();
      SmallerSet(all.txs, old(all.txs));
      assert forall a :: a !in queue ==> VirtualFree(a) by { NobodyQueued(queue, chain, managed); }
      reswept := PromoteExecutables(queue.Keys, now);
      forall a ensures VirtualFreeIn(queue, chain, managed, a) { assert VirtualFree(a); }
    }

    /** Demotion and virtual nonces. */
    method Demote() returns (ghost demoted: Book)
      requires Valid()
      modifies this`pending, this`queue, this`managed, this`beats, all, priced
      ensures Valid() && Executable() && all.txs <= old(all.txs)
      ensures demoted == Books() && Demotes(old(Books()), demoted, chain)
      ensures forall a :: OnlyPostponed(old(pending), old(queue), queue, a)
      ensures old(managed) == map[] && (forall a :: Contiguous(ItemsOf(old(pending), a))) ==> GapFree()
    {
      hide PriceHeap, Consistent, NoGaps, Contiguous, FrontAt, AllExecutable, Remaining;
      hide OnlyPostponed, Hopeless, Stored, ItemsOf, Demotes;
      DemoteUnexecutables();
      UpdateNonces();
      demoted := Books();
      IsDemoted(old(Books()), demoted, chain);
      if old(managed) == map[] && forall a :: Contiguous(ItemsOf(old(pending), a)) {
        LastNoncesGapless(pending, chain, managed);
      }
    }

    /** Sets the virtual nonce of every account with pending transactions to follow its last one. */
    method UpdateNonces()
      requires Valid()
      modifies this`managed
      ensures Valid()
      ensures managed.Keys == old(managed).Keys + pending.Keys
      ensures forall a :: a in pending ==>
                pending[a].items.Keys != {} && managed[a] == Maximum(pending[a].items.Keys) + 1
      ensures forall a :: a !in pending ==> VirtualOf(managed, chain, a) == VirtualOf(old(managed), chain, a)
    {
      hide PriceHeap, Consistent, NoGaps, AllExecutable, VirtualFreeIn;
      var rest := pending.Keys;
      while rest != {}
        invariant rest <= pending.Keys && Valid() && managed.Keys == old(managed).Keys + (pending.Keys - rest)
        invariant forall a :: a in pending && a !in rest ==>
                    pending[a].items.Keys != {} && a in managed && managed[a] == Maximum(pending[a].items.Keys) + 1
        invariant forall a :: a !in pending ==> VirtualOf(managed, chain, a) == VirtualOf(old(managed), chain, a)
        decreases rest
      {
        var a :| a in rest;
        PendingPooled(pending, queue, all.txs, a);
        managed := managed[a := Maximum(pending[a].items.Keys) + 1];
        rest := rest - {a};
      }
    }

    /** validateTx on the current chain state. */
    function Validate(tx: Tx, local: bool): Option<Error>
      reads this
    {
      Validity(tx, local, RulesOn(chain))
    }

    function RulesOn(state: ChainState): Rules
      reads this
    {
      Rules(state, locals, gasPrice, homestead, config.priceBump)
    }

    /** Removes transactions that the price heap has already given up. */
    method RemoveDiscarded(drop: seq<Tx>)
      requires priced.all == all && config.Workable() && Consistent(pending, queue, all.txs) && priced.Ordered()
      requires forall tx :: tx in all.txs && tx !in drop ==> tx in priced.items
      modifies this`pending, this`queue, this`managed, this`beats, all, priced
      ensures Valid() && Keeps()
      ensures forall tx :: tx in all.txs <==> tx in old(all.txs) && tx !in drop
      ensures all.txs == old(all.txs) ==> pending == old(pending) && queue == old(queue) && managed == old(managed)
    {
      hide PriceHeap, Consistent, NoGaps, Cut, AllExecutable, VirtualFreeIn;
      for i := 0 to |drop|
        invariant Consistent(pending, queue, all.txs) && priced.Ordered() && Keeps()
        invariant priced.items == old(priced.items)
        invariant forall tx :: tx in all.txs <==> tx in old(all.txs) && tx !in drop[..i]
        invariant all.txs == old(all.txs) ==> pending == old(pending) && queue == old(queue) && managed == old(managed)
      {
        RemoveTx(drop[i], false);
        assert drop[..i + 1] == drop[..i] + [drop[i]];
      }
      assert drop[..|drop|] == drop;
    }

    /** Makes room in a full pool: refuses a remote transaction that is no better than the cheapest pooled one, and
        otherwise discards the cheapest remote ones. */
    method MakeRoom(tx: Tx, local: bool) returns (ok: bool)
      requires Valid() && Full()
      modifies this`pending, this`queue, this`managed, this`beats, all, priced
      ensures Valid() && Keeps() && all.txs <= old(all.txs)
      ensures ok <==> old(Worthy(tx, local))
      ensures !ok ==>
                pending == old(pending) && queue == old(queue) && managed == old(managed) && all.txs == old(all.txs)
      ensures MadeRoom(old(all.txs), all.txs, locals) && |all.txs| >= Capacity() - 1
      ensures ok && all.txs == old(all.txs) ==> AllLocal(all.txs, locals)
      ensures all.txs == old(all.txs) ==> pending == old(pending) && queue == old(queue) && managed == old(managed)
    {
      hide PriceHeap, Consistent, NoGaps, AllExecutable, VirtualFreeIn;
      assert all.txs != {} by { assert |all.txs| >= 1; }
      if !local {
        var underpriced := priced.Underpriced(tx, locals);
        if underpriced {
          return false;
        }
      }
      var drop := priced.Discard(|all.txs| - (Capacity() - 1), locals);
      RemoveDiscarded(drop);
      TakenOut(old(all.txs), all.txs, drop);
      assert |drop| > 0 ==> drop[0] in drop && drop[0] !in all.txs;
      ok := true;
    }

    /** add: refuses what is known, invalid or, in a full pool, too cheap; otherwise makes room if it has to and files
        the transaction. `room` is the pool between the two, and `Inserted` what filing does to it. Only a transaction
        newly queued can have its account's virtual nonce queued. */
    method Add(tx: Tx, local: bool) returns (replaced: bool, err: Option<Error>, ghost room: Book)
      requires Valid()
      modifies this`pending, this`queue, this`managed, this`beats, this`locals, all, priced
      ensures Valid() && KeepsBut(tx.from) && (err.Some? || replaced ==> Keeps())
      ensures tx in old(all.txs) ==> err == Some(Known)
      ensures tx !in old(all.txs) && old(Validate(tx, local)).Some? ==> err == old(Validate(tx, local))
      ensures tx !in old(all.txs) && old(Validate(tx, local)).None? && old(Full()) && !old(Worthy(tx, local)) ==>
                err == Some(Underpriced)
      ensures if tx !in old(all.txs) && old(Validate(tx, local)).None? && (old(Full()) ==> old(Worthy(tx, local)))
              then Inserted(room.content, Content(pending, queue, all.txs), tx, config.priceBump, replaced, err)
              else err.Some? && !replaced && room == old(Books()) == Books()
      ensures !old(Full()) ==> room == old(Books())
      ensures room.content.all == old(all.txs) ==> room == old(Books())
      ensures managed == room.managed
      ensures tx !in old(all.txs) && old(Validate(tx, local)).None? && old(Full()) && old(Worthy(tx, local)) ==>
                (room.content.all == old(all.txs) ==> AllLocal(old(all.txs), old(locals)))
      ensures err.Some? ==> (Books() == old(Books()) <==> !old(Evicts(tx, local)))
      ensures !old(Full()) ==> |all.txs| <= Capacity()
      ensures old(Full()) && !AllLocal(old(all.txs), old(locals)) ==> |all.txs| <= |old(all.txs)|
      ensures old(Full()) && AllLocalButOne(old(all.txs), old(locals)) ==> AllLocalButOne(all.txs, old(locals))
      ensures MadeRoom(old(all.txs), room.content.all, old(locals))
      ensures old(locals) <= locals && (!local ==> locals == old(locals))
      ensures Files(Filing(old(Books()), old(locals), {}), room,
                    Filing(Books(), locals, if err == None && !replaced then {tx.from} else {}),
                    tx, local, old(RulesOn(chain)), Capacity(), err)
    {
      hide PriceHeap, Consistent, NoGaps, AllExecutable, VirtualFreeIn, Inserted, MadeRoom, AllLocal, AllLocalButOne;
      hide Validity, Free, Placed, Worth;
      replaced, room := false, Books();
      NoRoomMade(all.txs, locals);
      if tx in all.txs {
        return false, Some(Known), room;
      }
      err := Validate(tx, local);
      if err.Some? {
        return;
      }
      AdmittedFacts(tx, local, RulesOn(chain));
      if Full() {
        var ok := MakeRoom(tx, local);
        if !ok {
          return false, Some(Underpriced), room;
        }
        room := Books();
      }
      replaced, err := Insert(tx, local);
      InsertedOrNot(room.content, Content(pending, queue, all.txs), tx, config.priceBump, replaced, err);
      InsertedFiled(room, Content(pending, queue, all.txs), tx, config.priceBump, replaced, err);
      if AllLocal(old(all.txs), old(locals)) {
        NothingToEvict(old(all.txs), room.content.all, old(locals));
      }
      AddedSize(old(all.txs), room.content, Content(pending, queue, all.txs), tx, config.priceBump, replaced, err,
                old(locals), Capacity());
    }

    predicate Full()
      reads this, all
    {
      |all.txs| >= Capacity()
    }

    function Capacity(): nat {
      config.globalSlots + config.globalQueue
    }

    /** Adding the transaction drives others out, even if it is then refused for not outbidding its twin. */
    ghost predicate Evicts(tx: Tx, local: bool)
      reads this, all
    {
      tx !in all.txs && Validate(tx, local).None? && Full() && Worthy(tx, local) && !AllLocal(all.txs, locals)
    }

    /** Local, or dearer than something in the pool. */
    ghost predicate Worthy(tx: Tx, local: bool)
      reads this, all
    {
      Worth(tx, local, all.txs, locals)
    }

    /** As Keeps, but for the queue of account a. */
    twostate predicate KeepsBut(a: Address)
      reads this
    {
      && (old(GapFree()) ==> GapFree())
      && (old(Executable()) ==> Executable())
      && (forall b :: b != a && old(VirtualFree(b)) ==> VirtualFree(b))
    }

    /** The second half of add: in place of a pending transaction of the same nonce, or into the queue. */
    method Insert(tx: Tx, local: bool) returns (replaced: bool, err: Option<Error>)
      requires Valid() && tx !in all.txs && tx.signed && !Hopeless(chain, tx.from, tx)
      modifies this`pending, this`queue, this`locals, all, priced
      ensures Valid() && KeepsBut(tx.from) && (err.Some? || replaced ==> Keeps())
      ensures Inserted(old(Content(pending, queue, all.txs)), Content(pending, queue, all.txs),
                       tx, config.priceBump, replaced, err)
      ensures locals == if err == None && local && tx.nonce !in ItemsOf(old(pending), tx.from)
                        then old(locals) + {tx.from} else old(locals)
    {
      hide PriceHeap, Consistent, NoGaps, ListValue.Added, ListValue.Accepts, AllExecutable, VirtualFreeIn, Hopeless;
      replaced := false;
      if tx.from in pending && pending[tx.from].Overlaps(tx) {
        if !pending[tx.from].Accepts(tx, config.priceBump) {
          return false, Some(ReplaceUnderpriced);
        }
        ReplacePending(tx);
        return true, None;
      }
      var ok;
      Enqueued(pending, queue, all.txs, tx);
      QueuedVirtual(queue, chain, managed, tx);
      replaced, ok := Enqueue(tx);
      if !ok {
        return false, Some(ReplaceUnderpriced);
      }
      err := None;
      if local {
        locals := locals + {tx.from};
      }
    }

    /** Overwrites the pending transaction of the same nonce. */
    method ReplacePending(tx: Tx)
      requires Valid() && tx !in all.txs && tx.signed && tx.from in pending && tx.nonce in pending[tx.from].items
      requires !Hopeless(chain, tx.from, tx)
      modifies this`pending, all, priced
      ensures Valid() && Keeps()
      ensures pending == old(pending)[tx.from := old(pending)[tx.from].Added(tx)]
      ensures all.txs == old(all.txs) - {old(pending)[tx.from].items[tx.nonce]} + {tx}
    {
      hide PriceHeap, Consistent, NoGaps, ListValue.Added, AllExecutable, VirtualFreeIn;
      ReplacedPending(pending, queue, all.txs, tx);
      if old(GapFree()) {
        SameNoncesNoGaps(pending, chain, managed, tx);
      }
      if old(Executable()) {
        ReplacementExecutable(pending, chain, tx);
      }
      var gone := pending[tx.from].items[tx.nonce];
      pending := pending[tx.from := pending[tx.from].Added(tx)];
      all.txs := all.txs - {gone};
      priced.Removed();
      all.txs := all.txs + {tx};
      priced.Put(tx);
    }

    /** addTx: adds one transaction and, unless it replaced one, promotes its account. It succeeds exactly if the
        transaction is admitted and has no twin in the pool, once there is room, that it does not outbid. It is then in
        the pool, unless its account is remote and its nonce was squeezed out from above; and it is pending if it was
        next, or took the place of a pending one. The ghost results are the pool once there is room, once the
        transaction is filed, and before the truncations. */
    method AddTx(tx: Tx, local: bool, now: nat)
      returns (err: Option<Error>, ghost room: Book, ghost filed: Filing, ghost swept: Book)
      requires Valid()
      modifies this`pending, this`queue, this`managed, this`beats, this`locals, all, priced
      ensures Valid() && Keeps() && all.txs <= old(all.txs) + {tx}
      ensures old(InOrder()) ==> InOrder()
      ensures tx in old(all.txs) ==> err == Some(Known)
      ensures tx !in old(all.txs) && old(Validate(tx, local)).Some? ==> err == old(Validate(tx, local))
      ensures err == None <==>
                && tx !in old(all.txs) && old(Validate(tx, local)) == None && (old(Full()) ==> old(Worthy(tx, local)))
                && Free(room.content, tx, config.priceBump)
      ensures !old(Full()) ==> room == old(Books())
      ensures err.Some? ==> (Books() == old(Books()) <==> !old(Evicts(tx, local)))
      ensures Files(Filing(old(Books()), old(locals), {}), room, filed, tx, local, old(RulesOn(chain)), Capacity(), err)
      ensures locals == filed.locals && filed.book.Agrees() && all.txs <= filed.book.content.all
      ensures if filed.dirty == {} then Books() == filed.book
              else Promotes(filed.book, swept, Books(), chain, filed.dirty, locals, config)
      ensures err == None ==> tx in all.txs || Squeezed(swept, Books(), tx, locals, config)
      ensures err == None && tx.nonce in ItemsOf(room.content.pending, tx.from) ==> Stored(pending, tx)
      ensures err == None && old(InOrder()) && |old(all.txs)| < config.globalSlots && tx.nonce == old(Virtual(tx.from))
              ==> Stored(pending, tx)
      ensures err == None && Modest(|old(all.txs)| + 1, config) ==>
                tx in all.txs && OnlyHopeless(filed.book, Books(), chain, tx.from)
      ensures !old(Full()) ==> |all.txs| <= Capacity()
      ensures old(Full()) && !AllLocal(old(all.txs), old(locals)) ==> |all.txs| <= |old(all.txs)|
    {
      hide PriceHeap, Consistent, NoGaps, AllExecutable, VirtualFreeIn, Inserted, MadeRoom, AllLocal, AllLocalButOne;
      hide Validity, Worth, Promotes, Squeezed, Files, Free, SweptAt, Hopeless, Placed, OnlyHopeless, Home;
      var replaced;
      replaced, err, room := Add(tx, local);
      filed := Filing(Books(), locals, if err == None && !replaced then {tx.from} else {});
      swept := Books();
      NoneHopeless(Books(), chain, tx.from);
      AddedAtMost(old(all.txs), room.content, Content(pending, queue, all.txs), tx, config.priceBump, replaced, err,
                  old(locals));
      OneMore(old(all.txs), all.txs, tx);
      FilesOutcome(Filing(old(Books()), old(locals), {}), room, filed, tx, local, old(RulesOn(chain)), Capacity(), err);
      ghost var next := old(InOrder()) && |old(all.txs)| < config.globalSlots && tx.nonce == old(Virtual(tx.from));
      if next {
        assert old(Settled(tx.from));
        NextIsNew(old(Books()), chain, tx);
      }
      if err == None && !replaced {
        swept := PromoteExecutables({tx.from}, now);
        AdmittedFacts(tx, local, old(RulesOn(chain)));
        SmallerSet(all.txs, filed.book.content.all);
        FiledPromoted(filed, swept, Books(), chain, tx, config);
        if next {
          assert SweptAt(filed.book.content.pending, filed.book.content.queue, filed.book.managed,
                         pending, queue, managed, chain, tx.from, true);
          NextPromoted(old(Books()), filed, Books(), chain, tx);
        }
      }
      OrderStays();
    }

    /** The loop of addTxsLocked: adds a batch, collecting the accounts that have a newly queued transaction. The ghost
        result tells what becomes of every transaction. With room for all of the batch, the outcome is AddedAll. */
    method AddEach(txs: seq<Tx>, local: bool)
      returns (errs: seq<Option<Error>>, dirty: set<Address>, ghost log: Batch)
      requires Valid()
      modifies this`pending, this`queue, this`managed, this`beats, this`locals, all, priced
      ensures Valid() && |errs| == |txs| && (!local ==> locals == old(locals))
      ensures log.Of(txs, local, old(RulesOn(chain)), Capacity()) && log.errs == errs
      ensures log.filings[0] == Filing(old(Books()), old(locals), {}) && log.Last() == Filing(Books(), locals, dirty)
      ensures forall i :: 0 <= i <= |txs| && !local ==> log.filings[i].locals == locals
      ensures (old(GapFree()) ==> GapFree()) && (old(Executable()) ==> Executable())
      ensures forall a :: old(VirtualFree(a)) ==> VirtualFree(a) || a in dirty
      ensures |all.txs| <= Capacity() || |all.txs| <= |old(all.txs)| || AllLocalButOne(all.txs, locals)
      ensures txs == [] ==> Books() == old(Books()) && dirty == {}
      ensures |old(all.txs)| + |txs| <= Capacity() ==>
                && Refill(Content(pending, queue, all.txs), dirty)
                   == AddedAll(old(Content(pending, queue, all.txs)), txs, local, |txs|, old(RulesOn(chain)))
                && managed == old(managed) && |all.txs| <= |old(all.txs)| + |txs|
    {
      hide PriceHeap, Consistent, NoGaps, AllExecutable, VirtualFreeIn, Inserted, MadeRoom, AllLocal, AllLocalButOne;
      hide TxPool.Worthy, Validity, AddedOne, AddedAll, Files, Batch.Of;
      errs, dirty := [], {};
      ghost var c, r := Content(pending, queue, all.txs), RulesOn(chain);
      log := Batch([Filing(Books(), locals, {})], [], []);
      LogStarts(log, local, r, Capacity());
      NobodyAdded(c, txs, local, r);
      for i := 0 to |txs|
        invariant Valid() && |errs| == i && (!local ==> locals == old(locals))
        invariant log.Of(txs[..i], local, r, Capacity()) && log.errs == errs && |log.filings| == i + 1
        invariant log.filings[0] == Filing(old(Books()), old(locals), {})
        invariant log.Last() == Filing(Books(), locals, dirty)
        invariant forall k :: 0 <= k <= i && !local ==> log.filings[k].locals == locals
        invariant (old(GapFree()) ==> GapFree()) && (old(Executable()) ==> Executable())
        invariant forall a :: old(VirtualFree(a)) ==> VirtualFree(a) || a in dirty
        invariant |all.txs| <= Capacity() || |all.txs| <= |old(all.txs)| || AllLocalButOne(all.txs, locals)
        invariant txs == [] ==> Books() == old(Books()) && dirty == {}
        invariant |old(all.txs)| + |txs| <= Capacity() ==>
                    && Refill(Content(pending, queue, all.txs), dirty) == AddedAll(c, txs, local, i, r)
                    && managed == old(managed) && |all.txs| <= |old(all.txs)| + i
      {
        ghost var c1, f := Content(pending, queue, all.txs), Filing(Books(), locals, {});
        assert RulesOn(chain) == r.(locals := f.locals);
        var replaced, err, between := Add(txs[i], local);
        AddedAtMost(c1.all, between.content, Content(pending, queue, all.txs), txs[i], config.priceBump, replaced, err,
                    f.locals);
        BatchSize(c1.all, all.txs, f.locals, locals);
        if |old(all.txs)| + |txs| <= Capacity() {
          SameValidity(txs[i], local, r, f.locals);
          RefilledNext(c, txs, local, i, r, dirty, c1, Content(pending, queue, all.txs), replaced, err);
        }
        ghost var f' := Filing(Books(), locals, if err == None && !replaced then {txs[i].from} else {});
        LogNext(log, txs, local, r, Capacity(), i, f, between, f', err, dirty);
        log := Logged(log, f'.(dirty := dirty + f'.dirty), between, err);
        errs := errs + [err];
        if err == None && !replaced {
          dirty := dirty + {txs[i].from};
        }
      }
      assert txs[..|txs|] == txs;
    }

    /** addTxsLocked: adds a batch and promotes the accounts that gained something. The ghost results are the log of the
        batch, whose end is the pool between the two, and the pool before the truncations. */
    method AddTxs(txs: seq<Tx>, local: bool, now: nat)
      returns (errs: seq<Option<Error>>, ghost log: Batch, ghost swept: Book)
      requires Valid()
      modifies this`pending, this`queue, this`managed, this`beats, this`locals, all, priced
      ensures Valid() && Keeps() && |errs| == |txs|
      ensures old(InOrder()) ==> InOrder()
      ensures log.Of(txs, local, old(RulesOn(chain)), Capacity()) && log.errs == errs
      ensures log.filings[0] == Filing(old(Books()), old(locals), {}) && log.Last().locals == locals
      ensures forall i :: 0 <= i <= |txs| && !local ==> log.filings[i].locals == locals
      ensures if log.Last().dirty == {} then Books() == log.Last().book == swept
              else Promotes(log.Last().book, swept, Books(), chain, log.Last().dirty, locals, config)
      ensures |all.txs| <= Capacity() || |all.txs| <= |old(all.txs)| || AllLocalButOne(all.txs, locals)
      ensures !local ==> locals == old(locals)
      ensures txs == [] ==> Books() == old(Books())
      ensures |old(all.txs)| + |txs| <= Capacity() ==>
                && Refill(log.Last().book.content, log.Last().dirty)
                   == AddedAll(old(Content(pending, queue, all.txs)), txs, local, |txs|, old(RulesOn(chain)))
                && log.Last().book.managed == old(managed)
                && |log.Last().book.content.all| <= |old(all.txs)| + |txs|
                && |all.txs| <= |old(all.txs)| + |txs|
      ensures |old(all.txs)| + |txs| <= config.globalSlots ==>
                forall a :: SweptAt(log.Last().book.content.pending, log.Last().book.content.queue, old(managed),
                                    pending, queue, managed, chain, a, a in log.Last().dirty)
    {
      hide PriceHeap, Consistent, NoGaps, AllExecutable, VirtualFreeIn, AllLocalButOne, AddedAll, SweptAt, Total;
      hide Promotes, Batch.Of;
      var dirty;
      errs, dirty, log := AddEach(txs, local);
      swept := Books();
      NobodyIsSwept(pending, queue, managed, chain);
      if dirty != {} {
        ghost var before := all.txs;
        swept := PromoteExecutables(dirty, now);
        SmallerSet(all.txs, before);
        if AllLocalButOne(before, locals) {
          FewerAllLocal(before, all.txs, locals);
        }
      }
      OrderStays();
    }

    /** SetGasPrice: afterwards exactly the remote transactions below the price are gone. */
    method SetGasPrice(price: nat)
      requires Valid()
      modifies this`gasPrice, this`pending, this`queue, this`managed, this`beats, all, priced
      ensures Valid() && Keeps() && gasPrice == price
      ensures forall tx :: tx in all.txs <==> tx in old(all.txs) && (tx.price >= price || IsLocal(tx, locals))
      ensures old(InOrder()) ==> InOrder()
    {
      hide PriceHeap, Consistent, NoGaps, AllExecutable, VirtualFreeIn;
      gasPrice := price;
      var drop := priced.Cap(price, locals);
      RemoveDiscarded(drop);
      OrderStays();
    }

    /** No heartbeat at all, or none within the lifetime. */
    predicate Inactive(a: Address, now: nat)
      reads this
    {
      a !in beats || now - beats[a] > config.lifetime
    }

    /** The eviction tick of loop: afterwards exactly the queues of remote accounts without a recent heartbeat are
        gone. */
    method Evict(now: nat)
      requires Valid()
      modifies this`pending, this`queue, this`managed, this`beats, all, priced
      ensures Valid() && Keeps() && pending == old(pending) && managed == old(managed) && beats == old(beats)
      ensures all.txs <= old(all.txs)
      ensures forall a :: a in queue <==> a in old(queue) && (a in locals || !Inactive(a, now))
      ensures forall a :: a in queue && a in old(queue) ==> queue[a] == old(queue)[a]
      ensures old(InOrder()) ==> InOrder()
    {
      hide PriceHeap, Consistent, NoGaps, Keyed, Lists, Store, NoncesOf, AllExecutable, VirtualFreeIn;
      var rest := queue.Keys;
      ghost var q0 := queue;
      while rest != {}
        invariant Valid() && Keeps() && pending == old(pending) && managed == old(managed) && beats == old(beats)
        invariant rest <= q0.Keys && all.txs <= old(all.txs)
        invariant forall a :: a in rest ==> a in queue
        invariant forall a :: a in queue <==> a in q0 && (a in rest || a in locals || !Inactive(a, now))
        invariant forall a :: a in queue && a in q0 ==> queue[a] == q0[a]
        decreases rest
      {
        var a :| a in rest;
        if a !in locals && Inactive(a, now) {
          QueueKeyed(pending, queue, all.txs, a);
          var txs := Flattened(queue[a].items);
          ListingStored(queue, a, txs);
          EveryoneRemoved(queue, a, txs);
          RemoveQueuedTxs(a, txs);
        }
        rest := rest - {a};
      }
      OrderStays();
    }

    // ---------- runs ----------

    function Now(): Moment
      reads this, all
    {
      Moment(Books(), chain, locals, gasPrice, homestead, beats)
    }

    /** The arrival of a new head: the Homestead rules hold from the first head under them on. */
    method HandleHead(state: Option<ChainState>, reinject: seq<Tx>, homestead': bool, now: nat)
      requires Valid()
      modifies this, all, priced
      ensures Valid() && (old(Executable()) ==> Executable())
      ensures old(Now()).Gentle(NewHead(state, reinject, homestead'), config) && old(InOrder()) ==> InOrder()
      ensures old(Now()).LeadsTo(NewHead(state, reinject, homestead'), config, now, Now())
    {
      hide PriceHeap, Consistent, NoGaps, AllExecutable, SettledIn, GapAt, AddedAll, Validity, Hopeless, Course.Leads;
      hide Course.Loses, Course.LosesWithRoom, Priced;
      if homestead' {
        homestead := true;
      }
      forall a ensures old(Settled(a)) ==> Settled(a) { }
      ghost var op := NewHead(state, reinject, homestead');
      assert state.Some? ==> RulesOn(state.value) == old(Now()).RulesFor(op, config);
      if op.Reinjects() && old(Now()).Gentle(op, config) {
        forall a ensures !PartlyRefilled(state.value, reinject, a) {
          assert !old(Now()).RefilledPartly(reinject, old(Now()).RulesFor(op, config), a);
        }
      }
      ghost var books := Books();
      ghost var course := Reset(state, reinject, now);
      if state.Some? {
        ResetPriced(course, books.(managed := map[]), Books(), reinject, RulesOn(state.value), config);
      }
    }

    method HandleTx(tx: Tx, local: bool, now: nat)
      requires Valid()
      modifies this, all, priced
      ensures Valid() && (old(Executable()) ==> Executable()) && (old(InOrder()) ==> InOrder())
      ensures old(Now()).LeadsTo(AddOne(tx, local), config, now, Now())
    {
      hide PriceHeap, Consistent, NoGaps, AllExecutable, VirtualFreeIn, SettledIn, Validity, Hopeless, Files, Promotes;
      hide Free, Priced, AllLocal, Squeezed;
      var err, room, filed, swept := AddTx(tx, local, now);
      AddOneLeads(old(Now()), tx, local, config, now, err, room, filed, Now());
    }

    method HandleTxs(txs: seq<Tx>, local: bool, now: nat)
      requires Valid()
      modifies this, all, priced
      ensures Valid() && (old(Executable()) ==> Executable()) && (old(InOrder()) ==> InOrder())
      ensures old(Now()).LeadsTo(AddMany(txs, local), config, now, Now())
    {
      hide PriceHeap, Consistent, NoGaps, AllExecutable, VirtualFreeIn, SettledIn, Validity, Hopeless, Promotes;
      hide Priced, AllLocalButOne, AddedAll, SweptAt, Batch.Of;
      var errs, log, swept := AddTxs(txs, local, now);
      AddManyLeads(old(Now()), txs, local, config, now, log, swept, Now());
    }

    method Perform(op: Operation, now: nat)
      requires Valid()
      modifies this, all, priced
      ensures Valid() && (old(Executable()) ==> Executable())
      ensures old(Now()).Gentle(op, config) && old(InOrder()) ==> InOrder()
      ensures old(Now()).LeadsTo(op, config, now, Now())
    {
      hide PriceHeap, Consistent, NoGaps, AllExecutable, VirtualFreeIn, SettledIn, Moment.RefilledPartly;
      match op {
        case AddOne(tx, local) => HandleTx(tx, local, now);
        case AddMany(txs, local) => HandleTxs(txs, local, now);
        case Reprice(price) => SetGasPrice(price);
        case Sweep => Evict(now);
        case NewHead(state, reinject, homestead') => HandleHead(state, reinject, homestead', now);
      }
    }

    /** Whatever is asked of the pool and in whatever order, at every moment its structures agree, what is pending can
        be executed, every remote transaction pays the gas price and everything covers its intrinsic gas. As long as
        every operation has been gentle at its turn, no account has a gap and nobody's next transaction is left
        queued. */
    method Run(ops: seq<Operation>, times: seq<nat>) returns (ghost moments: seq<Moment>)
      requires Valid() && |times| == |ops|
      modifies this, all, priced
      ensures Valid() && |moments| == |ops| + 1 && moments[0] == old(Now()) && moments[|ops|] == Now()
      ensures forall i :: 0 <= i < |ops| ==> moments[i].LeadsTo(ops[i], config, times[i], moments[i + 1])
      ensures forall i :: 0 <= i <= |ops| ==>
                moments[i].Agrees() && (moments[0].Executable() ==> moments[i].Executable())
      ensures forall i :: 0 <= i <= |ops| && moments[0].InOrder() && AllGentle(moments, ops, i) ==> moments[i].InOrder()
      ensures forall i :: 0 <= i <= |ops| && moments[0].IsPriced() ==> moments[i].IsPriced()
      ensures forall i, h :: 0 <= i <= |ops| && moments[0].IsCovered(h) && (h ==> moments[0].homestead) ==>
                moments[i].IsCovered(h)
    {
      hide PriceHeap, Consistent, NoGaps, AllExecutable, VirtualFreeIn, SettledIn, Moment.Gentle, Moment.LeadsTo;
      hide Priced, Covered;
      moments := [Now()];
      for i := 0 to |ops|
        invariant Valid() && |moments| == i + 1 && moments[0] == old(Now()) && moments[i] == Now()
        invariant forall k :: 0 <= k < i ==> moments[k].LeadsTo(ops[k], config, times[k], moments[k + 1])
        invariant forall k :: 0 <= k <= i ==>
                    moments[k].Agrees() && (moments[0].Executable() ==> moments[k].Executable())
        invariant forall k :: 0 <= k <= i && moments[0].InOrder() && AllGentle(moments, ops, k) ==> moments[k].InOrder()
      {
        ghost var before := moments;
        InOrderNow();
        Perform(ops[i], times[i]);
        InOrderNow();
        moments := moments + [Now()];
        forall k | 0 <= k <= i + 1 && moments[0].InOrder() && AllGentle(moments, ops, k) ensures moments[k].InOrder() {
          var j := if k <= i then k else i;
          assert AllGentle(before, ops, j);
        }
      }
      forall i | 0 <= i <= |ops| ensures moments[0].IsPriced() ==> moments[i].IsPriced() {
        RunAdmits(moments, ops, config, times, i, false);
      }
      forall i, h | 0 <= i <= |ops|
        ensures moments[0].IsCovered(h) && (h ==> moments[0].homestead) ==> moments[i].IsCovered(h)
      {
        RunAdmits(moments, ops, config, times, i, h);
      }
    }

    lemma InOrderNow()
      ensures Now().InOrder() <==> InOrder()
    {
      hide NoGaps, SettledIn;
      if InOrder() {
        forall a ensures SettledIn(pending, queue, chain, a) { assert Settled(a); }
      }
    }

    /** The first n operations were gentle at their turns. */
    ghost predicate AllGentle(moments: seq<Moment>, ops: seq<Operation>, n: nat)
      requires n <= |ops| && n <= |moments|
    {
      forall k :: 0 <= k < n ==> moments[k].Gentle(ops[k], config)
    }
  }
}
