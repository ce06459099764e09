/** Resets of the pool that put transactions back and leave it out of order, on concrete pools. */
module PoolExamples {
  import opened Wrappers
  import opened Heap
  import opened Transactions
  import opened TxListSpec
  import opened PricedLists
  import opened PoolModel
  import opened PoolSteps
  import opened PoolReadiness
  import opened PoolResets
  import opened TxPools
  import IntrinsicGas

  /** A transaction of account 1. */
  function Example(nonce: nat, price: nat): Tx {
    Tx(nonce, 1, true, nonce, price, 21000, 0, 100, [], false)
  }

  /** The first transaction of account 2. */
  function Other(): Tx {
    Tx(99, 2, true, 0, 2, 21000, 0, 100, [], false)
  }

  function ChainAt(nonce: nat): ChainState {
    ChainState(map[1 := nonce], map[1 := 1000000, 2 := 1000000], map[], 8000000)
  }

  lemma ExampleValid(nonce: nat, price: nat, low: nat, r: Rules)
    requires low <= nonce && 1 <= price <= 2 && r.chain == ChainAt(low) && r.gasPrice <= price
    ensures Validity(Example(nonce, price), false, r) == None && !Hopeless(r.chain, 1, Example(nonce, price))
  {
    assert IntrinsicGas.NonZeroBytes([]) == 0;
  }

  /** The lists of a pool with pending transactions of account 1 only. */
  lemma ExampleConsistent(l: ListValue, all: set<Tx>)
    requires ListOk(1, l, true) && l.items != map[]
    requires forall tx :: tx in all <==> tx.from == 1 && tx.nonce in l.items && l.items[tx.nonce] == tx
    ensures Consistent(map[1 := l], map[], all)
  {
  }

  lemma ExampleGapFree(l: ListValue, low: nat, high: nat)
    requires low <= high && forall n :: n in l.items <==> low <= n < high
    ensures NoGaps(map[1 := l], ChainAt(low), map[1 := high])
  {
    forall a
      ensures Gapless(ItemsOf(map[1 := l], a), ChainAt(low).Nonce(a), VirtualOf(map[1 := high], ChainAt(low), a))
    {
    }
  }

  /** A pool with the transactions of the list pending, on a chain at the lowest of them. */
  method Prepared(config: Config, low: nat, high: nat, l: ListValue, txs: seq<Tx>) returns (pool: TxPool)
    requires config.Workable() && low < high && ListOk(1, l, true) && forall n :: n in l.items <==> low <= n < high
    requires forall tx :: tx in txs <==> tx.from == 1 && tx.nonce in l.items && l.items[tx.nonce] == tx
    ensures fresh(pool) && fresh(pool.all) && fresh(pool.priced) && pool.Valid() && pool.GapFree()
    ensures pool.config == config && pool.chain == ChainAt(low) && pool.gasPrice == config.priceLimit
    ensures pool.locals == {}
    ensures pool.pending == map[1 := l] && pool.queue == map[] && pool.all.txs == set tx | tx in txs
  {
    hide PriceHeap, Consistent, NoGaps, AllExecutable, VirtualFreeIn, SettledIn, ListOk;
    pool := new TxPool(config, ChainAt(low), {}, true);
    pool.pending, pool.managed := map[1 := l], map[1 := high];
    pool.all.txs := set tx | tx in txs;
    for i := 0 to |txs|
      invariant pool.priced.Ordered() && forall k :: 0 <= k < i ==> txs[k] in pool.priced.items
      modifies pool.priced
    {
      pool.priced.Put(txs[i]);
    }
    assert low in l.items;
    ExampleConsistent(l, pool.all.txs);
    ExampleGapFree(l, low, high);
  }

  /** Account 1 has nonce 5 pending when a reorganisation takes its nonce back to 3 and only transaction 3 is put back:
      it and 5 are pending afterwards, and 4 is missing. */
  method PartialRefill() returns (pool: TxPool)
    ensures fresh(pool) && pool.Valid() && pool.Executable() && !pool.GapFree()
  {
    hide PriceHeap, Consistent, NoGaps, AllExecutable, VirtualFreeIn, SettledIn, GapAt, AddedAll, Validity;
    var t3, t5 := Example(3, 1), Example(5, 1);
    var l := NewList(true).Added(t5);
    assert l.items == map[5 := t5];
    pool := Prepared(Config(1, 10, 16, 4096, 64, 1024, 10800), 5, 6, l, [t5]);
    assert pool.all.txs == {t5};
    RefillIsPartial(pool.RulesOn(ChainAt(3)), l);
    assert pool.PartlyRefilled(ChainAt(3), [t3], 1);
    ghost var course := pool.Reset(Some(ChainAt(3)), [t3], 0);
  }

  /** A pool for two transactions has nonces 2, the cheaper, and 3 of account 1 pending when the chain moves on to nonce
      3. Putting back a transaction of account 2 makes room by discarding 2, whose removal takes the virtual nonce to 2,
      below the chain, and postpones 3. From then on 3, though it is the next to execute, is not promoted. These are the
      statements of the reset; those that truncate find no more than the pool may hold. */
  method StrandedBelowChain() returns (pool: TxPool)
    ensures fresh(pool) && pool.Valid() && pool.Executable() && pool.chain.Nonce(1) == 3
    ensures !pool.Settled(1) && !pool.GapFree()
  {
    hide PriceHeap, Consistent, NoGaps, AllExecutable, VirtualFreeIn, SettledIn, SweptAt, TurnDrops, OnlyPostponed;
    hide Remaining;
    hide SubMap, Cut, Hopeless;
    pool := StaleDiscarded();
    ghost var q0, all0 := pool.queue, pool.all.txs;
    pool.PromoteAccount(2, 0);
    NotDropped(q0, all0, pool.queue, pool.all.txs);
    ghost var p1, q1 := pool.pending, pool.queue;
    pool.DemoteUnexecutables();
    NothingPending(pool.pending, pool.queue, pool.all.txs, 1);
    pool.UpdateNonces();
    ghost var p, q, all, m := pool.pending, pool.queue, pool.all.txs, pool.managed;
    pool.PromoteAccount(1, 0);
    StillStranded(p1, q1, p, q, m, all, pool.pending, pool.queue, pool.managed, pool.all.txs);
  }

  /** The pool after putting back the transaction of account 2. */
  method StaleDiscarded() returns (pool: TxPool)
    ensures fresh(pool) && fresh(pool.all) && fresh(pool.priced) && pool.Valid() && pool.chain == ChainAt(3)
    ensures pool.config.accountQueue == 64 && pool.locals == {} && pool.pending == map[] && pool.Virtual(1) == 2
    ensures pool.all.txs == {Example(3, 2), Other()} && ItemsOf(pool.queue, 1) == map[3 := Example(3, 2)]
    ensures ItemsOf(pool.queue, 2) == map[0 := Other()]
  {
    hide PriceHeap, Consistent, NoGaps, AllExecutable, VirtualFreeIn, SettledIn, Inserted;
    pool := RoomMade();
    ghost var c := Content(pool.pending, pool.queue, pool.all.txs);
    var replaced, err := pool.Insert(Other(), false);
    OtherQueued(c, Content(pool.pending, pool.queue, pool.all.txs), 10, replaced, err);
  }

  /** The pool after the discarding. */
  method RoomMade() returns (pool: TxPool)
    ensures fresh(pool) && fresh(pool.all) && fresh(pool.priced) && pool.Valid() && pool.chain == ChainAt(3)
    ensures pool.config.accountQueue == 64 && pool.config.priceBump == 10 && pool.locals == {} && pool.Virtual(1) == 2
    ensures pool.all.txs == {Example(3, 2)} && pool.pending == map[]
    ensures ItemsOf(pool.queue, 1) == map[3 := Example(3, 2)] && 2 !in pool.queue
  {
    hide PriceHeap, Consistent, NoGaps, AllExecutable, VirtualFreeIn, SettledIn, Cut;
    pool := TwoPending();
    pool.chain, pool.managed := ChainAt(3), map[];
    var drop := pool.priced.Discard(1, {});
    CheapestDropped(Example(2, 1), Example(3, 2), pool.all.txs, drop);
    ghost var l := pool.pending[1];
    pool.RemoveTx(drop[0], false);
    HigherPostponed(l, pool.pending, pool.queue);
  }

  method TwoPending() returns (pool: TxPool)
    ensures fresh(pool) && fresh(pool.all) && fresh(pool.priced) && pool.Valid()
    ensures pool.config.accountQueue == 64 && pool.config.priceBump == 10 && pool.locals == {} && pool.queue == map[]
    ensures pool.all.txs == {Example(2, 1), Example(3, 2)} && pool.pending.Keys == {1}
    ensures pool.pending == map[1 := pool.pending[1]]
    ensures pool.pending[1].items == map[2 := Example(2, 1), 3 := Example(3, 2)]
  {
    hide PriceHeap, Consistent, NoGaps, AllExecutable, VirtualFreeIn, SettledIn;
    var t2, t3 := Example(2, 1), Example(3, 2);
    var l := NewList(true).Added(t2).Added(t3);
    assert l.items == map[2 := t2, 3 := t3];
    pool := Prepared(Config(1, 10, 2, 1, 64, 1, 10800), 2, 4, l, [t2, t3]);
  }

  lemma CheapestDropped(cheap: Tx, dear: Tx, txs: set<Tx>, drop: seq<Tx>)
    requires cheap.price < dear.price && txs == {cheap, dear} && |drop| <= 1 && forall tx :: tx in drop ==> tx in txs
    requires forall t, d :: t in txs && t !in drop && d in drop ==> !Cheaper(t, d)
    requires |drop| < 1 ==> forall tx :: tx in txs ==> tx in drop
    ensures drop == [cheap]
  {
    assert cheap in txs;
    if |drop| == 1 {
      assert drop[0] in drop;
    }
  }

  lemma OtherQueued(c: Content, c': Content, priceBump: nat, replaced: bool, err: Option<Error>)
    requires c.pending == map[] && 2 !in c.queue && Inserted(c, c', Other(), priceBump, replaced, err)
    ensures c'.pending == map[] && c'.all == c.all + {Other()}
    ensures ItemsOf(c'.queue, 2) == map[0 := Other()] && ItemsOf(c'.queue, 1) == ItemsOf(c.queue, 1)
  {
    assert NewList(false).Accepts(Other(), priceBump);
    assert c'.queue == c.queue[2 := NewList(false).Added(Other())];
  }

  /** The turn of account 2 takes nothing of account 1 from the pool. */
  lemma NotDropped(q: Accounts, all: set<Tx>, q': Accounts, all': set<Tx>)
    requires Example(3, 2) in all && TurnDrops(q, all, q', all', ChainAt(3), 2, true, 64)
    ensures Example(3, 2) in all'
  {
  }

  lemma HigherPostponed(l: ListValue, p: Accounts, q: Accounts)
    requires l.items == map[2 := Example(2, 1), 3 := Example(3, 2)] && Cut(map[1 := l], map[], p, q, Example(2, 1))
    ensures p == map[] && ItemsOf(q, 1) == map[3 := Example(3, 2)] && 2 !in q
  {
    assert Below(l.items, 2) == map[];
    assert From(l.items, 3) == map[3 := Example(3, 2)];
  }

  lemma NothingPending(p: Accounts, q: Accounts, all: set<Tx>, a: Address)
    requires Consistent(p, q, all) && ItemsOf(p, a) == map[]
    ensures a !in p
  {
  }

  lemma StillStranded(p1: Accounts, q1: Accounts, p: Accounts, q: Accounts, m: map<Address, nat>, all: set<Tx>,
                      p': Accounts, q': Accounts, m': map<Address, nat>, all': set<Tx>)
    requires ItemsOf(p, 1) == map[] && VirtualOf(m, ChainAt(3), 1) == 2 && Example(3, 2) in all
    requires ItemsOf(p1, 1) == map[] && ItemsOf(q1, 1) == map[3 := Example(3, 2)] && OnlyPostponed(p1, q1, q, 1)
    requires Consistent(p, q, all) && Consistent(p', q', all')
    requires SweptAt(p, q, m, p', q', m', ChainAt(3), 1, true) && TurnDrops(q, all, q', all', ChainAt(3), 1, true, 64)
    ensures !SettledIn(p', q', ChainAt(3), 1) && !NoGaps(p', ChainAt(3), m')
  {
    var t3 := Example(3, 2);
    var queued := PayableItems(q, ChainAt(3), 1);
    PayableMeaning(p, q, all, ChainAt(3), 1);
    VirtualBelowChain(map[], ChainAt(3), 1, 2, queued);
    assert ItemsOf(p', 1) == map[] && VirtualOf(m', ChainAt(3), 1) == 2;
    forall n | n in ItemsOf(q', 1) ensures n == 3 {
      assert n in queued && n in ItemsOf(q, 1) && n in ItemsOf(q1, 1);
    }
    AtMostOne(ItemsOf(q', 1), 3);
    ExampleValid(3, 2, 3, Rules(ChainAt(3), {}, 1, true, 10));
    assert t3 in all';
    assert !Stored(p', t3);
    assert Stored(q', t3);
    assert !Gapless(ItemsOf(p', 1), ChainAt(3).Nonce(1), VirtualOf(m', ChainAt(3), 1));
  }

  lemma AtMostOne(items: Items, n: nat)
    requires forall k :: k in items ==> k == n
    ensures |items| <= 1
  {
    assert items.Keys <= {n};
    if items.Keys != {} {
      assert items.Keys == {n};
    }
    assert |items| == |items.Keys|;
  }

  lemma RefillIsPartial(r: Rules, l: ListValue)
    requires r.chain == ChainAt(3) && r.gasPrice <= 1 && l.items == map[5 := Example(5, 1)]
    ensures var f := AddedAll(Content(map[1 := l], map[], {Example(5, 1)}), [Example(3, 1)], false, 1, r);
            GapAt(f.content, f.dirty, ChainAt(3), 1, 5)
  {
    var t3, t5 := Example(3, 1), Example(5, 1);
    var c := Content(map[1 := l], map[], {t5});
    ExampleValid(3, 1, 3, r);
    ExampleValid(5, 1, 3, r);
    hide Validity;
    NobodyAdded(c, [t3], false, r);
    NextAdded(c, [t3], false, 1, r);
    hide AddedAll;
    var home := NewList(false);
    assert Home(c, t3) == home && home.items == map[];
    var f := AddedAll(c, [t3], false, 1, r);
    var queued := home.Added(t3);
    assert f == Refill(Content(map[1 := l], map[1 := queued], {t5, t3}), {1});
    assert queued.items == map[3 := t3];
    var payable := PayableItems(f.content.queue, ChainAt(3), 1);
    assert payable == map[3 := t3];
    assert RunEnd(payable, 3) == 4;
  }
}
