/** What the two halves of the pool stand for: pending transactions can be executed on the current chain state, and no
    queued one could be the next of its account. */
module PoolReadiness {
  import opened Wrappers
  import opened Transactions
  import opened TxListSpec
  import opened TxLists
  import opened PricedLists
  import opened PoolModel
  import opened PoolSteps

  /** Not executable on the chain state, whatever else is pooled: the nonce has passed, or the account cannot pay for
      it, or no block can hold it. */
  predicate Hopeless(chain: ChainState, a: Address, tx: Tx) {
    tx.nonce < chain.Nonce(a) || Unpayable(tx, chain.Balance(a), chain.maxGas)
  }

  ghost predicate Bearable(items: Items, chain: ChainState, a: Address) {
    forall n :: n in items ==> !Hopeless(chain, a, items[n])
  }

  ghost predicate AllExecutable(p: Accounts, chain: ChainState) {
    forall a :: Bearable(ItemsOf(p, a), chain, a)
  }

  /** Executable, transaction by transaction: the nonce has not passed, the account can pay, a block can hold it. */
  lemma ExecutableMeans(p: Accounts, chain: ChainState)
    requires ListsOk(p, true)
    ensures AllExecutable(p, chain) <==>
              forall tx :: Stored(p, tx) ==>
                && tx.nonce >= chain.Nonce(tx.from) && tx.price * tx.gas + tx.value <= chain.Balance(tx.from)
                && tx.gas <= chain.maxGas
  {
    forall a, n | n in ItemsOf(p, a) ensures Stored(p, ItemsOf(p, a)[n]) && ItemsOf(p, a)[n].from == a {
      assert ListOk(a, p[a], true);
    }
    forall tx | Stored(p, tx) && AllExecutable(p, chain) ensures !Hopeless(chain, tx.from, tx) {
      assert Bearable(ItemsOf(p, tx.from), chain, tx.from);
    }
  }

  /** The nonce the account would execute next: the first from the chain nonce on that is not pending. */
  ghost function NextNonce(p: Accounts, chain: ChainState, a: Address): nat {
    RunEnd(ItemsOf(p, a), chain.Nonce(a))
  }

  /** The transaction that the account would execute next is not left in its queue. */
  ghost predicate SettledIn(p: Accounts, q: Accounts, chain: ChainState, a: Address) {
    NextNonce(p, chain, a) !in ItemsOf(q, a)
  }

  lemma GaplessNext(items: Items, base: nat, virtual: nat)
    requires Gapless(items, base, virtual)
    ensures RunEnd(items, base) == virtual
  {
    hide RunEnd;
    var e := RunEnd(items, base);
    assert base <= e && e !in items && forall k :: base <= k < e ==> k in items;
    assert e > virtual ==> virtual in items;
  }

  /** Without gaps, the next nonce is the virtual one. */
  lemma NextIsVirtual(p: Accounts, q: Accounts, chain: ChainState, managed: map<Address, nat>)
    requires NoGaps(p, chain, managed)
    ensures forall a :: SettledIn(p, q, chain, a) <==> VirtualFreeIn(q, chain, managed, a)
  {
    forall a ensures SettledIn(p, q, chain, a) <==> VirtualFreeIn(q, chain, managed, a) {
      GaplessNext(ItemsOf(p, a), chain.Nonce(a), VirtualOf(managed, chain, a));
    }
  }

  /** Without gaps before and after, whoever was settled is, if no virtual nonce has come to be queued. */
  lemma OrderKept(p: Accounts, q: Accounts, managed: map<Address, nat>, p': Accounts, q': Accounts,
                  managed': map<Address, nat>, chain: ChainState)
    requires NoGaps(p, chain, managed) ==> NoGaps(p', chain, managed')
    requires forall a :: VirtualFreeIn(q, chain, managed, a) ==> VirtualFreeIn(q', chain, managed', a)
    ensures NoGaps(p, chain, managed) && (forall a :: SettledIn(p, q, chain, a)) ==>
              forall a :: SettledIn(p', q', chain, a)
  {
    hide NoGaps, SettledIn, VirtualFreeIn;
    if NoGaps(p, chain, managed) && forall a :: SettledIn(p, q, chain, a) {
      NextIsVirtual(p, q, chain, managed);
      NextIsVirtual(p', q', chain, managed');
      forall a ensures SettledIn(p', q', chain, a) {
        assert SettledIn(p, q, chain, a);
      }
    }
  }

  /** The virtual nonce of the account is not queued. */
  ghost predicate VirtualFreeIn(q: Accounts, chain: ChainState, managed: map<Address, nat>, a: Address) {
    VirtualOf(managed, chain, a) !in ItemsOf(q, a)
  }

  lemma ExecutableUpdate(p: Accounts, p': Accounts, chain: ChainState, a: Address)
    requires AllExecutable(p, chain) && SameBut(p, p', a) && Bearable(ItemsOf(p', a), chain, a)
    ensures AllExecutable(p', chain)
  {
    hide Bearable;
    forall b ensures Bearable(ItemsOf(p', b), chain, b) {
      assert b != a ==> ItemsOf(p', b) == ItemsOf(p, b);
    }
  }

  lemma ExecutableFewer(p: Accounts, p': Accounts, chain: ChainState, a: Address)
    requires AllExecutable(p, chain) && SameBut(p, p', a) && SubMap(ItemsOf(p', a), ItemsOf(p, a))
    ensures AllExecutable(p', chain)
  {
    assert Bearable(ItemsOf(p, a), chain, a);
    hide AllExecutable;
    ExecutableUpdate(p, p', chain, a);
  }

  /** Removing a pending transaction: what is pending stays executable, and the nonce that would come next is the
      removed one, or was below it before. */
  lemma RemovalKeeps(p: Accounts, q: Accounts, all: set<Tx>, chain: ChainState, managed: map<Address, nat>, tx: Tx,
                     p': Accounts, q': Accounts, managed': map<Address, nat>)
    requires Consistent(p, q, all) && Stored(p, tx) && Cut(p, q, p', q', tx)
    requires managed' == if VirtualOf(managed, chain, tx.from) > tx.nonce then managed[tx.from := tx.nonce] else managed
    ensures AllExecutable(p, chain) ==> AllExecutable(p', chain)
    ensures forall b :: VirtualFreeIn(q, chain, managed, b) ==> VirtualFreeIn(q', chain, managed', b)
  {
    hide AllExecutable;
    if AllExecutable(p, chain) {
      ExecutableFewer(p, p', chain, tx.from);
    }
    assert tx.nonce !in ItemsOf(q, tx.from);
    forall b | VirtualFreeIn(q, chain, managed, b) ensures VirtualFreeIn(q', chain, managed', b) {
      assert b != tx.from ==> ItemsOf(q', b) == ItemsOf(q, b);
    }
  }

  lemma FewerQueued(q: Accounts, q': Accounts, chain: ChainState, managed: map<Address, nat>, a: Address)
    requires SameBut(q, q', a) && ItemsOf(q', a).Keys <= ItemsOf(q, a).Keys
    ensures forall b :: VirtualFreeIn(q, chain, managed, b) ==> VirtualFreeIn(q', chain, managed, b)
  {
    forall b | VirtualFreeIn(q, chain, managed, b) ensures VirtualFreeIn(q', chain, managed, b) {
      assert b != a ==> ItemsOf(q', b) == ItemsOf(q, b);
    }
  }

  /** No virtual nonce but account a's differs. */
  ghost predicate SameVirtual(managed: map<Address, nat>, managed': map<Address, nat>, chain: ChainState, a: Address) {
    forall b :: b != a ==> VirtualOf(managed', chain, b) == VirtualOf(managed, chain, b)
  }

  /** A change to one account's queue and virtual nonce that leaves the virtual nonce free. */
  lemma VirtualFreeUpdate(q: Accounts, q': Accounts, chain: ChainState, managed: map<Address, nat>,
                          managed': map<Address, nat>, a: Address)
    requires SameBut(q, q', a) && VirtualOf(managed', chain, a) !in ItemsOf(q', a)
    requires SameVirtual(managed, managed', chain, a)
    ensures VirtualFreeIn(q', chain, managed', a)
    ensures forall b :: VirtualFreeIn(q, chain, managed, b) ==> VirtualFreeIn(q', chain, managed', b)
  {
    forall b | VirtualFreeIn(q, chain, managed, b) ensures VirtualFreeIn(q', chain, managed', b) {
      assert b != a ==> ItemsOf(q', b) == ItemsOf(q, b);
    }
  }

  /** Dropping the highest pending nonce. */
  lemma TopKeeps(p: Accounts, q: Accounts, all: set<Tx>, chain: ChainState, managed: map<Address, nat>, a: Address)
    requires Consistent(p, q, all) && a in p && |p[a].items| >= 2
    ensures p[a].items.Keys != {}
    ensures AllExecutable(p, chain) ==> AllExecutable(p[a := Shorter(p[a], 1)], chain)
    ensures forall b :: VirtualFreeIn(q, chain, managed, b) ==>
              VirtualFreeIn(q, chain, managed[a := Maximum(p[a].items.Keys)], b)
  {
    hide AllExecutable;
    ShorterMeaning(p[a]);
    var top := Maximum(p[a].items.Keys);
    assert top in ItemsOf(p, a) && top !in ItemsOf(q, a);
    if AllExecutable(p, chain) {
      assert SubMap(Shorter(p[a], 1).items, p[a].items);
      ExecutableFewer(p, p[a := Shorter(p[a], 1)], chain, a);
    }
    forall b | VirtualFreeIn(q, chain, managed, b) ensures VirtualFreeIn(q, chain, managed[a := top], b) {
    }
  }

  /** What survives Forward and Filter can be executed. */
  lemma SurvivorsBearable(l0: ListValue, chain: ChainState, a: Address)
    requires Keyed(l0.items)
    ensures var l1 := l0.(items := From(l0.items, chain.Nonce(a)));
            Bearable(l1.Filtered(chain.Balance(a), chain.maxGas).items, chain, a)
  {
    FilterMeaning(l0.(items := From(l0.items, chain.Nonce(a))), chain.Balance(a), chain.maxGas);
  }

  /** Appending what survives to an executable pending list. */
  lemma RunExecutable(p: Accounts, p': Accounts, chain: ChainState, a: Address, survivors: Items, rest: set<nat>)
    requires AllExecutable(p, chain) && SameBut(p, p', a) && Bearable(survivors, chain, a)
    requires ItemsOf(p', a) == ItemsOf(p, a) + (survivors - rest)
    ensures AllExecutable(p', chain)
  {
    assert Bearable(ItemsOf(p, a), chain, a);
    hide AllExecutable;
    ExecutableUpdate(p, p', chain, a);
  }

  /** After Ready has been taken out, the nonce past the run, or the one asked for if there is none, is not queued. */
  lemma ReadyTakesVirtual(items: Items, virtual: nat)
    ensures var end := ReadyEnd(items, virtual);
            (if RunStart(items, end) < end then end else virtual) !in From(items, end)
  {
    var end := ReadyEnd(items, virtual);
    if items.Keys != {} && Minimum(items.Keys) <= virtual {
      assert Minimum(items.Keys) in Below(items, end);
    }
  }

  /** A validated transaction in place of a pending one. */
  lemma ReplacementExecutable(p: Accounts, chain: ChainState, tx: Tx)
    requires AllExecutable(p, chain) && tx.from in p && !Hopeless(chain, tx.from, tx)
    ensures AllExecutable(p[tx.from := p[tx.from].Added(tx)], chain)
  {
    assert Bearable(ItemsOf(p, tx.from), chain, tx.from);
    hide AllExecutable;
    ExecutableUpdate(p, p[tx.from := p[tx.from].Added(tx)], chain, tx.from);
  }

  // ---------- what leaves the pool ----------

  /** Forward and Filter take out exactly the hopeless transactions of a list. */
  lemma HopelessDropped(l0: ListValue, chain: ChainState, a: Address)
    requires Keyed(l0.items)
    ensures var l1 := l0.(items := From(l0.items, chain.Nonce(a)));
            var gone := l1.Unaffordable(chain.Balance(a), chain.maxGas);
            forall tx :: tx in Txs(l0.items - l1.items.Keys) + Txs(gone) <==>
              tx.nonce in l0.items && l0.items[tx.nonce] == tx && Hopeless(chain, a, tx)
  {
    var l1 := l0.(items := From(l0.items, chain.Nonce(a)));
    TxsMeaning(l0.items - l1.items.Keys);
    TxsMeaning(l1.Unaffordable(chain.Balance(a), chain.maxGas));
  }

  /** For a list that is not strict, that is all Filter takes out. */
  lemma NothingInvalidated(l: ListValue, costLimit: int, gasLimit: nat)
    requires !l.strict
    ensures l.items - l.Filtered(costLimit, gasLimit).items.Keys == l.Unaffordable(costLimit, gasLimit)
  {
  }

  /** Exactly the hopeless ones of the list have left the pool. */
  ghost predicate LosesHopeless(all: set<Tx>, all': set<Tx>, items: Items, chain: ChainState, a: Address) {
    forall tx :: tx in all && tx !in all' <==>
      tx in all && tx.nonce in items && items[tx.nonce] == tx && Hopeless(chain, a, tx)
  }

  /** What an account's turn in promoteExecutables drops before promoting. */
  lemma QueueDrops(p: Accounts, q: Accounts, all: set<Tx>, chain: ChainState, a: Address)
    requires Consistent(p, q, all) && a in q
    ensures var l0 := q[a];
            var l1 := l0.(items := From(l0.items, chain.Nonce(a)));
            var l2 := l1.Filtered(chain.Balance(a), chain.maxGas);
            && Bearable(l2.items, chain, a)
            && forall tx :: tx in Txs(l0.items - l1.items.Keys) + Txs(l1.items - l2.items.Keys) <==>
                 tx.nonce in l0.items && l0.items[tx.nonce] == tx && Hopeless(chain, a, tx)
  {
    QueueKeyed(p, q, all, a);
    assert !q[a].strict;
    hide Consistent;
    SurvivorsBearable(q[a], chain, a);
    HopelessDropped(q[a], chain, a);
    NothingInvalidated(q[a].(items := From(q[a].items, chain.Nonce(a))), chain.Balance(a), chain.maxGas);
  }

  /** Cap drops nothing, or the queue is at the limit and everything dropped is above everything kept. */
  lemma CapDrops(l3: ListValue, cap: nat)
    requires Keyed(l3.items)
    ensures var l4 := l3.(items := Lowest(l3.items, cap));
            forall tx :: tx in Txs(l3.items - l4.items.Keys) ==>
              && tx.nonce in l3.items && l3.items[tx.nonce] == tx && |l4.items| == cap
              && forall n :: n in l4.items ==> n < tx.nonce
  {
    LowestMeaning(l3.items, cap);
    TxsMeaning(l3.items - Lowest(l3.items, cap).Keys);
  }

  /** What one account's turn in promoteExecutables takes out of the pool: everything hopeless in its queue, and beyond
      that only what exceeds a full queue of a remote account, from the high end. */
  ghost predicate TurnDrops(q: Accounts, all: set<Tx>, q': Accounts, all': set<Tx>, chain: ChainState, a: Address,
                            remote: bool, cap: nat) {
    && all' <= all
    && (forall tx :: Stored(q, tx) && tx.from == a && Hopeless(chain, a, tx) ==> tx !in all')
    && (forall tx :: tx in all && tx !in all' ==>
          && Stored(q, tx) && tx.from == a
          && (Hopeless(chain, a, tx) || (remote && Excess(ItemsOf(q', a), cap, tx))))
  }

  ghost predicate Excess(kept: Items, cap: nat, tx: Tx) {
    |kept| == cap && forall n :: n in kept ==> n < tx.nonce
  }

  lemma NoTurn(q: Accounts, all: set<Tx>, chain: ChainState, managed: map<Address, nat>, a: Address, remote: bool,
               cap: nat)
    requires a !in q
    ensures TurnDrops(q, all, q, all, chain, a, remote, cap) && VirtualFreeIn(q, chain, managed, a)
  {
  }

  lemma OthersCapped(q: Accounts, q': Accounts, a: Address)
    requires SameBut(q, q', a)
    ensures forall b :: b != a ==> ItemsOf(q', b) == ItemsOf(q, b)
  {
  }

  lemma ShortenedCapped(q: Accounts, q': Accounts, locals: set<Address>)
    requires QueueShortened(q, q', locals)
    ensures forall a :: |ItemsOf(q', a)| <= |ItemsOf(q, a)|
  {
    forall a ensures |ItemsOf(q', a)| <= |ItemsOf(q, a)| {
      if a in q {
        LowestMeaning(q[a].items, |ItemsOf(q', a)|);
      }
    }
  }

  lemma TurnDropped(p: Accounts, q: Accounts, all: set<Tx>, chain: ChainState, a: Address, mid: set<Tx>, l3: ListValue,
                    l4: ListValue, remote: bool, cap: nat)
    requires Consistent(p, q, all) && a in q && mid <= all && SubMap(l3.items, q[a].items)
    requires LosesHopeless(all, mid, q[a].items, chain, a)
    requires l4 == if remote then l3.(items := Lowest(l3.items, cap)) else l3
    ensures TurnDrops(q, all, Store(q, a, l4), mid - Txs(l3.items - l4.items.Keys), chain, a, remote, cap)
  {
    hide Consistent, Hopeless, Lowest, Txs, Excess, Keyed;
    QueueKeyed(p, q, all, a);
    assert forall tx :: tx in Txs(l3.items - l4.items.Keys) ==>
                          Stored(q, tx) && tx.from == a && remote && Excess(l4.items, cap, tx) by {
      CapExcess(q, a, l3, l4, remote, cap);
    }
    forall tx | Stored(q, tx) && tx.from == a && Hopeless(chain, a, tx) ensures tx !in mid {
      StoredQueued(p, q, all, tx);
    }
    forall tx | tx in all && tx !in mid ensures Stored(q, tx) && tx.from == a && Hopeless(chain, a, tx) {
    }
  }

  lemma NotAmongFewer(more: Items, fewer: Items, n: nat)
    requires SubMap(fewer, more) && n !in more
    ensures n !in fewer
  {
  }

  lemma CapExcess(q: Accounts, a: Address, l3: ListValue, l4: ListValue, remote: bool, cap: nat)
    requires a in q && Keyed(q[a].items) && SubMap(l3.items, q[a].items)
    requires forall n :: n in q[a].items ==> q[a].items[n].from == a
    requires l4 == if remote then l3.(items := Lowest(l3.items, cap)) else l3
    ensures forall tx :: tx in Txs(l3.items - l4.items.Keys) ==>
              Stored(q, tx) && tx.from == a && remote && Excess(l4.items, cap, tx)
  {
    hide Lowest;
    CapDrops(l3, cap);
  }

  // ---------- demotion ----------

  /** What demoteUnexecutables leaves of a pending list: the affordable part, provided it starts at the chain nonce. */
  function Remaining(l0: ListValue, chain: ChainState, a: Address): Items {
    var left := l0.(items := From(l0.items, chain.Nonce(a))).Affordable(chain.Balance(a), chain.maxGas);
    if chain.Nonce(a) in left then left else map[]
  }

  /** Forward and Filter drop exactly the hopeless transactions of a pending list, too. */
  lemma PendingDrops(p: Accounts, q: Accounts, all: set<Tx>, chain: ChainState, a: Address)
    requires Consistent(p, q, all) && a in p
    ensures var l0 := p[a];
            var l1 := l0.(items := From(l0.items, chain.Nonce(a)));
            var left := l1.Filtered(chain.Balance(a), chain.maxGas);
            && LosesHopeless(all,
                             all - Txs(l0.items - l1.items.Keys) - Txs(l1.Unaffordable(chain.Balance(a), chain.maxGas)),
                             l0.items, chain, a)
            && Remaining(l0, chain, a) ==
               if left.items != map[] && chain.Nonce(a) !in left.items then map[] else left.items
  {
    PendingPooled(p, q, all, a);
    hide Consistent;
    HopelessDropped(p[a], chain, a);
  }

  lemma RemainingExecutable(p: Accounts, p': Accounts, chain: ChainState)
    requires forall a :: ItemsOf(p', a) == if a in p then Remaining(p[a], chain, a) else map[]
    requires ListsOk(p, true)
    ensures AllExecutable(p', chain)
  {
    forall a ensures Bearable(ItemsOf(p', a), chain, a) {
      if a in p {
        assert ListOk(a, p[a], true);
        SurvivorsBearable(p[a], chain, a);
      }
    }
  }

  /** The hopeless pending transactions of the accounts already visited have left the pool. */
  ghost predicate DemotedSoFar(p: Accounts, rest: set<Address>, all: set<Tx>, all': set<Tx>, chain: ChainState) {
    forall tx :: tx in all' <==> tx in all && !(tx.from !in rest && Stored(p, tx) && Hopeless(chain, tx.from, tx))
  }

  lemma DemotedNext(p: Accounts, rest: set<Address>, all: set<Tx>, before: set<Tx>, after: set<Tx>, chain: ChainState,
                    a: Address)
    requires DemotedSoFar(p, rest, all, before, chain) && a in rest && a in p && after <= before
    requires LosesHopeless(before, after, p[a].items, chain, a)
    requires ListsOk(p, true)
    ensures DemotedSoFar(p, rest - {a}, all, after, chain)
  {
    hide Hopeless;
    assert ListOk(a, p[a], true);
  }

  lemma DemotionStarts(p: Accounts, q: Accounts, all: set<Tx>, chain: ChainState)
    requires Consistent(p, q, all)
    ensures ListsOk(p, true) && DemotedSoFar(p, p.Keys, all, all, chain)
  {
  }

  lemma DemotionEnds(p: Accounts, all: set<Tx>, all': set<Tx>, chain: ChainState)
    requires DemotedSoFar(p, {}, all, all', chain)
    ensures forall tx :: tx in all' <==> tx in all && !(Stored(p, tx) && Hopeless(chain, tx.from, tx))
  {
  }

  lemma NobodyQueued(q: Accounts, chain: ChainState, managed: map<Address, nat>)
    ensures forall a :: a !in q ==> VirtualFreeIn(q, chain, managed, a)
  {
  }

  /** What demotion queues was pending. */
  ghost predicate OnlyPostponed(p: Accounts, q: Accounts, q': Accounts, a: Address) {
    forall n :: n in ItemsOf(q', a) ==> n in ItemsOf(q, a) || n in ItemsOf(p, a)
  }

  /** Account a has not been visited yet. */
  ghost predicate Undemoted(p: Accounts, p': Accounts, a: Address) {
    a in p && a in p' && p'[a] == p[a]
  }

  lemma NothingPostponed(p: Accounts, q: Accounts)
    ensures forall a :: OnlyPostponed(p, q, q, a)
    ensures forall a :: a in p ==> Undemoted(p, p, a)
  {
  }

  lemma PostponedNext(p0: Accounts, q0: Accounts, p: Accounts, q1: Accounts, q2: Accounts, a: Address)
    requires forall b :: OnlyPostponed(p0, q0, q1, b)
    requires SameBut(q1, q2, a) && OnlyPostponed(p, q1, q2, a) && ItemsOf(q1, a) == ItemsOf(q0, a)
    requires Undemoted(p0, p, a)
    ensures forall b :: OnlyPostponed(p0, q0, q2, b)
    ensures forall b :: b != a ==> ItemsOf(q2, b) == ItemsOf(q1, b)
  {
    forall b ensures OnlyPostponed(p0, q0, q2, b) {
      assert OnlyPostponed(p0, q0, q1, b);
    }
  }

  lemma OthersUndemoted(p0: Accounts, p1: Accounts, p2: Accounts, a: Address)
    requires SameBut(p1, p2, a)
    ensures forall b :: b != a && Undemoted(p0, p1, b) ==> Undemoted(p0, p2, b)
    ensures forall b :: b != a ==> ItemsOf(p2, b) == ItemsOf(p1, b)
  {
  }

  lemma PostponedPending(l0: Items, l1: Items, gone: Items, postponed: Items, rest: Items)
    requires SubMap(l1, l0) && Parts(l1 - gone.Keys, postponed, rest)
    ensures forall n :: n in postponed ==> n in l0
  {
  }

  // ---------- adding ----------

  /** The lists and the lookup together. */
  datatype Content = Content(pending: Accounts, queue: Accounts, all: set<Tx>)

  /** Filing a new transaction: it goes where its nonce is pending, or else to the queue, and takes the place of what is
      there under its nonce, if that is enough cheaper; if it is not, nothing happens. */
  ghost predicate Inserted(c: Content, c': Content, tx: Tx, priceBump: nat, replaced: bool, err: Option<Error>) {
    var pend := tx.nonce in ItemsOf(c.pending, tx.from);
    var l := if pend then ListOf(c.pending, tx.from, true) else ListOf(c.queue, tx.from, false);
    if l.Accepts(tx, priceBump) then
      && err == None && replaced == (tx.nonce in l.items)
      && c'.all == c.all - (if replaced then {l.items[tx.nonce]} else {}) + {tx}
      && c'.pending == (if pend then c.pending[tx.from := l.Added(tx)] else c.pending)
      && c'.queue == (if pend then c.queue else c.queue[tx.from := l.Added(tx)])
    else
      err == Some(ReplaceUnderpriced) && !replaced && c' == c
  }

  /** Only remote transactions leave, and no remote one that stays is cheaper. */
  ghost predicate MadeRoom(all: set<Tx>, all': set<Tx>, locals: set<Address>) {
    && all' <= all
    && (forall d :: d in all && d !in all' ==> !IsLocal(d, locals))
    && (forall t, d :: t in all' && !IsLocal(t, locals) && d in all && d !in all' ==> !Cheaper(t, d))
  }

  ghost predicate AllLocal(all: set<Tx>, locals: set<Address>) {
    forall t :: t in all ==> IsLocal(t, locals)
  }

  /** All transactions but at most one are local. */
  ghost predicate AllLocalButOne(all: set<Tx>, locals: set<Address>) {
    exists t :: AllLocalExcept(all, t, locals)
  }

  ghost predicate AllLocalExcept(all: set<Tx>, t: Tx, locals: set<Address>) {
    forall u :: u in all && u != t ==> IsLocal(u, locals)
  }

  lemma SmallerSet(a: set<Tx>, b: set<Tx>)
    requires a <= b
    ensures |a| <= |b| && (a != b ==> |a| < |b|)
  {
    assert b == a + (b - a);
    if a != b {
      assert b - a != {};
    }
  }

  lemma {:induction false} ListedAtMost(s: set<Tx>, listed: seq<Tx>)
    requires forall t :: t in s ==> t in listed
    ensures |s| <= |listed|
    decreases |listed|
  {
    if listed == [] {
      assert s == {};
    } else {
      var rest := listed[..|listed| - 1];
      var last := listed[|listed| - 1];
      assert listed == rest + [last];
      ListedAtMost(s - {last}, rest);
      assert s <= (s - {last}) + {last};
      SmallerSet(s, (s - {last}) + {last});
    }
  }

  /** Taking out what is listed takes out at most as many as are listed, and nothing only if nothing of it is there. */
  lemma TakenOut(all: set<Tx>, all': set<Tx>, drop: seq<Tx>)
    requires forall tx :: tx in all' <==> tx in all && tx !in drop
    ensures |all| - |all'| <= |drop| && all' <= all
  {
    ListedAtMost(all - all', drop);
    assert all == all' + (all - all');
  }

  /** How large adding one transaction can make the pool. */
  lemma AddedSize(all: set<Tx>, room: Content, c': Content, tx: Tx, priceBump: nat, replaced: bool, err: Option<Error>,
                  locals: set<Address>, capacity: nat)
    requires MadeRoom(all, room.all, locals) && (|all| < capacity ==> room.all == all)
    requires |all| >= capacity && room.all == all ==> AllLocal(all, locals) || c' == room
    requires Inserted(room, c', tx, priceBump, replaced, err) || c' == room
    ensures |all| < capacity ==> |c'.all| <= capacity
    ensures |all| >= capacity && !AllLocal(all, locals) ==> |c'.all| <= |all|
    ensures |all| >= capacity && AllLocalButOne(all, locals) ==> AllLocalButOne(c'.all, locals)
  {
    SmallerSet(room.all, all);
    if c' != room && Inserted(room, c', tx, priceBump, replaced, err) {
      SmallerSet(c'.all, room.all + {tx});
      if |all| >= capacity && AllLocalButOne(all, locals) {
        OnlyNewcomer(all, room.all, c'.all, tx, locals);
      }
    } else if AllLocalButOne(all, locals) {
      FewerAllLocal(all, c'.all, locals);
    }
  }

  lemma InsertedOrNot(room: Content, c': Content, tx: Tx, priceBump: nat, replaced: bool, err: Option<Error>)
    requires Inserted(room, c', tx, priceBump, replaced, err)
    ensures err.Some? ==> c' == room && !replaced
  {
  }

  /** Where everything is local there is nothing to make room of. */
  lemma NothingToEvict(all: set<Tx>, all': set<Tx>, locals: set<Address>)
    requires MadeRoom(all, all', locals) && AllLocal(all, locals)
    ensures all' == all
  {
  }

  lemma FewerAllLocal(all: set<Tx>, fewer: set<Tx>, locals: set<Address>)
    requires fewer <= all && AllLocalButOne(all, locals)
    ensures AllLocalButOne(fewer, locals)
  {
    var t :| AllLocalExcept(all, t, locals);
    assert AllLocalExcept(fewer, t, locals);
  }

  lemma BatchSize(before: set<Tx>, after: set<Tx>, locals: set<Address>, locals': set<Address>)
    requires locals <= locals'
    ensures AllLocalButOne(after, locals) ==> AllLocalButOne(after, locals')
    ensures AllLocal(before, locals) ==> AllLocalButOne(before, locals)
    ensures AllLocalButOne(before, locals) ==> AllLocalButOne(before, locals')
  {
    forall s, t | (s == before || s == after) && AllLocalExcept(s, t, locals) ensures AllLocalExcept(s, t, locals') {
    }
    if AllLocal(before, locals) && before != {} {
      var t :| t in before;
      assert AllLocalExcept(before, t, locals);
    } else if before == {} {
      var t: Tx :| true;
      assert AllLocalExcept(before, t, locals);
    }
  }

  lemma OnlyNewcomer(all: set<Tx>, room: set<Tx>, all': set<Tx>, tx: Tx, locals: set<Address>)
    requires MadeRoom(all, room, locals) && AllLocalButOne(all, locals) && all' <= room + {tx}
    requires room == all ==> AllLocal(all, locals)
    ensures AllLocalButOne(all', locals)
  {
    if room != all {
      var t :| AllLocalExcept(all, t, locals);
      var d :| d in all && d !in room;
      assert d == t;
    }
    assert AllLocalExcept(all', tx, locals);
  }

  lemma NoRoomMade(all: set<Tx>, locals: set<Address>)
    ensures MadeRoom(all, all, locals)
  {
  }

  lemma AddedAtMost(all: set<Tx>, room: Content, c': Content, tx: Tx, priceBump: nat, replaced: bool,
                    err: Option<Error>, locals: set<Address>)
    requires MadeRoom(all, room.all, locals)
    requires Inserted(room, c', tx, priceBump, replaced, err) || c' == room
    ensures c'.all <= all + {tx}
  {
  }

  /** Queueing a transaction queues at most its sender's virtual nonce, and not if it takes the place of another. */
  lemma QueuedVirtual(q: Accounts, chain: ChainState, managed: map<Address, nat>, tx: Tx)
    ensures var q' := q[tx.from := ListOf(q, tx.from, false).Added(tx)];
            && (forall b :: b != tx.from && VirtualFreeIn(q, chain, managed, b) ==>
                  VirtualFreeIn(q', chain, managed, b))
            && (tx.nonce in ItemsOf(q, tx.from) && VirtualFreeIn(q, chain, managed, tx.from) ==>
                  VirtualFreeIn(q', chain, managed, tx.from))
  {
    var q' := q[tx.from := ListOf(q, tx.from, false).Added(tx)];
    forall b | b != tx.from && VirtualFreeIn(q, chain, managed, b) ensures VirtualFreeIn(q', chain, managed, b) {
      assert ItemsOf(q', b) == ItemsOf(q, b);
    }
  }
}
