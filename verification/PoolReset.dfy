/** What a reset of the pool makes of the pending transactions when it puts transactions back: the stages of reset
    (core/tx_pool.go) account by account, as long as the pool is far enough below its limits that nothing is discarded
    or truncated on the way. */
module PoolResets {
  import opened Wrappers
  import opened Transactions
  import opened TxListSpec
  import opened TxLists
  import opened PoolModel
  import opened PoolSteps
  import opened PoolReadiness
  import IntrinsicGas

  // ---------- admission ----------

  /** What admission to the pool depends on. */
  datatype Rules = Rules(chain: ChainState, locals: set<Address>, gasPrice: nat, homestead: bool, priceBump: nat)

  /** validateTx: the first check that fails, in the order of the source. */
  function Validity(tx: Tx, local: bool, r: Rules): Option<Error> {
    if tx.size > 32 * 1024 then Some(OversizedData)
    else if tx.value < 0 then Some(NegativeValue)
    else if r.chain.maxGas < tx.gas then Some(GasLimit)
    else if !tx.signed then Some(InvalidSender)
    else if !(local || tx.from in r.locals) && r.gasPrice > tx.price then Some(Underpriced)
    else if r.chain.Nonce(tx.from) > tx.nonce then Some(NonceTooLow)
    else if r.chain.Available(tx.from) < Cost(tx) then Some(InsufficientFunds)
    else if IntrinsicGas.ExactPrice(tx.data, tx.creates, r.homestead) > IntrinsicGas.MAX_UINT64 then Some(OutOfGas)
    else if tx.gas < IntrinsicGas.ExactPrice(tx.data, tx.creates, r.homestead) then Some(IntrinsicGasTooLow)
    else None
  }

  /** What is admitted could be executed at once but for lower nonces: the account has the money unfrozen, the nonce has
      not passed, a block can hold the gas, and the gas covers the data. */
  lemma AdmittedMeans(tx: Tx, local: bool, r: Rules)
    ensures Validity(tx, local, r) == None <==>
              && tx.signed && tx.value >= 0 && tx.size <= 32768 && tx.nonce >= r.chain.Nonce(tx.from)
              && (tx.price >= r.gasPrice || local || tx.from in r.locals)
              && r.chain.Available(tx.from) >= tx.value + tx.gas * tx.price
              && IntrinsicGas.ExactPrice(tx.data, tx.creates, r.homestead) <= tx.gas <= r.chain.maxGas
              && IntrinsicGas.ExactPrice(tx.data, tx.creates, r.homestead) <= IntrinsicGas.MAX_UINT64
  {
    assert tx.gas * tx.price == tx.price * tx.gas;
  }

  // ---------- adding to a pool with room ----------

  /** A pool in the course of a batch: its content, and the accounts that have a newly queued transaction. */
  datatype Refill = Refill(content: Content, dirty: set<Address>)

  /** The list a transaction competes in. */
  function Home(c: Content, tx: Tx): ListValue {
    if tx.nonce in ItemsOf(c.pending, tx.from)
    then ListOf(c.pending, tx.from, true)
    else ListOf(c.queue, tx.from, false)
  }

  /** Where an accepted transaction goes. */
  function Placed(c: Content, tx: Tx): Content {
    var l := Home(c, tx);
    var all := c.all - (if tx.nonce in l.items then {l.items[tx.nonce]} else {}) + {tx};
    if tx.nonce in ItemsOf(c.pending, tx.from)
    then Content(c.pending[tx.from := l.Added(tx)], c.queue, all)
    else Content(c.pending, c.queue[tx.from := l.Added(tx)], all)
  }

  ghost function AddedOne(f: Refill, tx: Tx, local: bool, r: Rules): Refill {
    if tx in f.content.all || Validity(tx, local, r).Some? || !Home(f.content, tx).Accepts(tx, r.priceBump) then f
    else Refill(Placed(f.content, tx), if tx.nonce in Home(f.content, tx).items then f.dirty else f.dirty + {tx.from})
  }

  /** Transactions added one after the other, without making room. */
  ghost function AddedAll(c: Content, txs: seq<Tx>, local: bool, n: nat, r: Rules): Refill
    requires n <= |txs|
  {
    if n == 0 then Refill(c, {}) else AddedOne(AddedAll(c, txs, local, n - 1, r), txs[n - 1], local, r)
  }

  /** Adding changes no pending nonce. */
  lemma {:induction false} PendingNoncesStay(c: Content, txs: seq<Tx>, local: bool, n: nat, r: Rules, a: Address)
    requires n <= |txs|
    ensures ItemsOf(AddedAll(c, txs, local, n, r).content.pending, a).Keys == ItemsOf(c.pending, a).Keys
    decreases n
  {
    if n > 0 {
      hide AddedAll;
      PendingNoncesStay(c, txs, local, n - 1, r, a);
      OneKeepsNonces(AddedAll(c, txs, local, n - 1, r), txs[n - 1], local, r, a);
      NextAdded(c, txs, local, n, r);
    }
  }

  lemma NobodyAdded(c: Content, txs: seq<Tx>, local: bool, r: Rules)
    ensures AddedAll(c, txs, local, 0, r) == Refill(c, {})
  {
  }

  lemma NextAdded(c: Content, txs: seq<Tx>, local: bool, n: nat, r: Rules)
    requires 0 < n <= |txs|
    ensures AddedAll(c, txs, local, n, r) == AddedOne(AddedAll(c, txs, local, n - 1, r), txs[n - 1], local, r)
  {
  }

  lemma OneKeepsNonces(f: Refill, tx: Tx, local: bool, r: Rules, a: Address)
    ensures ItemsOf(AddedOne(f, tx, local, r).content.pending, a).Keys == ItemsOf(f.content.pending, a).Keys
  {
    var l := ListOf(f.content.pending, tx.from, true);
    if tx.nonce in ItemsOf(f.content.pending, tx.from) {
      assert l.Added(tx).items.Keys == l.items.Keys;
    }
  }

  // ---------- one account ----------

  /** An account's nonce has fallen back below its pending transactions, and what can be promoted again starts at it but
      does not reach up to them, while the first of them can still be executed. `queued` is what can be executed of the
      queue. */
  ghost predicate LeavesGap(pending: Items, queued: Items, dirty: bool, chain: ChainState, a: Address, base: nat) {
    && base in pending && chain.Nonce(a) < base && dirty && chain.Nonce(a) in queued
    && RunEnd(queued, chain.Nonce(a)) < base && !Hopeless(chain, a, pending[base])
  }

  /** The pending list after the promotion of what was put back. */
  function Rejoined(pending: Items, queued: Items, dirty: bool, base: nat): Items {
    if dirty then pending + Below(queued, ReadyEnd(queued, base)) else pending
  }

  /** Not too low, and below everything that cannot be executed. */
  ghost predicate Survives(items: Items, chain: ChainState, a: Address, n: nat) {
    chain.Nonce(a) <= n && forall m :: m in items && chain.Nonce(a) <= m && Hopeless(chain, a, items[m]) ==> n < m
  }

  /** What demotion leaves of a pending list, nonce by nonce. */
  lemma RemainingMeaning(l: ListValue, chain: ChainState, a: Address)
    requires l.strict && Keyed(l.items)
    ensures var c := chain.Nonce(a);
            if c in l.items && Survives(l.items, chain, a, c)
            then forall n :: n in Remaining(l, chain, a) <==> n in l.items && Survives(l.items, chain, a, n)
            else Remaining(l, chain, a) == map[]
    ensures SubMap(Remaining(l, chain, a), l.items)
  {
    var l1 := l.(items := From(l.items, chain.Nonce(a)));
    FilterMeaning(l1, chain.Balance(a), chain.maxGas);
    var gone := l1.Unaffordable(chain.Balance(a), chain.maxGas);
    assert forall m :: m in gone <==> m in l.items && chain.Nonce(a) <= m && Hopeless(chain, a, l.items[m]);
  }

  /** Of a queue without low nonces, Ready from the chain nonce takes the run that starts there. */
  lemma RunFromBase(queued: Items, base: nat)
    requires forall n :: n in queued ==> base <= n
    ensures var run := Below(queued, ReadyEnd(queued, base));
            && (forall n :: n in run <==> base in queued && base <= n < RunEnd(queued, base))
            && SubMap(run, queued) && (run == map[] <==> base !in queued)
            && (base in queued ==> base < RunEnd(queued, base) && ReadyEnd(queued, base) == RunEnd(queued, base))
  {
    if base in queued {
      assert Minimum(queued.Keys) == base;
      assert base in Below(queued, RunEnd(queued, base));
    }
  }

  lemma RunsApart(pending: Items, queued: Items, base: nat, virtual: nat, c: nat, e: nat)
    requires Gapless(pending, base, virtual) && forall n :: n in queued ==> n !in pending
    requires forall n :: c <= n < e ==> n in queued
    ensures base < virtual && c < e ==> e <= base || virtual <= c
  {
    var k := if c < base then base else c;
    assert k in pending ==> k !in queued;
  }

  /** The nonces of the rejoined list: the pending range, and the run from the chain nonce, which does not meet it. */
  lemma RejoinedNonces(pending: Items, queued: Items, dirty: bool, chain: ChainState, a: Address, base: nat,
                       virtual: nat)
    requires Gapless(pending, base, virtual)
    requires forall n :: n in queued ==> chain.Nonce(a) <= n && n !in pending && !Hopeless(chain, a, queued[n])
    ensures var c := chain.Nonce(a); var e := RunEnd(queued, c); var items := Rejoined(pending, queued, dirty, c);
            var run := dirty && c in queued;
            && TwoRanges(items, base, virtual, run, c, e)
            && (forall n :: n in items && run && c <= n < e ==> !Hopeless(chain, a, items[n]))
            && (forall n :: n in pending ==> items[n] == pending[n])
            && (run && base < virtual ==> e <= base || virtual <= c)
            && c <= e && e !in queued && (run ==> c < e && c in items)
  {
    hide Hopeless, ReadyEnd, RunEnd, Below;
    var c := chain.Nonce(a);
    RunFromBase(queued, c);
    assert c <= RunEnd(queued, c) && RunEnd(queued, c) !in queued;
    RunsApart(pending, queued, base, virtual, c, RunEnd(queued, c));
  }

  /** Demotion after the re-adding: what is left starts at the chain nonce, and has a gap exactly if the account was
      refilled only partly. */
  lemma RejoinedRemaining(l: ListValue, pending: Items, queued: Items, dirty: bool, chain: ChainState, a: Address,
                          base: nat, virtual: nat)
    requires l.strict && Keyed(l.items) && l.items == Rejoined(pending, queued, dirty, chain.Nonce(a))
    requires Gapless(pending, base, virtual)
    requires forall n :: n in queued ==> chain.Nonce(a) <= n && n !in pending && !Hopeless(chain, a, queued[n])
    ensures var c := chain.Nonce(a); var left := Remaining(l, chain, a); var e := RunEnd(queued, c);
            && FrontAt(left, c)
            && (Contiguous(left) <==> !LeavesGap(pending, queued, dirty, chain, a, base))
            && (dirty && c in queued ==> c in left)
            && (LeavesGap(pending, queued, dirty, chain, a, base) ==>
                  c <= e < base && e !in l.items && base in left && forall n :: c <= n < e ==> n in left)
  {
    hide Remaining, RunEnd, ReadyEnd, Hopeless, Rejoined, Contiguous, Survives;
    var c := chain.Nonce(a);
    RemainingMeaning(l, chain, a);
    RejoinedNonces(pending, queued, dirty, chain, a, base, virtual);
    var left := Remaining(l, chain, a);
    RunSurvives(l.items, chain, a, base, virtual, dirty && c in queued, RunEnd(queued, c));
    if c in l.items && Survives(l.items, chain, a, c) {
      if LeavesGap(pending, queued, dirty, chain, a, base) {
        GapStays(l.items, left, chain, a, base, virtual, RunEnd(queued, c));
      } else {
        NoGapArises(l.items, left, chain, a, base, virtual, dirty && c in queued, RunEnd(queued, c));
      }
    } else {
      NothingContiguous();
    }
    FrontOrNothing(l.items, left, chain, a);
  }

  /** Nonces of two ranges: [base, virtual), and, if there is a run, [c, e). */
  ghost predicate TwoRanges(items: Items, base: nat, virtual: nat, run: bool, c: nat, e: nat) {
    forall n :: n in items <==> base <= n < virtual || (run && c <= n < e)
  }

  lemma RunSurvives(items: Items, chain: ChainState, a: Address, base: nat, virtual: nat, run: bool, e: nat)
    requires TwoRanges(items, base, virtual, run, chain.Nonce(a), e)
    requires forall n :: n in items && run && chain.Nonce(a) <= n < e ==> !Hopeless(chain, a, items[n])
    requires run ==> chain.Nonce(a) < e && (base < virtual ==> e <= base || virtual <= chain.Nonce(a))
    ensures run ==> Survives(items, chain, a, chain.Nonce(a))
  {
    hide Hopeless;
  }

  lemma GapStays(items: Items, left: Items, chain: ChainState, a: Address, base: nat, virtual: nat, e: nat)
    requires TwoRanges(items, base, virtual, true, chain.Nonce(a), e)
    requires forall n :: n in items && chain.Nonce(a) <= n < e ==> !Hopeless(chain, a, items[n])
    requires chain.Nonce(a) < e < base < virtual && base in items && !Hopeless(chain, a, items[base])
    requires forall n :: n in left <==> n in items && Survives(items, chain, a, n)
    ensures !Contiguous(left) && base in left && e !in items && forall n :: chain.Nonce(a) <= n < e ==> n in left
  {
    hide Hopeless;
    forall n | chain.Nonce(a) <= n <= base ensures Survives(items, chain, a, n) { }
    assert chain.Nonce(a) in left && base in left && e !in left;
  }

  lemma NoGapArises(items: Items, left: Items, chain: ChainState, a: Address, base: nat, virtual: nat, run: bool,
                    e: nat)
    requires TwoRanges(items, base, virtual, run, chain.Nonce(a), e)
    requires run && base < virtual ==> e <= base || virtual <= chain.Nonce(a)
    requires run && base < virtual && chain.Nonce(a) < base && e < base ==>
               base in items && Hopeless(chain, a, items[base])
    requires forall n :: n in left <==> n in items && Survives(items, chain, a, n)
    ensures Contiguous(left)
  {
    hide Hopeless;
    forall n, m, k | n in left && m in left && n <= k <= m ensures k in left {
      assert Survives(items, chain, a, m) && Survives(items, chain, a, k);
    }
  }

  lemma FrontOrNothing(items: Items, left: Items, chain: ChainState, a: Address)
    requires if chain.Nonce(a) in items && Survives(items, chain, a, chain.Nonce(a))
             then forall n :: n in left <==> n in items && Survives(items, chain, a, n)
             else left == map[]
    ensures FrontAt(left, chain.Nonce(a))
    ensures chain.Nonce(a) in items && Survives(items, chain, a, chain.Nonce(a)) ==> chain.Nonce(a) in left
  {
    hide Hopeless;
  }

  /** A pool with room that takes a transaction, or not, is the next of the batch. */
  lemma RefilledNext(c: Content, txs: seq<Tx>, local: bool, i: nat, r: Rules, dirty: set<Address>, c1: Content,
                     c2: Content, replaced: bool, err: Option<Error>)
    requires i < |txs| && Refill(c1, dirty) == AddedAll(c, txs, local, i, r)
    requires txs[i] in c1.all ==> err == Some(Known)
    requires txs[i] !in c1.all && Validity(txs[i], local, r).Some? ==> err == Validity(txs[i], local, r)
    requires if txs[i] !in c1.all && Validity(txs[i], local, r).None?
             then Inserted(c1, c2, txs[i], r.priceBump, replaced, err) else c2 == c1 && !replaced
    ensures Refill(c2, if err == None && !replaced then dirty + {txs[i].from} else dirty)
            == AddedAll(c, txs, local, i + 1, r)
    ensures c2.all <= c1.all + {txs[i]} && |c2.all| <= |c1.all| + 1
  {
    hide Validity, ListValue.Accepts, ListValue.Added;
    NextAdded(c, txs, local, i + 1, r);
    hide AddedAll;
    SmallerSet(c2.all, c1.all + {txs[i]});
  }

  // ---------- the stages of a reset ----------

  /** What Forward and Filter leave of an account's queue. */
  function PayableItems(q: Accounts, chain: ChainState, a: Address): Items {
    if a in q
    then q[a].(items := From(q[a].items, chain.Nonce(a))).Filtered(chain.Balance(a), chain.maxGas).items
    else map[]
  }

  lemma PayableMeaning(p: Accounts, q: Accounts, all: set<Tx>, chain: ChainState, a: Address)
    requires Consistent(p, q, all)
    ensures SubMap(PayableItems(q, chain, a), ItemsOf(q, a))
    ensures forall n :: n in PayableItems(q, chain, a) ==>
              chain.Nonce(a) <= n && n !in ItemsOf(p, a) && !Hopeless(chain, a, PayableItems(q, chain, a)[n])
  {
    if a in q {
      QueueKeyed(p, q, all, a);
      SurvivorsBearable(q[a], chain, a);
      FilterMeaning(q[a].(items := From(q[a].items, chain.Nonce(a))), chain.Balance(a), chain.maxGas);
    }
  }

  /** What promoteExecutables makes of an account's pending list and virtual nonce, whether it visits the account or
      not, when nothing is truncated; of its queue, something executable is left, or part of what was there. */
  ghost predicate SweptAt(p: Accounts, q: Accounts, managed: map<Address, nat>, p': Accounts, q': Accounts,
                          managed': map<Address, nat>, chain: ChainState, a: Address, visited: bool) {
    var virtual := VirtualOf(managed, chain, a);
    var queued := PayableItems(q, chain, a);
    var run := Below(queued, ReadyEnd(queued, virtual));
    if visited then
      && ItemsOf(p', a) == ItemsOf(p, a) + run && SubMap(ItemsOf(q', a), queued)
      && VirtualOf(managed', chain, a) == if run == map[] then virtual else ReadyEnd(queued, virtual)
    else
      && ItemsOf(p', a) == ItemsOf(p, a) && SubMap(ItemsOf(q', a), ItemsOf(q, a))
      && VirtualOf(managed', chain, a) == virtual
  }

  /** What is left queued of an account: unless visited, everything; else what Ready leaves of the executable ones, and
      of those, for a remote account, the lowest up to the cap. */
  ghost predicate QueueSwept(q: Accounts, managed: map<Address, nat>, q': Accounts, chain: ChainState, a: Address,
                             visited: bool, local: bool, cap: nat) {
    var queued := PayableItems(q, chain, a);
    var rest := From(queued, ReadyEnd(queued, VirtualOf(managed, chain, a)));
    ItemsOf(q', a) == if !visited then ItemsOf(q, a) else if local then rest else Lowest(rest, cap)
  }

  lemma QueueSweptNext(q0: Accounts, m0: map<Address, nat>, q1: Accounts, m1: map<Address, nat>, q2: Accounts,
                       chain: ChainState, a: Address, local: bool, cap: nat)
    requires (a in q1 <==> a in q0) && (a in q0 ==> q1[a] == q0[a])
    requires VirtualOf(m1, chain, a) == VirtualOf(m0, chain, a)
    requires QueueSwept(q1, m1, q2, chain, a, true, local, cap)
    ensures QueueSwept(q0, m0, q2, chain, a, true, local, cap)
  {
    hide ReadyEnd, Lowest;
    assert PayableItems(q1, chain, a) == PayableItems(q0, chain, a);
  }

  lemma QueuesSwept(q0: Accounts, m0: map<Address, nat>, q1: Accounts, q2: Accounts, chain: ChainState, a: Address,
                    locals: set<Address>, cap: nat)
    requires SameBut(q1, q2, a)
    ensures forall b :: b != a && QueueSwept(q0, m0, q1, chain, b, true, b in locals, cap) ==>
              QueueSwept(q0, m0, q2, chain, b, true, b in locals, cap)
  {
    hide PayableItems, ReadyEnd, Lowest;
    assert forall b :: b != a ==> ItemsOf(q2, b) == ItemsOf(q1, b);
  }

  lemma QueueSweptFrom(p0: Accounts, q0: Accounts, m0: map<Address, nat>, p1: Accounts, q1: Accounts,
                       m1: map<Address, nat>, p2: Accounts, q2: Accounts, m2: map<Address, nat>, chain: ChainState,
                       a: Address, locals: set<Address>, cap: nat)
    requires NotYetSwept(p0, q0, m0, p1, q1, m1, chain, a) && SameBut(q1, q2, a)
    requires QueueSwept(q1, m1, q2, chain, a, true, a in locals, cap)
    ensures QueueSwept(q0, m0, q2, chain, a, true, a in locals, cap)
    ensures forall b :: b != a && QueueSwept(q0, m0, q1, chain, b, true, b in locals, cap) ==>
              QueueSwept(q0, m0, q2, chain, b, true, b in locals, cap)
  {
    hide QueueSwept;
    QueueSweptNext(q0, m0, q1, m1, q2, chain, a, a in locals, cap);
    QueuesSwept(q0, m0, q1, q2, chain, a, locals, cap);
  }

  lemma NothingQueueSwept(q: Accounts, managed: map<Address, nat>, chain: ChainState, a: Address, local: bool,
                          cap: nat)
    requires a !in q
    ensures QueueSwept(q, managed, q, chain, a, true, local, cap)
  {
    assert |ItemsOf(q, a)| == 0;
  }

  /** The promotion of the run that Ready takes is what a sweep does. */
  lemma SweptRun(p: Accounts, q: Accounts, managed: map<Address, nat>, p': Accounts, l3: ListValue,
                 managed': map<Address, nat>, chain: ChainState, a: Address)
    requires a in q
    requires var items := PayableItems(q, chain, a); var end := ReadyEnd(items, VirtualOf(managed, chain, a));
             && l3.items == From(items, end) && ItemsOf(p', a) == ItemsOf(p, a) + (items - l3.items.Keys)
             && managed' == if RunStart(items, end) < end then managed[a := end] else managed
    ensures SweptAt(p, q, managed, p', map[a := l3], managed', chain, a, true)
  {
    hide PayableItems, ReadyEnd;
    var items := PayableItems(q, chain, a);
    var end := ReadyEnd(items, VirtualOf(managed, chain, a));
    assert items - From(items, end).Keys == Below(items, end);
    if Below(items, end) != map[] {
      var n :| n in Below(items, end);
    }
  }

  lemma SweptCapped(p: Accounts, q: Accounts, managed: map<Address, nat>, p': Accounts, l3: ListValue, l4: ListValue,
                    q': Accounts, managed': map<Address, nat>, chain: ChainState, a: Address)
    requires SweptAt(p, q, managed, p', map[a := l3], managed', chain, a, true) && SubMap(l4.items, l3.items)
    requires ItemsOf(q', a) == l4.items
    ensures SweptAt(p, q, managed, p', q', managed', chain, a, true)
  {
    hide PayableItems, ReadyEnd;
    assert ItemsOf(map[a := l3], a) == l3.items;
  }

  lemma NothingSwept(p: Accounts, q: Accounts, managed: map<Address, nat>, chain: ChainState, a: Address)
    requires a !in q
    ensures SweptAt(p, q, managed, p, q, managed, chain, a, true) && SameVirtual(managed, managed, chain, a)
  {
  }

  /** Account a is as it was. */
  ghost predicate NotYetSwept(p: Accounts, q: Accounts, managed: map<Address, nat>, p': Accounts, q': Accounts,
                              managed': map<Address, nat>, chain: ChainState, a: Address) {
    && ItemsOf(p', a) == ItemsOf(p, a) && (a in q' <==> a in q) && (a in q ==> q'[a] == q[a])
    && VirtualOf(managed', chain, a) == VirtualOf(managed, chain, a)
  }

  lemma NobodySwept(p: Accounts, q: Accounts, managed: map<Address, nat>, chain: ChainState)
    ensures forall a :: NotYetSwept(p, q, managed, p, q, managed, chain, a)
  {
  }

  lemma NobodyIsSwept(p: Accounts, q: Accounts, managed: map<Address, nat>, chain: ChainState)
    ensures forall a :: SweptAt(p, q, managed, p, q, managed, chain, a, false)
  {
  }

  /** One more account swept; the others are left as they were. */
  lemma SweptNext(p0: Accounts, q0: Accounts, m0: map<Address, nat>, p1: Accounts, q1: Accounts, m1: map<Address, nat>,
                  p2: Accounts, q2: Accounts, m2: map<Address, nat>, chain: ChainState, a: Address)
    requires NotYetSwept(p0, q0, m0, p1, q1, m1, chain, a) && SweptAt(p1, q1, m1, p2, q2, m2, chain, a, true)
    requires SameBut(p1, p2, a) && SameBut(q1, q2, a) && SameVirtual(m1, m2, chain, a)
    ensures SweptAt(p0, q0, m0, p2, q2, m2, chain, a, true)
    ensures forall b :: b != a && NotYetSwept(p0, q0, m0, p1, q1, m1, chain, b) ==>
              NotYetSwept(p0, q0, m0, p2, q2, m2, chain, b)
    ensures forall b :: b != a && SweptAt(p0, q0, m0, p1, q1, m1, chain, b, true) ==>
              SweptAt(p0, q0, m0, p2, q2, m2, chain, b, true)
  {
    hide SweptAt;
    SweptFrom(p0, q0, m0, p1, q1, m1, p2, q2, m2, chain, a);
    forall b | b != a && SweptAt(p0, q0, m0, p1, q1, m1, chain, b, true)
      ensures SweptAt(p0, q0, m0, p2, q2, m2, chain, b, true)
    {
      SweptSame(p0, q0, m0, p1, q1, m1, p2, q2, m2, chain, b, true);
    }
  }

  lemma SweptFrom(p0: Accounts, q0: Accounts, m0: map<Address, nat>, p1: Accounts, q1: Accounts, m1: map<Address, nat>,
                  p2: Accounts, q2: Accounts, m2: map<Address, nat>, chain: ChainState, a: Address)
    requires NotYetSwept(p0, q0, m0, p1, q1, m1, chain, a) && SweptAt(p1, q1, m1, p2, q2, m2, chain, a, true)
    ensures SweptAt(p0, q0, m0, p2, q2, m2, chain, a, true)
  {
    hide ReadyEnd, Below, SubMap;
    assert PayableItems(q1, chain, a) == PayableItems(q0, chain, a);
  }

  lemma SweptSame(p0: Accounts, q0: Accounts, m0: map<Address, nat>, p1: Accounts, q1: Accounts, m1: map<Address, nat>,
                  p2: Accounts, q2: Accounts, m2: map<Address, nat>, chain: ChainState, b: Address, visited: bool)
    requires SweptAt(p0, q0, m0, p1, q1, m1, chain, b, visited)
    requires ItemsOf(p2, b) == ItemsOf(p1, b) && SubMap(ItemsOf(q2, b), ItemsOf(q1, b))
    requires VirtualOf(m2, chain, b) == VirtualOf(m1, chain, b)
    ensures SweptAt(p0, q0, m0, p2, q2, m2, chain, b, visited)
  {
    hide ReadyEnd, Below, PayableItems;
  }

  lemma QueueCapped(q: Accounts, managed: map<Address, nat>, q': Accounts, chain: ChainState, a: Address, l1: ListValue,
                    l2: ListValue, l3: ListValue, l4: ListValue, local: bool, cap: nat)
    requires a in q && Stages(a, q[a], chain.Nonce(a), VirtualOf(managed, chain, a), l1, l2, l3)
    requires l2.items == PayableItems(q, chain, a) && ItemsOf(q', a) == l4.items
    requires l4 == if !local then l3.(items := Lowest(l3.items, cap)) else l3
    ensures QueueSwept(q, managed, q', chain, a, true, local, cap)
  {
    hide PayableItems, ReadyEnd, Lowest, ListOk, SubMap;
  }

  lemma LeftAlone(p0: Accounts, q0: Accounts, m0: map<Address, nat>, p: Accounts, q1: Accounts, q2: Accounts,
                  m: map<Address, nat>, chain: ChainState, a: Address)
    requires NotYetSwept(p0, q0, m0, p, q1, m, chain, a) && SubMap(ItemsOf(q2, a), ItemsOf(q1, a))
    ensures SweptAt(p0, q0, m0, p, q2, m, chain, a, false)
  {
  }

  lemma ShortenedSubMap(q1: Accounts, q2: Accounts, locals: set<Address>, a: Address)
    requires QueueShortened(q1, q2, locals)
    ensures SubMap(ItemsOf(q2, a), ItemsOf(q1, a))
  {
    if a in q1 {
      LowestMeaning(q1[a].items, |ItemsOf(q2, a)|);
    }
  }

  /** The lists together hold no more than the lookup. */
  lemma {:induction false} TotalAtMost(p: Accounts, all: set<Tx>, strict: bool)
    requires ListsOk(p, strict) && forall tx :: Stored(p, tx) ==> tx in all
    ensures Total(p) <= |all|
    decreases |p|
  {
    if p.Keys == {} {
      assert p == map[];
      TotalNothing();
    } else {
      var a :| a in p.Keys;
      hide *;
      var txs := Txs(p[a].items);
      TotalWithout(p, a);
      OthersListed(p, all, strict, a);
      TotalAtMost(p - {a}, all - txs, strict);
      assert |all| == |all - txs| + |txs|;
    }
  }

  lemma OthersListed(p: Accounts, all: set<Tx>, strict: bool, a: Address)
    requires ListsOk(p, strict) && (forall tx :: Stored(p, tx) ==> tx in all) && a in p
    ensures ListsOk(p - {a}, strict) && Txs(p[a].items) <= all && |Txs(p[a].items)| == |p[a].items|
    ensures forall tx :: Stored(p - {a}, tx) ==> tx in all - Txs(p[a].items)
  {
    assert ListOk(a, p[a], strict);
    TxsMeaning(p[a].items);
    TxsCount(p[a].items);
    hide Txs;
    forall b | b in p - {a} ensures ListOk(b, (p - {a})[b], strict) { assert ListOk(b, p[b], strict); }
    forall tx | tx in Txs(p[a].items) ensures tx in all { assert Stored(p, tx); }
    forall tx | Stored(p - {a}, tx) ensures tx in all - Txs(p[a].items) { assert Stored(p, tx) && tx.from != a; }
  }

  lemma {:induction false} TxsCount(items: Items)
    requires Keyed(items)
    ensures |Txs(items)| == |items|
    decreases |items|
  {
    if items.Keys == {} {
      assert items == map[] && Txs(items) == {};
    } else {
      var n :| n in items.Keys;
      RemoveOneSize(items, n);
      TxsCount(items - {n});
      TxsMeaning(items);
      TxsMeaning(items - {n});
      assert Txs(items) == Txs(items - {n}) + {items[n]};
    }
  }

  /** A pool with at most so many transactions has at most so many pending, and queued. */
  lemma NoTruncation(p: Accounts, q: Accounts, all: set<Tx>, more: set<Tx>)
    requires Consistent(p, q, all) && all <= more
    ensures Total(p) <= |more| && Total(q) <= |more|
  {
    hide Total;
    TotalAtMost(p, all, true);
    TotalAtMost(q, all, false);
    SmallerSet(all, more);
  }

  /** Promotion onto a gap-free list. */
  lemma GaplessPromoted(pending: Items, queued: Items, base: nat, virtual: nat)
    requires Gapless(pending, base, virtual) && forall n :: n in queued ==> base <= n && n !in pending
    ensures var run := Below(queued, ReadyEnd(queued, virtual));
            Gapless(pending + run, base, if run == map[] then virtual else ReadyEnd(queued, virtual))
  {
    hide ReadyEnd;
    var end := ReadyEnd(queued, virtual);
    var run := Below(queued, end);
    RunContinues(queued, pending, base, virtual);
    RunIsConsecutive(queued, virtual);
    assert queued - From(queued, end).Keys == run;
    RunAppended(pending, base, virtual, run, RunStart(queued, end), end);
  }

  /** Promotion onto a list with a gap that nothing in the queue can fill. */
  lemma GapKept(pending: Items, more: Items, base: nat, gap: nat, above: nat)
    requires base <= gap < above && above in pending && gap !in pending && gap !in more
    requires forall n :: base <= n < gap ==> n in pending
    ensures RunEnd(pending + more, base) == gap && forall virtual :: !Gapless(pending + more, base, virtual)
  {
    var all := pending + more;
    assert gap !in all && above in all;
    hide RunEnd;
    assert base <= RunEnd(all, base) && RunEnd(all, base) !in all;
    assert forall n :: base <= n < gap ==> n in all;
    forall virtual ensures !Gapless(all, base, virtual) {
      assert Gapless(all, base, virtual) ==> base <= above < virtual && base <= gap < virtual;
    }
  }

  /** The stages of a reset for one account: from what the pool holds after the re-adding (c1), over the promotion of
      the accounts that gained something (p2), the demotion (p3) and the update of the virtual nonces (m3), to the
      promotion of everyone (p4). */
  lemma ResetAccount(c1: Content, dirty: set<Address>, p2: Accounts, q2: Accounts, m2: map<Address, nat>, all2: set<Tx>,
                     p3: Accounts, q3: Accounts, m3: map<Address, nat>, all3: set<Tx>,
                     p4: Accounts, q4: Accounts, m4: map<Address, nat>,
                     chain: ChainState, a: Address, base: nat, virtual: nat)
    requires Gapless(ItemsOf(c1.pending, a), base, virtual) && Consistent(c1.pending, c1.queue, c1.all)
    requires SweptAt(c1.pending, c1.queue, map[], p2, q2, m2, chain, a, a in dirty) && Consistent(p2, q2, all2)
    requires ItemsOf(p3, a) == if a in p2 then Remaining(p2[a], chain, a) else map[]
    requires forall n :: n in ItemsOf(q3, a) ==> n in ItemsOf(q2, a) || n in ItemsOf(p2, a)
    requires Consistent(p3, q3, all3)
    requires a in p3 ==> p3[a].items.Keys != {} && VirtualOf(m3, chain, a) == Maximum(p3[a].items.Keys) + 1
    requires a !in p3 ==> VirtualOf(m3, chain, a) == VirtualOf(m2, chain, a)
    requires SweptAt(p3, q3, m3, p4, q4, m4, chain, a, a in q3) && VirtualFreeIn(q4, chain, m4, a)
    ensures Gapless(ItemsOf(p4, a), chain.Nonce(a), VirtualOf(m4, chain, a)) <==>
              !LeavesGap(ItemsOf(c1.pending, a), PayableItems(c1.queue, chain, a), a in dirty, chain, a, base)
    ensures SettledIn(p4, q4, chain, a)
  {
    hide Consistent, Gapless, SweptAt, LeavesGap, PayableItems, RunEnd, VirtualFreeIn, SettledIn, Contiguous, FrontAt;
    hide Remaining;
    var queued := PayableItems(c1.queue, chain, a);
    var gap := LeavesGap(ItemsOf(c1.pending, a), queued, a in dirty, chain, a, base);
    AfterDemotion(c1, dirty, p2, q2, m2, all2, ItemsOf(p3, a), chain, a, base, virtual);
    PayableMeaning(p3, q3, all3, chain, a);
    if gap {
      GapAfterDemotion(c1, dirty, p2, q2, m2, all2, ItemsOf(p3, a), chain, a, base, virtual);
      GapRemains(p3, q3, m3, p4, q4, m4, chain, a, RunEnd(queued, chain.Nonce(a)), base);
    } else {
      VirtualAfterDemotion(p3, q3, all3, chain, a, VirtualOf(m3, chain, a));
      NoGapRemains(p3, q3, m3, p4, q4, m4, chain, a);
    }
  }

  lemma AfterDemotion(c1: Content, dirty: set<Address>, p2: Accounts, q2: Accounts, m2: map<Address, nat>,
                      all2: set<Tx>, left: Items, chain: ChainState, a: Address, base: nat, virtual: nat)
    requires Gapless(ItemsOf(c1.pending, a), base, virtual) && Consistent(c1.pending, c1.queue, c1.all)
    requires SweptAt(c1.pending, c1.queue, map[], p2, q2, m2, chain, a, a in dirty) && Consistent(p2, q2, all2)
    requires left == if a in p2 then Remaining(p2[a], chain, a) else map[]
    ensures var c := chain.Nonce(a);
            && FrontAt(left, c) && (Contiguous(left) <==> !GapAt(c1, dirty, chain, a, base))
            && (left == map[] ==> VirtualOf(m2, chain, a) == c)
  {
    hide Contiguous, FrontAt, ReadyEnd, RunEnd, Hopeless, Gapless;
    var queued := PayableItems(c1.queue, chain, a);
    PayableMeaning(c1.pending, c1.queue, c1.all, chain, a);
    RunFromBase(queued, chain.Nonce(a));
    RejoinedList(c1, dirty, p2, q2, m2, all2, left, chain, a);
    hide Consistent, PayableItems, Remaining;
    RejoinedRemaining(ListOf(p2, a, true), ItemsOf(c1.pending, a), queued, a in dirty, chain, a, base, virtual);
  }

  lemma GapAfterDemotion(c1: Content, dirty: set<Address>, p2: Accounts, q2: Accounts, m2: map<Address, nat>,
                         all2: set<Tx>, left: Items, chain: ChainState, a: Address, base: nat, virtual: nat)
    requires Gapless(ItemsOf(c1.pending, a), base, virtual) && Consistent(c1.pending, c1.queue, c1.all)
    requires SweptAt(c1.pending, c1.queue, map[], p2, q2, m2, chain, a, a in dirty) && Consistent(p2, q2, all2)
    requires left == if a in p2 then Remaining(p2[a], chain, a) else map[]
    requires GapAt(c1, dirty, chain, a, base)
    ensures var c := chain.Nonce(a); var e := RunEnd(PayableItems(c1.queue, chain, a), c);
            && c <= e < base && e !in ItemsOf(p2, a) && e !in ItemsOf(q2, a) && e !in left && base in left
            && forall n :: c <= n < e ==> n in left
  {
    hide Contiguous, FrontAt, ReadyEnd, RunEnd, Hopeless, Gapless;
    var queued := PayableItems(c1.queue, chain, a);
    PayableMeaning(c1.pending, c1.queue, c1.all, chain, a);
    RunFromBase(queued, chain.Nonce(a));
    RejoinedList(c1, dirty, p2, q2, m2, all2, left, chain, a);
    hide Consistent, PayableItems, Remaining;
    RejoinedRemaining(ListOf(p2, a, true), ItemsOf(c1.pending, a), queued, a in dirty, chain, a, base, virtual);
    RemainingMeaning(ListOf(p2, a, true), chain, a);
    assert RunEnd(queued, chain.Nonce(a)) !in queued;
  }

  /** The promotion of the accounts that gained something has joined what was put back to what was pending. */
  lemma RejoinedList(c1: Content, dirty: set<Address>, p2: Accounts, q2: Accounts, m2: map<Address, nat>, all2: set<Tx>,
                     left: Items, chain: ChainState, a: Address)
    requires SweptAt(c1.pending, c1.queue, map[], p2, q2, m2, chain, a, a in dirty) && Consistent(p2, q2, all2)
    requires left == if a in p2 then Remaining(p2[a], chain, a) else map[]
    ensures var l := ListOf(p2, a, true); var queued := PayableItems(c1.queue, chain, a);
            && l.strict && Keyed(l.items) && l.items == ItemsOf(p2, a) && left == Remaining(l, chain, a)
            && l.items == Rejoined(ItemsOf(c1.pending, a), queued, a in dirty, chain.Nonce(a))
  {
    hide ReadyEnd, Hopeless, PayableItems;
    if a in p2 {
      PendingPooled(p2, q2, all2, a);
    }
    ListOfOk(p2, a, true);
    NothingRemains(chain, a);
  }

  lemma NothingRemains(chain: ChainState, a: Address)
    ensures Remaining(NewList(true), chain, a) == map[]
  {
  }

  lemma VirtualAfterDemotion(p3: Accounts, q3: Accounts, all3: set<Tx>, chain: ChainState, a: Address, virtual: nat)
    requires Consistent(p3, q3, all3) && FrontAt(ItemsOf(p3, a), chain.Nonce(a)) && Contiguous(ItemsOf(p3, a))
    requires a in p3 ==> p3[a].items.Keys != {} && virtual == Maximum(p3[a].items.Keys) + 1
    requires a !in p3 ==> virtual == chain.Nonce(a)
    ensures Gapless(ItemsOf(p3, a), chain.Nonce(a), virtual)
  {
    if a in p3 {
      LastNonceGapless(p3[a].items, chain.Nonce(a));
    }
  }

  lemma NoGapRemains(p3: Accounts, q3: Accounts, m3: map<Address, nat>, p4: Accounts, q4: Accounts,
                     m4: map<Address, nat>, chain: ChainState, a: Address)
    requires Gapless(ItemsOf(p3, a), chain.Nonce(a), VirtualOf(m3, chain, a))
    requires forall n :: n in PayableItems(q3, chain, a) ==> chain.Nonce(a) <= n && n !in ItemsOf(p3, a)
    requires SweptAt(p3, q3, m3, p4, q4, m4, chain, a, a in q3) && VirtualFreeIn(q4, chain, m4, a)
    ensures Gapless(ItemsOf(p4, a), chain.Nonce(a), VirtualOf(m4, chain, a)) && SettledIn(p4, q4, chain, a)
  {
    hide Gapless, PayableItems, RunEnd, ReadyEnd;
    GaplessPromoted(ItemsOf(p3, a), PayableItems(q3, chain, a), chain.Nonce(a), VirtualOf(m3, chain, a));
    GaplessNext(ItemsOf(p4, a), chain.Nonce(a), VirtualOf(m4, chain, a));
  }

  lemma GapRemains(p3: Accounts, q3: Accounts, m3: map<Address, nat>, p4: Accounts, q4: Accounts, m4: map<Address, nat>,
                   chain: ChainState, a: Address, gap: nat, above: nat)
    requires chain.Nonce(a) <= gap < above && above in ItemsOf(p3, a) && gap !in ItemsOf(p3, a)
    requires gap !in ItemsOf(q3, a)
    requires forall n :: chain.Nonce(a) <= n < gap ==> n in ItemsOf(p3, a)
    requires SubMap(PayableItems(q3, chain, a), ItemsOf(q3, a))
    requires SweptAt(p3, q3, m3, p4, q4, m4, chain, a, a in q3)
    ensures !Gapless(ItemsOf(p4, a), chain.Nonce(a), VirtualOf(m4, chain, a)) && SettledIn(p4, q4, chain, a)
  {
    hide Gapless, PayableItems, RunEnd, ReadyEnd;
    var queued := PayableItems(q3, chain, a);
    var run := if a in q3 then Below(queued, ReadyEnd(queued, VirtualOf(m3, chain, a))) else map[];
    assert ItemsOf(p4, a) == ItemsOf(p3, a) + run;
    GapKept(ItemsOf(p3, a), run, chain.Nonce(a), gap, above);
  }

  /** The whole reset: no gap is left exactly if no account was refilled partly, and nobody has their next transaction
      queued. */
  lemma ResetOutcome(p0: Accounts, chain0: ChainState, m0: map<Address, nat>, c1: Content, dirty: set<Address>,
                     p2: Accounts, q2: Accounts, m2: map<Address, nat>, all2: set<Tx>,
                     p3: Accounts, q3: Accounts, m3: map<Address, nat>, all3: set<Tx>,
                     p4: Accounts, q4: Accounts, m4: map<Address, nat>, chain: ChainState)
    requires NoGaps(p0, chain0, m0) && Consistent(c1.pending, c1.queue, c1.all)
    requires Consistent(p2, q2, all2) && Consistent(p3, q3, all3)
    requires forall a :: ItemsOf(c1.pending, a).Keys == ItemsOf(p0, a).Keys
    requires forall a :: SweptAt(c1.pending, c1.queue, map[], p2, q2, m2, chain, a, a in dirty)
    requires forall a :: ItemsOf(p3, a) == if a in p2 then Remaining(p2[a], chain, a) else map[]
    requires forall a :: OnlyPostponed(p2, q2, q3, a)
    requires forall a :: a in p3 ==> p3[a].items.Keys != {} && VirtualOf(m3, chain, a) == Maximum(p3[a].items.Keys) + 1
    requires forall a :: a !in p3 ==> VirtualOf(m3, chain, a) == VirtualOf(m2, chain, a)
    requires forall a :: SweptAt(p3, q3, m3, p4, q4, m4, chain, a, a in q3)
    requires forall a :: VirtualFreeIn(q4, chain, m4, a)
    ensures NoGaps(p4, chain, m4) <==> forall a :: !GapAt(c1, dirty, chain, a, chain0.Nonce(a))
    ensures forall a :: SettledIn(p4, q4, chain, a)
  {
    hide Consistent, SweptAt, LeavesGap, PayableItems, VirtualFreeIn, SettledIn, Remaining, Gapless;
    forall a
      ensures Gapless(ItemsOf(p4, a), chain.Nonce(a), VirtualOf(m4, chain, a)) <==>
                !GapAt(c1, dirty, chain, a, chain0.Nonce(a))
      ensures SettledIn(p4, q4, chain, a)
    {
      assert Gapless(ItemsOf(p0, a), chain0.Nonce(a), VirtualOf(m0, chain0, a));
      SameRange(ItemsOf(p0, a), ItemsOf(c1.pending, a), chain0.Nonce(a), VirtualOf(m0, chain0, a));
      assert OnlyPostponed(p2, q2, q3, a);
      ResetAccount(c1, dirty, p2, q2, m2, all2, p3, q3, m3, all3, p4, q4, m4, chain, a, chain0.Nonce(a),
                   VirtualOf(m0, chain0, a));
    }
  }

  /** Account a, whose pending range started at base, is refilled only partly. */
  ghost predicate GapAt(c: Content, dirty: set<Address>, chain: ChainState, a: Address, base: nat) {
    LeavesGap(ItemsOf(c.pending, a), PayableItems(c.queue, chain, a), a in dirty, chain, a, base)
  }

  lemma SameRange(items: Items, other: Items, base: nat, virtual: nat)
    requires Gapless(items, base, virtual) && other.Keys == items.Keys
    ensures Gapless(other, base, virtual)
  {
    assert forall n :: n in other <==> n in items;
  }

  /** Some account with pending transactions has a lower nonce on the new chain state. */
  ghost predicate FallsBack(p: Accounts, before: ChainState, after: ChainState) {
    exists a :: a in p && after.Nonce(a) < before.Nonce(a)
  }

  /** An account whose nonce has not fallen back leaves no gap, and neither does one without pending transactions. */
  lemma NobodyFellBack(p0: Accounts, c1: Content, dirty: set<Address>, chain0: ChainState, chain: ChainState)
    requires forall a :: ItemsOf(c1.pending, a).Keys == ItemsOf(p0, a).Keys
    requires !FallsBack(p0, chain0, chain)
    ensures forall a :: !GapAt(c1, dirty, chain, a, chain0.Nonce(a))
  {
    forall a ensures !GapAt(c1, dirty, chain, a, chain0.Nonce(a)) {
      assert ItemsOf(c1.pending, a).Keys == ItemsOf(p0, a).Keys;
      assert chain0.Nonce(a) in ItemsOf(c1.pending, a) ==> chain0.Nonce(a) in ItemsOf(p0, a).Keys;
    }
  }

  // ---------- what can go wrong ----------

  /** Pending nonces 3, 5, 6 and 7 on a chain at nonce 3, all payable: demotion takes none of them, and there is a gap
      whatever the virtual nonce. */
  lemma GapAfterPartialRefill(l: ListValue, chain: ChainState, a: Address)
    requires l.strict && Keyed(l.items) && l.items.Keys == {3, 5, 6, 7} && chain.Nonce(a) == 3
    requires Bearable(l.items, chain, a)
    ensures Remaining(l, chain, a) == l.items && forall virtual :: !Gapless(Remaining(l, chain, a), 3, virtual)
  {
    hide Hopeless, Remaining;
    assert 3 in l.items && 5 in l.items && 4 !in l.items;
    assert forall n :: n in l.items ==> Survives(l.items, chain, a, n);
    RemainingMeaning(l, chain, a);
    hide Survives;
    assert Remaining(l, chain, a) == l.items;
    forall virtual ensures !Gapless(l.items, 3, virtual) { }
  }

  /** Removing a pending transaction whose nonce the chain has passed leaves the virtual nonce below the chain nonce.
      What is queued from there on is not promoted any more, however executable: Ready from the virtual nonce takes
      nothing. */
  lemma VirtualBelowChain(managed: map<Address, nat>, chain: ChainState, a: Address, nonce: nat, queued: Items)
    requires nonce < chain.Nonce(a) <= VirtualOf(managed, chain, a)
    requires forall n :: n in queued ==> chain.Nonce(a) <= n
    ensures VirtualOf(managed[a := nonce], chain, a) == nonce
    ensures Below(queued, ReadyEnd(queued, nonce)) == map[] && From(queued, ReadyEnd(queued, nonce)) == queued
    ensures forall items :: !Gapless(items, chain.Nonce(a), nonce)
  {
  }
}
