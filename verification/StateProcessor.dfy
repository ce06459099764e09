/** Gas and receipts of a block: Process and ApplyTransaction (core/state_processor.go), and SetReceiptsData
    (core/blockchain.go). */
module StateProcessors {
  import opened Transactions
  import opened StateTransitions

  /** Of a receipt, what concerns gas. */
  datatype Receipt = Receipt(cumulativeGasUsed: nat, gasUsed: nat)

  /** A transaction of a block; `signed` tells whether AsMessage recovers the sender. */
  datatype BlockTx = BlockTx(msg: Message, signed: bool)

  /** The gas of the receipts together. */
  ghost function GasOf(receipts: seq<Receipt>): nat {
    if receipts == [] then 0 else GasOf(receipts[..|receipts| - 1]) + receipts[|receipts| - 1].gasUsed
  }

  /** Each receipt's cumulative gas is the gas of the receipts up to it. */
  ghost predicate Cumulates(receipts: seq<Receipt>) {
    forall i :: 0 <= i < |receipts| ==> receipts[i].cumulativeGasUsed == GasOf(receipts[..i + 1])
  }

  lemma CumulatesMore(receipts: seq<Receipt>, r: Receipt)
    requires Cumulates(receipts) && r.cumulativeGasUsed == GasOf(receipts) + r.gasUsed
    ensures Cumulates(receipts + [r]) && GasOf(receipts + [r]) == GasOf(receipts) + r.gasUsed
  {
    var more := receipts + [r];
    assert more[..|receipts|] == receipts;
    forall i | 0 <= i < |more| ensures more[i].cumulativeGasUsed == GasOf(more[..i + 1]) {
      if i < |receipts| {
        assert more[..i + 1] == receipts[..i + 1];
      } else {
        assert more[..i + 1] == more;
      }
    }
  }

  function TxVerdict(w: World, pool: nat, tx: BlockTx, homestead: bool, o: Outcome): Error {
    if !tx.signed then InvalidSender else Verdict(w, pool, tx.msg, homestead, o)
  }

  /** ApplyTransaction: the used gas, kept in 64 bits, grows by the gas of the receipt. */
  method ApplyTransaction(gp: GasPool, state: StateDB, tx: BlockTx, homestead: bool, coinbase: Address, usedGas: nat,
                          o: Outcome)
    returns (receipt: Receipt, total: nat, err: Error, panics: bool)
    requires tx.msg.gas <= MAX_UINT64 && gp.gas <= MAX_UINT64 && |tx.msg.data| <= MAX_UINT64 && usedGas <= MAX_UINT64
    requires Frugal(tx.msg, homestead, o)
    modifies gp, state
    ensures !panics && gp.gas <= MAX_UINT64
    ensures err == TxVerdict(old(state.world), old(gp.gas), tx, homestead, o)
    ensures err == None_ ==>
              && o.gasLeft <= tx.msg.gas && receipt == Receipt(total, GasUsed(tx.msg, o))
              && total == Add64(usedGas, GasUsed(tx.msg, o)) && GasUsed(tx.msg, o) <= old(gp.gas)
              && gp.gas == old(gp.gas) - GasUsed(tx.msg, o) && state.world == Settled(tx.msg, o, coinbase)
  {
    receipt, total, panics := Receipt(0, 0), usedGas, false;
    if !tx.signed {
      err := InvalidSender;
      return;
    }
    var st := new StateTransition(gp, state, tx.msg, homestead, coinbase);
    var gas, failed;
    gas, failed, err, panics := st.TransitionDb(o);
    if err != None_ {
      return;
    }
    total := Add64(usedGas, gas);
    receipt := Receipt(total, gas);
  }

  /** The world before the i-th transaction, given the outcomes of those before it. */
  ghost function WorldBefore(start: World, txs: seq<BlockTx>, outcomes: seq<Outcome>, coinbase: Address, i: nat): World
    requires i <= |txs| == |outcomes| && forall k :: 0 <= k < i ==> outcomes[k].gasLeft <= txs[k].msg.gas
  {
    if i == 0 then start else Settled(txs[i - 1].msg, outcomes[i - 1], coinbase)
  }

  /** The gas the block has left for the i-th transaction. */
  ghost function PoolBefore(gasLimit: nat, txs: seq<BlockTx>, outcomes: seq<Outcome>, i: nat): int
    requires i <= |txs| == |outcomes| && forall k :: 0 <= k < i ==> outcomes[k].gasLeft <= txs[k].msg.gas
  {
    if i == 0 then gasLimit else PoolBefore(gasLimit, txs, outcomes, i - 1) - GasUsed(txs[i - 1].msg, outcomes[i - 1])
  }

  /** What becomes of the i-th transaction once those before it are applied. */
  ghost predicate Ends(start: World, txs: seq<BlockTx>, outcomes: seq<Outcome>, coinbase: Address, gasLimit: nat,
                       homestead: bool, i: nat, err: Error)
    requires i < |txs| == |outcomes|
  {
    && (forall k :: 0 <= k < i ==> outcomes[k].gasLeft <= txs[k].msg.gas)
    && PoolBefore(gasLimit, txs, outcomes, i) >= 0
    && err == TxVerdict(WorldBefore(start, txs, outcomes, coinbase, i), PoolBefore(gasLimit, txs, outcomes, i), txs[i],
                        homestead, outcomes[i])
  }

  /** Every run of the EVM keeps the money supply. */
  ghost predicate EvmConserves(start: World, txs: seq<BlockTx>, outcomes: seq<Outcome>, coinbase: Address)
    requires |txs| == |outcomes|
  {
    forall i :: 0 <= i < |txs| && (forall k :: 0 <= k <= i ==> outcomes[k].gasLeft <= txs[k].msg.gas) ==>
      Supply(outcomes[i].world.balances) ==
      Supply(Bought(WorldBefore(start, txs, outcomes, coinbase, i), txs[i].msg).balances)
  }

  lemma SupplyStep(start: World, txs: seq<BlockTx>, outcomes: seq<Outcome>, coinbase: Address, i: nat)
    requires i < |txs| == |outcomes| && forall k :: 0 <= k <= i ==> outcomes[k].gasLeft <= txs[k].msg.gas
    ensures EvmConserves(start, txs, outcomes, coinbase) ==>
              Supply(WorldBefore(start, txs, outcomes, coinbase, i + 1).balances)
              == Supply(WorldBefore(start, txs, outcomes, coinbase, i).balances)
  {
    hide Supply, Settled, Bought, GasUsed;
    FeesConserved(WorldBefore(start, txs, outcomes, coinbase, i), txs[i].msg, outcomes[i], coinbase);
  }

  /** What the first n receipts' gas costs. */
  ghost function FeesOf(receipts: seq<Receipt>, txs: seq<BlockTx>, n: nat): nat
    requires n <= |receipts| && n <= |txs|
  {
    if n == 0 then 0 else FeesOf(receipts, txs, n - 1) + receipts[n - 1].gasUsed * txs[n - 1].msg.gasPrice
  }

  lemma {:induction false} FeesOfMore(receipts: seq<Receipt>, r: Receipt, txs: seq<BlockTx>, n: nat)
    requires n <= |receipts| && n <= |txs|
    ensures FeesOf(receipts + [r], txs, n) == FeesOf(receipts, txs, n)
  {
    if n > 0 {
      FeesOfMore(receipts, r, txs, n - 1);
    }
  }

  /** The coinbase sends no transaction, and no run of the EVM touches its balance. */
  ghost predicate CoinbaseIdle(start: World, txs: seq<BlockTx>, outcomes: seq<Outcome>, coinbase: Address)
    requires |txs| == |outcomes|
  {
    forall i :: 0 <= i < |txs| ==>
      && txs[i].msg.from != coinbase
      && ((forall k :: 0 <= k <= i ==> outcomes[k].gasLeft <= txs[k].msg.gas) ==>
            outcomes[i].world.Balance(coinbase) == WorldBefore(start, txs, outcomes, coinbase, i).Balance(coinbase))
  }

  lemma CoinbaseStep(start: World, txs: seq<BlockTx>, outcomes: seq<Outcome>, coinbase: Address, i: nat)
    requires i < |txs| == |outcomes| && forall k :: 0 <= k <= i ==> outcomes[k].gasLeft <= txs[k].msg.gas
    ensures CoinbaseIdle(start, txs, outcomes, coinbase) ==>
              WorldBefore(start, txs, outcomes, coinbase, i + 1).Balance(coinbase)
              == WorldBefore(start, txs, outcomes, coinbase, i).Balance(coinbase)
                 + GasUsed(txs[i].msg, outcomes[i]) * txs[i].msg.gasPrice
  {
    hide Settled, GasUsed;
    WhoGetsWhat(txs[i].msg, outcomes[i], coinbase, coinbase);
  }

  lemma NoReceipts()
    ensures Cumulates([]) && GasOf([]) == 0
  {
  }

  /** Process: if it succeeds, the used gas is the gas of the receipts and what is missing from the block's gas limit,
      and fees have only moved; otherwise it fails with the verdict on the first transaction, `at`, that is not in
      order. The pool is never pushed over its limit. */
  method Process(txs: seq<BlockTx>, gasLimit: nat, start: World, homestead: bool, coinbase: Address,
                 outcomes: seq<Outcome>)
    returns (receipts: seq<Receipt>, usedGas: nat, gasLeft: nat, world: World, err: Error, panics: bool, ghost at: nat)
    requires gasLimit <= MAX_UINT64 && |outcomes| == |txs|
    requires forall i :: 0 <= i < |txs| ==> txs[i].msg.gas <= MAX_UINT64 && |txs[i].msg.data| <= MAX_UINT64
    requires forall i :: 0 <= i < |txs| ==> Frugal(txs[i].msg, homestead, outcomes[i])
    ensures !panics
    ensures err != None_ ==> at < |txs| && Ends(start, txs, outcomes, coinbase, gasLimit, homestead, at, err)
    ensures forall i :: 0 <= i < at <= |txs| ==> Ends(start, txs, outcomes, coinbase, gasLimit, homestead, i, None_)
    ensures err == None_ ==>
              && at == |txs| && |receipts| == |txs| && Cumulates(receipts)
              && usedGas == GasOf(receipts) && usedGas + gasLeft == gasLimit
              && (forall i :: 0 <= i < |txs| ==>
                    outcomes[i].gasLeft <= txs[i].msg.gas && receipts[i].gasUsed == GasUsed(txs[i].msg, outcomes[i]))
              && world == WorldBefore(start, txs, outcomes, coinbase, |txs|)
              && (EvmConserves(start, txs, outcomes, coinbase) ==> Supply(world.balances) == Supply(start.balances))
              && (CoinbaseIdle(start, txs, outcomes, coinbase) ==>
                    world.Balance(coinbase) == start.Balance(coinbase) + FeesOf(receipts, txs, |txs|))
  {
    hide Supply, GasUsed, Settled, Bought, Frugal, EvmConserves, Cumulates, GasOf, TxVerdict, CoinbaseIdle;
    hide World.Balance;
    NoReceipts();
    receipts, usedGas, panics, at := [], 0, false, 0;
    var gp := new GasPool();
    panics := gp.AddGas(gasLimit);
    var state := new StateDB(start);
    for i := 0 to |txs|
      invariant !panics && fresh(gp) && fresh(state) && gp.gas <= MAX_UINT64
      invariant |receipts| == i && Cumulates(receipts) && usedGas == GasOf(receipts) && usedGas + gp.gas == gasLimit
      invariant forall k :: 0 <= k < i ==>
                  outcomes[k].gasLeft <= txs[k].msg.gas && receipts[k].gasUsed == GasUsed(txs[k].msg, outcomes[k])
      invariant state.world == WorldBefore(start, txs, outcomes, coinbase, i)
      invariant gp.gas == PoolBefore(gasLimit, txs, outcomes, i)
      invariant at == i
      invariant forall k :: 0 <= k < i ==> Ends(start, txs, outcomes, coinbase, gasLimit, homestead, k, None_)
      invariant EvmConserves(start, txs, outcomes, coinbase) ==> Supply(state.world.balances) == Supply(start.balances)
      invariant CoinbaseIdle(start, txs, outcomes, coinbase) ==>
                  state.world.Balance(coinbase) == start.Balance(coinbase) + FeesOf(receipts, txs, i)
    {
      var receipt;
      receipt, usedGas, err, panics := ApplyTransaction(gp, state, txs[i], homestead, coinbase, usedGas, outcomes[i]);
      if err != None_ {
        return [], 0, gp.gas, state.world, err, panics, i;
      }
      SupplyStep(start, txs, outcomes, coinbase, i);
      CoinbaseStep(start, txs, outcomes, coinbase, i);
      FeesOfMore(receipts, receipt, txs, i);
      CumulatesMore(receipts, receipt);
      receipts := receipts + [receipt];
      at := i + 1;
    }
    gasLeft, world, err := gp.gas, state.world, None_;
  }

  // ---------- deriving receipts from storage ----------

  /** Storage keeps only the cumulative gas. */
  function Stored(r: Receipt): Receipt {
    r.(gasUsed := 0)
  }

  /** SetReceiptsData: recomputes, in place, each receipt's gas as a difference of cumulative ones, in 64 bits. */
  method SetReceiptsData(txCount: nat, receipts: array<Receipt>) returns (ok: bool)
    requires forall i :: 0 <= i < receipts.Length ==> receipts[i].cumulativeGasUsed <= MAX_UINT64
    modifies receipts
    ensures ok <==> txCount == receipts.Length
    ensures !ok ==> receipts[..] == old(receipts[..])
    ensures ok ==> receipts[..] == Derived(old(receipts[..]))
  {
    if txCount != receipts.Length {
      return false;
    }
    ghost var was := receipts[..];
    ghost var derived := Derived(was);
    assert forall i :: 0 <= i < |was| ==> derived[i] == DerivedAt(was, i);
    hide Derived, Sub64;
    for j := 0 to receipts.Length
      invariant forall i :: 0 <= i < j ==> receipts[i] == derived[i]
      invariant forall i :: j <= i < receipts.Length ==> receipts[i] == was[i]
    {
      if j == 0 {
        receipts[j] := receipts[j].(gasUsed := receipts[j].cumulativeGasUsed);
      } else {
        assert derived[j - 1] == DerivedAt(was, j - 1);
        receipts[j] := receipts[j].(gasUsed := Sub64(receipts[j].cumulativeGasUsed, receipts[j - 1].cumulativeGasUsed));
      }
      assert receipts[j] == DerivedAt(was, j);
    }
    ok := true;
  }

  function DerivedAt(receipts: seq<Receipt>, j: nat): Receipt
    requires j < |receipts| && forall i :: 0 <= i < |receipts| ==> receipts[i].cumulativeGasUsed <= MAX_UINT64
  {
    receipts[j].(gasUsed := if j == 0 then receipts[j].cumulativeGasUsed
                            else Sub64(receipts[j].cumulativeGasUsed, receipts[j - 1].cumulativeGasUsed))
  }

  function Derived(receipts: seq<Receipt>): (r: seq<Receipt>)
    requires forall i :: 0 <= i < |receipts| ==> receipts[i].cumulativeGasUsed <= MAX_UINT64
    ensures |r| == |receipts|
  {
    seq(|receipts|, j requires 0 <= j < |receipts| => DerivedAt(receipts, j))
  }

  /** What was stored of the receipts of a block is enough to get them back. */
  lemma ReceiptsRecovered(receipts: seq<Receipt>, kept: seq<Receipt>)
    requires Cumulates(receipts) && GasOf(receipts) <= MAX_UINT64
    requires |kept| == |receipts| && forall i :: 0 <= i < |kept| ==> kept[i] == Stored(receipts[i])
    ensures forall i :: 0 <= i < |kept| ==> kept[i].cumulativeGasUsed <= MAX_UINT64
    ensures Derived(kept) == receipts
  {
    hide GasOf;
    forall j | 0 <= j < |kept| ensures kept[j].cumulativeGasUsed <= MAX_UINT64 {
      GasOfPrefix(receipts, j + 1);
    }
    var derived := Derived(kept);
    forall j | 0 <= j < |kept| ensures derived[j] == receipts[j] {
      NextCumulative(receipts, j);
      if j > 0 {
        assert kept[j - 1].cumulativeGasUsed == GasOf(receipts[..j - 1 + 1]);
      }
    }
  }

  lemma NextCumulative(receipts: seq<Receipt>, j: nat)
    requires j < |receipts|
    ensures GasOf(receipts[..j + 1]) == GasOf(receipts[..j]) + receipts[j].gasUsed && GasOf(receipts[..0]) == 0
  {
    assert receipts[..j + 1][..j] == receipts[..j];
  }

  lemma {:induction false} GasOfPrefix(receipts: seq<Receipt>, n: nat)
    requires n <= |receipts|
    ensures GasOf(receipts[..n]) <= GasOf(receipts)
    decreases |receipts|
  {
    if n == |receipts| {
      assert receipts[..n] == receipts;
    } else {
      var prior := receipts[..|receipts| - 1];
      assert prior[..n] == receipts[..n];
      GasOfPrefix(prior, n);
    }
  }
}
