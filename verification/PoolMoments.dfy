/** The pool over time: what each operation (core/tx_pool.go) may make of it, as values. */
module PoolMoments {
  import opened Wrappers
  import opened Transactions
  import opened TxListSpec
  import opened PricedLists
  import opened PoolModel
  import opened PoolSteps
  import opened PoolReadiness
  import opened PoolResets
  import opened PoolStays
  import IntrinsicGas

  /** What can be asked of the pool from outside. A new head comes with its state, what a reorganisation took off the
      chain, and whether it is under the Homestead rules. */
  datatype Operation =
    | AddOne(tx: Tx, local: bool)
    | AddMany(txs: seq<Tx>, local: bool)
    | Reprice(price: nat)
    | Sweep
    | NewHead(state: Option<ChainState>, reinject: seq<Tx>, homestead: bool)
  {
    predicate Reinjects() {
      NewHead? && state.Some? && reinject != []
    }

    predicate Offers(other: Tx) {
      (AddOne? && tx == other) || (AddMany? && other in txs) || (NewHead? && other in reinject)
    }

    predicate IsLocal() {
      (AddOne? || AddMany?) && local
    }
  }

  /** The pool at one moment. */
  datatype Moment = Moment(
    book: Book,
    chain: ChainState,
    locals: set<Address>,
    gasPrice: nat,
    homestead: bool,
    beats: map<Address, nat>)
  {
    ghost predicate Agrees() {
      book.Agrees()
    }

    ghost predicate Executable() {
      AllExecutable(book.content.pending, chain)
    }

    ghost predicate InOrder() {
      && NoGaps(book.content.pending, chain, book.managed)
      && forall a :: SettledIn(book.content.pending, book.content.queue, chain, a)
    }

    ghost predicate IsPriced() {
      Priced(book.content.all, locals, gasPrice)
    }

    ghost predicate IsCovered(h: bool) {
      Covered(book.content.all, h)
    }

    /** The operation puts nothing back, or there is room for what it puts back and no account is refilled only
        partly. */
    ghost predicate Gentle(op: Operation, config: Config) {
      op.Reinjects() ==>
        && |book.content.all| + |op.reinject| <= config.globalSlots
        && forall a :: !RefilledPartly(op.reinject, RulesFor(op, config), a)
    }

    /** The rules under which an operation admits transactions. */
    function RulesFor(op: Operation, config: Config): Rules {
      if op.NewHead? && op.state.Some?
      then Rules(op.state.value, locals, gasPrice, homestead || op.homestead, config.priceBump)
      else Rules(chain, locals, gasPrice, homestead, config.priceBump)
    }

    ghost predicate RefilledPartly(reinject: seq<Tx>, rules: Rules, a: Address) {
      var r := AddedAll(book.content, reinject, false, |reinject|, rules);
      GapAt(r.content, r.dirty, rules.chain, a, chain.Nonce(a))
    }

    /** What an operation may make of this moment: only a new head moves the chain or turns the Homestead rules on, only
        a repricing sets the price, only a local addition makes an account local; what is new was offered and is
        admitted; and the operation has its own result. */
    ghost predicate LeadsTo(op: Operation, config: Config, time: nat, after: Moment) {
      && after.chain == (if op.NewHead? && op.state.Some? then op.state.value else chain)
      && after.homestead == (homestead || (op.NewHead? && op.homestead))
      && after.gasPrice == (if op.Reprice? then op.price else gasPrice)
      && (!op.IsLocal() ==> after.locals == locals)
      && (forall tx :: tx in after.book.content.all ==>
            tx in book.content.all || (op.Offers(tx) && Validity(tx, op.IsLocal(), RulesFor(op, config)) == None))
      && (IsPriced() ==> after.IsPriced())
      && Brings(op, config, time, after)
    }

    /** The result of the operation; of additions and new heads, as long as the pool is modest. */
    ghost predicate Brings(op: Operation, config: Config, time: nat, after: Moment) {
      match op
      case AddOne(tx, local) =>
        Modest(|book.content.all| + 1, config) ==>
          if && tx !in book.content.all && Validity(tx, local, RulesFor(op, config)) == None
             && Free(book.content, tx, config.priceBump)
          then tx in after.book.content.all && LosesOnly(tx, config, after)
          else after.book == book
      case AddMany(txs, local) =>
        Modest(|book.content.all| + |txs|, config) ==>
          var added := AddedAll(book.content, txs, local, |txs|, RulesFor(op, config)).content.all;
          && after.book.content.all <= added
          && forall tx :: tx in added && !Hopeless(chain, tx.from, tx) ==> tx in after.book.content.all
      case Reprice(price) =>
        forall tx :: tx in after.book.content.all <==>
          tx in book.content.all && (tx.price >= price || PricedLists.IsLocal(tx, locals))
      case Sweep =>
        && after.book.content.pending == book.content.pending && after.book.managed == book.managed
        && (forall a :: a in after.book.content.queue <==>
              a in book.content.queue && (a in locals || (a in beats && time - beats[a] <= config.lifetime)))
        && (forall a :: a in after.book.content.queue && a in book.content.queue ==>
              after.book.content.queue[a] == book.content.queue[a])
      case NewHead(state, reinject, _) =>
        if state.None? then after.book == book
        else
          Modest(|book.content.all| + |reinject|, config) ==>
            forall tx :: tx in after.book.content.all <==>
              && tx in AddedAll(book.content, reinject, false, |reinject|, RulesFor(op, config)).content.all
              && !Hopeless(state.value, tx.from, tx)
    }

    /** Only the twin of the transaction, if it is outbid, and hopeless ones have gone. */
    ghost predicate LosesOnly(tx: Tx, config: Config, after: Moment) {
      forall t :: t in book.content.all && t !in after.book.content.all ==>
        (Twins(t, tx) && Outbids(tx, t, config.priceBump)) || Hopeless(chain, t.from, t)
    }
  }

  /** What an addition says of itself, over time. */
  lemma AddOneLeads(m: Moment, tx: Tx, local: bool, config: Config, time: nat, err: Option<Error>, room: Book,
                    filed: Filing, after: Moment)
    requires config.Workable() && m.Agrees() && filed.book.Agrees()
    requires after.chain == m.chain && after.gasPrice == m.gasPrice && after.homestead == m.homestead
    requires after.locals == filed.locals && after.book.content.all <= filed.book.content.all
    requires Files(Filing(m.book, m.locals, {}), room, filed, tx, local, m.RulesFor(AddOne(tx, local), config),
                   config.globalSlots + config.globalQueue, err)
    requires err.Some? && |m.book.content.all| < config.globalSlots + config.globalQueue ==> after.book == m.book
    requires err == None && Modest(|m.book.content.all| + 1, config) ==>
               tx in after.book.content.all && OnlyHopeless(filed.book, after.book, m.chain, tx.from)
    ensures m.LeadsTo(AddOne(tx, local), config, time, after)
  {
    hide Files, Consistent, Validity, Free, Hopeless, Worth, Priced;
    var f, op := Filing(m.book, m.locals, {}), AddOne(tx, local);
    var rules, capacity := m.RulesFor(op, config), config.globalSlots + config.globalQueue;
    assert rules.(locals := m.locals) == rules;
    forall t | t in after.book.content.all
      ensures t in m.book.content.all || (op.Offers(t) && Validity(t, local, rules) == None)
    {
      if t !in m.book.content.all {
        FilesAdds(f, room, filed, tx, local, rules, capacity, err, t);
      }
    }
    FilesLocals(f, room, filed, tx, local, rules, capacity, err);
    if m.IsPriced() {
      FilesPriced(f, room, filed, tx, local, rules, capacity, err);
      FewerPriced(filed.book.content.all, after.book.content.all, after.locals, after.gasPrice);
    }
    FilesOutcome(f, room, filed, tx, local, rules, capacity, err);
    if err == None && Modest(|m.book.content.all| + 1, config) {
      forall t | t in m.book.content.all && t !in after.book.content.all
        ensures (Twins(t, tx) && Outbids(tx, t, config.priceBump)) || Hopeless(m.chain, t.from, t)
      {
        if t !in filed.book.content.all {
          FilesLoses(f, room, filed, tx, local, rules, capacity, err, t);
        }
      }
    }
  }

  lemma FewerPriced(all: set<Tx>, fewer: set<Tx>, locals: set<Address>, gasPrice: nat)
    requires Priced(all, locals, gasPrice) && fewer <= all
    ensures Priced(fewer, locals, gasPrice)
  {
  }

  lemma AddManyLeads(m: Moment, txs: seq<Tx>, local: bool, config: Config, time: nat, log: Batch, swept: Book,
                     after: Moment)
    requires var rules := m.RulesFor(AddMany(txs, local), config);
             && log.Of(txs, local, rules, config.globalSlots + config.globalQueue)
             && (|m.book.content.all| + |txs| <= config.globalSlots + config.globalQueue ==>
                   && log.Last().book.content == AddedAll(m.book.content, txs, local, |txs|, rules).content
                   && |log.Last().book.content.all| <= |m.book.content.all| + |txs|)
    requires after.chain == m.chain && after.gasPrice == m.gasPrice && after.homestead == m.homestead
    requires log.filings[0] == Filing(m.book, m.locals, {}) && log.Last().locals == after.locals
    requires !local ==> after.locals == m.locals
    requires if log.Last().dirty == {} then after.book == log.Last().book
             else Promotes(log.Last().book, swept, after.book, m.chain, log.Last().dirty, after.locals, config)
    ensures m.LeadsTo(AddMany(txs, local), config, time, after)
  {
    hide Files, Consistent, Validity, Hopeless, Priced, AddedAll, Swept, Truncated;
    var op := AddMany(txs, local);
    var rules, capacity := m.RulesFor(op, config), config.globalSlots + config.globalQueue;
    var last := log.Last();
    if last.dirty != {} {
      PromotionShrinks(last.book, swept, after.book, m.chain, last.dirty, after.locals, config);
    }
    forall t | t in after.book.content.all
      ensures t in m.book.content.all || (op.Offers(t) && Validity(t, local, rules) == None)
    {
      BatchAdds(log, txs, local, rules, capacity, |txs|, t);
    }
    if m.IsPriced() {
      BatchPriced(log, txs, local, rules, capacity, |txs|);
      FewerPriced(last.book.content.all, after.book.content.all, after.locals, after.gasPrice);
    }
    if Modest(|m.book.content.all| + |txs|, config) && last.dirty != {} {
      forall t | t in last.book.content.all && !Hopeless(m.chain, t.from, t) ensures t in after.book.content.all {
        if t !in after.book.content.all {
          ModestPromotion(last.book, swept, after.book, m.chain, last.dirty, after.locals, config, t);
        }
      }
    }
  }

  lemma PromotionShrinks(b: Book, s: Book, b': Book, chain: ChainState, accounts: set<Address>, locals: set<Address>,
                         config: Config)
    requires Promotes(b, s, b', chain, accounts, locals, config)
    ensures b'.content.all <= b.content.all
  {
    hide SweptAt, QueueSwept, Trimmed, QueueShortened, Total, Consistent;
  }

  lemma ResetPriced(c: Course, start: Book, now: Book, reinject: seq<Tx>, r: Rules, config: Config)
    requires c.Leads(start, now, reinject, r, config)
    ensures Priced(start.content.all, r.locals, r.gasPrice) ==> Priced(now.content.all, r.locals, r.gasPrice)
  {
    hide Files, Consistent, Hopeless, Remaining, SweptAt, QueueSwept, Trimmed, QueueShortened, Total, Priced;
    if Priced(start.content.all, r.locals, r.gasPrice) {
      var last := c.batch.Last();
      BatchPriced(c.batch, reinject, false, r, config.globalSlots + config.globalQueue, |reinject|);
      FewerPriced(last.book.content.all, now.content.all, r.locals, r.gasPrice);
    }
  }

  /** Over every run: remote transactions pay the gas price, and everything covers the intrinsic gas of the rules that
      held at the start. */
  lemma {:induction false} RunAdmits(moments: seq<Moment>, ops: seq<Operation>, config: Config, times: seq<nat>, i: nat,
                                     h: bool)
    requires |moments| == |ops| + 1 && |times| == |ops| && i <= |ops|
    requires forall k :: 0 <= k < |ops| ==> moments[k].LeadsTo(ops[k], config, times[k], moments[k + 1])
    ensures moments[0].IsPriced() ==> moments[i].IsPriced()
    ensures moments[0].IsCovered(h) && (h ==> moments[0].homestead) ==>
              moments[i].IsCovered(h) && (h ==> moments[i].homestead)
    decreases i
  {
    hide Moment.LeadsTo, Priced, Covered;
    if i > 0 {
      RunAdmits(moments, ops, config, times, i - 1, h);
      assert moments[i - 1].LeadsTo(ops[i - 1], config, times[i - 1], moments[i - 1 + 1]);
      StepAdmits(moments[i - 1], ops[i - 1], config, times[i - 1], moments[i], h);
    }
  }

  lemma StepAdmits(m: Moment, op: Operation, config: Config, time: nat, after: Moment, h: bool)
    requires m.LeadsTo(op, config, time, after)
    ensures m.IsPriced() ==> after.IsPriced()
    ensures m.IsCovered(h) && (h ==> m.homestead) ==> after.IsCovered(h) && (h ==> after.homestead)
  {
    hide Moment.Brings, Priced;
    if m.IsCovered(h) && (h ==> m.homestead) {
      forall t | t in after.book.content.all
        ensures t.gas >= IntrinsicGas.ExactPrice(t.data, t.creates, h)
      {
        HomesteadCostsMore(t, m.RulesFor(op, config).homestead, h);
      }
    }
  }

  lemma HomesteadCostsMore(t: Tx, h: bool, h': bool)
    requires h' ==> h
    ensures IntrinsicGas.ExactPrice(t.data, t.creates, h') <= IntrinsicGas.ExactPrice(t.data, t.creates, h)
  {
  }
}
