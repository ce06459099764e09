/** What stays in the pool and what leaves it (core/tx_pool.go): through promotion with its two truncations, through
    additions, and through a reset. */
module PoolStays {
  import opened Wrappers
  import opened Transactions
  import opened TxListSpec
  import opened PricedLists
  import opened PoolModel
  import opened PoolSteps
  import opened PoolReadiness
  import opened PoolResets
  import IntrinsicGas

  /** The lists, the lookup and the virtual nonces. */
  datatype Book = Book(content: Content, managed: map<Address, nat>) {
    ghost predicate Agrees() {
      Consistent(content.pending, content.queue, content.all)
    }
  }

  // ---------- promotion ----------

  /** Every account's turn in promoteExecutables, visited or not. */
  ghost predicate Swept(b: Book, s: Book, chain: ChainState, accounts: set<Address>, locals: set<Address>, cap: nat) {
    && s.Agrees() && s.content.all <= b.content.all
    && (forall a :: SweptAt(b.content.pending, b.content.queue, b.managed,
                            s.content.pending, s.content.queue, s.managed, chain, a, a in accounts))
    && (forall a :: QueueSwept(b.content.queue, b.managed, s.content.queue, chain, a, a in accounts, a in locals, cap))
  }

  /** The two truncations at its end. */
  ghost predicate Truncated(s: Book, b: Book, locals: set<Address>, config: Config) {
    && b.Agrees() && b.content.all <= s.content.all
    && Trimmed(s.content.pending, b.content.pending, locals, config.accountSlots)
    && (if Total(s.content.pending) <= config.globalSlots
        then b.content.pending == s.content.pending && b.managed == s.managed
        else Total(b.content.pending) + |Spammers(s.content.pending, locals, config.accountSlots)| > config.globalSlots)
    && QueueShortened(s.content.queue, b.content.queue, locals)
    && (if Total(s.content.queue) <= config.globalQueue then b.content.queue == s.content.queue
        else Total(b.content.queue) >= config.globalQueue)
  }

  ghost predicate Promotes(b: Book, s: Book, b': Book, chain: ChainState, accounts: set<Address>, locals: set<Address>,
                           config: Config) {
    Swept(b, s, chain, accounts, locals, config.accountQueue) && Truncated(s, b', locals, config)
  }

  lemma EveryoneSwept(b: Book, s: Book, chain: ChainState, accounts: set<Address>, locals: set<Address>, cap: nat)
    requires s.Agrees() && s.content.all <= b.content.all
    requires forall a :: a !in accounts ==>
               NotYetSwept(b.content.pending, b.content.queue, b.managed, s.content.pending, s.content.queue, s.managed,
                           chain, a)
    requires forall a :: a in accounts ==>
               && SweptAt(b.content.pending, b.content.queue, b.managed, s.content.pending, s.content.queue, s.managed,
                          chain, a, true)
               && QueueSwept(b.content.queue, b.managed, s.content.queue, chain, a, true, a in locals, cap)
    ensures Swept(b, s, chain, accounts, locals, cap)
  {
    hide SweptAt, QueueSwept, NotYetSwept, Consistent;
    forall a ensures SweptAt(b.content.pending, b.content.queue, b.managed, s.content.pending, s.content.queue,
                             s.managed, chain, a, a in accounts)
      ensures QueueSwept(b.content.queue, b.managed, s.content.queue, chain, a, a in accounts, a in locals, cap)
    {
      if a !in accounts {
        QueueLeftAlone(b, s, chain, a, a in locals, cap);
        LeftAlone(b.content.pending, b.content.queue, b.managed, s.content.pending, s.content.queue, s.content.queue,
                  s.managed, chain, a);
      }
    }
  }

  lemma QueueLeftAlone(b: Book, s: Book, chain: ChainState, a: Address, local: bool, cap: nat)
    requires NotYetSwept(b.content.pending, b.content.queue, b.managed, s.content.pending, s.content.queue, s.managed,
                         chain, a)
    ensures QueueSwept(b.content.queue, b.managed, s.content.queue, chain, a, false, local, cap)
    ensures SubMap(ItemsOf(s.content.queue, a), ItemsOf(s.content.queue, a))
  {
    hide PayableItems, ReadyEnd, Lowest;
  }

  /** Truncating only the queue changes nothing of what the sweep made of the pending lists. */
  lemma SweptTruncated(b: Book, s: Book, b': Book, chain: ChainState, accounts: set<Address>, locals: set<Address>,
                       cap: nat)
    requires Swept(b, s, chain, accounts, locals, cap)
    requires b'.content.pending == s.content.pending && b'.managed == s.managed
    requires QueueShortened(s.content.queue, b'.content.queue, locals)
    ensures forall a :: SweptAt(b.content.pending, b.content.queue, b.managed,
                                b'.content.pending, b'.content.queue, b'.managed, chain, a, a in accounts)
  {
    hide SweptAt, QueueSwept, Consistent, QueueShortened;
    forall a ensures SweptAt(b.content.pending, b.content.queue, b.managed, b'.content.pending, b'.content.queue,
                             b'.managed, chain, a, a in accounts)
    {
      ShortenedSubMap(s.content.queue, b'.content.queue, locals, a);
      assert SweptAt(b.content.pending, b.content.queue, b.managed, s.content.pending, s.content.queue, s.managed,
                     chain, a, a in accounts);
      SweptSame(b.content.pending, b.content.queue, b.managed, s.content.pending, s.content.queue, s.managed,
                b'.content.pending, b'.content.queue, b'.managed, chain, a, a in accounts);
    }
  }

  /** The transaction of a remote account is out, and the queue of the account full with lower nonces. */
  ghost predicate OverQueue(s: Book, tx: Tx, locals: set<Address>, cap: nat) {
    tx !in s.content.all && tx.from !in locals && Excess(ItemsOf(s.content.queue, tx.from), cap, tx)
  }

  /** Too much was pending, and the transaction of a remote account was cut off the top of its list. */
  ghost predicate CutPending(s: Book, b: Book, tx: Tx, locals: set<Address>, config: Config) {
    && Stored(s.content.pending, tx) && tx.from !in locals && Total(s.content.pending) > config.globalSlots
    && |ItemsOf(b.content.pending, tx.from)| >= config.accountSlots
    && forall n :: n in ItemsOf(b.content.pending, tx.from) ==> n < tx.nonce
  }

  /** Too much was queued, and the transaction of a remote account was cut off the top of its queue. */
  ghost predicate CutQueue(s: Book, b: Book, tx: Tx, locals: set<Address>, config: Config) {
    && Stored(s.content.queue, tx) && tx.from !in locals && Total(s.content.queue) > config.globalQueue
    && forall n :: n in ItemsOf(b.content.queue, tx.from) ==> n < tx.nonce
  }

  /** What a promotion takes out of the pool apart from the hopeless. */
  ghost predicate Squeezed(s: Book, b: Book, tx: Tx, locals: set<Address>, config: Config) {
    || OverQueue(s, tx, locals, config.accountQueue)
    || CutPending(s, b, tx, locals, config)
    || CutQueue(s, b, tx, locals, config)
  }

  /** The sweep loses only hopeless queued transactions, and what exceeds full queues. */
  lemma SweepLoses(b: Book, s: Book, chain: ChainState, accounts: set<Address>, locals: set<Address>, cap: nat, tx: Tx)
    requires b.Agrees() && Swept(b, s, chain, accounts, locals, cap) && tx in b.content.all && tx !in s.content.all
    ensures tx.from in accounts && Stored(b.content.queue, tx)
    ensures Hopeless(chain, tx.from, tx) || OverQueue(s, tx, locals, cap)
  {
    hide Hopeless, SweptAt, QueueSwept;
    var a := tx.from;
    var p, q, q' := b.content.pending, b.content.queue, s.content.queue;
    StoredOnce(p, q, b.content.all, tx);
    NotStored(s, tx);
    assert SweptAt(p, q, b.managed, s.content.pending, q', s.managed, chain, a, a in accounts);
    assert QueueSwept(q, b.managed, q', chain, a, a in accounts, a in locals, cap);
    PayableMeaning(p, q, b.content.all, chain, a);
    if Stored(q, tx) && !Hopeless(chain, a, tx) {
      PayableStays(p, q, b.content.all, chain, tx);
    }
    hide Consistent, OverQueue;
    SweptAway(p, q, b.managed, s, chain, tx, a in accounts, locals, cap);
  }

  lemma SweptAway(p: Accounts, q: Accounts, managed: map<Address, nat>, s: Book, chain: ChainState, tx: Tx,
                  visited: bool, locals: set<Address>, cap: nat)
    requires var a := tx.from; var queued := PayableItems(q, chain, a);
             && SweptAt(p, q, managed, s.content.pending, s.content.queue, s.managed, chain, a, visited)
             && QueueSwept(q, managed, s.content.queue, chain, a, visited, a in locals, cap)
             && (Stored(p, tx) || Stored(q, tx))
             && (forall n :: n in queued ==> n !in ItemsOf(p, a))
             && (Stored(q, tx) && !Hopeless(chain, a, tx) ==> tx.nonce in queued && queued[tx.nonce] == tx)
    requires !Stored(s.content.pending, tx) && !Stored(s.content.queue, tx) && tx !in s.content.all
    ensures visited && Stored(q, tx) && (Hopeless(chain, tx.from, tx) || OverQueue(s, tx, locals, cap))
  {
    hide Hopeless, PayableItems, ReadyEnd, Lowest, Excess;
    var a := tx.from;
    var queued := PayableItems(q, chain, a);
    var end := ReadyEnd(queued, VirtualOf(managed, chain, a));
    assert !Stored(p, tx);
    assert visited;
    if !Hopeless(chain, a, tx) {
      var rest := From(queued, end);
      assert tx.nonce !in Below(queued, end);
      assert tx.nonce in rest && rest[tx.nonce] == tx;
      if a !in locals {
        CappedExcess(rest, cap, tx);
      }
    }
  }

  lemma CappedExcess(rest: Items, cap: nat, tx: Tx)
    requires tx.nonce in rest && rest[tx.nonce] == tx
    requires !(tx.nonce in Lowest(rest, cap) && Lowest(rest, cap)[tx.nonce] == tx)
    ensures Excess(Lowest(rest, cap), cap, tx)
  {
    LowestMeaning(rest, cap);
  }

  lemma NotStored(b: Book, tx: Tx)
    requires b.Agrees() && tx !in b.content.all
    ensures !Stored(b.content.pending, tx) && !Stored(b.content.queue, tx)
  {
  }

  lemma IsStored(b: Book, tx: Tx)
    requires b.Agrees()
    ensures Stored(b.content.pending, tx) || Stored(b.content.queue, tx) <==> tx in b.content.all
  {
  }

  /** A queued transaction that is not hopeless is among what Forward and Filter leave. */
  lemma PayableStays(p: Accounts, q: Accounts, all: set<Tx>, chain: ChainState, tx: Tx)
    requires Consistent(p, q, all) && Stored(q, tx) && !Hopeless(chain, tx.from, tx)
    ensures var queued := PayableItems(q, chain, tx.from); tx.nonce in queued && queued[tx.nonce] == tx
  {
    var a := tx.from;
    QueueKeyed(p, q, all, a);
    assert !q[a].strict;
    hide Consistent;
    var l1 := q[a].(items := From(q[a].items, chain.Nonce(a)));
    NothingInvalidated(l1, chain.Balance(a), chain.maxGas);
    assert tx.nonce in l1.items && l1.items[tx.nonce] == tx;
    assert tx.nonce !in l1.Unaffordable(chain.Balance(a), chain.maxGas);
  }

  /** Truncation loses only from the top. */
  lemma TruncationLoses(s: Book, b: Book, locals: set<Address>, config: Config, tx: Tx)
    requires s.Agrees() && Truncated(s, b, locals, config) && tx in s.content.all && tx !in b.content.all
    ensures CutPending(s, b, tx, locals, config) || CutQueue(s, b, tx, locals, config)
  {
    hide Consistent, Total, Lowest;
    var a := tx.from;
    IsStored(s, tx);
    NotStored(b, tx);
    if Stored(s.content.pending, tx) {
      var l, l' := s.content.pending[a], b.content.pending[a];
      assert TrimmedList(l, l', a in locals, config.accountSlots);
      LowestMeaning(l.items, |l'.items|);
    } else {
      LowestMeaning(s.content.queue[a].items, |ItemsOf(b.content.queue, a)|);
    }
  }

  /** Whatever leaves in a promotion is a hopeless queued transaction of a visited account, or squeezed out. */
  lemma PromotionLoses(b: Book, s: Book, b': Book, chain: ChainState, accounts: set<Address>, locals: set<Address>,
                       config: Config, tx: Tx)
    requires b.Agrees() && Promotes(b, s, b', chain, accounts, locals, config)
    requires tx in b.content.all && tx !in b'.content.all
    ensures || (tx.from in accounts && Stored(b.content.queue, tx) && Hopeless(chain, tx.from, tx))
            || Squeezed(s, b', tx, locals, config)
  {
    hide Consistent, SweptAt, QueueSwept, OverQueue, CutPending, CutQueue, Hopeless, Total, Trimmed, QueueShortened;
    if tx in s.content.all {
      TruncationLoses(s, b', locals, config, tx);
    } else {
      SweepLoses(b, s, chain, accounts, locals, config.accountQueue, tx);
    }
  }

  /** Few enough transactions not to be squeezed. */
  predicate Modest(size: nat, config: Config) {
    size <= config.globalSlots && size <= config.globalQueue && size <= config.accountQueue
  }

  /** In a promotion of a modest pool only hopeless transactions leave. */
  lemma ModestPromotion(b: Book, s: Book, b': Book, chain: ChainState, accounts: set<Address>, locals: set<Address>,
                        config: Config, tx: Tx)
    requires b.Agrees() && Promotes(b, s, b', chain, accounts, locals, config)
    requires Modest(|b.content.all|, config) && tx in b.content.all && tx !in b'.content.all
    ensures tx.from in accounts && Stored(b.content.queue, tx) && Hopeless(chain, tx.from, tx)
  {
    hide Total, Consistent, SweptAt, QueueSwept, Trimmed, QueueShortened, Hopeless, Txs;
    NoTruncation(s.content.pending, s.content.queue, s.content.all, b.content.all);
    if tx in s.content.all {
      IsStored(s, tx);
      IsStored(b', tx);
    } else {
      SweepLoses(b, s, chain, accounts, locals, config.accountQueue, tx);
      QueueHolds(s, tx.from);
      SmallerSet(Txs(ItemsOf(s.content.queue, tx.from)) + {tx}, b.content.all);
    }
  }

  lemma QueueHolds(s: Book, a: Address)
    requires s.Agrees()
    ensures var kept := ItemsOf(s.content.queue, a); Txs(kept) <= s.content.all && |Txs(kept)| == |kept|
  {
    var kept := ItemsOf(s.content.queue, a);
    if a in s.content.queue {
      assert ListOk(a, s.content.queue[a], false);
      TxsMeaning(kept);
      TxsCount(kept);
      forall tx | tx in Txs(kept) ensures tx in s.content.all {
        assert Stored(s.content.queue, tx);
      }
    } else {
      assert Txs(kept) == {};
    }
  }

  // ---------- adding ----------

  /** Local, or dearer than something in the pool. */
  ghost predicate Worth(tx: Tx, local: bool, all: set<Tx>, locals: set<Address>) {
    local || IsLocal(tx, locals) || exists t :: t in all && t.price < tx.price
  }

  /** Why a transaction is refused before it is compared with its twin: it is known, invalid, or the pool is full of
      nothing cheaper. */
  ghost function Refusal(c: Content, tx: Tx, local: bool, r: Rules, capacity: nat): Option<Error> {
    if tx in c.all then Some(Known)
    else if Validity(tx, local, r).Some? then Validity(tx, local, r)
    else if |c.all| >= capacity && !Worth(tx, local, c.all, r.locals) then Some(Underpriced)
    else None
  }

  /** The same sender and nonce. */
  predicate Twins(t: Tx, tx: Tx) {
    t.from == tx.from && t.nonce == tx.nonce
  }

  /** The transaction has no twin in the pool, or outbids it. */
  ghost predicate Free(c: Content, tx: Tx, priceBump: nat) {
    forall t :: t in c.all && Twins(t, tx) ==> Outbids(tx, t, priceBump)
  }

  lemma FreeMeaning(b: Book, tx: Tx, priceBump: nat)
    requires b.Agrees()
    ensures Home(b.content, tx).Accepts(tx, priceBump) <==> Free(b.content, tx, priceBump)
  {
    var l := Home(b.content, tx);
    var p, q := b.content.pending, b.content.queue;
    ListOfOk(p, tx.from, true);
    ListOfOk(q, tx.from, false);
    AcceptsMeaning(l, tx, priceBump);
    hide Outbids, ListValue.Accepts;
    if tx.nonce in l.items {
      var t := l.items[tx.nonce];
      assert Stored(p, t) || Stored(q, t);
      assert t in b.content.all && Twins(t, tx);
    }
    forall t | t in b.content.all && Twins(t, tx) ensures tx.nonce in l.items && l.items[tx.nonce] == t {
      StoredOnce(p, q, b.content.all, t);
    }
  }

  /** Discarding from a full pool: only remote transactions leave, the cheapest, no more than it takes, and none only if
      all are local. */
  ghost predicate MakesRoom(all: set<Tx>, all': set<Tx>, locals: set<Address>, capacity: nat) {
    && MadeRoom(all, all', locals) && |all'| >= capacity - 1
    && (all' == all ==> AllLocal(all, locals))
  }

  /** A pool in the course of a batch: the accounts in `dirty` have a newly queued transaction. */
  datatype Filing = Filing(book: Book, locals: set<Address>, dirty: set<Address>)

  /** One addition: refused, or filed after making room if the pool is full and unless a twin is not outbid. */
  ghost predicate Files(f: Filing, room: Book, f': Filing, tx: Tx, local: bool, r: Rules, capacity: nat,
                        err: Option<Error>) {
    var c := f.book.content;
    var refusal := Refusal(c, tx, local, r.(locals := f.locals), capacity);
    if refusal.Some? then err == refusal && room == f.book && f' == f
    else
      && room.Agrees()
      && (if |c.all| < capacity then room == f.book else MakesRoom(c.all, room.content.all, f.locals, capacity))
      && (if Free(room.content, tx, r.priceBump) then err == None && f' == Filed(f, room, tx, local)
          else err == Some(ReplaceUnderpriced) && f' == f.(book := room))
  }

  /** The transaction is filed where it belongs; an account with a newly queued one is dirty, and local if it is. */
  function Filed(f: Filing, room: Book, tx: Tx, local: bool): Filing {
    Filing(Book(Placed(room.content, tx), room.managed),
           if local && tx.nonce !in ItemsOf(room.content.pending, tx.from) then f.locals + {tx.from} else f.locals,
           if tx.nonce in Home(room.content, tx).items then f.dirty else f.dirty + {tx.from})
  }

  lemma InsertedFiled(room: Book, c': Content, tx: Tx, priceBump: nat, replaced: bool, err: Option<Error>)
    requires room.Agrees() && Inserted(room.content, c', tx, priceBump, replaced, err)
    ensures if Free(room.content, tx, priceBump)
            then err == None && c' == Placed(room.content, tx) && replaced == (tx.nonce in Home(room.content, tx).items)
            else err == Some(ReplaceUnderpriced) && !replaced && c' == room.content
  {
    FreeMeaning(room, tx, priceBump);
    hide Consistent, Free, ListValue.Accepts, ListValue.Added;
  }

  /** The same with more accounts dirty already. */
  lemma FilesMore(f: Filing, room: Book, f': Filing, tx: Tx, local: bool, r: Rules, capacity: nat, err: Option<Error>,
                  dirty: set<Address>)
    requires Files(f, room, f', tx, local, r, capacity, err) && f.dirty == {}
    ensures Files(f.(dirty := dirty), room, f'.(dirty := dirty + f'.dirty), tx, local, r, capacity, err)
  {
    hide Consistent, Free, Refusal, Placed, MakesRoom;
    assert dirty + {} == dirty;
  }

  /** Of the rules, who is local is what the filing says. */
  lemma FilesLater(f: Filing, room: Book, f': Filing, tx: Tx, local: bool, r: Rules, capacity: nat, err: Option<Error>)
    requires Files(f, room, f', tx, local, r.(locals := f.locals), capacity, err)
    ensures Files(f, room, f', tx, local, r, capacity, err)
  {
    hide Consistent, Free, Refusal, Placed, MakesRoom;
    assert r.(locals := f.locals).(locals := f.locals) == r.(locals := f.locals);
  }

  lemma FilesLocals(f: Filing, room: Book, f': Filing, tx: Tx, local: bool, r: Rules, capacity: nat, err: Option<Error>)
    requires Files(f, room, f', tx, local, r, capacity, err)
    ensures !local ==> f'.locals == f.locals
    ensures |f.book.content.all| < capacity ==> room == f.book
  {
    hide Validity, Consistent, Free, MakesRoom, Worth, Placed;
  }

  /** Only discarding and outbidding take a transaction out. */
  lemma FilesLoses(f: Filing, room: Book, f': Filing, tx: Tx, local: bool, r: Rules, capacity: nat, err: Option<Error>,
                   t: Tx)
    requires f.book.Agrees() && Files(f, room, f', tx, local, r, capacity, err)
    requires t in f.book.content.all && t !in f'.book.content.all
    ensures t !in room.content.all || (err == None && Twins(t, tx) && Outbids(tx, t, r.priceBump))
  {
    if t in room.content.all && err == None {
      var l := Home(room.content, tx);
      ListOfOk(room.content.pending, tx.from, true);
      ListOfOk(room.content.queue, tx.from, false);
      assert tx.nonce in l.items && t == l.items[tx.nonce];
    }
  }

  /** Nothing comes in but the transaction, and only if it is admitted. */
  lemma FilesAdds(f: Filing, room: Book, f': Filing, tx: Tx, local: bool, r: Rules, capacity: nat, err: Option<Error>,
                  t: Tx)
    requires Files(f, room, f', tx, local, r, capacity, err)
    requires t in f'.book.content.all && t !in f.book.content.all
    ensures t == tx && err == None && Validity(tx, local, r.(locals := f.locals)) == None
  {
    hide Validity, Consistent;
  }

  /** The log of a batch. */
  datatype Batch = Batch(filings: seq<Filing>, rooms: seq<Book>, errs: seq<Option<Error>>) {
    ghost predicate Of(txs: seq<Tx>, local: bool, r: Rules, capacity: nat) {
      && |filings| == |txs| + 1 && |rooms| == |errs| == |txs|
      && (forall i :: 0 <= i <= |txs| ==> filings[i].book.Agrees())
      && (forall i :: 0 <= i < |txs| ==> FilesAt(txs, local, r, capacity, i))
    }

    ghost predicate FilesAt(txs: seq<Tx>, local: bool, r: Rules, capacity: nat, i: nat)
      requires i < |txs| && |filings| == |txs| + 1 && |rooms| == |errs| == |txs|
    {
      Files(filings[i], rooms[i], filings[i + 1], txs[i], local, r, capacity, errs[i])
    }

    /** The i-th transaction drove this one out, to make room. */
    ghost predicate Discards(i: nat, t: Tx)
      requires i < |filings| && i < |rooms|
    {
      t in filings[i].book.content.all && t !in rooms[i].content.all
    }

    /** From the i-th transaction on, something drove this one out or took its place. */
    ghost predicate Ousts(txs: seq<Tx>, priceBump: nat, i: nat, t: Tx)
      requires |filings| == |txs| + 1 && |rooms| == |errs| == |txs|
    {
      exists k :: i <= k < |txs| &&
        (Discards(k, t) || (errs[k] == None && Twins(t, txs[k]) && Outbids(txs[k], t, priceBump)))
    }

    function Last(): Filing
      requires filings != []
    {
      filings[|filings| - 1]
    }
  }

  lemma {:induction false} BatchLoses(b: Batch, txs: seq<Tx>, local: bool, r: Rules, capacity: nat, i: nat, t: Tx)
    requires b.Of(txs, local, r, capacity) && i <= |txs| && t in b.filings[i].book.content.all
    requires t !in b.Last().book.content.all
    ensures b.Ousts(txs, r.priceBump, i, t)
    decreases |txs| - i
  {
    hide Files, Outbids, Consistent;
    if i < |txs| {
      assert b.FilesAt(txs, local, r, capacity, i);
      if t in b.filings[i + 1].book.content.all {
        BatchLoses(b, txs, local, r, capacity, i + 1, t);
      } else {
        FilesLoses(b.filings[i], b.rooms[i], b.filings[i + 1], txs[i], local, r, capacity, b.errs[i], t);
        assert b.Discards(i, t) || (b.errs[i] == None && Twins(t, txs[i]) && Outbids(txs[i], t, r.priceBump));
      }
    }
  }

  /** A transaction without an error is in the pool right after it. */
  lemma FiledNow(b: Batch, txs: seq<Tx>, local: bool, r: Rules, capacity: nat, i: nat)
    requires b.Of(txs, local, r, capacity) && i < |txs| && b.errs[i] == None
    ensures txs[i] in b.filings[i + 1].book.content.all
  {
    hide Validity, Consistent, Free, MakesRoom;
    assert b.FilesAt(txs, local, r, capacity, i);
  }

  lemma {:induction false} BatchAdds(b: Batch, txs: seq<Tx>, local: bool, r: Rules, capacity: nat, i: nat, t: Tx)
    requires b.Of(txs, local, r, capacity) && i <= |txs| && t in b.filings[i].book.content.all
    requires !local ==> b.filings[0].locals == r.locals
    ensures t in b.filings[0].book.content.all || (t in txs && Validity(t, local, r) == None)
    decreases i
  {
    hide Files, Consistent;
    if i > 0 {
      assert b.FilesAt(txs, local, r, capacity, i - 1);
      if t in b.filings[i - 1].book.content.all {
        BatchAdds(b, txs, local, r, capacity, i - 1, t);
      } else {
        FilesAdds(b.filings[i - 1], b.rooms[i - 1], b.filings[i], txs[i - 1], local, r, capacity, b.errs[i - 1], t);
        if !local {
          BatchRemote(b, txs, r, capacity, i - 1);
        }
        SameValidity(t, local, r, b.filings[i - 1].locals);
      }
    }
  }

  /** A remote batch makes nobody local. */
  lemma {:induction false} BatchRemote(b: Batch, txs: seq<Tx>, r: Rules, capacity: nat, i: nat)
    requires b.Of(txs, false, r, capacity) && i <= |txs|
    ensures b.filings[i].locals == b.filings[0].locals
    decreases i
  {
    hide Validity, Consistent, Free, Worth, Placed;
    if i > 0 {
      BatchRemote(b, txs, r, capacity, i - 1);
      assert b.FilesAt(txs, false, r, capacity, i - 1);
    }
  }

  /** The log with one more entry. */
  function Logged(b: Batch, f: Filing, room: Book, err: Option<Error>): Batch {
    Batch(b.filings + [f], b.rooms + [room], b.errs + [err])
  }

  lemma LogStarts(b: Batch, local: bool, r: Rules, capacity: nat)
    requires |b.filings| == 1 && b.rooms == [] && b.errs == [] && b.filings[0].book.Agrees()
    ensures b.Of([], local, r, capacity)
  {
  }

  lemma LogNext(b: Batch, txs: seq<Tx>, local: bool, r: Rules, capacity: nat, i: nat, f: Filing, room: Book, f': Filing,
                err: Option<Error>, dirty: set<Address>)
    requires i < |txs| && b.Of(txs[..i], local, r, capacity) && f.dirty == {} && b.Last() == f.(dirty := dirty)
    requires Files(f, room, f', txs[i], local, r.(locals := f.locals), capacity, err) && f'.book.Agrees()
    ensures Logged(b, f'.(dirty := dirty + f'.dirty), room, err).Of(txs[..i + 1], local, r, capacity)
  {
    hide Files, Consistent;
    var last := f'.(dirty := dirty + f'.dirty);
    var b' := Logged(b, last, room, err);
    FilesLater(f, room, f', txs[i], local, r, capacity, err);
    FilesMore(f, room, f', txs[i], local, r, capacity, err, dirty);
    forall k | 0 <= k <= i + 1 ensures b'.filings[k].book.Agrees() {
      assert k <= i ==> b'.filings[k] == b.filings[k];
    }
    var more := txs[..i + 1];
    forall k | 0 <= k <= i ensures b'.FilesAt(more, local, r, capacity, k) {
      if k < i {
        assert b.FilesAt(txs[..i], local, r, capacity, k);
        assert b'.filings[k] == b.filings[k] && b'.filings[k + 1] == b.filings[k + 1];
      }
    }
  }

  /** A local transaction's validity does not depend on who is local. */
  lemma SameValidity(tx: Tx, local: bool, r: Rules, locals: set<Address>)
    requires !local ==> locals == r.locals
    ensures Validity(tx, local, r.(locals := locals)) == Validity(tx, local, r)
  {
  }

  lemma AdmittedFacts(tx: Tx, local: bool, r: Rules)
    requires Validity(tx, local, r) == None
    ensures tx.signed && !Hopeless(r.chain, tx.from, tx)
  {
  }

  /** When an addition succeeds, and what is then in the pool. */
  lemma FilesOutcome(f: Filing, room: Book, f': Filing, tx: Tx, local: bool, r: Rules, capacity: nat,
                     err: Option<Error>)
    requires Files(f, room, f', tx, local, r, capacity, err)
    ensures err == None <==>
              && tx !in f.book.content.all && Validity(tx, local, r.(locals := f.locals)) == None
              && (|f.book.content.all| >= capacity ==> Worth(tx, local, f.book.content.all, f.locals))
              && Free(room.content, tx, r.priceBump)
    ensures err == None ==>
              && tx in f'.book.content.all && f'.book == Book(Placed(room.content, tx), room.managed)
              && f'.dirty == (if tx.nonce in Home(room.content, tx).items then f.dirty else f.dirty + {tx.from})
              && (tx.nonce in ItemsOf(room.content.pending, tx.from) ==>
                    f'.dirty == f.dirty && Stored(f'.book.content.pending, tx))
              && Validity(tx, local, r.(locals := f.locals)) == None
  {
    hide Validity, Free, Consistent, MakesRoom;
    if err == None && tx.nonce in ItemsOf(room.content.pending, tx.from) {
      assert Home(room.content, tx).Added(tx).items[tx.nonce] == tx;
    }
  }

  // ---------- what admission guarantees ----------

  /** Every remote transaction pays at least the gas price. */
  ghost predicate Priced(all: set<Tx>, locals: set<Address>, gasPrice: nat) {
    forall t :: t in all ==> IsLocal(t, locals) || t.price >= gasPrice
  }

  /** Every transaction covers its intrinsic gas under the given rules. */
  ghost predicate Covered(all: set<Tx>, homestead: bool) {
    forall t :: t in all ==> t.gas >= IntrinsicGas.ExactPrice(t.data, t.creates, homestead)
  }

  /** An addition keeps every remote transaction at the gas price: one admitted as local although its account is not
      becomes local, or outbids a pending one that pays enough. */
  lemma FilesPriced(f: Filing, room: Book, f': Filing, tx: Tx, local: bool, r: Rules, capacity: nat,
                    err: Option<Error>)
    requires f.book.Agrees() && Files(f, room, f', tx, local, r, capacity, err)
    requires Priced(f.book.content.all, f.locals, r.gasPrice)
    ensures Priced(f'.book.content.all, f'.locals, r.gasPrice)
  {
    hide Consistent, Free;
    assert room.content.all <= f.book.content.all;
    if err == None {
      assert tx.signed;
      if local && tx.nonce in ItemsOf(room.content.pending, tx.from) {
        var t := PendingTwin(room, tx, r.priceBump);
      }
    }
  }

  lemma PendingTwin(room: Book, tx: Tx, priceBump: nat) returns (t: Tx)
    requires room.Agrees() && tx.nonce in ItemsOf(room.content.pending, tx.from) && Free(room.content, tx, priceBump)
    ensures t in room.content.all && t.from == tx.from && t.price < tx.price
  {
    t := ItemsOf(room.content.pending, tx.from)[tx.nonce];
    PendingPooled(room.content.pending, room.content.queue, room.content.all, tx.from);
    hide Consistent, Outbids;
    IsStored(room, t);
    assert Twins(t, tx);
    OutbidsMore(tx, t, priceBump);
  }

  lemma OutbidsMore(tx: Tx, other: Tx, priceBump: nat)
    requires Outbids(tx, other, priceBump)
    ensures tx.price > other.price
  {
  }

  lemma {:induction false} BatchPriced(b: Batch, txs: seq<Tx>, local: bool, r: Rules, capacity: nat, i: nat)
    requires b.Of(txs, local, r, capacity) && i <= |txs|
    requires Priced(b.filings[0].book.content.all, b.filings[0].locals, r.gasPrice)
    ensures Priced(b.filings[i].book.content.all, b.filings[i].locals, r.gasPrice)
    decreases i
  {
    hide Files, Consistent, Priced;
    if i > 0 {
      BatchPriced(b, txs, local, r, capacity, i - 1);
      assert b.FilesAt(txs, local, r, capacity, i - 1);
      FilesPriced(b.filings[i - 1], b.rooms[i - 1], b.filings[i], txs[i - 1], local, r, capacity, b.errs[i - 1]);
    }
  }

  // ---------- a reset ----------

  /** The demotion, with the update of the virtual nonces. */
  ghost predicate Demotes(b: Book, d: Book, chain: ChainState) {
    && d.Agrees()
    && (forall a :: ItemsOf(d.content.pending, a) ==
                    if a in b.content.pending then Remaining(b.content.pending[a], chain, a) else map[])
    && (forall tx :: tx in d.content.all <==>
          tx in b.content.all && !(Stored(b.content.pending, tx) && Hopeless(chain, tx.from, tx)))
    && (forall a :: a in d.content.pending ==>
          && d.content.pending[a].items.Keys != {}
          && VirtualOf(d.managed, chain, a) == Maximum(d.content.pending[a].items.Keys) + 1)
    && (forall a :: a !in d.content.pending ==> VirtualOf(d.managed, chain, a) == VirtualOf(b.managed, chain, a))
  }

  lemma IsDemoted(b: Book, d: Book, chain: ChainState)
    requires d.Agrees()
    requires forall a :: ItemsOf(d.content.pending, a) ==
                         if a in b.content.pending then Remaining(b.content.pending[a], chain, a) else map[]
    requires forall tx :: tx in d.content.all <==>
               tx in b.content.all && !(Stored(b.content.pending, tx) && Hopeless(chain, tx.from, tx))
    requires forall a :: a in d.content.pending ==>
               && d.content.pending[a].items.Keys != {} && a in d.managed
               && d.managed[a] == Maximum(d.content.pending[a].items.Keys) + 1
    requires forall a :: a !in d.content.pending ==>
               VirtualOf(d.managed, chain, a) == VirtualOf(b.managed, chain, a)
    ensures Demotes(b, d, chain)
  {
    hide Consistent, Remaining, Hopeless, Stored, ItemsOf;
  }

  /** The stages of a reset: what is put back, one by one; the promotion of the accounts that gained something; the
      demotion; and the sweep of the last promotion, which ends in the pool as it is then. */
  datatype Course = Course(batch: Batch, swept: Book, rejoined: Book, demoted: Book, reswept: Book) {
    ghost predicate Leads(start: Book, now: Book, reinject: seq<Tx>, r: Rules, config: Config) {
      && batch.Of(reinject, false, r, config.globalSlots + config.globalQueue)
      && batch.filings[0] == Filing(start, r.locals, {}) && batch.Last().locals == r.locals
      && (if batch.Last().dirty == {} then rejoined == swept == batch.Last().book
          else Promotes(batch.Last().book, swept, rejoined, r.chain, batch.Last().dirty, r.locals, config))
      && rejoined.Agrees() && Demotes(rejoined, demoted, r.chain)
      && Promotes(demoted, reswept, now, r.chain, demoted.content.queue.Keys, r.locals, config)
    }

    /** Why a transaction that was there before the i-th one was put back is not there in the end. */
    ghost predicate Loses(now: Book, reinject: seq<Tx>, r: Rules, config: Config, i: nat, tx: Tx)
      requires |batch.filings| == |reinject| + 1 && |batch.rooms| == |batch.errs| == |reinject|
    {
      || Hopeless(r.chain, tx.from, tx)
      || batch.Ousts(reinject, r.priceBump, i, tx)
      || Squeezed(swept, rejoined, tx, r.locals, config)
      || Squeezed(reswept, now, tx, r.locals, config)
    }

    /** With room for what is put back, nothing is discarded, and nothing pending truncated. */
    ghost predicate LosesWithRoom(now: Book, reinject: seq<Tx>, r: Rules, config: Config, i: nat, tx: Tx)
      requires |batch.filings| == |reinject| + 1 && |batch.rooms| == |batch.errs| == |reinject|
    {
      || Hopeless(r.chain, tx.from, tx)
      || (exists k :: i <= k < |reinject| && Twins(tx, reinject[k]) && Outbids(reinject[k], tx, r.priceBump))
      || OverQueue(swept, tx, r.locals, config.accountQueue) || CutQueue(swept, rejoined, tx, r.locals, config)
      || OverQueue(reswept, tx, r.locals, config.accountQueue) || CutQueue(reswept, now, tx, r.locals, config)
    }
  }

  /** Whatever leaves in a reset is hopeless on the new state, was discarded or outbid, or squeezed out. */
  lemma ResetLoses(c: Course, start: Book, now: Book, reinject: seq<Tx>, r: Rules, config: Config, i: nat, tx: Tx)
    requires start.Agrees() && c.Leads(start, now, reinject, r, config) && i <= |reinject|
    requires tx in c.batch.filings[i].book.content.all && tx !in now.content.all
    ensures c.Loses(now, reinject, r, config, i, tx)
  {
    hide Files, Consistent, Promotes, Squeezed, Hopeless, Remaining;
    var last := c.batch.Last();
    if tx !in last.book.content.all {
      BatchLoses(c.batch, reinject, false, r, config.globalSlots + config.globalQueue, i, tx);
    } else if tx !in c.rejoined.content.all {
      PromotionLoses(last.book, c.swept, c.rejoined, r.chain, last.dirty, r.locals, config, tx);
    } else if tx in c.demoted.content.all {
      PromotionLoses(c.demoted, c.reswept, now, r.chain, c.demoted.content.queue.Keys, r.locals, config, tx);
    }
  }

  /** What is left after a reset can be executed. */
  lemma ResetExecutable(d: Book, s: Book, now: Book, chain: ChainState, locals: set<Address>, config: Config, tx: Tx)
    requires d.Agrees() && Promotes(d, s, now, chain, d.content.queue.Keys, locals, config)
    requires AllExecutable(now.content.pending, chain) && tx in now.content.all
    ensures !Hopeless(chain, tx.from, tx)
  {
    hide Hopeless, Consistent, Total, PayableItems, ReadyEnd, Trimmed;
    var a := tx.from;
    IsStored(now, tx);
    if Stored(now.content.pending, tx) {
      assert Bearable(ItemsOf(now.content.pending, a), chain, a);
    } else {
      ShortenedSubMap(s.content.queue, now.content.queue, locals, a);
      assert SweptAt(d.content.pending, d.content.queue, d.managed, s.content.pending, s.content.queue, s.managed,
                     chain, a, a in d.content.queue.Keys);
      PayableMeaning(d.content.pending, d.content.queue, d.content.all, chain, a);
    }
  }

  /** In a modest pool exactly the hopeless leave, after what is put back has taken its place. */
  lemma ModestReset(c: Course, start: Book, now: Book, reinject: seq<Tx>, r: Rules, config: Config, tx: Tx)
    requires start.Agrees() && c.Leads(start, now, reinject, r, config)
    requires Modest(|c.batch.Last().book.content.all|, config) && AllExecutable(now.content.pending, r.chain)
    ensures tx in now.content.all <==>
              tx in c.batch.Last().book.content.all && !Hopeless(r.chain, tx.from, tx)
  {
    hide Files, Consistent, Swept, Truncated, Hopeless, Remaining;
    var last := c.batch.Last();
    ModestStages(c, start, now, reinject, r, config);
    if tx in now.content.all {
      ResetExecutable(c.demoted, c.reswept, now, r.chain, r.locals, config, tx);
    } else if tx in last.book.content.all && !Hopeless(r.chain, tx.from, tx) {
      if tx !in c.rejoined.content.all {
        ModestPromotion(last.book, c.swept, c.rejoined, r.chain, last.dirty, r.locals, config, tx);
      } else {
        ModestPromotion(c.demoted, c.reswept, now, r.chain, c.demoted.content.queue.Keys, r.locals, config, tx);
      }
    }
  }

  lemma ModestStages(c: Course, start: Book, now: Book, reinject: seq<Tx>, r: Rules, config: Config)
    requires start.Agrees() && c.Leads(start, now, reinject, r, config)
    requires Modest(|c.batch.Last().book.content.all|, config)
    ensures now.content.all <= c.demoted.content.all <= c.rejoined.content.all <= c.batch.Last().book.content.all
    ensures Modest(|c.demoted.content.all|, config)
  {
    hide Files, Consistent, Hopeless, Remaining, SweptAt, QueueSwept, Trimmed, QueueShortened, Total;
    SmallerSet(c.demoted.content.all, c.batch.Last().book.content.all);
  }

  lemma {:induction false} BatchGrows(b: Batch, txs: seq<Tx>, local: bool, r: Rules, capacity: nat, k: nat)
    requires b.Of(txs, local, r, capacity) && k <= |txs|
    ensures |b.filings[k].book.content.all| <= |b.filings[0].book.content.all| + k
    decreases k
  {
    hide Files, Consistent;
    if k > 0 {
      BatchGrows(b, txs, local, r, capacity, k - 1);
      assert b.FilesAt(txs, local, r, capacity, k - 1);
      var f, f' := b.filings[k - 1], b.filings[k];
      forall t | t in f'.book.content.all ensures t in f.book.content.all + {txs[k - 1]} {
        if t !in f.book.content.all {
          FilesAdds(f, b.rooms[k - 1], f', txs[k - 1], local, r, capacity, b.errs[k - 1], t);
        }
      }
      SmallerSet(f'.book.content.all, f.book.content.all + {txs[k - 1]});
    }
  }

  lemma NoDiscards(b: Batch, txs: seq<Tx>, local: bool, r: Rules, capacity: nat, k: nat, tx: Tx)
    requires b.Of(txs, local, r, capacity) && k < |txs| && |b.filings[0].book.content.all| + |txs| <= capacity
    ensures !b.Discards(k, tx)
  {
    BatchGrows(b, txs, local, r, capacity, k);
    hide Validity, Consistent, Free, Worth;
    assert b.FilesAt(txs, local, r, capacity, k);
  }

  /** Room for what is put back. */
  lemma RoomyReset(c: Course, start: Book, now: Book, reinject: seq<Tx>, r: Rules, config: Config, i: nat, tx: Tx)
    requires start.Agrees() && c.Leads(start, now, reinject, r, config)
    requires |start.content.all| + |reinject| <= config.globalSlots && c.Loses(now, reinject, r, config, i, tx)
    ensures c.LosesWithRoom(now, reinject, r, config, i, tx)
  {
    hide Files, Consistent, Total, SweptAt, QueueSwept, Trimmed, QueueShortened, Hopeless, Remaining, Outbids;
    hide OverQueue, CutQueue, Stored;
    var capacity := config.globalSlots + config.globalQueue;
    BatchGrows(c.batch, reinject, false, r, capacity, |reinject|);
    var last := c.batch.Last().book;
    NoTruncation(c.swept.content.pending, c.swept.content.queue, c.swept.content.all, last.content.all);
    assert c.reswept.content.all <= last.content.all;
    NoTruncation(c.reswept.content.pending, c.reswept.content.queue, c.reswept.content.all, last.content.all);
    if c.batch.Ousts(reinject, r.priceBump, i, tx) {
      forall k | 0 <= k < |reinject| ensures !c.batch.Discards(k, tx) {
        NoDiscards(c.batch, reinject, false, r, capacity, k, tx);
      }
    }
  }

  /** What a reset keeps, in one. */
  lemma ResetKeeps(c: Course, start: Book, now: Book, reinject: seq<Tx>, r: Rules, config: Config)
    requires start.Agrees() && c.Leads(start, now, reinject, r, config) && AllExecutable(now.content.pending, r.chain)
    ensures c.batch.Of(reinject, false, r, config.globalSlots + config.globalQueue)
    ensures forall tx :: tx in start.content.all && tx !in now.content.all ==>
              c.Loses(now, reinject, r, config, 0, tx)
    ensures forall i :: 0 <= i < |reinject| && c.batch.errs[i] == None && reinject[i] !in now.content.all ==>
              c.Loses(now, reinject, r, config, i + 1, reinject[i])
    ensures |start.content.all| + |reinject| <= config.globalSlots ==>
              forall i: nat, tx :: c.Loses(now, reinject, r, config, i, tx) ==>
                c.LosesWithRoom(now, reinject, r, config, i, tx)
    ensures forall tx :: tx in now.content.all ==> !Hopeless(r.chain, tx.from, tx)
    ensures Modest(|c.batch.Last().book.content.all|, config) ==>
              forall tx :: tx in now.content.all <==>
                tx in c.batch.Last().book.content.all && !Hopeless(r.chain, tx.from, tx)
    ensures forall tx :: tx in now.content.all ==>
              tx in start.content.all || (tx in reinject && Validity(tx, false, r) == None)
  {
    hide Consistent, Promotes, Hopeless, Remaining, Course.Loses, Course.LosesWithRoom, Validity, Files;
    var capacity := config.globalSlots + config.globalQueue;
    forall tx | tx in start.content.all && tx !in now.content.all ensures c.Loses(now, reinject, r, config, 0, tx) {
      ResetLoses(c, start, now, reinject, r, config, 0, tx);
    }
    forall i | 0 <= i < |reinject| && c.batch.errs[i] == None && reinject[i] !in now.content.all
      ensures c.Loses(now, reinject, r, config, i + 1, reinject[i])
    {
      FiledNow(c.batch, reinject, false, r, capacity, i);
      ResetLoses(c, start, now, reinject, r, config, i + 1, reinject[i]);
    }
    if |start.content.all| + |reinject| <= config.globalSlots {
      forall i: nat, tx | c.Loses(now, reinject, r, config, i, tx)
        ensures c.LosesWithRoom(now, reinject, r, config, i, tx)
      {
        RoomyReset(c, start, now, reinject, r, config, i, tx);
      }
    }
    forall tx | tx in now.content.all
      ensures !Hopeless(r.chain, tx.from, tx)
      ensures tx in start.content.all || (tx in reinject && Validity(tx, false, r) == None)
    {
      ResetExecutable(c.demoted, c.reswept, now, r.chain, r.locals, config, tx);
      ResetAdds(c, start, now, reinject, r, config, tx);
    }
    if Modest(|c.batch.Last().book.content.all|, config) {
      forall tx ensures tx in now.content.all <==>
                          tx in c.batch.Last().book.content.all && !Hopeless(r.chain, tx.from, tx)
      {
        ModestReset(c, start, now, reinject, r, config, tx);
      }
    }
  }

  lemma ResetAdds(c: Course, start: Book, now: Book, reinject: seq<Tx>, r: Rules, config: Config, tx: Tx)
    requires c.Leads(start, now, reinject, r, config) && tx in now.content.all
    ensures tx in start.content.all || (tx in reinject && Validity(tx, false, r) == None)
  {
    hide Consistent, Hopeless, Remaining, Validity, Files, SweptAt, QueueSwept, Trimmed, QueueShortened, Total;
    BatchAdds(c.batch, reinject, false, r, config.globalSlots + config.globalQueue, |reinject|, tx);
  }

  /** Only hopeless queued transactions of the account are gone. */
  ghost predicate OnlyHopeless(b: Book, now: Book, chain: ChainState, a: Address) {
    forall t :: t in b.content.all && t !in now.content.all ==>
      t.from == a && Stored(b.content.queue, t) && Hopeless(chain, a, t)
  }

  lemma OneMore(all: set<Tx>, all': set<Tx>, tx: Tx)
    requires all' <= all + {tx}
    ensures |all'| <= |all| + 1
  {
    SmallerSet(all', all + {tx});
  }

  lemma NoneHopeless(b: Book, chain: ChainState, a: Address)
    ensures OnlyHopeless(b, b, chain, a)
  {
  }

  /** What becomes of a transaction newly queued when its account is promoted. */
  lemma FiledPromoted(f: Filing, swept: Book, now: Book, chain: ChainState, tx: Tx, config: Config)
    requires f.book.Agrees() && Promotes(f.book, swept, now, chain, {tx.from}, f.locals, config)
    requires tx in f.book.content.all && !Hopeless(chain, tx.from, tx)
    ensures tx in now.content.all || Squeezed(swept, now, tx, f.locals, config)
    ensures Modest(|f.book.content.all|, config) ==>
              tx in now.content.all && OnlyHopeless(f.book, now, chain, tx.from)
  {
    hide Consistent, Promotes, Hopeless, Squeezed, Stored;
    if tx !in now.content.all {
      PromotionLoses(f.book, swept, now, chain, {tx.from}, f.locals, config, tx);
    }
    if Modest(|f.book.content.all|, config) {
      forall t | t in f.book.content.all && t !in now.content.all
        ensures t.from == tx.from && Stored(f.book.content.queue, t) && Hopeless(chain, t.from, t)
      {
        ModestPromotion(f.book, swept, now, chain, {tx.from}, f.locals, config, t);
      }
    }
  }

  /** In a pool without gaps the transaction with the virtual nonce is promoted. */
  lemma NextPromoted(b: Book, f: Filing, now: Book, chain: ChainState, tx: Tx)
    requires NoGaps(b.content.pending, chain, b.managed) && tx.nonce == VirtualOf(b.managed, chain, tx.from)
    requires f.book == Book(Placed(b.content, tx), b.managed) && f.book.Agrees() && !Hopeless(chain, tx.from, tx)
    requires SweptAt(f.book.content.pending, f.book.content.queue, f.book.managed,
                     now.content.pending, now.content.queue, now.managed, chain, tx.from, true)
    ensures Stored(now.content.pending, tx)
  {
    var a, p, q := tx.from, f.book.content.pending, f.book.content.queue;
    assert Gapless(ItemsOf(b.content.pending, a), chain.Nonce(a), tx.nonce);
    assert p == b.content.pending && Stored(q, tx);
    hide Placed;
    PayableStays(p, q, f.book.content.all, chain, tx);
    PayableMeaning(p, q, f.book.content.all, chain, a);
    hide Consistent, PayableItems, Hopeless, NoGaps;
    var queued := PayableItems(q, chain, a);
    LowestIsReady(queued, tx.nonce);
    assert tx.nonce in Below(queued, ReadyEnd(queued, tx.nonce));
  }

  /** In a pool in order the virtual nonce is neither pending nor queued. */
  lemma NextIsNew(b: Book, chain: ChainState, tx: Tx)
    requires NoGaps(b.content.pending, chain, b.managed) && tx.nonce == VirtualOf(b.managed, chain, tx.from)
    requires SettledIn(b.content.pending, b.content.queue, chain, tx.from)
    ensures tx.nonce !in Home(b.content, tx).items
  {
    assert Gapless(ItemsOf(b.content.pending, tx.from), chain.Nonce(tx.from), tx.nonce);
    GaplessNext(ItemsOf(b.content.pending, tx.from), chain.Nonce(tx.from), tx.nonce);
  }

  lemma LowestIsReady(queued: Items, n: nat)
    requires n in queued && forall k :: k in queued ==> n <= k
    ensures n < ReadyEnd(queued, n)
  {
    assert Minimum(queued.Keys) == n;
  }
}
