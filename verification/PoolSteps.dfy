/** The single steps of the pool's operations (core/tx_pool.go), on the values of its fields: what each does to the
    agreement of the structures and to gap-freedom. */
module PoolSteps {
  import opened Transactions
  import opened TxListSpec
  import opened TxSortedMaps
  import opened TxLists
  import opened PoolModel

  /** The limits of TxPoolConfig. */
  datatype Config = Config(priceLimit: nat, priceBump: nat, accountSlots: nat, globalSlots: nat, accountQueue: nat,
                           globalQueue: nat, lifetime: nat) {
    predicate Workable() {
      && priceLimit >= 1 && priceBump >= 1 && accountSlots >= 1 && globalSlots >= 1 && accountQueue >= 1
      && globalQueue >= 1 && lifetime >= 1
    }

    /** Replaces every zero by its default. */
    function Sanitize(): (r: Config)
      ensures r.Workable() && (Workable() ==> r == this)
    {
      Config(if priceLimit < 1 then 1 else priceLimit, if priceBump < 1 then 10 else priceBump,
             if accountSlots < 1 then 16 else accountSlots, if globalSlots < 1 then 4096 else globalSlots,
             if accountQueue < 1 then 64 else accountQueue, if globalQueue < 1 then 1024 else globalQueue,
             if lifetime < 1 then 3 * 60 * 60 else lifetime)
    }
  }

  /** What the pool reads of the chain head: account nonces and balances, and the block gas limit. */
  datatype ChainState = ChainState(nonces: map<Address, nat>, balances: map<Address, nat>, frozen: map<Address, nat>,
                                   maxGas: nat) {
    function Nonce(a: Address): nat { if a in nonces then nonces[a] else 0 }
    function Balance(a: Address): nat { if a in balances then balances[a] else 0 }
    function Available(a: Address): int { Balance(a) - if a in frozen then frozen[a] else 0 }
  }

  datatype Error = Known | OversizedData | NegativeValue | GasLimit | InvalidSender | Underpriced | NonceTooLow
                 | InsufficientFunds | OutOfGas | IntrinsicGasTooLow | ReplaceUnderpriced

  function ListOf(m: Accounts, a: Address, strict: bool): ListValue {
    if a in m then m[a] else NewList(strict)
  }

  lemma ListOfOk(m: Accounts, a: Address, strict: bool)
    requires a in m ==> ListOk(a, m[a], strict)
    ensures ListOk(a, ListOf(m, a, strict), strict) && ListOf(m, a, strict).items == ItemsOf(m, a)
  {
  }

  function VirtualOf(managed: map<Address, nat>, chain: ChainState, a: Address): nat {
    if a in managed then managed[a] else chain.Nonce(a)
  }

  ghost predicate NoGaps(p: Accounts, chain: ChainState, managed: map<Address, nat>) {
    forall a :: Gapless(ItemsOf(p, a), chain.Nonce(a), VirtualOf(managed, chain, a))
  }

  /** A change to one account's pending list and virtual nonce that leaves that account gapless. */
  lemma GaplessUpdate(p: Accounts, chain: ChainState, managed: map<Address, nat>,
                      p': Accounts, managed': map<Address, nat>, a: Address)
    requires NoGaps(p, chain, managed) && SameBut(p, p', a)
    requires forall b :: b != a ==> VirtualOf(managed', chain, b) == VirtualOf(managed, chain, b)
    requires Gapless(ItemsOf(p', a), chain.Nonce(a), VirtualOf(managed', chain, a))
    ensures NoGaps(p', chain, managed')
  {
    forall b ensures Gapless(ItemsOf(p', b), chain.Nonce(b), VirtualOf(managed', chain, b)) {
      if b != a {
        assert ItemsOf(p', b) == ItemsOf(p, b);
        assert Gapless(ItemsOf(p, b), chain.Nonce(b), VirtualOf(managed, chain, b));
      }
    }
  }

  /** Cutting an account's pending list at a pending nonce and lowering the virtual nonce to it leaves no gap. */
  lemma GaplessCut(p: Accounts, chain: ChainState, managed: map<Address, nat>, a: Address, nonce: nat)
    requires NoGaps(p, chain, managed) && a in p && nonce in p[a].items
    ensures VirtualOf(managed, chain, a) > nonce
    ensures NoGaps(Store(p, a, p[a].(items := Below(p[a].items, nonce))), chain, managed[a := nonce])
  {
    assert Gapless(ItemsOf(p, a), chain.Nonce(a), VirtualOf(managed, chain, a));
    GaplessUpdate(p, chain, managed, Store(p, a, p[a].(items := Below(p[a].items, nonce))), managed[a := nonce], a);
  }

  // ---------- the steps of truncating the queue ----------

  function NoncesOf(txs: seq<Tx>): set<nat> {
    set tx | tx in txs :: tx.nonce
  }

  /** The last k entries, from the end. */
  function LastFirst(txs: seq<Tx>, k: nat): (r: seq<Tx>)
    requires k <= |txs|
    ensures |r| == k && forall i :: 0 <= i < k ==> r[i] == txs[|txs| - 1 - i]
  {
    seq(k, i requires 0 <= i < k => txs[|txs| - 1 - i])
  }

  /** Queues only lose their highest nonces, local ones nothing. */
  ghost predicate QueueShortened(q0: Accounts, q: Accounts, locals: set<Address>) {
    && q.Keys <= q0.Keys
    && (forall a :: a in q0 ==> ItemsOf(q, a) == Lowest(q0[a].items, |ItemsOf(q, a)|))
    && (forall a :: a in q0 && a in locals ==> a in q && q[a] == q0[a])
  }

  /** The last heartbeat; the zero time of an account without one is before every other. */
  function BeatOf(beats: map<Address, nat>, a: Address): int {
    if a in beats then beats[a] else -1
  }

  /** Whoever keeps something was not more recently active than anyone who lost something. */
  ghost predicate LatestFirst(q0: Accounts, q: Accounts, locals: set<Address>, beats: map<Address, nat>) {
    forall a, b :: a in q && a !in locals && b in q0 && ItemsOf(q, b) != q0[b].items ==>
      BeatOf(beats, a) <= BeatOf(beats, b)
  }

  /** The accounts still to be visited are untouched and not more recently active than those visited; while there is
      more to drop, those visited have lost everything. */
  ghost predicate QueueTurn(q0: Accounts, q: Accounts, accounts: set<Address>, locals: set<Address>,
                            beats: map<Address, nat>, more: bool) {
    && QueueShortened(q0, q, locals) && LatestFirst(q0, q, locals, beats)
    && (forall a :: a in accounts ==> a in q0 && a in q && q[a] == q0[a] && a !in locals)
    && (more ==> forall a :: a in q ==> a in locals || a in accounts)
    && (forall a, b :: a in accounts && b in q0 && b !in locals && b !in accounts ==>
          BeatOf(beats, a) <= BeatOf(beats, b))
  }

  lemma QueueTurnStarts(q: Accounts, locals: set<Address>, beats: map<Address, nat>)
    ensures QueueShortened(q, q, locals) && QueueTurn(q, q, (set a | a in q && a !in locals), locals, beats, true)
    ensures LatestFirst(q, q, locals, beats)
  {
  }

  lemma QueueTurnFacts(q0: Accounts, q: Accounts, accounts: set<Address>, locals: set<Address>,
                       beats: map<Address, nat>, more: bool, a: Address)
    requires QueueTurn(q0, q, accounts, locals, beats, more) && a in accounts
    ensures a in q
  {
  }

  lemma QueueTurnEnds(q0: Accounts, q: Accounts, accounts: set<Address>, locals: set<Address>, beats: map<Address, nat>,
                      more: bool)
    requires QueueTurn(q0, q, accounts, locals, beats, more)
    ensures QueueShortened(q0, q, locals) && LatestFirst(q0, q, locals, beats)
    ensures more && accounts == {} ==> q.Keys <= locals
  {
  }

  /** One account visited: all of it goes while there is more to drop, otherwise its highest nonces. */
  lemma QueueTurnTaken(q0: Accounts, q: Accounts, accounts: set<Address>, locals: set<Address>,
                       beats: map<Address, nat>, a: Address, txs: seq<Tx>, k: nat, removed: seq<Tx>, more: bool)
    requires QueueTurn(q0, q, accounts, locals, beats, true) && a in accounts && a in q
    requires forall b :: b in accounts ==> BeatOf(beats, b) <= BeatOf(beats, a)
    requires Keyed(q[a].items) && Lists(txs, q[a].items) && k <= |txs|
    requires NoncesOf(removed) == NoncesOf(txs[|txs| - k..])
    requires more ==> k == |txs|
    ensures var q' := Store(q, a, q[a].(items := q[a].items - NoncesOf(removed)));
            QueueTurn(q0, q', accounts - {a}, locals, beats, more) && Total(q') == Total(q) - k
  {
    hide Total, Lowest, Lists, Keyed, NoncesOf, QueueShortened, Store;
    AccountShortened(q0, q, a, txs, k, removed, locals);
    var q' := Store(q, a, q[a].(items := q[a].items - NoncesOf(removed)));
    forall c, b | c in q' && c !in locals && b in q0 && ItemsOf(q', b) != q0[b].items
      ensures BeatOf(beats, c) <= BeatOf(beats, b)
    {
      assert c in accounts;
      if b != a {
        assert ItemsOf(q', b) == ItemsOf(q, b);
        assert b !in accounts;
      }
    }
  }

  lemma NothingRemoved(p: Accounts, q: Accounts, all: set<Tx>, a: Address)
    requires Consistent(p, q, all) && a in q
    ensures q == Store(q, a, q[a].(items := q[a].items - NoncesOf([])))
  {
    assert q[a].items - NoncesOf([]) == q[a].items;
  }

  lemma OneMoreRemoved(p: Accounts, q0: Accounts, q: Accounts, all: set<Tx>, a: Address, txs: seq<Tx>, i: nat)
    requires Consistent(p, q, all) && i < |txs| && a in q0
    requires Stored(q0, txs[i]) && txs[i].from == a && forall j :: 0 <= j < i ==> txs[j].nonce != txs[i].nonce
    requires q == Store(q0, a, q0[a].(items := q0[a].items - NoncesOf(txs[..i])))
    ensures txs[i] in all && Stored(q, txs[i]) && a in q
    ensures Store(q, a, q[a].(items := q[a].items - {txs[i].nonce}))
            == Store(q0, a, q0[a].(items := q0[a].items - NoncesOf(txs[..i + 1])))
  {
    hide Consistent;
    OneMoreNonce(txs, i);
    var n := txs[i].nonce;
    assert n !in NoncesOf(txs[..i]);
    hide NoncesOf;
    assert Stored(q, txs[i]);
    StoredQueued(p, q, all, txs[i]);
    assert q[a].items - {n} == q0[a].items - NoncesOf(txs[..i + 1]);
  }

  lemma OneMoreNonce(txs: seq<Tx>, i: nat)
    requires i < |txs|
    ensures NoncesOf(txs[..i + 1]) == NoncesOf(txs[..i]) + {txs[i].nonce}
  {
    assert txs[..i + 1] == txs[..i] + [txs[i]];
  }

  lemma StoredQueued(p: Accounts, q: Accounts, all: set<Tx>, tx: Tx)
    requires Consistent(p, q, all) && Stored(q, tx)
    ensures tx in all
  {
  }

  lemma QueueKeyed(p: Accounts, q: Accounts, all: set<Tx>, a: Address)
    requires Consistent(p, q, all) && a in q
    ensures Keyed(q[a].items) && forall n :: n in q[a].items ==> q[a].items[n].from == a
  {
  }

  lemma ListingStored(q: Accounts, a: Address, txs: seq<Tx>)
    requires a in q && Keyed(q[a].items) && Lists(txs, q[a].items)
    requires forall n :: n in q[a].items ==> q[a].items[n].from == a
    ensures |txs| == |q[a].items|
    ensures forall i :: 0 <= i < |txs| ==> Stored(q, txs[i]) && txs[i].from == a
    ensures forall i, j :: 0 <= i < j < |txs| ==> txs[i].nonce != txs[j].nonce
  {
    ListingIsUnique(txs, txs, q[a].items);
  }

  lemma LastFirstStored(q: Accounts, a: Address, txs: seq<Tx>, k: nat)
    requires k <= |txs| && forall i :: 0 <= i < |txs| ==> Stored(q, txs[i]) && txs[i].from == a
    requires forall i, j :: 0 <= i < j < |txs| ==> txs[i].nonce != txs[j].nonce
    ensures NoncesOf(LastFirst(txs, k)) == NoncesOf(txs[|txs| - k..])
    ensures forall i :: 0 <= i < k ==> Stored(q, LastFirst(txs, k)[i]) && LastFirst(txs, k)[i].from == a
    ensures forall i, j :: 0 <= i < j < k ==> LastFirst(txs, k)[i].nonce != LastFirst(txs, k)[j].nonce
  {
    var r := LastFirst(txs, k);
    var s := txs[|txs| - k..];
    assert forall i :: 0 <= i < k ==> r[i] == s[k - 1 - i];
    assert forall i :: 0 <= i < k ==> s[i] == r[k - 1 - i];
    assert forall tx :: tx in r <==> tx in s;
  }

  /** Removing the last k of a nonce-sorted listing leaves the lowest nonces. */
  lemma TailRemoved(items: Items, txs: seq<Tx>, k: nat)
    requires Keyed(items) && Lists(txs, items) && k <= |txs|
    ensures |txs| == |items| && items - NoncesOf(txs[|txs| - k..]) == Lowest(items, |items| - k)
    ensures |items - NoncesOf(txs[|txs| - k..])| == |items| - k
  {
    hide Lists, Keyed, Lowest;
    ListingIsUnique(txs, txs, items);
    CapListing(txs, items, |txs| - k);
    LowestMeaning(items, |items| - k);
    KeyedLowest(items, |items| - k);
    NoncesListed(txs[..|txs| - k], Lowest(items, |items| - k));
    NoncesListed(txs, items);
    SplitNonces(items, txs, |txs| - k);
    assert NoncesOf(txs) == items.Keys && NoncesOf(txs[..|txs| - k]) == Lowest(items, |items| - k).Keys;
    hide NoncesOf;
    MinusKeys(items, Lowest(items, |items| - k), NoncesOf(txs[..|txs| - k]), NoncesOf(txs[|txs| - k..]));
  }

  lemma MinusKeys(items: Items, low: Items, kept: set<nat>, gone: set<nat>)
    requires items.Keys == kept + gone && kept !! gone && low.Keys == kept
    requires forall n :: n in low ==> low[n] == items[n]
    ensures items - gone == low && |items - gone| == |low|
  {
  }

  lemma SplitNonces(items: Items, txs: seq<Tx>, m: nat)
    requires m <= |txs| && Lists(txs, items)
    ensures NoncesOf(txs[..m]) + NoncesOf(txs[m..]) == NoncesOf(txs) && NoncesOf(txs[..m]) !! NoncesOf(txs[m..])
  {
    assert txs == txs[..m] + txs[m..];
    forall n | n in NoncesOf(txs[..m]) ensures n !in NoncesOf(txs[m..]) {
      var i :| 0 <= i < m && txs[..m][i].nonce == n;
      forall tx | tx in txs[m..] ensures tx.nonce != n {
        var j :| 0 <= j < |txs| - m && txs[m..][j] == tx;
        assert txs[i].nonce < txs[m + j].nonce;
      }
    }
  }

  lemma AccountShortened(q0: Accounts, q: Accounts, a: Address, txs: seq<Tx>, k: nat, removed: seq<Tx>,
                         locals: set<Address>)
    requires QueueShortened(q0, q, locals) && a in q && a in q0 && q[a] == q0[a] && a !in locals
    requires Keyed(q[a].items) && Lists(txs, q[a].items) && k <= |txs|
    requires NoncesOf(removed) == NoncesOf(txs[|txs| - k..])
    ensures var q' := Store(q, a, q[a].(items := q[a].items - NoncesOf(removed)));
            && QueueShortened(q0, q', locals) && Total(q') == Total(q) - k && SameBut(q, q', a)
            && (a in q' <==> k < |txs|)
  {
    hide Total, Lowest, Lists, Keyed, NoncesOf;
    TailRemoved(q[a].items, txs, k);
    var l := q[a].(items := q[a].items - NoncesOf(removed));
    TotalStored(q, a, l);
    var q' := Store(q, a, l);
    assert l.items == map[] <==> |l.items| == 0 by {
      assert |l.items| == |l.items.Keys|;
    }
    forall b | b in q0 ensures ItemsOf(q', b) == Lowest(q0[b].items, |ItemsOf(q', b)|) {
      if b != a {
        assert ItemsOf(q', b) == ItemsOf(q, b);
      }
    }
  }

  // ---------- the steps of truncating pending ----------

  /** A list without its k highest nonces. */
  function Shorter(l: ListValue, k: nat): ListValue
    requires k <= |l.items|
  {
    l.(items := Lowest(l.items, |l.items| - k))
  }

  ghost predicate Distinct(s: seq<Address>) {
    forall i, j :: 0 <= i < j < |s| ==> s[i] != s[j]
  }

  /** Lists with at least one entry: the capped list lacks exactly the highest nonce. */
  lemma ShorterMeaning(l: ListValue)
    requires |l.items| >= 1
    ensures l.items.Keys != {} && Shorter(l, 1).items == l.items - {Maximum(l.items.Keys)}
    ensures Shorter(l, 1).items == Below(l.items, Maximum(l.items.Keys)) && |Shorter(l, 1).items| == |l.items| - 1
  {
    assert |l.items| == |l.items.Keys|;
    var top := Maximum(l.items.Keys);
    RemoveOneSize(l.items, top);
    assert Lowest(l.items - {top}, |l.items| - 1) == l.items - {top};
  }

  /** A list that was only shortened, from the high end, and not below the allowance; lists of local accounts and lists
      within the allowance are untouched. */
  ghost predicate TrimmedList(l0: ListValue, l: ListValue, local: bool, slots: nat) {
    l == l0 || (!local && slots <= |l.items| < |l0.items| && l == l0.(items := Lowest(l0.items, |l.items|)))
  }

  ghost predicate Trimmed(p0: Accounts, p: Accounts, locals: set<Address>, slots: nat) {
    p.Keys == p0.Keys && forall a :: a in p ==> TrimmedList(p0[a], p[a], a in locals, slots)
  }

  /** The remote accounts above the allowance. */
  function Spammers(p: Accounts, locals: set<Address>, slots: nat): set<Address> {
    set a | a in p && a !in locals && |p[a].items| > slots
  }

  lemma OffendersFew(p0: Accounts, p: Accounts, offenders: seq<Address>, locals: set<Address>, slots: nat)
    requires Offending(p0, p, offenders, locals, slots)
    ensures |offenders| <= |Spammers(p0, locals, slots)|
  {
    hide Lowest;
    forall i | 0 <= i < |offenders| ensures offenders[i] in Spammers(p0, locals, slots) {
      assert TrimmedList(p0[offenders[i]], p[offenders[i]], false, slots);
    }
    DistinctFew(offenders, Spammers(p0, locals, slots));
  }

  lemma {:induction false} DistinctFew(s: seq<Address>, from: set<Address>)
    requires Distinct(s) && forall i :: 0 <= i < |s| ==> s[i] in from
    ensures |s| <= |from|
    decreases |s|
  {
    if s != [] {
      var last := s[|s| - 1];
      DistinctFew(s[..|s| - 1], from - {last});
      assert |from - {last}| == |from| - 1;
    }
  }

  /** Only offenders, which are remote and above the allowance, have been trimmed. */
  ghost predicate Offending(p0: Accounts, p: Accounts, offenders: seq<Address>, locals: set<Address>, slots: nat) {
    && Trimmed(p0, p, locals, slots) && p.Keys == p0.Keys && Distinct(offenders)
    && (forall i :: 0 <= i < |offenders| ==>
          offenders[i] in p && offenders[i] in p0 && offenders[i] !in locals && |p[offenders[i]].items| > slots)
    && (forall a :: a in p && a in p0 && a !in offenders ==> p[a] == p0[a])
  }

  /** The lists above the allowance that are not offenders yet. */
  ghost predicate Waiting(p: Accounts, offenders: seq<Address>, spammers: set<Address>, locals: set<Address>,
                          slots: nat) {
    && (forall a :: a in spammers ==> a in p && a !in offenders && a !in locals && |p[a].items| > slots)
    && (forall a :: a in p && a !in offenders && a !in spammers ==> a in locals || |p[a].items| <= slots)
  }

  ghost predicate Level(p: Accounts, group: seq<Address>) {
    && (forall i :: 0 <= i < |group| ==> group[i] in p)
    && (forall i, j :: 0 <= i < |group| && 0 <= j < |group| ==> |p[group[i]].items| == |p[group[j]].items|)
  }

  ghost predicate LongerThan(p: Accounts, group: seq<Address>, spammers: set<Address>) {
    forall i, a :: 0 <= i < |group| && a in spammers && group[i] in p && a in p ==> |p[a].items| <= |p[group[i]].items|
  }

  /** The lists of the group were shortened to a common length, not below the floor; nothing else changed. */
  ghost predicate Lowered(p: Accounts, p': Accounts, group: seq<Address>, floor: nat) {
    && p'.Keys == p.Keys && Level(p', group)
    && (forall a :: a in p' && a !in group ==> p'[a] == p[a])
    && (forall a :: a in p' && a in group ==> TrimmedList(p[a], p'[a], false, floor))
    && (forall a :: a in p' && a in group ==> |p'[a].items| >= floor)
  }

  /** Pops the account with the longest list, ties in any order. */
  method Longest(p: Accounts, spammers: set<Address>) returns (o: Address)
    requires spammers != {} && forall a :: a in spammers ==> a in p
    ensures o in spammers && forall a :: a in spammers ==> |p[a].items| <= |p[o].items|
  {
    o :| o in spammers;
    var rest := spammers - {o};
    while rest != {}
      invariant o in spammers && rest <= spammers
      invariant forall a :: a in spammers && a !in rest ==> |p[a].items| <= |p[o].items|
      decreases rest
    {
      var a :| a in rest;
      if |p[a].items| > |p[o].items| {
        o := a;
      }
      rest := rest - {a};
    }
  }

  lemma NoOffenders(p: Accounts, spammers: set<Address>, locals: set<Address>, slots: nat)
    requires spammers == set a | a in p && a !in locals && |p[a].items| > slots
    ensures Offending(p, p, [], locals, slots) && Waiting(p, [], spammers, locals, slots)
  {
  }

  lemma UntouchedPending(p: Accounts, locals: set<Address>, slots: nat)
    ensures Trimmed(p, p, locals, slots) && Level(p, [])
  {
  }

  lemma SpammersPending(p: Accounts, offenders: seq<Address>, spammers: set<Address>, locals: set<Address>, slots: nat)
    requires Waiting(p, offenders, spammers, locals, slots)
    ensures forall a :: a in spammers ==> a in p
  {
  }

  /** The longest waiting list joins; with other offenders already level and no shorter, the preconditions of lowering
      them to it hold. */
  lemma Joins(p0: Accounts, p: Accounts, offenders: seq<Address>, spammers: set<Address>, locals: set<Address>,
              slots: nat, o: Address)
    requires Offending(p0, p, offenders, locals, slots) && Waiting(p, offenders, spammers, locals, slots)
    requires Level(p, offenders) && LongerThan(p, offenders, spammers)
    requires o in spammers && o in p && forall a :: a in spammers && a in p ==> |p[a].items| <= |p[o].items|
    ensures Offending(p0, p, offenders + [o], locals, slots)
    ensures Waiting(p, offenders + [o], spammers - {o}, locals, slots)
    ensures LongerThan(p, [o], spammers - {o})
    ensures (offenders + [o])[..|offenders + [o]| - 1] == offenders && Distinct(offenders)
    ensures |offenders| > 0 ==> |p[offenders[|offenders| - 1]].items| >= |p[o].items| >= 1
    ensures offenders == [] ==> Level(p, [o]) && offenders + [o] == [o]
  {
    hide Trimmed;
    OffenderJoins(p0, p, offenders, spammers, locals, slots, o);
    SpammerLeaves(p, offenders, spammers, locals, slots, o);
    hide *;
    assert (offenders + [o])[..|offenders + [o]| - 1] == offenders;
  }

  lemma OffenderJoins(p0: Accounts, p: Accounts, offenders: seq<Address>, spammers: set<Address>, locals: set<Address>,
                      slots: nat, o: Address)
    requires Offending(p0, p, offenders, locals, slots) && Waiting(p, offenders, spammers, locals, slots)
    requires Level(p, offenders) && LongerThan(p, offenders, spammers) && o in spammers && o in p
    ensures Offending(p0, p, offenders + [o], locals, slots) && Distinct(offenders)
    ensures |offenders| > 0 ==> |p[offenders[|offenders| - 1]].items| >= |p[o].items| >= 1
  {
    hide Trimmed;
    assert o !in offenders;
    assert forall a :: a in offenders + [o] <==> a in offenders || a == o;
  }

  lemma SpammerLeaves(p: Accounts, offenders: seq<Address>, spammers: set<Address>, locals: set<Address>, slots: nat,
                      o: Address)
    requires Waiting(p, offenders, spammers, locals, slots) && o in spammers
    requires o in p && forall a :: a in spammers && a in p ==> |p[a].items| <= |p[o].items|
    ensures Waiting(p, offenders + [o], spammers - {o}, locals, slots)
    ensures LongerThan(p, [o], spammers - {o}) && (offenders == [] ==> Level(p, [o]) && offenders + [o] == [o])
  {
    assert forall a :: a in offenders + [o] <==> a in offenders || a == o;
  }

  lemma LowestOfLowest(items: Items, k: nat, j: nat)
    requires j <= k <= |items|
    ensures |Lowest(items, k)| == k && Lowest(Lowest(items, k), j) == Lowest(items, j)
  {
    LowestMeaning(items, k);
    LowestMeaning(Lowest(items, k), j);
    LowestMeaning(items, j);
    LowestIsUnique(items, Lowest(Lowest(items, k), j), Lowest(items, j));
  }

  lemma TrimTwice(l0: ListValue, l: ListValue, l': ListValue, local: bool, slots: nat, floor: nat)
    requires TrimmedList(l0, l, local, slots) && TrimmedList(l, l', local, floor) && slots <= floor
    ensures TrimmedList(l0, l', local, slots)
  {
    hide Lowest;
    if l != l0 && l' != l {
      LowestOfLowest(l0.items, |l.items|, |l'.items|);
    }
  }

  lemma ShorterTrims(l: ListValue, floor: nat)
    requires |l.items| > floor
    ensures TrimmedList(l, Shorter(l, 1), false, floor) && |Shorter(l, 1).items| == |l.items| - 1
  {
    ShorterMeaning(l);
  }

  lemma NothingLowered(p: Accounts, group: seq<Address>, floor: nat)
    requires Level(p, group) && group != [] && |p[group[|group| - 1]].items| >= floor
    ensures Lowered(p, p, group, floor)
  {
    forall a | a in p && a in group ensures |p[a].items| >= floor {
      var i :| 0 <= i < |group| && group[i] == a;
    }
  }

  /** A round over lists above the floor. */
  lemma LoweredMore(p0: Accounts, p: Accounts, p': Accounts, group: seq<Address>, floor: nat)
    requires group != [] && Level(p, group) && |p[group[|group| - 1]].items| > floor
    requires Lowered(p0, p, group, floor) && p'.Keys == p.Keys
    requires forall a :: a in p' && a in group ==> |p[a].items| >= 1
    requires forall a :: a in p' ==> p'[a] == if a in group then Shorter(p[a], 1) else p[a]
    requires forall i :: 0 <= i < |group| ==>
               group[i] in p' && |p'[group[i]].items| == |p[group[|group| - 1]].items| - 1
    ensures Level(p', group) && Lowered(p0, p', group, floor)
  {
    hide Shorter, TrimmedList;
    forall a | a in p' && a in group ensures TrimmedList(p0[a], p'[a], false, floor) && |p'[a].items| >= floor {
      var i :| 0 <= i < |group| && group[i] == a;
      ShorterTrims(p[a], floor);
      TrimTwice(p0[a], p[a], p'[a], false, floor, floor);
    }
  }

  /** Lowering all offenders but the last to the last one's length. */
  lemma LoweredKeeps(p0: Accounts, p: Accounts, p': Accounts, offenders: seq<Address>, spammers: set<Address>,
                     locals: set<Address>, slots: nat)
    requires |offenders| > 1 && Offending(p0, p, offenders, locals, slots)
    requires Waiting(p, offenders, spammers, locals, slots)
    requires LongerThan(p, [offenders[|offenders| - 1]], spammers)
    requires offenders[|offenders| - 1] in p
    requires Lowered(p, p', offenders[..|offenders| - 1], |p[offenders[|offenders| - 1]].items|)
    ensures Offending(p0, p', offenders, locals, slots) && Waiting(p', offenders, spammers, locals, slots)
    ensures offenders[|offenders| - 2] in p'
    ensures |p'[offenders[|offenders| - 2]].items| == |p[offenders[|offenders| - 1]].items| ==>
              Level(p', offenders) && LongerThan(p', offenders, spammers)
  {
    GroupMembers(offenders);
    GroupLowered(p0, p, p', offenders, locals, slots);
    hide TrimmedList, Trimmed;
    OthersKept(p0, p, p', offenders, spammers, locals, slots);
    LevelWithLast(p, p', offenders, spammers);
  }

  lemma GroupMembers(offenders: seq<Address>)
    requires |offenders| > 1 && Distinct(offenders)
    ensures var group := offenders[..|offenders| - 1]; var o := offenders[|offenders| - 1];
            && (forall a :: a in offenders <==> a in group || a == o) && o !in group
            && group[|group| - 1] == offenders[|offenders| - 2]
  {
    var group := offenders[..|offenders| - 1];
    assert offenders == group + [offenders[|offenders| - 1]];
  }

  lemma OthersKept(p0: Accounts, p: Accounts, p': Accounts, offenders: seq<Address>, spammers: set<Address>,
                   locals: set<Address>, slots: nat)
    requires |offenders| > 1 && Offending(p0, p, offenders, locals, slots)
    requires Waiting(p, offenders, spammers, locals, slots)
    requires Lowered(p, p', offenders[..|offenders| - 1], |p[offenders[|offenders| - 1]].items|)
    requires Trimmed(p0, p', locals, slots)
    ensures Offending(p0, p', offenders, locals, slots) && Waiting(p', offenders, spammers, locals, slots)
  {
    hide TrimmedList, Trimmed, Level;
    GroupMembers(offenders);
    var group := offenders[..|offenders| - 1];
    forall i | 0 <= i < |offenders| ensures |p'[offenders[i]].items| > slots {
      if offenders[i] in group {
        assert |p'[offenders[i]].items| >= |p[offenders[|offenders| - 1]].items|;
      }
    }
  }

  lemma LevelWithLast(p: Accounts, p': Accounts, offenders: seq<Address>, spammers: set<Address>)
    requires |offenders| > 1 && Distinct(offenders) && offenders[|offenders| - 1] in p
    requires LongerThan(p, [offenders[|offenders| - 1]], spammers)
    requires forall a :: a in spammers ==> a in p && a !in offenders
    requires Lowered(p, p', offenders[..|offenders| - 1], |p[offenders[|offenders| - 1]].items|)
    ensures offenders[|offenders| - 2] in p'
    ensures |p'[offenders[|offenders| - 2]].items| == |p[offenders[|offenders| - 1]].items| ==>
              Level(p', offenders) && LongerThan(p', offenders, spammers)
  {
    hide TrimmedList;
    GroupMembers(offenders);
    var group := offenders[..|offenders| - 1];
    var last := |p[offenders[|offenders| - 1]].items|;
    forall i | 0 <= i < |offenders| - 1
      ensures offenders[i] in p' && |p'[offenders[i]].items| == |p'[group[|group| - 1]].items|
    {
      assert group[i] == offenders[i];
    }
    if |p'[offenders[|offenders| - 2]].items| == last {
      assert forall i :: 0 <= i < |offenders| ==> offenders[i] in p' && |p'[offenders[i]].items| == last;
      forall a | a in spammers ensures a in p' && |p'[a].items| <= last {
        assert [offenders[|offenders| - 1]][0] == offenders[|offenders| - 1];
      }
    }
  }

  lemma GroupLowered(p0: Accounts, p: Accounts, p': Accounts, offenders: seq<Address>, locals: set<Address>, slots: nat)
    requires |offenders| > 1 && Offending(p0, p, offenders, locals, slots)
    requires Lowered(p, p', offenders[..|offenders| - 1], |p[offenders[|offenders| - 1]].items|)
    ensures Trimmed(p0, p', locals, slots)
  {
    hide TrimmedList;
    var o := offenders[|offenders| - 1];
    var group := offenders[..|offenders| - 1];
    forall a | a in p' ensures TrimmedList(p0[a], p'[a], a in locals, slots) {
      if a in group {
        var i :| 0 <= i < |group| && group[i] == a;
        assert offenders[i] == a;
        TrimTwice(p0[a], p[a], p'[a], false, slots, |p[o].items|);
      }
    }
  }

  lemma OffendersStart(p0: Accounts, p: Accounts, offenders: seq<Address>, locals: set<Address>, slots: nat)
    requires Offending(p0, p, offenders, locals, slots)
    ensures Trimmed(p0, p, locals, slots)
    ensures forall a :: a in p && a in p0 && a !in offenders ==> p[a] == p0[a]
    ensures forall i :: 0 <= i < |offenders| ==>
              offenders[i] in p0 && offenders[i] !in locals && |p0[offenders[i]].items| > slots
  {
    forall i | 0 <= i < |offenders| ensures |p0[offenders[i]].items| > slots {
      assert TrimmedList(p0[offenders[i]], p[offenders[i]], offenders[i] in locals, slots);
    }
  }

  lemma LastPending(p0: Accounts, p: Accounts, offenders: seq<Address>, locals: set<Address>, slots: nat)
    requires Offending(p0, p, offenders, locals, slots) && offenders != [] && Level(p, offenders)
    ensures Distinct(offenders) && offenders[|offenders| - 1] in p && |p[offenders[|offenders| - 1]].items| >= slots
  {
  }

  lemma NobodyAbove(p: Accounts, locals: set<Address>, slots: nat)
    requires Waiting(p, [], {}, locals, slots)
    ensures forall a :: a in p ==> a in locals || |p[a].items| <= slots
  {
  }

  lemma Levelled(p0: Accounts, p: Accounts, p': Accounts, offenders: seq<Address>, locals: set<Address>, slots: nat)
    requires Offending(p0, p, offenders, locals, slots) && offenders != [] && Waiting(p, offenders, {}, locals, slots)
    requires Lowered(p, p', offenders, slots)
    ensures Trimmed(p0, p', locals, slots) && Level(p', offenders) && offenders[|offenders| - 1] in p'
    ensures forall a :: a in p' && a in p0 && a !in offenders ==> p'[a] == p0[a]
    ensures |p'[offenders[|offenders| - 1]].items| == slots ==>
              forall a :: a in p' ==> a in locals || |p'[a].items| <= slots
  {
    hide TrimmedList;
    forall a | a in p' ensures TrimmedList(p0[a], p'[a], a in locals, slots) {
      if a in offenders {
        TrimTwice(p0[a], p[a], p'[a], false, slots, slots);
      }
    }
  }

  lemma TopDropped(p: Accounts, q: Accounts, all: set<Tx>, a: Address)
    requires Consistent(p, q, all) && a in p && |p[a].items| >= 2
    ensures p[a].items.Keys != {}
    ensures Consistent(p[a := Shorter(p[a], 1)], q, all - {p[a].items[Maximum(p[a].items.Keys)]})
    ensures Total(p[a := Shorter(p[a], 1)]) == Total(p) - 1
  {
    var l := p[a];
    ShorterMeaning(l);
    var tx := l.items[Maximum(l.items.Keys)];
    var p' := p[a := Shorter(l, 1)];
    assert |Shorter(l, 1).items| >= 1;
    assert p' == Store(p, a, Shorter(l, 1));
    TotalStored(p, a, Shorter(l, 1));
    FewerOk(a, l, true, Shorter(l, 1).items);
    QueuePooled(p, q, all, a);
    TopMembers(p, q, all, a, tx);
    AccountUpdate(p, q, all, p', q, all - {tx}, a);
  }

  lemma TopMembers(p: Accounts, q: Accounts, all: set<Tx>, a: Address, tx: Tx)
    requires Disjoint(p, q) && Tracks(p, q, all) && Stored(p, tx) && tx.from == a && |p[a].items| >= 2
    requires tx.nonce == Maximum(p[a].items.Keys)
    ensures var p' := p[a := Shorter(p[a], 1)];
            && (forall n :: n in ItemsOf(p', a) ==> n !in ItemsOf(q, a))
            && (forall t :: t in all - {tx} <==> if t.from == a then Stored(p', t) || Stored(q, t) else t in all)
  {
    ShorterMeaning(p[a]);
    var p' := p[a := Shorter(p[a], 1)];
    forall t ensures t in all - {tx} <==> if t.from == a then Stored(p', t) || Stored(q, t) else t in all {
      assert t.nonce in ItemsOf(p, t.from) ==> t.nonce !in ItemsOf(q, t.from);
      assert Stored(p, t) || Stored(q, t) <==> t in all;
    }
    forall n | n in ItemsOf(p', a) ensures n !in ItemsOf(q, a) {
      assert n in ItemsOf(p, a);
    }
  }

  lemma GaplessTop(p: Accounts, chain: ChainState, managed: map<Address, nat>, a: Address)
    requires NoGaps(p, chain, managed) && a in p && |p[a].items| >= 2
    ensures p[a].items.Keys != {}
    ensures VirtualOf(managed, chain, a) > Maximum(p[a].items.Keys)
    ensures NoGaps(p[a := Shorter(p[a], 1)], chain, managed[a := Maximum(p[a].items.Keys)])
  {
    ShorterMeaning(p[a]);
    GaplessCut(p, chain, managed, a, Maximum(p[a].items.Keys));
    assert Store(p, a, p[a].(items := Below(p[a].items, Maximum(p[a].items.Keys)))) == p[a := Shorter(p[a], 1)];
  }

  // ---------- the stages of one account's promotion ----------

  lemma RunEnds(ready: Items, low: nat, end: nat)
    requires low <= end && forall n :: n in ready <==> low <= n < end
    ensures Below(ready, low) == map[] && Below(ready, end) == ready
  {
  }

  lemma NothingAdded(p: Accounts, a: Address, ready: Items, low: nat)
    requires Below(ready, low) == map[]
    ensures SameBut(p, p, a) && ItemsOf(p, a) == ItemsOf(p, a) + Below(ready, low)
  {
  }

  /** Adding the next transaction of a run that meets no pending nonce. */
  lemma AddedNext(p0: Accounts, p: Accounts, a: Address, ready: Items, next: nat, priceBump: nat)
    requires SameBut(p0, p, a) && ItemsOf(p, a) == ItemsOf(p0, a) + Below(ready, next)
    requires next in ready && next !in ItemsOf(p0, a) && ready[next].nonce == next && ready[next].from == a
    requires ready[next].signed
    requires a in p ==> ListOk(a, p[a], true)
    ensures var l := ListOf(p, a, true); var p' := p[a := l.Added(ready[next])];
            && l.Accepts(ready[next], priceBump) && next !in ItemsOf(p, a)
            && SameBut(p0, p', a) && ItemsOf(p', a) == ItemsOf(p0, a) + Below(ready, next + 1)
            && ListOk(a, p'[a], true) && p'[a].items != map[]
  {
    hide ListOk, ListValue.Added, ListValue.Accepts;
    ListOfOk(p, a, true);
    NewNonceAccepted(ListOf(p, a, true), ready[next], priceBump);
    AddedOk(a, ListOf(p, a, true), true, ready[next]);
    assert Below(ready, next + 1) == Below(ready, next)[next := ready[next]];
  }

  /** A run that starts above a gapless range without meeting it starts exactly where the range ends. */
  lemma RunContinues(items: Items, pending: Items, base: nat, virtual: nat)
    requires Gapless(pending, base, virtual) && forall n :: n in items ==> base <= n && n !in pending
    ensures var end := ReadyEnd(items, virtual); var low := RunStart(items, end);
            if low < end then low == virtual && end !in items else virtual !in items
  {
    var end := ReadyEnd(items, virtual);
    if items.Keys != {} && Minimum(items.Keys) <= virtual {
      var m := Minimum(items.Keys);
      assert m in items && m == virtual;
      assert m in Below(items, end);
    }
  }

  /** Where the run that Ready takes begins; equal to its end when the run is empty. */
  function RunStart(items: Items, end: nat): nat {
    if Below(items, end) == map[] then end else Minimum(items.Keys)
  }

  /** l1, l2, l3 are the queue list l0 after Forward, Filter and Ready. */
  ghost predicate Stages(a: Address, l0: ListValue, base: nat, virtual: nat, l1: ListValue, l2: ListValue,
                         l3: ListValue) {
    var end := ReadyEnd(l2.items, virtual);
    var low := RunStart(l2.items, end);
    && ListOk(a, l0, false) && ListOk(a, l3, false)
    && SubMap(l1.items, l0.items) && SubMap(l2.items, l1.items) && SubMap(l3.items, l2.items)
    && (forall n :: n in l1.items ==> base <= n)
    && l3.items == From(l2.items, end)
    && low <= end
    && (forall n :: n in l2.items - l3.items.Keys <==> low <= n < end)
  }

  lemma StagesHold(a: Address, l0: ListValue, base: nat, balance: int, maxGas: nat, virtual: nat)
    requires ListOk(a, l0, false)
    ensures var l1 := l0.(items := From(l0.items, base));
            var l2 := l1.Filtered(balance, maxGas);
            Stages(a, l0, base, virtual, l1, l2, l2.(items := From(l2.items, ReadyEnd(l2.items, virtual))))
  {
    var l1 := l0.(items := From(l0.items, base));
    FewerOk(a, l0, false, l1.items);
    FilteredOk(a, l1, false, balance, maxGas);
    FilterMeaning(l1, balance, maxGas);
    var l2 := l1.Filtered(balance, maxGas);
    assert SubMap(l2.items, l1.items);
    var end := ReadyEnd(l2.items, virtual);
    FewerOk(a, l2, false, From(l2.items, end));
    RunIsConsecutive(l2.items, virtual);
  }

  lemma RunIsConsecutive(items: Items, virtual: nat)
    ensures var end := ReadyEnd(items, virtual);
            RunStart(items, end) <= end &&
            forall n :: n in items - From(items, end).Keys <==> RunStart(items, end) <= n < end
  {
    var end := ReadyEnd(items, virtual);
    if items.Keys != {} && Minimum(items.Keys) <= virtual {
      var m := Minimum(items.Keys);
      assert m in Below(items, end);
    }
  }

  lemma QueuePooled(p: Accounts, q: Accounts, all: set<Tx>, a: Address)
    requires Consistent(p, q, all)
    ensures a in p ==> ListOk(a, p[a], true) && p[a].items != map[]
    ensures a in q ==> ListOk(a, q[a], false) && q[a].items != map[]
    ensures forall n :: n in ItemsOf(q, a) ==> n !in ItemsOf(p, a) && ItemsOf(q, a)[n] in all
  {
    forall n | n in ItemsOf(q, a) ensures n !in ItemsOf(p, a) && ItemsOf(q, a)[n] in all {
      assert Stored(q, ItemsOf(q, a)[n]);
      assert n in ItemsOf(p, a) ==> n !in ItemsOf(q, a);
    }
  }

  /** The run about to be promoted is still pooled after the first two rounds of drops, and meets no pending nonce. */
  lemma ReadyPooled(a: Address, l0: ListValue, base: nat, virtual: nat, l1: ListValue, l2: ListValue, l3: ListValue,
                    p: Accounts, txs: set<Tx>, before: set<Tx>)
    requires Stages(a, l0, base, virtual, l1, l2, l3)
    requires txs == before - Txs(l0.items - l1.items.Keys) - Txs(l1.items - l2.items.Keys)
    requires forall n :: n in l0.items ==> n !in ItemsOf(p, a) && l0.items[n] in before
    ensures var end := ReadyEnd(l2.items, virtual);
            var ready := l2.items - l3.items.Keys;
            && RunStart(l2.items, end) <= end
            && (forall n :: n in ready <==> RunStart(l2.items, end) <= n < end)
            && (forall n :: n in ready ==>
                  && ready[n].nonce == n && ready[n].from == a && ready[n].signed && ready[n] in txs
                  && n !in ItemsOf(p, a))
  {
    TxsMeaning(l0.items - l1.items.Keys);
    TxsMeaning(l1.items - l2.items.Keys);
  }

  lemma PromotionAdds(p: Accounts, q: Accounts, all: set<Tx>, a: Address, q1: Items, q2: Items, q3: Items)
    requires Consistent(p, q, all) && a in q && SubMap(q1, q[a].items) && SubMap(q2, q1) && SubMap(q3, q2)
    ensures SubMap(ItemsOf(p, a), ItemsOf(p, a) + (q2 - q3.Keys))
  {
    QueuePooled(p, q, all, a);
  }

  lemma RunAppended(pending: Items, base: nat, virtual: nat, run: Items, low: nat, end: nat)
    requires Gapless(pending, base, virtual) && low <= end && (low < end ==> low == virtual)
    requires forall n :: n in run <==> low <= n < end
    ensures Gapless(pending + run, base, if low < end then end else virtual)
  {
  }

  /** What is promoted continues the pending range exactly, and nothing executable stays queued. */
  lemma GaplessRun(p: Accounts, q: Accounts, chain: ChainState, managed: map<Address, nat>, a: Address,
                   l1: ListValue, l2: ListValue, l3: ListValue, p': Accounts, managed': map<Address, nat>)
    requires NoGaps(p, chain, managed) && a in q && SameBut(p, p', a)
    requires Stages(a, q[a], chain.Nonce(a), VirtualOf(managed, chain, a), l1, l2, l3)
    requires forall n :: n in ItemsOf(q, a) ==> n !in ItemsOf(p, a)
    requires ItemsOf(p', a) == ItemsOf(p, a) + (l2.items - l3.items.Keys)
    requires var end := ReadyEnd(l2.items, VirtualOf(managed, chain, a));
             managed' == if RunStart(l2.items, end) < end then managed[a := end] else managed
    ensures NoGaps(p', chain, managed') && VirtualOf(managed', chain, a) !in l3.items
  {
    hide ListOk, ReadyEnd, RunStart, From;
    var virtual := VirtualOf(managed, chain, a);
    assert Gapless(ItemsOf(p, a), chain.Nonce(a), virtual);
    RunContinues(l2.items, ItemsOf(p, a), chain.Nonce(a), virtual);
    var end := ReadyEnd(l2.items, virtual);
    RunAppended(ItemsOf(p, a), chain.Nonce(a), virtual, l2.items - l3.items.Keys, RunStart(l2.items, end), end);
    hide NoGaps;
    GaplessUpdate(p, chain, managed, p', managed', a);
  }

  lemma StagesShrink(a: Address, l0: ListValue, base: nat, virtual: nat, l1: ListValue, l2: ListValue, l3: ListValue)
    requires Stages(a, l0, base, virtual, l1, l2, l3)
    ensures ListOk(a, l3, false) && SubMap(l3.items, l0.items)
    ensures SubMap(l1.items, l0.items) && SubMap(l2.items, l1.items) && SubMap(l3.items, l2.items)
  {
  }

  lemma CappedHolds(a: Address, l3: ListValue, l4: ListValue, cap: nat)
    requires ListOk(a, l3, false)
    requires l4 == l3 || l4 == l3.(items := Lowest(l3.items, cap))
    ensures SubMap(l4.items, l3.items) && ListOk(a, l4, false)
    ensures l4 == l3.(items := Lowest(l3.items, cap)) ==> |l4.items| <= cap
    ensures Txs(l3.items - l3.items.Keys) == {}
  {
    LowestMeaning(l3.items, cap);
    FewerOk(a, l3, false, Lowest(l3.items, cap));
  }

  lemma InvalidsPooled(p: Accounts, q: Accounts, all: set<Tx>, tx: Tx, above: Items)
    requires Consistent(p, q, all) && Stored(p, tx) && above == From(p[tx.from].items, tx.nonce + 1)
    ensures forall n :: n in above ==>
              above[n].nonce == n && above[n].from == tx.from && above[n].signed && above[n] in all - {tx}
    ensures forall n :: n in above ==> n !in ItemsOf(q, tx.from)
    ensures tx.from in q ==> ListOk(tx.from, q[tx.from], false) && q[tx.from].items != map[]
  {
    forall n | n in above ensures above[n] in all - {tx} && n !in ItemsOf(q, tx.from) {
      assert Stored(p, above[n]);
      assert n in ItemsOf(p, tx.from);
    }
  }

  /** A list accepts any transaction with a nonce it does not have. */
  lemma NewNonceAccepted(l: ListValue, tx: Tx, priceBump: nat)
    requires tx.nonce !in l.items
    ensures l.Accepts(tx, priceBump) && l.Added(tx).items == l.items[tx.nonce := tx]
  {
  }

  // ---------- the steps of adding ----------

  /** One more of the transactions to postpone, none of which meets a queued nonce. */
  lemma PostponedOne(q0: Accounts, q: Accounts, a: Address, txs: Items, rest: set<nat>, n: nat, priceBump: nat)
    requires SameBut(q0, q, a) && (a in q ==> ListOk(a, q[a], false)) && ItemsOf(q, a) == ItemsOf(q0, a) + (txs - rest)
    requires n in rest && n in txs && n !in ItemsOf(q0, a) && txs[n].nonce == n && txs[n].from == a && txs[n].signed
    ensures n !in ItemsOf(q, a) && ListOf(q, a, false).Accepts(txs[n], priceBump)
    ensures var q' := q[a := ListOf(q, a, false).Added(txs[n])];
            && SameBut(q0, q', a) && ItemsOf(q', a) == ItemsOf(q0, a) + (txs - (rest - {n}))
            && ListOk(a, q'[a], false) && q'[a].items != map[]
  {
    hide ListOk, ListValue.Added, ListValue.Accepts;
    ListOfOk(q, a, false);
    NewNonceAccepted(ListOf(q, a, false), txs[n], priceBump);
    AddedOk(a, ListOf(q, a, false), false, txs[n]);
    assert txs - (rest - {n}) == (txs - rest)[n := txs[n]];
  }

  /** A transaction with the bump replaces the pending one of its nonce. */
  lemma ReplacedPending(p: Accounts, q: Accounts, all: set<Tx>, tx: Tx)
    requires Consistent(p, q, all) && tx !in all && tx.signed && tx.from in p && tx.nonce in p[tx.from].items
    ensures var p' := p[tx.from := p[tx.from].Added(tx)];
            Consistent(p', q, all - {p[tx.from].items[tx.nonce]} + {tx})
  {
    var a := tx.from;
    var l := p[a];
    var p' := p[a := l.Added(tx)];
    var all' := all - {l.items[tx.nonce]} + {tx};
    AddedOk(a, l, true, tx);
    AddedMembers(p, q, all, tx);
    hide ListsOk, ListOk, ListValue.Added, Tracks, Disjoint, NoneEmpty;
    QueuePooled(p, q, all, a);
    AccountUpdate(p, q, all, p', q, all', a);
  }

  lemma AddedMembers(p: Accounts, q: Accounts, all: set<Tx>, tx: Tx)
    requires Disjoint(p, q) && Tracks(p, q, all) && tx !in all && tx.from in p && tx.nonce in p[tx.from].items
    requires forall n :: n in p[tx.from].items ==> p[tx.from].items[n].nonce == n && p[tx.from].items[n].from == tx.from
    ensures var p' := p[tx.from := p[tx.from].Added(tx)]; var all' := all - {p[tx.from].items[tx.nonce]} + {tx};
            && (forall n :: n in ItemsOf(p', tx.from) ==> n !in ItemsOf(q, tx.from))
            && (forall t :: t in all' <==> if t.from == tx.from then Stored(p', t) || Stored(q, t) else t in all)
  {
    var a := tx.from;
    var p' := p[a := p[a].Added(tx)];
    var all' := all - {p[a].items[tx.nonce]} + {tx};
    assert ItemsOf(p', a) == ItemsOf(p, a)[tx.nonce := tx];
    forall n | n in ItemsOf(p', a) ensures n !in ItemsOf(q, a) {
      assert n in ItemsOf(p, a);
    }
    forall t ensures t in all' <==> if t.from == a then Stored(p', t) || Stored(q, t) else t in all {
      assert t.nonce in ItemsOf(p, t.from) ==> t.nonce !in ItemsOf(q, t.from);
      assert Stored(p, t) || Stored(q, t) <==> t in all;
    }
  }

  /** A transaction that meets no pending nonce is queued, in place of the queued one of its nonce if there is one. */
  lemma Enqueued(p: Accounts, q: Accounts, all: set<Tx>, tx: Tx)
    requires Consistent(p, q, all) && tx !in all && tx.signed && tx.nonce !in ItemsOf(p, tx.from)
    ensures var q' := q[tx.from := ListOf(q, tx.from, false).Added(tx)];
            var gone := if tx.nonce in ItemsOf(q, tx.from) then {ItemsOf(q, tx.from)[tx.nonce]} else {};
            Consistent(p, q', all - gone + {tx})
  {
    var a := tx.from;
    var q' := q[a := ListOf(q, a, false).Added(tx)];
    var gone := if tx.nonce in ItemsOf(q, a) then {ItemsOf(q, a)[tx.nonce]} else {};
    ListOfOk(q, a, false);
    AddedOk(a, ListOf(q, a, false), false, tx);
    EnqueuedMembers(p, q, all, tx);
    hide ListsOk, ListOk, ListValue.Added, Tracks, Disjoint, NoneEmpty;
    QueuePooled(p, q, all, a);
    AccountUpdate(p, q, all, p, q', all - gone + {tx}, a);
  }

  lemma EnqueuedMembers(p: Accounts, q: Accounts, all: set<Tx>, tx: Tx)
    requires Disjoint(p, q) && Tracks(p, q, all) && tx !in all && tx.nonce !in ItemsOf(p, tx.from)
    requires forall n :: n in ItemsOf(q, tx.from) ==>
               ItemsOf(q, tx.from)[n].nonce == n && ItemsOf(q, tx.from)[n].from == tx.from
    ensures var q' := q[tx.from := ListOf(q, tx.from, false).Added(tx)];
            var gone := if tx.nonce in ItemsOf(q, tx.from) then {ItemsOf(q, tx.from)[tx.nonce]} else {};
            && (forall n :: n in ItemsOf(p, tx.from) ==> n !in ItemsOf(q', tx.from))
            && (forall t :: t in all - gone + {tx} <==>
                  if t.from == tx.from then Stored(p, t) || Stored(q', t) else t in all)
  {
    var a := tx.from;
    var q' := q[a := ListOf(q, a, false).Added(tx)];
    var gone := if tx.nonce in ItemsOf(q, a) then {ItemsOf(q, a)[tx.nonce]} else {};
    assert ItemsOf(q', a) == ItemsOf(q, a)[tx.nonce := tx];
    forall n | n in ItemsOf(p, a) ensures n !in ItemsOf(q', a) {
      assert n !in ItemsOf(q, a);
    }
    forall t ensures t in all - gone + {tx} <==> if t.from == a then Stored(p, t) || Stored(q', t) else t in all {
      assert t.nonce in ItemsOf(p, t.from) ==> t.nonce !in ItemsOf(q, t.from);
      assert Stored(p, t) || Stored(q, t) <==> t in all;
    }
  }

  lemma SameNoncesNoGaps(p: Accounts, chain: ChainState, managed: map<Address, nat>, tx: Tx)
    requires NoGaps(p, chain, managed) && tx.from in p && tx.nonce in p[tx.from].items
    ensures NoGaps(p[tx.from := p[tx.from].Added(tx)], chain, managed)
  {
    var p' := p[tx.from := p[tx.from].Added(tx)];
    assert Gapless(ItemsOf(p, tx.from), chain.Nonce(tx.from), VirtualOf(managed, chain, tx.from));
    GaplessUpdate(p, chain, managed, p', managed, tx.from);
  }

  // ---------- the steps of demoting ----------

  ghost predicate Contiguous(items: Items) {
    forall n, m, k :: n in items && m in items && n <= k <= m ==> k in items
  }

  /** Starting at the chain nonce, if there is anything at all. */
  ghost predicate FrontAt(items: Items, base: nat) {
    items == map[] || (base in items && forall n :: n in items ==> base <= n)
  }

  /** One account's pending list l0 shrinks to l1 and l2 by dropping; of l2, `postponed` goes to the queue and `rest`
      stays. */
  lemma Demoted(p: Accounts, q: Accounts, all: set<Tx>, a: Address, q': Accounts, l1: Items, l2: Items,
                postponed: Items, rest: ListValue)
    requires Consistent(p, q, all) && a in p && SameBut(q, q', a)
    requires SubMap(l1, p[a].items) && SubMap(l2, l1) && Parts(l2, postponed, rest.items)
    requires a in q' ==> ListOk(a, q'[a], false) && q'[a].items != map[]
    requires ItemsOf(q', a) == ItemsOf(q, a) + postponed
    requires ListOk(a, rest, true)
    ensures Consistent(Store(p, a, rest), q', all - Txs(p[a].items - l1.Keys) - Txs(l1 - l2.Keys))
  {
    var all' := all - Txs(p[a].items - l1.Keys) - Txs(l1 - l2.Keys);
    DemotedMembers(p, q, all, a, q', l1, l2, postponed, rest);
    hide *;
    AccountUpdate(p, q, all, Store(p, a, rest), q', all', a);
  }

  lemma DemotedMembers(p: Accounts, q: Accounts, all: set<Tx>, a: Address, q': Accounts, l1: Items, l2: Items,
                       postponed: Items, rest: ListValue)
    requires Disjoint(p, q) && Tracks(p, q, all) && a in p && Keyed(p[a].items)
    requires SubMap(l1, p[a].items) && SubMap(l2, l1) && Parts(l2, postponed, rest.items)
    requires ItemsOf(q', a) == ItemsOf(q, a) + postponed
    requires forall n :: n in p[a].items ==> p[a].items[n].from == a
    ensures var p' := Store(p, a, rest); var all' := all - Txs(p[a].items - l1.Keys) - Txs(l1 - l2.Keys);
            && (forall n :: n in ItemsOf(p', a) ==> n !in ItemsOf(q', a))
            && (forall t :: t in all' <==> if t.from == a then Stored(p', t) || Stored(q', t) else t in all)
  {
    var p' := Store(p, a, rest);
    TxsMeaning(p[a].items - l1.Keys);
    TxsMeaning(l1 - l2.Keys);
    forall n | n in ItemsOf(p', a) ensures n !in ItemsOf(q', a) {
      assert n in ItemsOf(p, a) ==> n !in ItemsOf(q, a);
    }
    forall t ensures var all' := all - Txs(p[a].items - l1.Keys) - Txs(l1 - l2.Keys);
                     t in all' <==> if t.from == a then Stored(p', t) || Stored(q', t) else t in all
    {
      assert t.nonce in ItemsOf(p, t.from) ==> t.nonce !in ItemsOf(q, t.from);
      assert Stored(p, t) || Stored(q, t) <==> t in all;
    }
  }

  /** items fall into two parts. */
  ghost predicate Parts(items: Items, one: Items, two: Items) {
    && SubMap(one, items) && SubMap(two, items)
    && (forall n :: n in items <==> (n in one || n in two))
    && (forall n :: n in one ==> n !in two)
  }

  /** What one account's turn in demoteUnexecutables makes of its pending list l0: l1 after Forward, l2 without the
      unaffordable, and what is postponed and kept once a missing front postpones everything. */
  ghost predicate Demotion(a: Address, l0: ListValue, base: nat, l1: Items, l2: Items, postponed: Items,
                           rest: ListValue) {
    && ListOk(a, rest, true) && SubMap(l1, l0.items) && SubMap(l2, l1) && Parts(l2, postponed, rest.items)
    && FrontAt(rest.items, base) && (Contiguous(l0.items) ==> Contiguous(rest.items))
  }

  lemma DemotionParts(l1: Items, gone: Items, invalid: Items, left: Items)
    requires SubMap(gone, l1) && SubMap(invalid, l1) && SubMap(left, l1)
    requires forall n :: n in l1 <==> n in gone || n in invalid || n in left
    requires forall n :: n in gone ==> n !in invalid && n !in left
    requires forall n :: n in invalid ==> n !in left
    ensures SubMap(l1 - gone.Keys, l1) && l1 - (l1 - gone.Keys).Keys == gone
    ensures Parts(l1 - gone.Keys, invalid, left) && Parts(l1 - gone.Keys, invalid + left, map[])
  {
  }

  lemma DemotionHolds(a: Address, l0: ListValue, base: nat, balance: int, maxGas: nat)
    requires ListOk(a, l0, true)
    ensures var l1 := l0.(items := From(l0.items, base));
            var left := l1.Filtered(balance, maxGas);
            var gone := l1.Unaffordable(balance, maxGas);
            var invalid := l1.Invalidated(balance, maxGas);
            && l1.items - (l1.items - gone.Keys).Keys == gone
            && Parts(l1.items - gone.Keys, invalid, left.items)
            && if left.items != map[] && base !in left.items
               then Demotion(a, l0, base, l1.items, l1.items - gone.Keys, invalid + left.items, left.(items := map[]))
               else Demotion(a, l0, base, l1.items, l1.items - gone.Keys, invalid, left)
  {
    hide ListOk, Contiguous, ListValue.Affordable, ListValue.Unaffordable, ListValue.Invalidated, Parts;
    var l1 := l0.(items := From(l0.items, base));
    FewerOk(a, l0, true, l1.items);
    FilteredOk(a, l1, true, balance, maxGas);
    FilterMeaning(l1, balance, maxGas);
    FilterContiguous(a, l0, base, balance, maxGas);
    FewerOk(a, l1.Filtered(balance, maxGas), true, map[]);
    NothingContiguous();
    DemotionParts(l1.items, l1.Unaffordable(balance, maxGas), l1.Invalidated(balance, maxGas),
                  l1.Affordable(balance, maxGas));
  }

  lemma NothingContiguous()
    ensures Contiguous(map[])
  {
  }

  lemma FilterContiguous(a: Address, l0: ListValue, base: nat, balance: int, maxGas: nat)
    requires ListOk(a, l0, true)
    ensures Contiguous(l0.items) ==> Contiguous(l0.(items := From(l0.items, base)).Affordable(balance, maxGas))
  {
    var l1 := l0.(items := From(l0.items, base));
    FilterMeaning(l1, balance, maxGas);
    var left := l1.Affordable(balance, maxGas);
    if Contiguous(l0.items) {
      forall n, m, k | n in left && m in left && n <= k <= m ensures k in left {
        assert n in l0.items && m in l0.items;
        assert k in l0.items && k in l1.items;
      }
    }
  }

  /** The virtual nonce of an account with pending transactions follows its last one. */
  lemma LastNonceGapless(items: Items, base: nat)
    requires items != map[] && FrontAt(items, base) && Contiguous(items)
    ensures items.Keys != {} && Gapless(items, base, Maximum(items.Keys) + 1)
  {
  }

  lemma NoGapsContiguous(p: Accounts, chain: ChainState, managed: map<Address, nat>)
    requires NoGaps(p, chain, managed)
    ensures forall a :: Contiguous(ItemsOf(p, a))
  {
    forall a ensures Contiguous(ItemsOf(p, a)) {
      assert Gapless(ItemsOf(p, a), chain.Nonce(a), VirtualOf(managed, chain, a));
    }
  }

  lemma SameButTwice(m: Accounts, m1: Accounts, m2: Accounts, a: Address)
    requires SameBut(m, m1, a) && SameBut(m1, m2, a)
    ensures SameBut(m, m2, a)
  {
  }

  lemma HasKeys(items: Items)
    requires items != map[]
    ensures items.Keys != {}
  {
  }

  lemma PendingPooled(p: Accounts, q: Accounts, all: set<Tx>, a: Address)
    requires Consistent(p, q, all) && a in p
    ensures ListOk(a, p[a], true) && p[a].items != map[] && p[a].items.Keys != {}
    ensures a in q ==> ListOk(a, q[a], false) && q[a].items != map[]
  {
    HasKeys(p[a].items);
  }

  /** What is to be postponed is still pooled after the drops and meets no queued nonce. */
  lemma PartsPooled(p: Accounts, q: Accounts, all: set<Tx>, a: Address, l1: Items, gone: Items, invalid: Items,
                    left: Items)
    requires Consistent(p, q, all) && a in p && SubMap(l1, p[a].items) && SubMap(l1 - gone.Keys, l1)
    requires l1 - (l1 - gone.Keys).Keys == gone && Parts(l1 - gone.Keys, invalid, left)
    ensures var txs := all - Txs(p[a].items - l1.Keys) - Txs(gone);
            && (forall n :: n in invalid ==>
                  invalid[n].nonce == n && invalid[n].from == a && invalid[n].signed && invalid[n] in txs)
            && (forall n :: n in left ==> left[n].nonce == n && left[n].from == a && left[n].signed && left[n] in txs)
    ensures forall n :: n in invalid ==> n !in ItemsOf(q, a)
    ensures forall n :: n in left ==> n !in ItemsOf(q, a) && n !in invalid
  {
    hide ListValue.CapsBound;
    assert ListOk(a, p[a], true);
    TxsMeaning(p[a].items - l1.Keys);
    TxsMeaning(gone);
    forall n | n in l1 ensures p[a].items[n] in all && n !in ItemsOf(q, a) {
      assert Stored(p, p[a].items[n]);
      assert n in ItemsOf(p, a);
    }
  }

  lemma NothingAtFront(p: Accounts, chain: ChainState)
    ensures forall a :: a !in p ==> FrontAt(ItemsOf(p, a), chain.Nonce(a))
  {
  }

  lemma LastNoncesGapless(p: Accounts, chain: ChainState, managed: map<Address, nat>)
    requires managed.Keys == p.Keys
    requires forall a :: FrontAt(ItemsOf(p, a), chain.Nonce(a)) && Contiguous(ItemsOf(p, a))
    requires forall a :: a in p ==> p[a].items.Keys != {} && managed[a] == Maximum(p[a].items.Keys) + 1
    ensures NoGaps(p, chain, managed)
  {
    hide FrontAt, Contiguous;
    forall a ensures Gapless(ItemsOf(p, a), chain.Nonce(a), VirtualOf(managed, chain, a)) {
      if a in p {
        assert FrontAt(ItemsOf(p, a), chain.Nonce(a)) && Contiguous(ItemsOf(p, a));
        LastNonceGapless(p[a].items, chain.Nonce(a));
      }
    }
  }

  lemma EveryoneRemoved(q: Accounts, a: Address, txs: seq<Tx>)
    requires a in q && Keyed(q[a].items) && Lists(txs, q[a].items)
    ensures Store(q, a, q[a].(items := q[a].items - NoncesOf(txs))) == q - {a}
  {
    NoncesListed(txs, q[a].items);
    assert q[a].items - NoncesOf(txs) == map[];
  }
}
