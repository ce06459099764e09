/** What the operations of txSortedMap and txList (core/tx_list.go) mean, as functions on the stored map of
    nonces to transactions. The classes of TxSortedMap.dfy and TxList.dfy are proved against these functions,
    and the pool works with them. */
module TxListSpec {
  import opened Transactions

  type Items = map<nat, Tx>

  function Keep(items: Items, drop: Tx -> bool): Items {
    map n | n in items && !drop(items[n]) :: items[n]
  }

  function Drop(items: Items, drop: Tx -> bool): Items {
    map n | n in items && drop(items[n]) :: items[n]
  }

  function From(items: Items, threshold: nat): Items {
    map n | n in items && n >= threshold :: items[n]
  }

  function Below(items: Items, threshold: nat): Items {
    map n | n in items && n < threshold :: items[n]
  }

  /** Drops the highest nonce until at most `threshold` are left. */
  function Lowest(items: Items, threshold: nat): Items
    decreases |items|
  {
    if |items| <= threshold then items else
      var top := Maximum(items.Keys);
      RemoveOneSize(items, top);
      Lowest(items - {top}, threshold)
  }

  /** Lowest keeps exactly that many, and every kept nonce is below every dropped one. */
  lemma {:induction false} LowestMeaning(items: Items, threshold: nat)
    ensures var r := Lowest(items, threshold);
            && (forall n :: n in r ==> n in items && r[n] == items[n])
            && |r| == (if |items| <= threshold then |items| else threshold)
            && (forall n, m :: n in r && m in items && m !in r ==> n < m)
    decreases |items|
  {
    if |items| > threshold {
      RemoveOneSize(items, Maximum(items.Keys));
      LowestMeaning(items - {Maximum(items.Keys)}, threshold);
    }
  }

  lemma RemoveOneSize(items: Items, n: nat)
    requires n in items
    ensures |items - {n}| == |items| - 1
  {
    assert (items - {n}).Keys == items.Keys - {n};
    assert |items| == |items.Keys| && |items - {n}| == |(items - {n}).Keys|;
  }

  /** The first nonce from n on that is absent. */
  function RunEnd(items: Items, n: nat): (e: nat)
    ensures n <= e && e !in items && forall k :: n <= k < e ==> k in items
    decreases |items|
  {
    if n !in items then n else
      RemoveOneSize(items, n);
      var e := RunEnd(items - {n}, n + 1);
      assert forall k :: n + 1 <= k < e ==> k in items - {n} && k in items;
      e
  }

  /** The upper end of what Ready hands out: a maximal consecutive run from the least nonce, if that is at most start;
      otherwise nothing. */
  function ReadyEnd(items: Items, start: nat): (e: nat)
    ensures items.Keys != {} && Minimum(items.Keys) <= start ==>
              e > Minimum(items.Keys) && e !in items && forall k :: Minimum(items.Keys) <= k < e ==> k in items
    ensures items.Keys == {} || Minimum(items.Keys) > start ==> Below(items, e) == map[]
  {
    if items.Keys == {} || Minimum(items.Keys) > start then 0 else RunEnd(items, Minimum(items.Keys))
  }

  /** A transaction the account cannot pay for or that does not fit a block. */
  predicate Unpayable(tx: Tx, costLimit: int, gasLimit: nat) {
    Cost(tx) > costLimit || tx.gas > gasLimit
  }

  /** The price is higher, by at least the bump percentage rounded down. */
  predicate Outbids(tx: Tx, other: Tx, priceBump: nat) {
    tx.price >= other.price + (if other.price * priceBump / 100 == 0 then 1 else other.price * priceBump / 100)
  }

  /** A txList: its items and its cost and gas caps. */
  datatype ListValue = ListValue(strict: bool, items: Items, costcap: int, gascap: nat) {

    ghost predicate CapsBound() {
      forall n :: n in items ==> Cost(items[n]) <= costcap && items[n].gas <= gascap
    }

    predicate Overlaps(tx: Tx) {
      tx.nonce in items
    }

    /** A replacement must cost strictly more, and at least the bump percentage more, than what it replaces. */
    predicate Accepts(tx: Tx, priceBump: nat) {
      tx.nonce in items ==>
        items[tx.nonce].price < tx.price && items[tx.nonce].price * (100 + priceBump) / 100 <= tx.price
    }

    function Added(tx: Tx): ListValue {
      ListValue(strict, items[tx.nonce := tx],
                if costcap < Cost(tx) then Cost(tx) else costcap,
                if gascap < tx.gas then tx.gas else gascap)
    }

    /** What is removed because the account cannot pay for it. */
    function Unaffordable(costLimit: int, gasLimit: nat): Items {
      Drop(items, tx => Unpayable(tx, costLimit, gasLimit))
    }

    /** The rest, which in a strict list ends below the lowest unaffordable nonce. */
    function Affordable(costLimit: int, gasLimit: nat): Items {
      var gone := Unaffordable(costLimit, gasLimit);
      var kept := Keep(items, tx => Unpayable(tx, costLimit, gasLimit));
      if strict && gone.Keys != {} then Below(kept, Minimum(gone.Keys)) else kept
    }

    /** What a strict list gives up because something below it went. */
    function Invalidated(costLimit: int, gasLimit: nat): Items {
      var gone := Unaffordable(costLimit, gasLimit);
      var kept := Keep(items, tx => Unpayable(tx, costLimit, gasLimit));
      if strict && gone.Keys != {} then From(kept, Minimum(gone.Keys)) else map[]
    }

    /** The list after a full scan, ignoring the fast path. */
    function Filtered(costLimit: int, gasLimit: nat): ListValue {
      ListValue(strict, Affordable(costLimit, gasLimit),
                if costcap <= costLimit && gascap <= gasLimit then costcap else costLimit,
                if costcap <= costLimit && gascap <= gasLimit then gascap else gasLimit)
    }
  }

  function NewList(strict: bool): ListValue {
    ListValue(strict, map[], 0, 0)
  }

  /** A list takes a transaction exactly if its nonce is free or it outbids what is there. */
  lemma AcceptsMeaning(l: ListValue, tx: Tx, priceBump: nat)
    ensures l.Accepts(tx, priceBump) <==> (tx.nonce in l.items ==> Outbids(tx, l.items[tx.nonce], priceBump))
  {
    if tx.nonce in l.items {
      var price := l.items[tx.nonce].price;
      assert price * (100 + priceBump) == price * 100 + price * priceBump;
    }
  }

  /** What it takes to replace a transaction again and again: each time at least one, and at least the percentage of the
      first price. */
  lemma {:induction false} PriceAfter(bids: seq<Tx>, priceBump: nat, k: nat)
    requires k < |bids| && forall i :: 0 <= i < |bids| - 1 ==> Outbids(bids[i + 1], bids[i], priceBump)
    ensures bids[k].price >= bids[0].price + k
    ensures bids[k].price >= bids[0].price + k * (bids[0].price * priceBump / 100)
  {
    if k > 0 {
      PriceAfter(bids, priceBump, k - 1);
      var first, last := bids[0].price, bids[k - 1].price;
      assert Outbids(bids[k - 1 + 1], bids[k - 1], priceBump);
      BumpGrows(first, last, priceBump);
      var bump := first * priceBump / 100;
      assert k * bump == (k - 1) * bump + bump;
    }
  }

  lemma BumpGrows(first: nat, last: nat, priceBump: nat)
    requires first <= last
    ensures first * priceBump / 100 <= last * priceBump / 100
  {
    assert first * priceBump <= last * priceBump;
  }
}
