/** txList (core/tx_list.go): one account's transactions over a txSortedMap, with the cost and gas caps that let
    Filter skip its scan. */
module TxLists {
  import opened Wrappers
  import opened Transactions
  import opened TxListSpec
  import opened TxSortedMaps

  /** The fast path is sound: bounded caps within the limits mean a full scan would find nothing. */
  lemma FastPath(l: ListValue, costLimit: int, gasLimit: nat)
    requires l.CapsBound() && l.costcap <= costLimit && l.gascap <= gasLimit
    ensures l.Unaffordable(costLimit, gasLimit) == map[] && l.Invalidated(costLimit, gasLimit) == map[]
    ensures l.Filtered(costLimit, gasLimit) == l
  {
    assert forall n :: n in l.items ==> !Unpayable(l.items[n], costLimit, gasLimit);
    assert l.Unaffordable(costLimit, gasLimit) == map[];
    assert Keep(l.items, tx => Unpayable(tx, costLimit, gasLimit)) == l.items;
  }

  /** Filter splits the list: unaffordable, invalidated and left over, with the left over of a strict list being exactly
      the nonces below the lowest unaffordable one. */
  lemma FilterMeaning(l: ListValue, costLimit: int, gasLimit: nat)
    ensures var gone := l.Unaffordable(costLimit, gasLimit);
            var invalid := l.Invalidated(costLimit, gasLimit);
            var left := l.Affordable(costLimit, gasLimit);
            && (forall n :: n in l.items <==> n in gone || n in invalid || n in left)
            && (forall n :: n in gone ==>
                  l.items[n] == gone[n] && Unpayable(gone[n], costLimit, gasLimit) && n !in invalid && n !in left)
            && (forall n :: n in invalid ==>
                  l.items[n] == invalid[n] && !Unpayable(invalid[n], costLimit, gasLimit) && n !in left)
            && (forall n :: n in left ==> l.items[n] == left[n] && !Unpayable(left[n], costLimit, gasLimit))
            && (l.strict && gone != map[] ==>
                  gone.Keys != {} && forall n :: n in left <==> n in l.items && n < Minimum(gone.Keys))
            && (!l.strict || gone == map[] ==> invalid == map[])
  {
    var gone := l.Unaffordable(costLimit, gasLimit);
    var left := l.Affordable(costLimit, gasLimit);
    if l.strict && gone != map[] {
      var low := Minimum(gone.Keys);
      forall n | n in l.items && n < low ensures n in left {
        assert n !in gone;
      }
    }
  }

  lemma FilteredCaps(l: ListValue, costLimit: int, gasLimit: nat)
    requires l.CapsBound()
    ensures l.Filtered(costLimit, gasLimit).CapsBound()
  {
    if l.costcap <= costLimit && l.gascap <= gasLimit {
      FastPath(l, costLimit, gasLimit);
    } else {
      FilterMeaning(l, costLimit, gasLimit);
    }
  }

  method LowestNonce(txs: seq<Tx>, ghost items: Items) returns (lowest: nat)
    requires txs != [] && Keyed(items) && Enumerates(txs, items)
    ensures items.Keys != {} && lowest == Minimum(items.Keys)
  {
    lowest := txs[0].nonce;
    ghost var at := 0;
    for i := 0 to |txs|
      invariant at < |txs| && lowest == txs[at].nonce
      invariant forall j :: 0 <= j < i ==> lowest <= txs[j].nonce
    {
      if lowest > txs[i].nonce {
        lowest := txs[i].nonce;
        at := i;
      }
    }
    assert txs[at] in txs;
    var m := Minimum(items.Keys);
    assert items[m] in txs;
  }

  class TxList {
    const strict: bool
    const txs: TxSortedMap
    var costcap: int
    var gascap: nat

    ghost function Value(): ListValue
      reads this, txs
    {
      ListValue(strict, txs.items, costcap, gascap)
    }

    ghost predicate Valid()
      reads this, txs
    {
      txs.Valid() && Value().CapsBound()
    }

    constructor (strict: bool)
      ensures Valid() && fresh(txs) && Value() == NewList(strict)
    {
      this.strict := strict;
      txs := new TxSortedMap();
      costcap, gascap := 0, 0;
    }

    /** Refuses a replacement without the price bump; otherwise stores and hands back what it replaced. */
    method Add(tx: Tx, priceBump: nat) returns (inserted: bool, previous: Option<Tx>)
      requires Valid()
      modifies this, txs
      ensures Valid() && inserted == old(Value()).Accepts(tx, priceBump)
      ensures inserted ==> Value() == old(Value()).Added(tx)
      ensures inserted ==> previous == if tx.nonce in old(txs.items) then Some(old(txs.items)[tx.nonce]) else None
      ensures !inserted ==> Value() == old(Value()) && previous == None
    {
      hide TxSortedMap.Valid;
      previous := None;
      if tx.nonce in txs.items {
        previous := Some(txs.items[tx.nonce]);
        var threshold := previous.value.price * (100 + priceBump) / 100;
        if previous.value.price >= tx.price || threshold > tx.price {
          return false, None;
        }
      }
      txs.Put(tx);
      if costcap < Cost(tx) {
        costcap := Cost(tx);
      }
      if gascap < tx.gas {
        gascap := tx.gas;
      }
      inserted := true;
    }

    method Forward(threshold: nat) returns (removed: seq<Tx>)
      requires Valid()
      modifies txs
      ensures Valid() && Value() == old(Value()).(items := From(old(txs.items), threshold))
      ensures Lists(removed, Below(old(txs.items), threshold))
    {
      hide TxSortedMap.Valid;
      removed := txs.Forward(threshold);
    }

    /** Skips the scan when the caps are within the limits; the outcome is that of a scan either way. */
    method Filter(costLimit: int, gasLimit: nat) returns (removed: seq<Tx>, invalids: seq<Tx>)
      requires Valid()
      modifies this, txs
      ensures Valid() && Value() == old(Value()).Filtered(costLimit, gasLimit)
      ensures Enumerates(removed, old(Value()).Unaffordable(costLimit, gasLimit))
      ensures Enumerates(invalids, old(Value()).Invalidated(costLimit, gasLimit))
    {
      hide Enumerates, Lists, Indexes;
      ghost var l := Value();
      FilteredCaps(l, costLimit, gasLimit);
      NothingToEnumerate();
      invalids := [];
      if costcap <= costLimit && gascap <= gasLimit {
        FastPath(l, costLimit, gasLimit);
        return [], [];
      }
      costcap := costLimit;
      gascap := gasLimit;
      removed := txs.Filter(tx => Unpayable(tx, costLimit, gasLimit));
      ghost var gone := l.Unaffordable(costLimit, gasLimit);
      NothingEnumerated(removed, gone);
      if strict && |removed| > 0 {
        ghost var kept := txs.items;
        var lowest := LowestNonce(removed, gone);
        var above := (tx: Tx) => tx.nonce > lowest;
        invalids := txs.Filter(above);
        SplitAtLowest(kept, lowest, above);
      }
    }

    method Cap(threshold: nat) returns (drops: seq<Tx>)
      requires Valid()
      modifies txs
      ensures Valid() && Value() == old(Value()).(items := Lowest(old(txs.items), threshold))
      ensures Enumerates(drops, old(txs.items) - txs.items.Keys) && Descending(drops)
    {
      hide TxSortedMap.Valid, Enumerates, Descending;
      LowestMeaning(txs.items, threshold);
      drops := txs.Cap(threshold);
    }

    /** Removal goes by nonce; a strict list also gives up everything above it. */
    method Remove(tx: Tx) returns (ok: bool, invalids: seq<Tx>)
      requires Valid()
      modifies txs
      ensures Valid() && ok == (tx.nonce in old(txs.items))
      ensures Value() == old(Value()).(items :=
                if ok && strict then Below(old(txs.items), tx.nonce) else old(txs.items) - {tx.nonce})
      ensures Enumerates(invalids, if ok && strict then From(old(txs.items), tx.nonce + 1) else map[])
    {
      hide Enumerates, Lists, Indexes, Keep, Drop, Below, From, ListValue.CapsBound;
      NothingToEnumerate();
      ghost var all := txs.items;
      FewerKeepCaps(Value(), tx.nonce);
      ok := txs.Remove(tx.nonce);
      if !ok {
        return false, [];
      }
      invalids := [];
      if strict {
        var above := (t: Tx) => t.nonce > tx.nonce;
        invalids := txs.Filter(above);
        SplitAround(all, tx.nonce, above);
      }
    }

    method Ready(start: nat) returns (ready: seq<Tx>)
      requires Valid()
      modifies txs
      ensures Valid() && Value() == old(Value()).(items := From(old(txs.items), ReadyEnd(old(txs.items), start)))
      ensures Lists(ready, Below(old(txs.items), ReadyEnd(old(txs.items), start)))
    {
      hide TxSortedMap.Valid, ReadyEnd;
      ready := txs.Ready(start);
    }

    method Flatten() returns (sorted: seq<Tx>)
      requires Valid()
      modifies txs`cache
      ensures Valid() && Value() == old(Value()) && Lists(sorted, txs.items)
    {
      sorted := txs.Flatten();
    }
  }

  lemma NothingToEnumerate()
    ensures Enumerates([], map[])
  {
  }

  lemma FewerKeepCaps(l: ListValue, nonce: nat)
    requires l.CapsBound()
    ensures l.(items := Below(l.items, nonce)).CapsBound() && l.(items := l.items - {nonce}).CapsBound()
    ensures nonce !in l.items ==> l.items - {nonce} == l.items
  {
  }

  lemma SplitAround(all: Items, nonce: nat, above: Tx -> bool)
    requires Keyed(all) && forall tx :: above(tx) == (tx.nonce > nonce)
    ensures Keep(all - {nonce}, above) == Below(all, nonce) && Drop(all - {nonce}, above) == From(all, nonce + 1)
  {
  }

  lemma SplitAtLowest(kept: Items, lowest: nat, above: Tx -> bool)
    requires Keyed(kept) && lowest !in kept && forall tx :: above(tx) == (tx.nonce > lowest)
    ensures Keep(kept, above) == Below(kept, lowest) && Drop(kept, above) == From(kept, lowest)
  {
  }
}
