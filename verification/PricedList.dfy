/** txLookup (core/tx_pool.go) and txPricedList (core/tx_list.go): the set of pooled transactions and a price heap over
    it that is cleaned lazily. Entries of the heap may be stale (no longer pooled) or repeated; what the pool relies on
    is coverage: every pooled transaction has an entry. */
module PricedLists {
  import opened Transactions
  import opened Heap

  class TxLookup {
    var txs: set<Tx>

    constructor ()
      ensures txs == {}
    {
      txs := {};
    }
  }

  /** accountSet.containsTx: the sender can be recovered and is a local account. */
  predicate IsLocal(tx: Tx, locals: set<Address>) {
    tx.signed && tx.from in locals
  }

  predicate Cheaper(a: Tx, b: Tx) {
    Before(PriceRank(a), PriceRank(b))
  }

  ghost predicate PriceHeap(items: seq<Tx>) {
    IsHeap(items, PriceRank)
  }

  ghost predicate SameEntries(a: seq<Tx>, b: seq<Tx>, extra: Tx) {
    forall t :: t in a <==> t in b || t == extra
  }

  method PopCheapest(items: seq<Tx>) returns (r: seq<Tx>, tx: Tx)
    requires PriceHeap(items) && items != []
    ensures PriceHeap(r) && SameEntries(items, r, tx) && |r| == |items| - 1 && tx == items[0]
    ensures forall t :: t in items ==> !Cheaper(t, tx)
  {
    r, tx := Pop(items, PriceRank);
    assert forall t :: t in items <==> t in multiset(items);
    assert forall t :: t in r <==> t in multiset(r);
  }

  method PushPriced(items: seq<Tx>, tx: Tx) returns (r: seq<Tx>)
    requires PriceHeap(items)
    ensures PriceHeap(r) && SameEntries(r, items, tx)
  {
    r := Push(items, PriceRank, tx);
    assert forall t :: t in items <==> t in multiset(items);
    assert forall t :: t in r <==> t in multiset(r);
  }

  method PushAll(items: seq<Tx>, save: seq<Tx>) returns (r: seq<Tx>)
    requires PriceHeap(items)
    ensures PriceHeap(r) && forall t :: t in r <==> t in items || t in save
  {
    hide PriceHeap;
    r := items;
    for i := 0 to |save|
      invariant PriceHeap(r) && forall t :: t in r <==> t in items || t in save[..i]
    {
      r := PushPriced(r, save[i]);
      assert save[..i + 1] == save[..i] + [save[i]];
    }
    assert save[..|save|] == save;
  }

  method HeapOf(txs: set<Tx>) returns (r: seq<Tx>)
    ensures PriceHeap(r) && forall t :: t in r <==> t in txs
  {
    var s := [];
    var rest := txs;
    while rest != {}
      invariant rest <= txs && forall t :: t in s <==> t in txs - rest
      decreases rest
    {
      var t :| t in rest;
      rest := rest - {t};
      s := s + [t];
    }
    r := Init(s, PriceRank);
    assert forall t :: t in s <==> t in multiset(s);
    assert forall t :: t in r <==> t in multiset(r);
  }

  class PricedList {
    const all: TxLookup
    var items: seq<Tx>
    var stales: int

    ghost predicate Ordered()
      reads this
    {
      PriceHeap(items)
    }

    ghost predicate Covers(txs: set<Tx>)
      reads this
    {
      forall tx :: tx in txs ==> tx in items
    }

    constructor (all: TxLookup)
      ensures this.all == all && items == [] && stales == 0 && Ordered()
    {
      this.all := all;
      items, stales := [], 0;
    }

    method Put(tx: Tx)
      requires Ordered()
      modifies this
      ensures Ordered() && stales == old(stales) && SameEntries(items, old(items), tx)
    {
      items := PushPriced(items, tx);
    }

    /** Counts one more stale entry; past a quarter of the heap, rebuilds it from what is pooled. */
    method Removed()
      requires Ordered()
      modifies this
      ensures Ordered()
      ensures if old(stales) + 1 <= |old(items)| / 4
              then items == old(items) && stales == old(stales) + 1
              else stales == 0 && forall tx :: tx in items <==> tx in all.txs
    {
      stales := stales + 1;
      if stales <= |items| / 4 {
        return;
      }
      stales := 0;
      items := HeapOf(all.txs);
    }

    /** Takes out exactly the pooled remote transactions below the threshold price. */
    method Cap(threshold: nat, locals: set<Address>) returns (drop: seq<Tx>)
      requires Ordered() && Covers(all.txs)
      modifies this
      ensures Ordered()
      ensures forall tx :: tx in drop <==> tx in all.txs && tx.price < threshold && !IsLocal(tx, locals)
      ensures forall tx :: tx in all.txs && tx !in drop ==> tx in items
    {
      hide PriceHeap;
      drop := [];
      var save: seq<Tx> := [];
      while |items| > 0
        invariant PriceHeap(items)
        invariant forall tx :: tx in drop ==> tx in all.txs && tx.price < threshold && !IsLocal(tx, locals)
        invariant forall tx :: tx in all.txs ==> tx in items || tx in save || tx in drop
        invariant forall tx :: tx in save ==> tx in all.txs && (IsLocal(tx, locals) || tx.price >= threshold)
        decreases |items|
      {
        var tx;
        items, tx := PopCheapest(items);
        if tx !in all.txs {
          stales := stales - 1;
          continue;
        }
        if tx.price >= threshold {
          save := save + [tx];
          assert forall t :: t in items ==> t.price >= threshold by {
            forall t | t in items ensures t.price >= threshold { assert !Cheaper(t, tx); }
          }
          break;
        }
        if IsLocal(tx, locals) {
          save := save + [tx];
        } else {
          drop := drop + [tx];
        }
      }
      assert forall t :: t in items ==> t.price >= threshold;
      items := PushAll(items, save);
    }

    /** Whether a transaction is at most as expensive as the cheapest pooled one; local senders never are. */
    method Underpriced(tx: Tx, locals: set<Address>) returns (r: bool)
      requires Ordered() && Covers(all.txs)
      modifies this
      ensures Ordered() && Covers(all.txs)
      ensures IsLocal(tx, locals) || all.txs == {} ==> !r
      ensures !IsLocal(tx, locals) && all.txs != {} ==> (r <==> forall t :: t in all.txs ==> t.price >= tx.price)
    {
      hide PriceHeap;
      if IsLocal(tx, locals) {
        return false;
      }
      while |items| > 0 && items[0] !in all.txs
        invariant PriceHeap(items) && Covers(all.txs)
        decreases |items|
      {
        var head;
        stales := stales - 1;
        items, head := PopCheapest(items);
      }
      if |items| == 0 {
        assert forall t :: t in all.txs ==> t in items;
        return false;
      }
      CheapestFirst(items);
      assert forall t :: t in all.txs ==> !Cheaper(t, items[0]);
      r := items[0].price >= tx.price;
    }

    /** Takes out the cheapest remote transactions, `count` of them unless they run out: none left is cheaper than one
        taken. */
    method Discard(count: nat, locals: set<Address>) returns (drop: seq<Tx>)
      requires Ordered() && Covers(all.txs)
      modifies this
      ensures Ordered()
      ensures forall tx :: tx in drop ==> tx in all.txs && !IsLocal(tx, locals)
      ensures forall tx :: tx in all.txs && tx !in drop ==> tx in items
      ensures forall t, d :: t in all.txs && !IsLocal(t, locals) && t !in drop && d in drop ==> !Cheaper(t, d)
      ensures forall t, d :: t in all.txs && !IsLocal(t, locals) && t !in drop && d in drop ==>
                d.price < t.price || (d.price == t.price && d.nonce >= t.nonce)
      ensures |drop| <= count
      ensures |drop| < count ==> forall tx :: tx in all.txs && !IsLocal(tx, locals) ==> tx in drop
    {
      hide PriceHeap;
      drop := [];
      var save: seq<Tx> := [];
      while |items| > 0 && |drop| < count
        invariant PriceHeap(items) && |drop| <= count
        invariant forall tx :: tx in drop ==> tx in all.txs && !IsLocal(tx, locals)
        invariant forall tx :: tx in save ==> IsLocal(tx, locals)
        invariant forall tx :: tx in all.txs ==> tx in items || tx in save || tx in drop
        invariant forall t, d :: t in items && d in drop ==> !Cheaper(t, d)
        decreases |items|
      {
        var tx;
        items, tx := PopCheapest(items);
        if tx !in all.txs {
          stales := stales - 1;
          continue;
        }
        if IsLocal(tx, locals) {
          save := save + [tx];
        } else {
          drop := drop + [tx];
        }
      }
      items := PushAll(items, save);
    }
  }

  lemma CheapestFirst(items: seq<Tx>)
    requires PriceHeap(items) && items != []
    ensures forall t :: t in items ==> !Cheaper(t, items[0])
  {
    forall t | t in items ensures !Cheaper(t, items[0]) {
      var i :| 0 <= i < |items| && items[i] == t;
      RootIsMinimal(items, PriceRank, i);
    }
  }
}
