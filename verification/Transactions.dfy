/** Transactions as the pool sees them (core/types/transaction.go). The hash of a transaction is collision free,
    so a transaction stands for its own hash: a lookup by hash is membership. */
module Transactions {
  import opened Wrappers
  import opened Heap

  type Address = nat

  /** `signed` tells whether types.Sender recovers an address; `from` is that address. */
  datatype Tx = Tx(id: nat, from: Address, signed: bool, nonce: nat, price: nat, gas: nat, value: int,
                   size: nat, data: seq<bv8>, creates: bool)

  /** value + gasprice * gaslimit */
  function Cost(tx: Tx): int {
    tx.price * tx.gas + tx.value
  }

  /** The order of nonceHeap. */
  function NonceRank(n: nat): Rank {
    Rank(n, 0)
  }

  /** The order of priceHeap: cheaper first; on equal price the higher nonce is worse. */
  function PriceRank(tx: Tx): Rank {
    Rank(tx.price, -(tx.nonce as int))
  }

  /** Nonce-sorted, without repetition. */
  ghost predicate NonceSorted(s: seq<Tx>) {
    forall i, j :: 0 <= i < j < |s| ==> s[i].nonce < s[j].nonce
  }

  /** Every transaction is filed under its own nonce. */
  ghost predicate Keyed(items: map<nat, Tx>) {
    forall n :: n in items ==> items[n].nonce == n
  }

  /** s lists exactly the contents of items, by nonce. */
  ghost predicate Lists(s: seq<Tx>, items: map<nat, Tx>) {
    && NonceSorted(s)
    && (forall i {:trigger s[i]} :: 0 <= i < |s| ==> s[i].nonce in items && items[s[i].nonce] == s[i])
    && (forall n {:trigger items[n] in s} :: n in items ==> items[n] in s)
  }

  /** s lists exactly the contents of items, in any order. */
  ghost predicate Enumerates(s: seq<Tx>, items: map<nat, Tx>) {
    && (forall tx :: tx in s <==> tx.nonce in items && items[tx.nonce] == tx)
    && |s| == |items|
  }

  lemma PeelListing(s: seq<Tx>, items: map<nat, Tx>)
    requires Keyed(items) && Lists(s, items) && s != []
    ensures Lists(s[1..], items - {s[0].nonce}) && |items - {s[0].nonce}| == |items| - 1
    ensures forall n :: n in items ==> s[0].nonce <= n
  {
    var rest := items - {s[0].nonce};
    forall n | n in items ensures s[0].nonce <= n && (n != s[0].nonce ==> items[n] in s[1..]) {
      assert items[n] in s;
      assert s == [s[0]] + s[1..];
    }
    assert rest.Keys == items.Keys - {s[0].nonce};
    assert |items.Keys| == |items| && |rest.Keys| == |rest|;
  }

  /** A nonce-sorted listing is determined by the contents, so the cached and the rebuilt order agree. */
  lemma {:induction false} ListingIsUnique(s: seq<Tx>, t: seq<Tx>, items: map<nat, Tx>)
    requires Keyed(items) && Lists(s, items) && Lists(t, items)
    ensures s == t && |s| == |items|
    decreases |s|
  {
    assert t != [] ==> t[0].nonce in items;
    if s == [] {
      NoncesListed(s, items);
      assert items == map[];
    } else {
      PeelBoth(s, t, items);
      ListingIsUnique(s[1..], t[1..], items - {s[0].nonce});
      assert s == [s[0]] + s[1..] == [t[0]] + t[1..] == t;
    }
  }

  lemma NoncesListed(s: seq<Tx>, items: map<nat, Tx>)
    requires Keyed(items) && Lists(s, items)
    ensures items.Keys == set tx | tx in s :: tx.nonce
  {
    forall n | n in items ensures exists tx :: tx in s && tx.nonce == n {
      assert items[n] in s;
    }
  }

  lemma PeelBoth(s: seq<Tx>, t: seq<Tx>, items: map<nat, Tx>)
    requires Keyed(items) && Lists(s, items) && Lists(t, items) && s != []
    ensures t != [] && s[0] == t[0]
    ensures var rest := items - {s[0].nonce};
            Keyed(rest) && Lists(s[1..], rest) && Lists(t[1..], rest) && |rest| == |items| - 1
  {
    assert items[s[0].nonce] in t;
    PeelListing(s, items);
    PeelListing(t, items);
  }

  // ---------- greatest and least members of finite sets of nonces ----------

  lemma {:induction false} MaximumExists(s: set<nat>) returns (m: nat)
    requires s != {}
    ensures m in s && forall x :: x in s ==> x <= m
  {
    var x :| x in s;
    m := x;
    var rest := s - {x};
    assert forall y :: y in s ==> y == x || y in rest;
    if rest != {} {
      var top := MaximumExists(rest);
      m := if x <= top then top else x;
    }
  }

  function Maximum(s: set<nat>): (m: nat)
    requires s != {}
    ensures m in s && forall x :: x in s ==> x <= m
  {
    assert exists m :: m in s && forall x :: x in s ==> x <= m by {
      var top := MaximumExists(s);
    }
    var m :| m in s && forall x :: x in s ==> x <= m;
    m
  }

  lemma {:induction false} MinimumExists(s: set<nat>) returns (m: nat)
    requires s != {}
    ensures m in s && forall x :: x in s ==> m <= x
  {
    var x :| x in s;
    m := x;
    var rest := s - {x};
    assert forall y :: y in s ==> y == x || y in rest;
    if rest != {} {
      var low := MinimumExists(rest);
      m := if low <= x then low else x;
    }
  }

  function Minimum(s: set<nat>): (m: nat)
    requires s != {}
    ensures m in s && forall x :: x in s ==> m <= x
  {
    assert exists m :: m in s && forall x :: x in s ==> m <= x by {
      var low := MinimumExists(s);
    }
    var m :| m in s && forall x :: x in s ==> m <= x;
    m
  }
}
