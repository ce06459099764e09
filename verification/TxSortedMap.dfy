/** txSortedMap (core/tx_list.go): a hash map of transactions by nonce, a heap of its nonces and a cached
    nonce-sorted listing, all updated in place. */
module TxSortedMaps {
  import opened Wrappers
  import opened Transactions
  import opened TxListSpec
  import opened Heap

  // ---------- the heap of nonces ----------

  /** The heap holds exactly the stored nonces, each once. */
  ghost predicate Indexes(index: seq<nat>, items: Items) {
    IsHeap(index, NonceRank) && multiset(index) == multiset(items.Keys)
  }

  lemma IndexMembers(index: seq<nat>, items: Items)
    requires multiset(index) == multiset(items.Keys)
    ensures forall n :: n in index <==> n in items
    ensures |index| == |items|
  {
    assert forall n :: n in index <==> n in multiset(index);
    assert |multiset(index)| == |index| && |multiset(items.Keys)| == |items.Keys| == |items|;
  }

  lemma IndexSize(index: seq<nat>, items: Items)
    requires Indexes(index, items)
    ensures |index| == |items| && (index == [] <==> items.Keys == {})
  {
    IndexMembers(index, items);
    assert |items| == |items.Keys|;
  }

  /** The head of the heap is the least stored nonce. */
  lemma HeadIsMinimum(index: seq<nat>, items: Items)
    requires Indexes(index, items) && index != []
    ensures items.Keys != {} && index[0] == Minimum(items.Keys)
  {
    IndexMembers(index, items);
    assert index[0] in items;
    var m := Minimum(items.Keys);
    var i :| 0 <= i < |index| && index[i] == m;
    RootIsMinimal(index, NonceRank, i);
  }

  lemma RemoveFromIndex(index: seq<nat>, items: Items, r: seq<nat>, n: nat)
    requires multiset(index) == multiset(items.Keys) && multiset(index) == multiset(r) + multiset{n}
    ensures n in items && multiset(r) == multiset((items - {n}).Keys)
  {
    assert n in multiset(index);
    assert (items - {n}).Keys == items.Keys - {n};
    forall k ensures multiset(r)[k] == multiset((items - {n}).Keys)[k] {
      assert multiset(items.Keys)[k] == multiset(r)[k] + multiset{n}[k];
    }
  }

  method PopNonce(index: seq<nat>, ghost items: Items) returns (r: seq<nat>, nonce: nat)
    requires Indexes(index, items) && index != []
    ensures items.Keys != {} && nonce == Minimum(items.Keys) && Indexes(r, items - {nonce}) && |r| < |index|
  {
    HeadIsMinimum(index, items);
    r, nonce := Pop(index, NonceRank);
    RemoveFromIndex(index, items, r, nonce);
  }

  method PushNonce(index: seq<nat>, ghost items: Items, tx: Tx) returns (r: seq<nat>)
    requires Indexes(index, items) && tx.nonce !in items
    ensures Indexes(r, items[tx.nonce := tx])
  {
    r := Push(index, NonceRank, tx.nonce);
    assert items[tx.nonce := tx].Keys == items.Keys + {tx.nonce};
  }

  method RemoveNonce(index: seq<nat>, ghost items: Items, nonce: nat) returns (r: seq<nat>)
    requires Indexes(index, items) && nonce in items
    ensures Indexes(r, items - {nonce})
  {
    hide IsHeap, HeapFrom;
    IndexMembers(index, items);
    ghost var at :| 0 <= at < |index| && index[at] == nonce;
    var i := 0;
    while index[i] != nonce
      invariant 0 <= i <= at
      decreases |index| - i
    {
      i := i + 1;
    }
    r := Heap.Remove(index, NonceRank, i);
    RemoveFromIndex(index, items, r, nonce);
  }

  method SortIndex(index: seq<nat>, ghost items: Items) returns (sorted: seq<nat>)
    requires Indexes(index, items)
    ensures Sorted(sorted, NonceRank) && multiset(sorted) == multiset(items.Keys) && |sorted| == |index|
  {
    hide IsHeap, Sorted;
    sorted := Sort(index, NonceRank);
    assert |multiset(sorted)| == |multiset(index)|;
  }

  method Reindex(nonces: seq<nat>, ghost items: Items) returns (index: seq<nat>)
    requires multiset(nonces) == multiset(items.Keys)
    ensures Indexes(index, items)
  {
    hide IsHeap;
    index := Init(nonces, NonceRank);
  }

  method BuildIndex(items: Items) returns (r: seq<nat>)
    ensures Indexes(r, items)
  {
    r := [];
    var rest := items.Keys;
    while rest != {}
      invariant rest <= items.Keys && multiset(r) == multiset(items.Keys - rest)
      decreases rest
    {
      var n :| n in rest;
      assert items.Keys - (rest - {n}) == (items.Keys - rest) + {n};
      rest := rest - {n};
      r := r + [n];
    }
    assert items.Keys - {} == items.Keys;
    r := Init(r, NonceRank);
  }

  // ---------- cutting a map at a nonce ----------

  lemma CutStep(all: Items, cut: nat, removed: seq<Tx>)
    requires Keyed(all) && Lists(removed, Below(all, cut)) && From(all, cut).Keys != {}
    ensures var n := Minimum(From(all, cut).Keys);
            && n in all && cut <= n && From(all, cut)[n] == all[n]
            && From(all, n + 1) == From(all, cut) - {n}
            && Lists(removed + [all[n]], Below(all, n + 1))
  {
    var n := Minimum(From(all, cut).Keys);
    assert n in From(all, cut);
    var r := removed + [all[n]];
    var items := Below(all, n + 1);
    forall k | k in items ensures items[k] in r {
      if k < cut {
        assert Below(all, cut)[k] in removed;
      } else {
        assert k in From(all, cut);
      }
    }
  }

  lemma CutEnd(all: Items, cut: nat, threshold: nat)
    requires cut <= threshold && (From(all, cut).Keys == {} || Minimum(From(all, cut).Keys) >= threshold)
    ensures From(all, cut) == From(all, threshold) && Below(all, cut) == Below(all, threshold)
  {
    assert forall n :: n in all && n >= cut ==> n in From(all, cut);
  }

  lemma CutNothing(all: Items, cut: nat)
    requires forall n :: n in all ==> n >= cut
    ensures From(all, cut) == all && Below(all, cut) == map[] && Lists([], Below(all, cut))
  {
  }

  lemma KeyedParts(all: Items, cut: nat)
    requires Keyed(all)
    ensures Keyed(From(all, cut))
  {
  }

  // ---------- listings ----------

  /** The next cached entry is the nonce the heap pops. */
  lemma NextCached(cached: seq<Tx>, k: nat, items: Items)
    requires Keyed(items) && k <= |cached| && Lists(cached[k..], items) && items.Keys != {}
    ensures k < |cached| && Lists(cached[k + 1..], items - {Minimum(items.Keys)})
  {
    var nonce := Minimum(items.Keys);
    var s := cached[k..];
    assert items[nonce] in s;
    PeelListing(s, items);
    assert s[0].nonce in items;
    assert s[0].nonce == nonce;
    assert s[1..] == cached[k + 1..];
  }

  lemma PeelLast(s: seq<Tx>, items: Items)
    requires Keyed(items) && Lists(s, items) && items.Keys != {}
    ensures s != [] && Lists(s[..|s| - 1], items - {Maximum(items.Keys)})
  {
    var top := Maximum(items.Keys);
    assert items[top] in s;
    var k := |s| - 1;
    assert s[k].nonce <= top;
    assert s[k].nonce == top;
    var rest := items - {top};
    forall n | n in rest ensures rest[n] in s[..k] {
      assert items[n] in s;
      var i :| 0 <= i < |s| && s[i] == items[n];
      assert s[..k][i] == items[n];
    }
    assert forall i :: 0 <= i < k ==> s[..k][i] == s[i] && s[i].nonce < s[k].nonce;
  }

  lemma EnumeratesMore(s: seq<Tx>, items: Items, all: Items, n: nat)
    requires Enumerates(s, items) && Keyed(all) && n in all && n !in items
    ensures Enumerates(s + [all[n]], items[n := all[n]])
  {
    var more := items[n := all[n]];
    assert more.Keys == items.Keys + {n};
    assert |more| == |more.Keys| && |items| == |items.Keys|;
  }

  lemma SortedEnumeration(found: seq<Tx>, sorted: seq<Tx>, items: Items)
    requires Keyed(items) && Enumerates(found, items)
    requires multiset(found) == multiset(sorted) && Sorted(sorted, (tx: Tx) => NonceRank(tx.nonce))
    ensures Lists(sorted, items)
  {
    assert forall tx :: tx in found <==> tx in multiset(found);
    assert forall tx :: tx in sorted <==> tx in multiset(sorted);
    assert |sorted| == |multiset(sorted)| == |multiset(found)| == |found|;
    forall n | n in items ensures items[n] in sorted {
      assert items[n].nonce == n && items[n] in found;
    }
    forall i, j | 0 <= i < j < |sorted| ensures sorted[i].nonce < sorted[j].nonce {
      var key := (tx: Tx) => NonceRank(tx.nonce);
      assert !Before(key(sorted[j]), key(sorted[i]));
      assert sorted[i] in found && sorted[j] in found;
      NoRepeats(sorted, i, j, items);
    }
    forall i | 0 <= i < |sorted| ensures sorted[i].nonce in items && items[sorted[i].nonce] == sorted[i] {
      assert sorted[i] in sorted;
    }
  }

  /** As many entries as items and every item present: no entry occurs twice. */
  lemma NoRepeats(s: seq<Tx>, i: nat, j: nat, items: Items)
    requires i < j < |s| && |s| == |items|
    requires forall n :: n in items ==> items[n].nonce == n && items[n] in s
    ensures s[i] != s[j]
  {
    var t := s[..j] + s[j + 1..];
    if s[i] == s[j] {
      forall n | n in items ensures exists k :: 0 <= k < |t| && t[k].nonce == n {
        var k :| 0 <= k < |s| && s[k] == items[n];
        if k < j { assert t[k].nonce == n; }
        else if k > j { assert t[k - 1].nonce == n; }
        else { assert t[i].nonce == n; }
      }
      NoncesCovered(items.Keys, t);
      assert false;
    }
  }

  lemma {:induction false} NoncesCovered(s: set<nat>, q: seq<Tx>)
    requires forall n :: n in s ==> exists k :: 0 <= k < |q| && q[k].nonce == n
    ensures |s| <= |q|
    decreases |q|
  {
    if q == [] {
      assert s == {};
    } else {
      var rest := s - {q[0].nonce};
      forall n | n in rest ensures exists k :: 0 <= k < |q[1..]| && q[1..][k].nonce == n {
        var k :| 0 <= k < |q| && q[k].nonce == n;
        assert q[1..][k - 1].nonce == n;
      }
      NoncesCovered(rest, q[1..]);
      if q[0].nonce in s {
        assert s == rest + {q[0].nonce};
      } else {
        assert s == rest;
      }
    }
  }

  /** Collects the contents in any order and sorts them by nonce. */
  method Flattened(items: Items) returns (sorted: seq<Tx>)
    requires Keyed(items)
    ensures Lists(sorted, items)
  {
    hide Keyed, Lists, Sorted, Enumerates;
    var found := [];
    var rest := items.Keys;
    LowestAll(items);
    while rest != {}
      invariant rest <= items.Keys && Enumerates(found, items - rest)
      decreases rest
    {
      var n :| n in rest;
      EnumeratesMore(found, items - rest, items, n);
      assert items - (rest - {n}) == (items - rest)[n := items[n]];
      found := found + [items[n]];
      rest := rest - {n};
    }
    assert items - {} == items;
    sorted := Sort(found, (tx: Tx) => NonceRank(tx.nonce));
    SortedEnumeration(found, sorted, items);
  }

  // ---------- filtering ----------

  lemma FilterStep(all: Items, todo: set<nat>, n: nat, filter: Tx -> bool)
    requires n in todo && n in all
    ensures Drop(all - (todo - {n}), filter) ==
            if filter(all[n]) then Drop(all - todo, filter)[n := all[n]] else Drop(all - todo, filter)
    ensures n !in Drop(all - todo, filter)
    ensures all - Drop(all - todo, filter)[n := all[n]].Keys == (all - Drop(all - todo, filter).Keys) - {n}
  {
  }

  lemma FilterStart(all: Items, filter: Tx -> bool)
    ensures Drop(all - all.Keys, filter) == map[] && all - Drop(all - all.Keys, filter).Keys == all
    ensures Enumerates([], Drop(all - all.Keys, filter))
  {
  }

  lemma NothingEnumerated(s: seq<Tx>, items: Items)
    requires Enumerates(s, items)
    ensures s == [] <==> items == map[]
  {
  }

  lemma FilterEnd(all: Items, filter: Tx -> bool)
    ensures Drop(all - {}, filter) == Drop(all, filter)
    ensures all - Drop(all, filter).Keys == Keep(all, filter)
    ensures Drop(all, filter) == map[] ==> Keep(all, filter) == all
    ensures Keyed(all) ==> Keyed(Keep(all, filter))
  {
    assert all - {} == all;
  }

  // ---------- capping ----------

  lemma LowestStep(all: Items, size: nat)
    requires 0 < size <= |all|
    ensures var low := Lowest(all, size);
            low.Keys != {} && Lowest(all, size - 1) == low - {Maximum(low.Keys)} && Maximum(low.Keys) in all
  {
    var low := Lowest(all, size);
    LowestMeaning(all, size);
    LowestMeaning(all, size - 1);
    assert |low.Keys| == |low| == size;
    var top := Maximum(low.Keys);
    RemoveOneSize(low, top);
    LowestIsUnique(all, low - {top}, Lowest(all, size - 1));
  }

  lemma LowestIsUnique(all: Items, a: Items, b: Items)
    requires |a| == |b|
    requires forall n :: n in a ==> n in all && a[n] == all[n]
    requires forall n :: n in b ==> n in all && b[n] == all[n]
    requires forall n, m :: n in a && m in all && m !in a ==> n < m
    requires forall n, m :: n in b && m in all && m !in b ==> n < m
    ensures a == b
  {
    assert |a.Keys| == |a| && |b.Keys| == |b|;
    if x :| x in a.Keys && x !in b.Keys {
      assert forall n :: n in b ==> n in a && n != x;
      StrictSubset(b.Keys, a.Keys, x);
    } else {
      if y :| y in b.Keys && y !in a.Keys {
        StrictSubset(a.Keys, b.Keys, y);
      }
    }
  }

  lemma StrictSubset(a: set<nat>, b: set<nat>, x: nat)
    requires a <= b && x in b && x !in a
    ensures |a| < |b|
  {
    assert b == a + (b - a) && x in b - a;
  }

  /** One step of Cap's loop: dropping the top of the sorted nonces. */
  lemma CapStep(all: Items, size: nat, sorted: seq<nat>, drops: seq<Tx>)
    requires Keyed(all) && 0 < size <= |sorted| == |all|
    requires Sorted(sorted, NonceRank) && multiset(sorted[..size]) == multiset(Lowest(all, size).Keys)
    requires Enumerates(drops, all - Lowest(all, size).Keys) && Descending(drops)
    ensures var low := Lowest(all, size); var top := sorted[size - 1];
            && low.Keys != {} && top == Maximum(low.Keys) && top in low && top in all && low[top] == all[top]
            && Lowest(all, size - 1) == low - {top}
            && multiset(sorted[..size - 1]) == multiset((low - {top}).Keys)
            && Enumerates(drops + [all[top]], all - Lowest(all, size - 1).Keys)
            && Descending(drops + [all[top]])
  {
    hide Keyed, Sorted, Lowest, Enumerates, Descending;
    TopOfSorted(sorted, size, Lowest(all, size));
    LowestStep(all, size);
    LowestMeaning(all, size);
    DropTop(all, Lowest(all, size), sorted[size - 1], drops);
  }

  lemma DropTop(all: Items, low: Items, top: nat, drops: seq<Tx>)
    requires Keyed(all) && low.Keys <= all.Keys && top in low && low[top] == all[top]
    requires forall m :: m in all && m !in low ==> top < m
    requires Enumerates(drops, all - low.Keys) && Descending(drops)
    ensures Enumerates(drops + [all[top]], all - (low - {top}).Keys) && Descending(drops + [all[top]])
  {
    assert all[top].nonce == top;
    hide Keyed, Enumerates, Descending;
    RestGrows(all, low, top);
    EnumeratedAbove(drops, all - low.Keys, top);
    EnumeratesMore(drops, all - low.Keys, all, top);
    DescendsOn(drops, all[top]);
  }

  lemma DescendsOn(drops: seq<Tx>, tx: Tx)
    requires Descending(drops) && forall i :: 0 <= i < |drops| ==> tx.nonce < drops[i].nonce
    ensures Descending(drops + [tx])
  {
  }

  lemma RestGrows(all: Items, low: Items, top: nat)
    requires low.Keys <= all.Keys && top in low && top in all
    ensures all - (low - {top}).Keys == (all - low.Keys)[top := all[top]]
  {
  }

  lemma EnumeratedAbove(s: seq<Tx>, items: Items, bound: nat)
    requires Enumerates(s, items) && forall n :: n in items ==> bound < n
    ensures forall i :: 0 <= i < |s| ==> bound < s[i].nonce
  {
    forall i | 0 <= i < |s| ensures bound < s[i].nonce {
      assert s[i] in s;
    }
  }

  ghost predicate Descending(s: seq<Tx>) {
    forall i, j :: 0 <= i < j < |s| ==> s[j].nonce < s[i].nonce
  }

  lemma TopOfSorted(sorted: seq<nat>, size: nat, items: Items)
    requires 0 < size <= |sorted| && Sorted(sorted, NonceRank)
    requires multiset(sorted[..size]) == multiset(items.Keys)
    ensures items.Keys != {} && sorted[size - 1] == Maximum(items.Keys)
    ensures multiset(sorted[..size - 1]) == multiset((items - {sorted[size - 1]}).Keys)
  {
    var s := sorted[..size];
    var top := sorted[size - 1];
    IndexMembers(s, items);
    assert s[size - 1] == top;
    assert s == sorted[..size - 1] + [top];
    RemoveFromIndex(s, items, sorted[..size - 1], top);
    forall n | n in items ensures n <= top {
      var i :| 0 <= i < size && s[i] == n;
      if i < size - 1 {
        assert !Before(NonceRank(sorted[size - 1]), NonceRank(sorted[i]));
      }
    }
  }

  lemma LowestAll(all: Items)
    ensures Lowest(all, |all|) == all && all - all.Keys == map[] && Enumerates([], all - all.Keys)
  {
  }

  lemma KeyedLowest(all: Items, k: nat)
    requires Keyed(all)
    ensures Keyed(Lowest(all, k))
  {
    LowestMeaning(all, k);
  }

  /** Shifting the back off a cached listing leaves the listing of what Cap keeps. */
  lemma CappedCache(cached: seq<Tx>, all: Items, threshold: nat, drops: seq<Tx>)
    requires Keyed(all) && Lists(cached, all) && threshold <= |all|
    requires Enumerates(drops, all - Lowest(all, threshold).Keys)
    ensures |drops| <= |cached| && Lists(cached[..|cached| - |drops|], Lowest(all, threshold))
  {
    hide Keyed, Lists, Lowest;
    ListingIsUnique(cached, cached, all);
    LowestMeaning(all, threshold);
    RestSize(all, Lowest(all, threshold));
    CapListing(cached, all, threshold);
  }

  method ShiftedBack(cached: seq<Tx>, count: nat, ghost all: Items, threshold: nat, ghost drops: seq<Tx>)
    returns (left: seq<Tx>)
    requires Keyed(all) && Lists(cached, all) && threshold <= |all| && count == |drops|
    requires Enumerates(drops, all - Lowest(all, threshold).Keys)
    ensures Lists(left, Lowest(all, threshold))
  {
    hide Keyed, Lists, Lowest, Enumerates;
    CappedCache(cached, all, threshold, drops);
    left := cached[..|cached| - count];
  }

  lemma RestSize(all: Items, low: Items)
    requires low.Keys <= all.Keys
    ensures |all - low.Keys| == |all| - |low|
  {
    assert (all - low.Keys).Keys == all.Keys - low.Keys;
    assert all.Keys == (all.Keys - low.Keys) + low.Keys;
    assert |all.Keys| == |all| && |low.Keys| == |low| && |(all - low.Keys).Keys| == |all - low.Keys|;
  }

  lemma {:induction false} CapListing(s: seq<Tx>, all: Items, threshold: nat)
    requires Keyed(all) && Lists(s, all) && threshold <= |s| == |all|
    ensures Lists(s[..threshold], Lowest(all, threshold))
    decreases |s|
  {
    if threshold == |s| {
      assert s[..threshold] == s;
    } else {
      var top := Maximum(all.Keys);
      PeelLast(s, all);
      RemoveOneSize(all, top);
      CapListing(s[..|s| - 1], all - {top}, threshold);
      assert s[..|s| - 1][..threshold] == s[..threshold];
    }
  }

  class TxSortedMap {
    var items: Items
    var index: seq<nat>
    var cache: Option<seq<Tx>>

    ghost predicate Valid()
      reads this
    {
      Keyed(items) && Indexes(index, items) && (cache.Some? ==> Lists(cache.value, items))
    }

    constructor ()
      ensures Valid() && items == map[] && cache == None
    {
      items := map[];
      index := [];
      cache := None;
    }

    /** Inserts, overwriting what has the same nonce. */
    method Put(tx: Tx)
      requires Valid()
      modifies this
      ensures Valid() && items == old(items)[tx.nonce := tx]
    {
      hide IsHeap, Lists;
      if tx.nonce !in items {
        index := PushNonce(index, items, tx);
      } else {
        assert items[tx.nonce := tx].Keys == items.Keys;
      }
      items, cache := items[tx.nonce := tx], None;
    }

    /** Removes everything below threshold, returning it in nonce order. */
    method Forward(threshold: nat) returns (removed: seq<Tx>)
      requires Valid()
      modifies this
      ensures Valid() && items == From(old(items), threshold)
      ensures Lists(removed, Below(old(items), threshold))
    {
      hide Keyed, Indexes, Lists, From, Below;
      removed := [];
      ghost var all, cut: nat := items, 0;
      CutNothing(all, 0);
      assert cache.Some? ==> cache.value[0..] == cache.value;
      while |index| > 0 && index[0] < threshold
        invariant cut <= threshold && items == From(all, cut) && Lists(removed, Below(all, cut))
        invariant Indexes(index, items) && cache == old(cache)
        invariant cache.Some? ==> |removed| <= |cache.value| && Lists(cache.value[|removed|..], items)
        decreases |index|
      {
        HeadIsMinimum(index, items);
        CutStep(all, cut, removed);
        KeyedParts(all, cut);
        if cache.Some? {
          NextCached(cache.value, |removed|, items);
        }
        var nonce;
        index, nonce := PopNonce(index, items);
        removed := removed + [items[nonce]];
        items := items - {nonce};
        cut := nonce + 1;
      }
      IndexSize(index, items);
      if |index| > 0 {
        HeadIsMinimum(index, items);
      }
      CutEnd(all, cut, threshold);
      KeyedParts(all, cut);
      if cache.Some? {
        cache := Some(cache.value[|removed|..]);
      }
    }

    /** Removes what the filter selects, in no particular order. */
    method Filter(filter: Tx -> bool) returns (removed: seq<Tx>)
      requires Valid()
      modifies this
      ensures Valid() && items == Keep(old(items), filter)
      ensures Enumerates(removed, Drop(old(items), filter))
    {
      hide Keyed, Indexes, Lists, Keep, Drop, Enumerates;
      removed := [];
      ghost var all := items;
      FilterStart(all, filter);
      var todo := items.Keys;
      ghost var gone: Items := Drop(all - todo, filter);
      while todo != {}
        invariant index == old(index) && cache == old(cache)
        invariant todo <= all.Keys && gone == Drop(all - todo, filter) && items == all - gone.Keys
        invariant Enumerates(removed, gone)
        decreases todo
      {
        var n :| n in todo;
        FilterStep(all, todo, n, filter);
        if filter(items[n]) {
          EnumeratesMore(removed, gone, all, n);
          removed := removed + [items[n]];
          gone := gone[n := items[n]];
          items := items - {n};
        }
        todo := todo - {n};
      }
      FilterEnd(all, filter);
      NothingEnumerated(removed, gone);
      if |removed| > 0 {
        index := BuildIndex(items);
        cache := None;
      }
    }

    /** Keeps the `threshold` lowest nonces, returning the rest from the highest down. */
    method Cap(threshold: nat) returns (drops: seq<Tx>)
      requires Valid()
      modifies this
      ensures Valid() && items == Lowest(old(items), threshold)
      ensures Enumerates(drops, old(items) - items.Keys) && Descending(drops)
    {
      hide Keyed, Indexes, Lists, Lowest, Enumerates, Descending, Sorted;
      drops := [];
      ghost var all := items;
      LowestAll(all);
      assert Descending(drops) by { DescendingEmpty(); }
      if |items| <= threshold {
        LowestEnough(all, threshold);
        return;
      }
      IndexSize(index, items);
      index := SortIndex(index, items);
      assert index[..|items|] == index;
      var size := |items|;
      while size > threshold
        modifies this`items
        invariant threshold <= size <= |all| == |index| && items == Lowest(all, size)
        invariant multiset(index[..size]) == multiset(items.Keys)
        invariant Enumerates(drops, all - items.Keys) && Descending(drops)
      {
        CapStep(all, size, index, drops);
        drops := drops + [items[index[size - 1]]];
        items := items - {index[size - 1]};
        size := size - 1;
      }
      assert size == threshold && items == Lowest(all, threshold);
      KeyedLowest(all, threshold);
      index := Reindex(index[..threshold], items);
      if cache.Some? {
        var left := ShiftedBack(cache.value, |drops|, all, threshold, drops);
        cache := Some(left);
      }
    }

    /** Deletes one nonce, reporting whether it was there. */
    method Remove(nonce: nat) returns (ok: bool)
      requires Valid()
      modifies this
      ensures Valid() && ok == (nonce in old(items)) && items == old(items) - {nonce}
    {
      hide IsHeap, Lists;
      if nonce !in items {
        assert items - {nonce} == items;
        return false;
      }
      index := RemoveNonce(index, items, nonce);
      items := items - {nonce};
      cache := None;
      return true;
    }

    /** Takes out the consecutive run from the least nonce, provided that is at most start. */
    method Ready(start: nat) returns (ready: seq<Tx>)
      requires Valid()
      modifies this
      ensures Valid() && items == From(old(items), ReadyEnd(old(items), start))
      ensures Lists(ready, Below(old(items), ReadyEnd(old(items), start)))
    {
      hide Keyed, Indexes, Lists, From, Below;
      ready := [];
      ghost var all := items;
      ghost var end := ReadyEnd(all, start);
      IndexSize(index, items);
      if |index| > 0 {
        HeadIsMinimum(index, items);
      }
      if |index| == 0 || index[0] > start {
        CutNothing(all, 0);
        return;
      }
      var next := index[0];
      CutNothing(all, next);
      while |index| > 0 && index[0] == next
        invariant Minimum(all.Keys) <= next <= end && items == From(all, next) && Lists(ready, Below(all, next))
        invariant Indexes(index, items) && forall k :: Minimum(all.Keys) <= k < end ==> k in all
        decreases |index|
      {
        HeadIsMinimum(index, items);
        CutStep(all, next, ready);
        var nonce;
        index, nonce := PopNonce(index, items);
        ready := ready + [items[next]];
        items := items - {next};
        next := next + 1;
      }
      if |index| > 0 {
        HeadIsMinimum(index, items);
      }
      IndexSize(index, items);
      RunStops(all, next, end);
      KeyedParts(all, next);
      cache := None;
    }

    /** The nonce-sorted contents, from the cache if there is one. */
    method Flatten() returns (txs: seq<Tx>)
      requires Valid()
      modifies this`cache
      ensures Valid() && Lists(txs, items) && cache == Some(txs)
    {
      hide Keyed, Indexes, Lists;
      if cache.None? {
        var sorted := Flattened(items);
        cache := Some(sorted);
      }
      txs := cache.value;
    }
  }

  lemma DescendingEmpty()
    ensures Descending([])
  {
  }

  lemma LowestEnough(all: Items, threshold: nat)
    requires |all| <= threshold
    ensures Lowest(all, threshold) == all
  {
  }

  /** The run handed out by Ready stops exactly at the first absent nonce. */
  lemma RunStops(all: Items, next: nat, end: nat)
    requires all.Keys != {} && Minimum(all.Keys) <= next <= end
    requires forall k :: Minimum(all.Keys) <= k < end ==> k in all
    requires end !in all
    requires From(all, next).Keys == {} || Minimum(From(all, next).Keys) != next
    ensures next == end
  {
    assert next in all ==> next in From(all, next);
  }
}
