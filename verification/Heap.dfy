/** The binary heap of Go's container/heap, which both `nonceHeap` and `priceHeap`
    (core/tx_list.go) drive through Less/Swap/Push/Pop.

    A heap is a sequence ordered by a key into `Rank`; ranks compare lexicographically, which covers the
    nonce order (nonce) and the price order (cheaper first, then higher nonce first). */
module Heap {

  datatype Rank = Rank(major: int, minor: int)

  /** Strictly smaller in the heap's order: the Less of the source. */
  predicate Before(a: Rank, b: Rank) {
    a.major < b.major || (a.major == b.major && a.minor < b.minor)
  }

  function Parent(i: nat): nat
    requires 0 < i
  {
    (i - 1) / 2
  }

  /** No element from position lo onwards is smaller than its parent, for parents from lo onwards. */
  ghost predicate HeapFrom<T>(h: seq<T>, key: T -> Rank, lo: nat) {
    forall i {:trigger h[i]} :: 0 < i < |h| && lo <= Parent(i) ==> !Before(key(h[i]), key(h[Parent(i)]))
  }

  ghost predicate IsHeap<T>(h: seq<T>, key: T -> Rank) {
    HeapFrom(h, key, 0)
  }

  /** The root of a heap is minimal. */
  lemma {:induction false} RootIsMinimal<T>(h: seq<T>, key: T -> Rank, i: nat)
    requires IsHeap(h, key) && i < |h|
    ensures !Before(key(h[i]), key(h[0]))
  {
    if i > 0 {
      RootIsMinimal(h, key, Parent(i));
    }
  }

  function Swap<T>(h: seq<T>, i: nat, j: nat): (r: seq<T>)
    requires i < |h| && j < |h|
    ensures |r| == |h|
    ensures multiset(r) == multiset(h)
  {
    var r := h[i := h[j]][j := h[i]];
    SwapKeepsElements(h, i, j);
    r
  }

  lemma SwapKeepsElements<T>(h: seq<T>, i: nat, j: nat)
    requires i < |h| && j < |h|
    ensures multiset(h[i := h[j]][j := h[i]]) == multiset(h)
  {
    var s := h[i := h[j]];
    assert multiset(s) == multiset(h) - multiset{h[i]} + multiset{h[j]};
    assert s[j] == h[j];
    assert multiset(s[j := h[i]]) == multiset(s) - multiset{s[j]} + multiset{h[i]};
  }

  /** Everything in order except possibly position j against its parent; children of j already respect the
      parent of j. */
  ghost predicate AllButUp<T>(h: seq<T>, key: T -> Rank, j: nat) {
    && (forall i {:trigger h[i]} :: 0 < i < |h| && i != j ==> !Before(key(h[i]), key(h[Parent(i)])))
    && (forall i {:trigger h[i]} :: 0 < i < |h| && Parent(i) == j && 0 < j ==> !Before(key(h[i]), key(h[Parent(j)])))
  }

  /** Everything from lo onwards in order except possibly position i against its children; the children of i
      already respect the parent of i. */
  ghost predicate AllButDown<T>(h: seq<T>, key: T -> Rank, lo: nat, i: nat) {
    && (forall k {:trigger h[k]} :: 0 < k < |h| && lo <= Parent(k) && Parent(k) != i ==>
          !Before(key(h[k]), key(h[Parent(k)])))
    && (forall k {:trigger h[k]} :: 0 < k < |h| && Parent(k) == i && 0 < i && lo <= Parent(i) ==>
          !Before(key(h[k]), key(h[Parent(i)])))
  }

  lemma UpStep<T>(h: seq<T>, key: T -> Rank, j: nat)
    requires 0 < j < |h| && AllButUp(h, key, j) && Before(key(h[j]), key(h[Parent(j)]))
    ensures AllButUp(Swap(h, Parent(j), j), key, Parent(j))
  {
    var r := Swap(h, Parent(j), j);
    assert r[j] == h[Parent(j)] && r[Parent(j)] == h[j];
    assert forall i :: 0 <= i < |h| && i != j && i != Parent(j) ==> r[i] == h[i];
  }

  method Up<T>(h: seq<T>, key: T -> Rank, start: nat) returns (r: seq<T>)
    requires start < |h| && AllButUp(h, key, start)
    ensures IsHeap(r, key) && multiset(r) == multiset(h) && |r| == |h|
  {
    r := h;
    var j: nat := start;
    while j > 0 && Before(key(r[j]), key(r[Parent(j)]))
      invariant j < |r| == |h| && multiset(r) == multiset(h)
      invariant AllButUp(r, key, j)
      decreases j
    {
      UpStep(r, key, j);
      r := Swap(r, Parent(j), j);
      j := Parent(j);
    }
  }

  /** The child that container/heap's down compares against: the smaller one, the left one on a tie. */
  function SmallerChild<T>(h: seq<T>, key: T -> Rank, i: nat): (c: nat)
    requires 2 * i + 1 < |h|
    ensures c < |h| && c > 0 && Parent(c) == i
    ensures forall k :: 0 < k < |h| && Parent(k) == i ==> !Before(key(h[k]), key(h[c]))
  {
    if 2 * i + 2 < |h| && Before(key(h[2 * i + 2]), key(h[2 * i + 1])) then 2 * i + 2 else 2 * i + 1
  }

  lemma DownStep<T>(h: seq<T>, key: T -> Rank, lo: nat, i: nat, c: nat)
    requires lo <= i && 2 * i + 1 < |h| && AllButDown(h, key, lo, i)
    requires c == SmallerChild(h, key, i) && Before(key(h[c]), key(h[i]))
    ensures AllButDown(Swap(h, i, c), key, lo, c)
  {
    var r := Swap(h, i, c);
    assert r[c] == h[i] && r[i] == h[c];
    assert forall k :: 0 <= k < |h| && k != i && k != c ==> r[k] == h[k];
  }

  /** The sift-down of container/heap. `pos` is where the element of position i0 ended: down's boolean result is pos >
      i0. */
  method Down<T>(h: seq<T>, key: T -> Rank, lo: nat, i0: nat) returns (r: seq<T>, pos: nat)
    requires lo <= i0 && AllButDown(h, key, lo, i0)
    ensures HeapFrom(r, key, lo) && multiset(r) == multiset(h) && |r| == |h|
    ensures i0 <= pos && (pos == i0 ==> r == h)
  {
    r := h;
    pos := i0;
    while 2 * pos + 1 < |r| && Before(key(r[SmallerChild(r, key, pos)]), key(r[pos]))
      invariant |r| == |h| && multiset(r) == multiset(h) && i0 <= pos && (pos == i0 ==> r == h)
      invariant AllButDown(r, key, lo, pos)
      decreases |r| - pos
    {
      var c := SmallerChild(r, key, pos);
      DownStep(r, key, lo, pos, c);
      r := Swap(r, pos, c);
      pos := c;
    }
    if 2 * pos + 1 < |r| {
      assert !Before(key(r[SmallerChild(r, key, pos)]), key(r[pos]));
    }
  }

  method Init<T>(h: seq<T>, key: T -> Rank) returns (r: seq<T>)
    ensures IsHeap(r, key) && multiset(r) == multiset(h) && |r| == |h|
  {
    r := h;
    var i := |h| / 2;
    while i > 0
      invariant 0 <= i <= |h| && |r| == |h| && multiset(r) == multiset(h)
      invariant HeapFrom(r, key, i)
    {
      i := i - 1;
      var pos;
      r, pos := Down(r, key, i, i);
    }
  }

  method Push<T>(h: seq<T>, key: T -> Rank, x: T) returns (r: seq<T>)
    requires IsHeap(h, key)
    ensures IsHeap(r, key) && multiset(r) == multiset(h) + multiset{x} && |r| == |h| + 1
  {
    var s := h + [x];
    assert forall i {:trigger s[i]} :: 0 <= i < |h| ==> s[i] == h[i];
    r := Up(s, key, |h|);
  }

  /** Moves the last element into the root, shrinks and restores order. */
  method Pop<T>(h: seq<T>, key: T -> Rank) returns (r: seq<T>, x: T)
    requires IsHeap(h, key) && |h| > 0
    ensures x == h[0] && IsHeap(r, key) && multiset(h) == multiset(r) + multiset{x} && |r| == |h| - 1
    ensures forall y :: y in h ==> !Before(key(y), key(x))
  {
    x := h[0];
    var n := |h| - 1;
    var s := Swap(h, 0, n);
    assert s == s[..n] + [x];
    assert multiset(s[..n]) + multiset{x} == multiset(h);
    assert forall i {:trigger s[i]} :: 0 < i < n ==> s[i] == h[i];
    var pos;
    r, pos := Down(s[..n], key, 0, 0);
    forall y | y in h ensures !Before(key(y), key(x)) {
      var i :| 0 <= i < |h| && h[i] == y;
      RootIsMinimal(h, key, i);
    }
  }

  /** A heap whose element at i was overwritten by its former last element: only position i can be out of order, upwards
      or downwards but not both. */
  lemma Overwritten<T>(h: seq<T>, key: T -> Rank, i: nat, t: seq<T>)
    requires IsHeap(h, key) && i < |t| == |h| - 1
    requires forall k :: 0 <= k < |t| && k != i ==> t[k] == h[k]
    ensures if i > 0 && Before(key(t[i]), key(t[Parent(i)])) then AllButUp(t, key, i) else AllButDown(t, key, 0, i)
  {
    forall k | 0 < k < |t| && Parent(k) == i && 0 < i ensures !Before(key(t[k]), key(t[Parent(i)])) {
      assert !Before(key(h[k]), key(h[i])) && !Before(key(h[i]), key(h[Parent(i)]));
    }
  }

  lemma MovedOut<T>(h: seq<T>, i: nat)
    requires i < |h|
    ensures var s := Swap(h, i, |h| - 1); multiset(s[..|h| - 1]) + multiset{h[i]} == multiset(h)
  {
    var s := Swap(h, i, |h| - 1);
    assert s == s[..|h| - 1] + [h[i]];
  }

  /** Deletes the element at position i: swap with the last, then sift the moved element down, or up when it is smaller
      than its parent (it is then no larger than its children, and down leaves it where it is). */
  method Remove<T>(h: seq<T>, key: T -> Rank, i: nat) returns (r: seq<T>)
    requires IsHeap(h, key) && i < |h|
    ensures IsHeap(r, key) && multiset(h) == multiset(r) + multiset{h[i]} && |r| == |h| - 1
  {
    hide AllButUp, AllButDown;
    MovedOut(h, i);
    var n := |h| - 1;
    var t := Swap(h, i, n)[..n];
    if n == i {
      assert t == h[..n];
      return t;
    }
    Overwritten(h, key, i, t);
    hide HeapFrom;
    if i > 0 && Before(key(t[i]), key(t[Parent(i)])) {
      r := Up(t, key, i);
    } else {
      var pos;
      r, pos := Down(t, key, 0, i);
    }
  }

  ghost predicate Sorted<T>(s: seq<T>, key: T -> Rank) {
    forall i, j :: 0 <= i < j < |s| ==> !Before(key(s[j]), key(s[i]))
  }

  /** What the source asks of sort.Sort: an ordered permutation. */
  method Sort<T>(s: seq<T>, key: T -> Rank) returns (r: seq<T>)
    ensures Sorted(r, key) && multiset(r) == multiset(s) && |r| == |s|
  {
    hide HeapFrom, Sorted, NoneBefore;
    var h := Init(s, key);
    r := [];
    assert Sorted(r, key) && NoneBefore(r, h, key) by { NothingSorted(h, key); }
    while |h| > 0
      invariant IsHeap(h, key) && Sorted(r, key) && NoneBefore(r, h, key)
      invariant multiset(r) + multiset(h) == multiset(s) && |r| + |h| == |s|
      decreases |h|
    {
      var x;
      ghost var before := h;
      h, x := Pop(h, key);
      SortedMore(r, before, x, h, key);
      r := r + [x];
    }
  }

  ghost predicate NoneBefore<T>(r: seq<T>, h: seq<T>, key: T -> Rank) {
    forall i, k :: 0 <= i < |r| && 0 <= k < |h| ==> !Before(key(h[k]), key(r[i]))
  }

  lemma NothingSorted<T>(h: seq<T>, key: T -> Rank)
    ensures Sorted([], key) && NoneBefore([], h, key)
  {
  }

  lemma SortedMore<T>(r: seq<T>, h: seq<T>, x: T, h': seq<T>, key: T -> Rank)
    requires Sorted(r, key) && NoneBefore(r, h, key) && multiset(h) == multiset(h') + multiset{x}
    requires forall y :: y in h ==> !Before(key(y), key(x))
    ensures Sorted(r + [x], key) && NoneBefore(r + [x], h', key)
  {
    assert x in multiset(h);
    var at :| 0 <= at < |h| && h[at] == x;
    forall k | 0 <= k < |h'| ensures h'[k] in h {
      assert h'[k] in multiset(h');
      assert h'[k] in multiset(h);
    }
  }
}
