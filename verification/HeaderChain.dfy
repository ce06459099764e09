/** HeaderChain (core/headerchain.go): headers, total difficulties and the canonical number map. */
module HeaderChains {
  import opened Wrappers
  import opened ChainStore

  datatype WriteStatus = NonStatTy | CanonStatTy | SideStatTy

  /** The number map names the ancestor of the head at every height up to it, and nothing above. */
  ghost predicate Canonical(headers: Headers, genesis: Hash, canon: map<nat, Hash>, head: Hash)
    requires Rooted(headers, genesis) && head in headers
  {
    && (forall n: nat :: n in canon <==> n <= headers[head].number)
    && (forall n :: n in canon ==> canon[n] == Path(headers, genesis, head)[n])
  }

  /** Every total difficulty is the sum over its branch, and no stored one exceeds the head's. */
  ghost predicate Weighed(headers: Headers, genesis: Hash, tds: map<Hash, nat>, head: Hash)
    requires Rooted(headers, genesis) && head in headers
  {
    && tds.Keys == headers.Keys
    && (forall h :: h in headers ==> tds[h] == TotalDifficulty(headers, genesis, h))
    && (forall h :: h in headers ==> tds[h] <= tds[head])
  }

  lemma WeighedMore(headers: Headers, genesis: Hash, tds: map<Hash, nat>, head: Hash, header: Header, head': Hash)
    requires Rooted(headers, genesis) && head in headers && Weighed(headers, genesis, tds, head)
    requires header.hash != NO_HASH && (header.hash in headers ==> headers[header.hash] == header)
    requires header.number > 0 && header.parent in headers && headers[header.parent].number == header.number - 1
    requires var td := header.difficulty + tds[header.parent];
             (head' == head && td <= tds[head]) || (head' == header.hash && td >= tds[head])
    ensures var more := headers[header.hash := header];
            Rooted(more, genesis) && head' in more
            && Weighed(more, genesis, tds[header.hash := header.difficulty + tds[header.parent]], head')
  {
    var more := headers[header.hash := header];
    StoredHeader(headers, genesis, header);
    var tds' := tds[header.hash := header.difficulty + tds[header.parent]];
    assert Linked(headers, genesis, genesis);
    forall h | h in more ensures tds'[h] == TotalDifficulty(more, genesis, h) {
      if h == header.hash {
        BranchKept(headers, more, genesis, header.parent);
      } else {
        BranchKept(headers, more, genesis, h);
      }
    }
    if header.hash in headers {
      assert Linked(headers, genesis, header.hash);
    }
  }

  lemma CanonicalKept(headers: Headers, genesis: Hash, canon: map<nat, Hash>, head: Hash, header: Header)
    requires Rooted(headers, genesis) && head in headers && Canonical(headers, genesis, canon, head)
    requires header.hash != NO_HASH && (header.hash in headers ==> headers[header.hash] == header)
    requires header.number > 0 && header.parent in headers && headers[header.parent].number == header.number - 1
    ensures Rooted(headers[header.hash := header], genesis)
    ensures Canonical(headers[header.hash := header], genesis, canon, head)
  {
    StoredHeader(headers, genesis, header);
    BranchKept(headers, headers[header.hash := header], genesis, head);
  }

  /** While the number map is rewritten downwards from `to`: above `at` it follows the new branch, up to `at` the old
      one. */
  ghost predicate Rewriting(headers: Headers, genesis: Hash, canon: map<nat, Hash>, from: Hash, to: Hash, at: nat)
    requires Rooted(headers, genesis) && from in headers && to in headers && at <= headers[to].number
  {
    && (forall n :: n in canon ==> n <= headers[to].number + 1)
    && (forall n :: at < n <= headers[to].number ==> n in canon && canon[n] == Path(headers, genesis, to)[n])
    && (forall n :: 0 <= n <= at ==> (n in canon <==> n <= headers[from].number))
    && (forall n :: 0 <= n <= at && n in canon ==> canon[n] == Path(headers, genesis, from)[n])
  }

  /** When the rewriting meets the old branch, everything below agrees too, and adding the header completes the map. */
  lemma RewritingDone(headers: Headers, genesis: Hash, canon: map<nat, Hash>, from: Hash, header: Header, at: nat)
    requires Rooted(headers, genesis) && from in headers && header.hash in headers && headers[header.hash] == header
    requires header.number > 0 && header.parent in headers && at <= headers[header.parent].number == header.number - 1
    requires Rewriting(headers, genesis, canon, from, header.parent, at)
    requires at in canon && canon[at] == Path(headers, genesis, header.parent)[at]
    ensures Canonical(headers, genesis, canon[header.number := header.hash], header.hash)
  {
    assert Linked(headers, genesis, header.hash);
    var p := Path(headers, genesis, header.parent);
    assert Path(headers, genesis, header.hash) == p + [header.hash];
    PathsMeet(headers, genesis, from, header.parent, at);
    forall n: nat | n <= at ensures n in canon && canon[n] == p[n] {
      assert Path(headers, genesis, from)[n] == Path(headers, genesis, from)[..at + 1][n] == p[..at + 1][n] == p[n];
    }
    forall n: nat | n <= header.number
      ensures n in canon[header.number := header.hash]
      ensures canon[header.number := header.hash][n] == Path(headers, genesis, header.hash)[n]
    {
    }
  }

  lemma GenesisAlone(header: Header)
    requires header.number == 0 && header.hash != NO_HASH
    ensures var headers := map[header.hash := header]; var g := header.hash;
            && Rooted(headers, g) && Weighed(headers, g, map[g := header.difficulty], g)
            && Canonical(headers, g, map[0 := g], g)
  {
    var headers := map[header.hash := header];
    assert Linked(headers, header.hash, header.hash);
  }

  /** A number that is assigned names a header, never the zero hash. */
  lemma CanonNamed(headers: Headers, genesis: Hash, canon: map<nat, Hash>, head: Hash)
    requires Rooted(headers, genesis) && head in headers && Canonical(headers, genesis, canon, head)
    ensures forall n :: n in canon ==> canon[n] != NO_HASH
    ensures forall n: nat :: n in canon <==> n <= headers[head].number
  {
    forall n | n in canon ensures canon[n] != NO_HASH {
      Named(headers, genesis, head, n);
    }
  }

  class HeaderChain {
    const genesis: Hash
    var headers: Headers
    var tds: map<Hash, nat>
    var canon: map<nat, Hash>
    var current: Hash

    ghost predicate Valid()
      reads this
    {
      && Rooted(headers, genesis) && current in headers
      && Weighed(headers, genesis, tds, current)
      && Canonical(headers, genesis, canon, current)
    }

    constructor (header: Header)
      requires header.number == 0 && header.hash != NO_HASH
      ensures Valid() && genesis == header.hash && headers == map[header.hash := header] && current == header.hash
    {
      genesis := header.hash;
      headers := map[header.hash := header];
      tds := map[header.hash := header.difficulty];
      canon := map[0 := header.hash];
      current := header.hash;
      GenesisAlone(header);
    }

    function ReadCanonicalHash(n: int): Hash
      reads this
    {
      if n >= 0 && n as nat in canon then canon[n as nat] else NO_HASH
    }

    /** Deletes the number assignments above n, upwards to the first missing one. */
    method DeleteAbove(n: nat)
      requires Rooted(headers, genesis) && current in headers && Canonical(headers, genesis, canon, current)
      modifies this`canon
      ensures canon == map k | k in old(canon) && k <= n :: old(canon)[k]
    {
      hide Rooted, Canonical;
      CanonNamed(headers, genesis, canon, current);
      var batch: set<nat> := {};
      var i := n + 1;
      while ReadCanonicalHash(i) != NO_HASH
        invariant i >= n + 1 && forall k :: k in batch <==> n < k < i
        invariant forall k :: n < k < i ==> k in canon
        decreases headers[current].number + 1 - i
      {
        batch := batch + {i};
        i := i + 1;
      }
      canon := canon - batch;
    }

    /** WriteHeader: `coin` is the outcome of the tie-break. */
    method WriteHeader(header: Header, coin: bool) returns (status: WriteStatus)
      requires Valid() && header.hash != NO_HASH && (header.hash in headers ==> headers[header.hash] == header)
      modifies this`headers, this`tds, this`canon, this`current
      ensures Valid()
      ensures status == NonStatTy <==> Lookup(old(headers), header.parent, header.number - 1) == None
      ensures status == NonStatTy ==> headers == old(headers) && canon == old(canon) && current == old(current)
      ensures status != NonStatTy ==> headers == old(headers)[header.hash := header]
      ensures status != NonStatTy ==> tds[header.hash] == header.difficulty + old(tds)[header.parent]
      ensures status != NonStatTy ==> (status == CanonStatTy <==>
                tds[header.hash] > old(tds)[old(current)] || (tds[header.hash] == old(tds)[old(current)] && coin))
      ensures status == CanonStatTy ==> current == header.hash
      ensures status == SideStatTy ==> current == old(current) && canon == old(canon)
    {
      hide Rooted, Weighed, Canonical, Rewriting, Path;
      if Lookup(headers, header.parent, header.number - 1) == None {
        return NonStatTy;
      }
      WeighedKeys(headers, genesis, tds, current);
      var localTd := tds[current];
      var externTd := header.difficulty + tds[header.parent];
      CanonicalKept(headers, genesis, canon, current, header);
      if externTd > localTd || (externTd == localTd && coin) {
        WeighedMore(headers, genesis, tds, current, header, header.hash);
        tds := tds[header.hash := externTd];
        headers := headers[header.hash := header];
        Reroute(header);
        status := CanonStatTy;
      } else {
        WeighedMore(headers, genesis, tds, current, header, current);
        tds := tds[header.hash := externTd];
        headers := headers[header.hash := header];
        status := SideStatTy;
      }
    }

    /** Makes a stored header the head: clears the numbers above it, rewrites stale ones below it down to the first
        number that already names its ancestor, and adds its own. */
    method Reroute(header: Header)
      requires Rooted(headers, genesis) && current in headers && Canonical(headers, genesis, canon, current)
      requires header.hash in headers && headers[header.hash] == header && header.number > 0
      modifies this`canon, this`current
      ensures current == header.hash && Canonical(headers, genesis, canon, current)
    {
      hide Rooted, Canonical, Rewriting, Path;
      HasParent(headers, genesis, header.hash);
      DeleteAbove(header.number);
      var headHash := header.parent;
      var headNumber := header.number - 1;
      var headHeader := Lookup(headers, headHash, headNumber);
      RewritingStarts(headers, genesis, old(canon), canon, current, header);
      while ReadCanonicalHash(headNumber) != headHash
        invariant 0 <= headNumber < header.number && headHeader == Lookup(headers, headHash, headNumber)
        invariant headHash == Path(headers, genesis, header.parent)[headNumber]
        invariant Rewriting(headers, genesis, canon, current, header.parent, headNumber)
        decreases headNumber
        modifies this`canon
      {
        RewritingStep(headers, genesis, canon, current, header.parent, headNumber);
        canon := canon[headNumber := headHash];
        headHash := headHeader.value.parent;
        headNumber := headHeader.value.number - 1;
        headHeader := Lookup(headers, headHash, headNumber);
      }
      Named(headers, genesis, header.parent, headNumber);
      RewritingDone(headers, genesis, canon, current, header, headNumber);
      canon := canon[header.number := header.hash];
      current := header.hash;
    }

    /** InsertHeaderChain: writes the headers that are not known yet, in order, stopping at the first without a
        parent. */
    method InsertHeaderChain(chain: seq<Header>, coins: seq<bool>) returns (n: nat)
      requires Valid() && |coins| == |chain|
      requires forall i :: 0 <= i < |chain| ==> chain[i].hash != NO_HASH
      requires forall i :: 0 <= i < |chain| && chain[i].hash in headers ==> headers[chain[i].hash] == chain[i]
      requires forall i, j :: 0 <= i < |chain| && 0 <= j < |chain| && chain[i].hash == chain[j].hash ==>
                 chain[i] == chain[j]
      modifies this`headers, this`tds, this`canon, this`current
      ensures Valid() && n <= |chain|
      ensures forall i :: 0 <= i < n ==> chain[i].hash in headers && headers[chain[i].hash] == chain[i]
      ensures n < |chain| ==> Lookup(headers, chain[n].parent, chain[n].number - 1) == None
    {
      hide Rooted, Weighed, Canonical;
      n := 0;
      while n < |chain|
        invariant Valid() && n <= |chain|
        invariant forall i :: 0 <= i < |chain| && chain[i].hash in headers ==> headers[chain[i].hash] == chain[i]
        invariant forall i :: 0 <= i < n ==> chain[i].hash in headers
      {
        if Lookup(headers, chain[n].hash, chain[n].number) == None {
          var status := WriteHeader(chain[n], coins[n]);
          if status == NonStatTy {
            return;
          }
        }
        n := n + 1;
      }
    }

    /** GetAncestor: the number map shortens the walk as soon as a canonical header is reached. A non-zero answer is the
        plain walk, except in one corner: the zero hash, asked for at a number above the head, passes for canonical
        there. A walk that exists is refused exactly when more headers than the budget allows come before the canonical
        ones. */
    method GetAncestor(hash: Hash, number: nat, ancestor: nat, maxNonCanonical: nat)
      returns (r: Hash, at: nat, left: nat)
      requires Valid()
      ensures (r != NO_HASH && Walk(headers, hash, number, ancestor) != Some((r, at as int))) <==>
                hash == NO_HASH && 2 <= ancestor <= number && number - ancestor <= headers[current].number < number
      ensures hash != NO_HASH && ancestor <= number && Walk(headers, hash, number, ancestor).Some? ==>
                (r == NO_HASH <==> ancestor != 1 && maxNonCanonical < ancestor
                                   && StepsOver(headers, canon, hash, number, maxNonCanonical + 1))
      ensures left <= maxNonCanonical && maxNonCanonical - left <= ancestor
      ensures ancestor == 1 || ancestor > number ==> left == maxNonCanonical
      ensures ancestor != 1 && ancestor <= number ==> StepsOver(headers, canon, hash, number, maxNonCanonical - left)
      ensures ancestor != 1 && r != NO_HASH && maxNonCanonical - left < ancestor ==>
                Walk(headers, hash, number, maxNonCanonical - left)
                == Some((ReadCanonicalHash(number - (maxNonCanonical - left)), number - (maxNonCanonical - left)))
    {
      hide Rooted, Weighed, Canonical;
      CanonNamed(headers, genesis, canon, current);
      left := maxNonCanonical;
      NobodyIsZero(headers, genesis, number, ancestor);
      if ancestor > number {
        return NO_HASH, 0, left;
      }
      if ancestor == 1 {
        var header := Lookup(headers, hash, number);
        if header.Some? {
          WalkOne(headers, hash, number, 0);
          ParentNamed(headers, genesis, hash);
          return header.value.parent, number - 1, left;
        }
        return NO_HASH, 0, left;
      }
      var h: Hash, n: int, steps: nat := hash, number, ancestor;
      while steps != 0
        invariant steps <= n && n - steps == number - ancestor && maxNonCanonical - left == ancestor - steps
        invariant left <= maxNonCanonical
        invariant Walk(headers, hash, number, ancestor - steps) == Some((h, n))
        invariant StepsOver(headers, canon, hash, number, ancestor - steps)
        invariant steps < ancestor ==> hash != NO_HASH && h != NO_HASH
        invariant steps == ancestor ==> h == hash
        decreases steps
      {
        if ReadCanonicalHash(n) == h {
          if h != NO_HASH {
            JumpIsWalk(headers, genesis, canon, current, h, n, steps);
            WalkSplits(headers, hash, number, ancestor - steps, steps);
          }
          return ReadCanonicalHash(n - steps), n - steps, left;
        }
        if left == 0 {
          return NO_HASH, 0, left;
        }
        WalkOne(headers, hash, number, ancestor - steps);
        WalkSplits(headers, hash, number, ancestor - steps, steps);
        left := left - 1;
        steps := steps - 1;
        var header := Lookup(headers, h, n);
        if header.None? {
          return NO_HASH, 0, left;
        }
        ParentNamed(headers, genesis, h);
        h := header.value.parent;
        n := n - 1;
      }
      r, at := h, n;
    }
  }

  /** The corner is real: with nothing but a genesis, two steps back from the zero hash at number 2 is genesis. */
  method ZeroHashPasses() returns (r: Hash, at: nat)
    ensures r != NO_HASH && Walk(map[7 := Header(7, NO_HASH, 0, 1)], NO_HASH, 2, 2) != Some((r, at as int))
  {
    var chain := new HeaderChain(Header(7, NO_HASH, 0, 1));
    var left;
    r, at, left := chain.GetAncestor(NO_HASH, 2, 2, 0);
  }

  // ---------- lemmas of WriteHeader ----------

  lemma WeighedKeys(headers: Headers, genesis: Hash, tds: map<Hash, nat>, head: Hash)
    requires Rooted(headers, genesis) && head in headers && Weighed(headers, genesis, tds, head)
    ensures tds.Keys == headers.Keys
  {
  }

  lemma HasParent(headers: Headers, genesis: Hash, h: Hash)
    requires Rooted(headers, genesis) && h in headers && headers[h].number > 0
    ensures headers[h].parent in headers && headers[headers[h].parent].number == headers[h].number - 1
    ensures Path(headers, genesis, headers[h].parent)[headers[h].number - 1] == headers[h].parent
  {
    assert Linked(headers, genesis, h);
  }

  lemma RewritingStarts(headers: Headers, genesis: Hash, canon: map<nat, Hash>, canon': map<nat, Hash>, from: Hash,
                        header: Header)
    requires Rooted(headers, genesis) && from in headers && Canonical(headers, genesis, canon, from)
    requires header.number > 0 && header.parent in headers && headers[header.parent].number == header.number - 1
    requires canon' == map k | k in canon && k <= header.number :: canon[k]
    ensures Rewriting(headers, genesis, canon', from, header.parent, header.number - 1)
  {
  }

  /** At height 0 both branches are at genesis, so a mismatch is above it and there is a parent to go on with. */
  lemma RewritingStep(headers: Headers, genesis: Hash, canon: map<nat, Hash>, from: Hash, to: Hash, at: nat)
    requires Rooted(headers, genesis) && from in headers && to in headers && at <= headers[to].number
    requires Rewriting(headers, genesis, canon, from, to, at)
    requires (if at in canon then canon[at] else NO_HASH) != Path(headers, genesis, to)[at]
    ensures at > 0
    ensures var h := Path(headers, genesis, to)[at];
            && h in headers && headers[h].number == at && headers[h].parent == Path(headers, genesis, to)[at - 1]
            && Rewriting(headers, genesis, canon[at := h], from, to, at - 1)
  {
    var h := Path(headers, genesis, to)[at];
    assert at > 0;
    StepBack(headers, genesis, to, at);
    hide Path, Rooted;
  }

  lemma StepBack(headers: Headers, genesis: Hash, to: Hash, at: nat)
    requires Rooted(headers, genesis) && to in headers && 0 < at <= headers[to].number
    ensures var h := Path(headers, genesis, to)[at];
            h in headers && headers[h].number == at && headers[h].parent == Path(headers, genesis, to)[at - 1]
  {
    PathOfAncestor(headers, genesis, to, at);
    var h := Path(headers, genesis, to)[at];
    assert Linked(headers, genesis, h);
    assert Path(headers, genesis, h)[at - 1] == headers[h].parent;
  }

  lemma Named(headers: Headers, genesis: Hash, to: Hash, at: nat)
    requires Rooted(headers, genesis) && to in headers && at <= headers[to].number
    ensures Path(headers, genesis, to)[at] != NO_HASH
  {
    PathOfAncestor(headers, genesis, to, at);
    assert Linked(headers, genesis, Path(headers, genesis, to)[at]);
  }

  // ---------- lemmas of GetAncestor ----------

  /** The first k headers on the way back from hash are not the canonical ones of their numbers. */
  ghost predicate StepsOver(headers: Headers, canon: map<nat, Hash>, hash: Hash, number: nat, k: nat)
    requires k <= number
  {
    forall i {:trigger Walk(headers, hash, number, i)} :: 0 <= i < k ==>
      Walk(headers, hash, number, i).Some? &&
      Walk(headers, hash, number, i).value.0 != if number - i in canon then canon[number - i] else NO_HASH
  }

  lemma NobodyIsZero(headers: Headers, genesis: Hash, number: nat, steps: nat)
    requires Rooted(headers, genesis)
    ensures NO_HASH !in headers && (steps > 0 ==> Walk(headers, NO_HASH, number, steps) == None)
  {
    assert NO_HASH in headers ==> Linked(headers, genesis, NO_HASH);
  }

  lemma ParentNamed(headers: Headers, genesis: Hash, h: Hash)
    requires Rooted(headers, genesis) && h in headers
    ensures h != NO_HASH && (headers[h].number > 0 ==> headers[h].parent != NO_HASH)
  {
    assert Linked(headers, genesis, h);
    if headers[h].number > 0 {
      assert Linked(headers, genesis, headers[h].parent);
    }
  }

  lemma {:induction false} WalkOne(headers: Headers, hash: Hash, number: int, steps: nat)
    requires Walk(headers, hash, number, steps).Some?
    ensures var w := Walk(headers, hash, number, steps).value;
            Walk(headers, hash, number, steps + 1) ==
            match Lookup(headers, w.0, w.1) case None => None case Some(header) => Some((header.parent, w.1 - 1))
    decreases steps
  {
    if steps > 0 {
      WalkOne(headers, Lookup(headers, hash, number).value.parent, number - 1, steps - 1);
    }
  }

  lemma {:induction false} WalkSplits(headers: Headers, hash: Hash, number: int, a: nat, b: nat)
    requires Walk(headers, hash, number, a).Some?
    ensures var w := Walk(headers, hash, number, a).value;
            Walk(headers, hash, number, a + b) == Walk(headers, w.0, w.1, b)
    decreases a
  {
    if a > 0 {
      WalkSplits(headers, Lookup(headers, hash, number).value.parent, number - 1, a - 1, b);
    }
  }

  /** From a canonical header, reading the number map is walking back. */
  lemma JumpIsWalk(headers: Headers, genesis: Hash, canon: map<nat, Hash>, head: Hash, h: Hash, n: nat, steps: nat)
    requires Rooted(headers, genesis) && head in headers && Canonical(headers, genesis, canon, head)
    requires n in canon && canon[n] == h && steps <= n
    ensures n - steps in canon && Walk(headers, h, n, steps) == Some((canon[n - steps], (n - steps) as int))
  {
    PathOfAncestor(headers, genesis, head, n);
    WalkIsPath(headers, genesis, h, steps);
    assert Path(headers, genesis, h)[n - steps] == Path(headers, genesis, head)[n - steps];
  }
}
