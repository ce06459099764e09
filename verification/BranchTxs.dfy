/** Bodies beside headers: the transactions of a branch, and the lookup index over them. */
module BranchTxs {
  import opened ChainStore

  type TxHash = nat

  type Bodies = map<Hash, seq<TxHash>>

  /** TxLookupEntry: the block, its number and the position within it. */
  datatype Entry = Entry(block: Hash, number: nat, index: nat)

  function TxSet(txs: seq<TxHash>): set<TxHash> {
    set t | t in txs
  }

  /** All transactions from genesis to h. */
  ghost function OnBranch(headers: Headers, bodies: Bodies, genesis: Hash, h: Hash): set<TxHash>
    requires Rooted(headers, genesis) && h in headers && bodies.Keys == headers.Keys
    decreases headers[h].number
  {
    assert Linked(headers, genesis, h);
    TxSet(bodies[h]) + if h == genesis then {} else OnBranch(headers, bodies, genesis, headers[h].parent)
  }

  ghost predicate NoRepeat(txs: seq<TxHash>) {
    forall i, j :: 0 <= i < j < |txs| ==> txs[i] != txs[j]
  }

  /** The block repeats no transaction, of its own or of its branch. */
  ghost predicate Fresh(headers: Headers, bodies: Bodies, genesis: Hash, h: Hash)
    requires Rooted(headers, genesis) && h in headers && bodies.Keys == headers.Keys
  {
    assert Linked(headers, genesis, h);
    NoRepeat(bodies[h]) && (h != genesis ==> TxSet(bodies[h]) !! OnBranch(headers, bodies, genesis, headers[h].parent))
  }

  /** A store of blocks in which no transaction repeats on a branch. */
  ghost predicate Store(headers: Headers, bodies: Bodies, genesis: Hash) {
    && Rooted(headers, genesis) && bodies.Keys == headers.Keys
    && forall h {:trigger Fresh(headers, bodies, genesis, h)} :: h in headers ==> Fresh(headers, bodies, genesis, h)
  }

  /** The entry points at the transaction, in the block of that number on the branch of h. */
  ghost predicate PointsAt(headers: Headers, bodies: Bodies, genesis: Hash, h: Hash, t: TxHash, e: Entry)
    requires Rooted(headers, genesis) && h in headers && bodies.Keys == headers.Keys
  {
    && e.number <= headers[h].number && e.block == Path(headers, genesis, h)[e.number] && e.block in bodies
    && e.index < |bodies[e.block]| && bodies[e.block][e.index] == t
  }

  /** The index has entries for exactly the transactions on the branch, each pointing at its block. */
  ghost predicate Indexed(headers: Headers, bodies: Bodies, genesis: Hash, lookup: map<TxHash, Entry>, h: Hash)
    requires Rooted(headers, genesis) && h in headers && bodies.Keys == headers.Keys
  {
    && lookup.Keys == OnBranch(headers, bodies, genesis, h)
    && forall t :: t in lookup ==> PointsAt(headers, bodies, genesis, h, t, lookup[t])
  }

  /** Midway through a reorganisation: right for the branch of h, with leftovers besides. */
  ghost predicate IndexedWith(headers: Headers, bodies: Bodies, genesis: Hash, lookup: map<TxHash, Entry>, h: Hash,
                              leftovers: set<TxHash>)
    requires Rooted(headers, genesis) && h in headers && bodies.Keys == headers.Keys
  {
    && lookup.Keys == OnBranch(headers, bodies, genesis, h) + leftovers
    && forall t :: t in OnBranch(headers, bodies, genesis, h) && t in lookup ==>
         PointsAt(headers, bodies, genesis, h, t, lookup[t])
  }

  // ---------- branches and ancestors ----------

  /** The transactions of an ancestor are on the branch. */
  lemma {:induction false} AncestorOnBranch(headers: Headers, bodies: Bodies, genesis: Hash, h: Hash, n: nat)
    requires Rooted(headers, genesis) && h in headers && bodies.Keys == headers.Keys && n <= headers[h].number
    ensures var a := Path(headers, genesis, h)[n];
            a in headers && OnBranch(headers, bodies, genesis, a) <= OnBranch(headers, bodies, genesis, h)
    decreases headers[h].number
  {
    assert Linked(headers, genesis, h);
    if n < headers[h].number {
      AncestorOnBranch(headers, bodies, genesis, headers[h].parent, n);
    }
  }

  /** Above an ancestor, no block of the branch repeats what is on the ancestor's branch. */
  lemma AboveIsFresh(headers: Headers, bodies: Bodies, genesis: Hash, h: Hash, c: nat, n: nat)
    requires Store(headers, bodies, genesis) && h in headers && c < n <= headers[h].number
    ensures var a := Path(headers, genesis, h)[c]; var b := Path(headers, genesis, h)[n];
            a in headers && b in headers && TxSet(bodies[b]) !! OnBranch(headers, bodies, genesis, a)
  {
    var b := Path(headers, genesis, h)[n];
    PathOfAncestor(headers, genesis, h, n);
    assert Linked(headers, genesis, b) && Fresh(headers, bodies, genesis, b);
    assert Path(headers, genesis, b)[c] == Path(headers, genesis, h)[c];
    assert Path(headers, genesis, headers[b].parent) == Path(headers, genesis, b)[..n];
    AncestorOnBranch(headers, bodies, genesis, headers[b].parent, c);
  }

  /** The entries for an ancestor's transactions, right for the branch, are right for the ancestor's branch. */
  lemma IndexedAncestor(headers: Headers, bodies: Bodies, genesis: Hash, lookup: map<TxHash, Entry>, h: Hash, c: nat)
    requires Store(headers, bodies, genesis) && h in headers && c <= headers[h].number
    requires Indexed(headers, bodies, genesis, lookup, h)
    ensures var a := Path(headers, genesis, h)[c];
            a in headers && IndexedWith(headers, bodies, genesis, lookup, a, OnBranch(headers, bodies, genesis, h))
  {
    var a := Path(headers, genesis, h)[c];
    PathOfAncestor(headers, genesis, h, c);
    AncestorOnBranch(headers, bodies, genesis, h, c);
    forall t | t in OnBranch(headers, bodies, genesis, a) && t in lookup
      ensures PointsAt(headers, bodies, genesis, a, t, lookup[t])
    {
      var e := lookup[t];
      assert PointsAt(headers, bodies, genesis, h, t, e);
      assert t in TxSet(bodies[e.block]);
      if e.number > c {
        AboveIsFresh(headers, bodies, genesis, h, c, e.number);
      }
      assert Path(headers, genesis, a)[e.number] == Path(headers, genesis, h)[e.number];
    }
  }

  // ---------- extending the store ----------

  lemma {:induction false} BranchTxsKept(headers: Headers, bodies: Bodies, more: Headers, bodies': Bodies,
                                         genesis: Hash, h: Hash)
    requires Rooted(headers, genesis) && Rooted(more, genesis) && h in headers
    requires bodies.Keys == headers.Keys && bodies'.Keys == more.Keys
    requires forall k :: k in headers ==> k in more && more[k] == headers[k] && bodies'[k] == bodies[k]
    ensures OnBranch(more, bodies', genesis, h) == OnBranch(headers, bodies, genesis, h)
    decreases headers[h].number
  {
    assert Linked(headers, genesis, h) && more[h] == headers[h];
    if h != genesis {
      BranchTxsKept(headers, bodies, more, bodies', genesis, headers[h].parent);
    }
  }

  lemma StoredBlock(headers: Headers, bodies: Bodies, genesis: Hash, header: Header, txs: seq<TxHash>)
    requires Store(headers, bodies, genesis) && header.hash != NO_HASH
    requires header.hash in headers ==> headers[header.hash] == header && bodies[header.hash] == txs
    requires header.number > 0 && header.parent in headers && headers[header.parent].number == header.number - 1
    requires NoRepeat(txs) && TxSet(txs) !! OnBranch(headers, bodies, genesis, header.parent)
    ensures Store(headers[header.hash := header], bodies[header.hash := txs], genesis)
  {
    var more := headers[header.hash := header];
    var bodies' := bodies[header.hash := txs];
    StoredHeader(headers, genesis, header);
    forall h | h in more ensures Fresh(more, bodies', genesis, h) {
      if h in headers {
        assert Fresh(headers, bodies, genesis, h) && Linked(headers, genesis, h);
        if h != genesis {
          BranchTxsKept(headers, bodies, more, bodies', genesis, headers[h].parent);
        }
      } else {
        BranchTxsKept(headers, bodies, more, bodies', genesis, header.parent);
      }
    }
  }

  lemma IndexKept(headers: Headers, bodies: Bodies, more: Headers, bodies': Bodies, genesis: Hash,
                  lookup: map<TxHash, Entry>, h: Hash)
    requires Rooted(headers, genesis) && Rooted(more, genesis) && h in headers
    requires bodies.Keys == headers.Keys && bodies'.Keys == more.Keys
    requires forall k :: k in headers ==> k in more && more[k] == headers[k] && bodies'[k] == bodies[k]
    requires Indexed(headers, bodies, genesis, lookup, h)
    ensures Indexed(more, bodies', genesis, lookup, h)
  {
    BranchTxsKept(headers, bodies, more, bodies', genesis, h);
    BranchKept(headers, more, genesis, h);
    forall t | t in lookup ensures PointsAt(more, bodies', genesis, h, t, lookup[t]) {
      assert PointsAt(headers, bodies, genesis, h, t, lookup[t]);
    }
  }

  // ---------- writing and deleting entries ----------

  /** WriteTxLookupEntries of one block. */
  method WriteEntries(lookup: map<TxHash, Entry>, header: Header, txs: seq<TxHash>) returns (r: map<TxHash, Entry>)
    requires NoRepeat(txs)
    ensures r.Keys == lookup.Keys + TxSet(txs)
    ensures forall i :: 0 <= i < |txs| ==> r[txs[i]] == Entry(header.hash, header.number, i)
    ensures forall t :: t in lookup && t !in txs ==> r[t] == lookup[t]
  {
    r := lookup;
    for i := 0 to |txs|
      invariant r.Keys == lookup.Keys + TxSet(txs[..i])
      invariant forall j :: 0 <= j < i ==> txs[j] in r && r[txs[j]] == Entry(header.hash, header.number, j)
      invariant forall t :: t in lookup && t !in txs[..i] ==> t in r && r[t] == lookup[t]
    {
      assert txs[..i + 1] == txs[..i] + [txs[i]];
      r := r[txs[i] := Entry(header.hash, header.number, i)];
    }
    assert txs[..|txs|] == txs;
  }

  /** Writing the entries of the next block of a branch. */
  lemma NextIndexed(headers: Headers, bodies: Bodies, genesis: Hash, lookup: map<TxHash, Entry>,
                    lookup': map<TxHash, Entry>, h: Hash, leftovers: set<TxHash>)
    requires Store(headers, bodies, genesis) && h in headers && h != genesis && headers[h].parent in headers
    requires IndexedWith(headers, bodies, genesis, lookup, headers[h].parent, leftovers)
    requires lookup'.Keys == lookup.Keys + TxSet(bodies[h])
    requires forall i :: 0 <= i < |bodies[h]| ==> lookup'[bodies[h][i]] == Entry(h, headers[h].number, i)
    requires forall t :: t in lookup && t !in bodies[h] ==> lookup'[t] == lookup[t]
    ensures IndexedWith(headers, bodies, genesis, lookup', h, leftovers)
  {
    assert Linked(headers, genesis, h) && Fresh(headers, bodies, genesis, h);
    var p := headers[h].parent;
    forall t | t in OnBranch(headers, bodies, genesis, h) && t in lookup'
      ensures PointsAt(headers, bodies, genesis, h, t, lookup'[t])
    {
      if t in bodies[h] {
        var i :| 0 <= i < |bodies[h]| && bodies[h][i] == t;
        assert lookup'[bodies[h][i]] == Entry(h, headers[h].number, i);
      } else {
        assert PointsAt(headers, bodies, genesis, p, t, lookup[t]);
      }
    }
  }

  /** Writing the entries of the head again changes nothing that matters. */
  lemma SameIndexed(headers: Headers, bodies: Bodies, genesis: Hash, lookup: map<TxHash, Entry>,
                    lookup': map<TxHash, Entry>, h: Hash)
    requires Store(headers, bodies, genesis) && h in headers && Indexed(headers, bodies, genesis, lookup, h)
    requires lookup'.Keys == lookup.Keys + TxSet(bodies[h])
    requires forall i :: 0 <= i < |bodies[h]| ==> lookup'[bodies[h][i]] == Entry(h, headers[h].number, i)
    requires forall t :: t in lookup && t !in bodies[h] ==> lookup'[t] == lookup[t]
    ensures Indexed(headers, bodies, genesis, lookup', h)
  {
    forall t | t in lookup' ensures PointsAt(headers, bodies, genesis, h, t, lookup'[t]) {
      if t in bodies[h] {
        var i :| 0 <= i < |bodies[h]| && bodies[h][i] == t;
        assert lookup'[bodies[h][i]] == Entry(h, headers[h].number, i);
      } else {
        assert PointsAt(headers, bodies, genesis, h, t, lookup[t]);
      }
    }
  }
}
