/** What a reset of the transaction pool puts back after a reorganisation (core/tx_pool.go), and the difference of
    transaction lists that it takes (core/types/transaction.go). */
module Reinjections {
  import opened Wrappers
  import opened ChainStore
  import opened BranchTxs
  import opened BlockChains

  /** Heads further apart than this are not compared. */
  const MAX_DEPTH: nat := 64

  /** The entries of a that are not in b, in order. */
  ghost function Without(a: seq<TxHash>, b: set<TxHash>): seq<TxHash> {
    if a == [] then [] else
      Without(a[..|a| - 1], b) + if a[|a| - 1] in b then [] else [a[|a| - 1]]
  }

  lemma {:induction false} WithoutMembers(a: seq<TxHash>, b: set<TxHash>, t: TxHash)
    ensures t in Without(a, b) <==> t in a && t !in b
    decreases |a|
  {
    if a != [] {
      WithoutMembers(a[..|a| - 1], b, t);
      assert a == a[..|a| - 1] + [a[|a| - 1]];
    }
  }

  /** TxDifference */
  method TxDifference(a: seq<TxHash>, b: seq<TxHash>) returns (keep: seq<TxHash>)
    ensures keep == Without(a, TxSet(b))
    ensures forall t :: t in keep <==> t in a && t !in b
  {
    keep := [];
    var remove := TxSet(b);
    for i := 0 to |a|
      invariant keep == Without(a[..i], remove)
    {
      assert a[..i + 1][..i] == a[..i];
      if a[i] !in remove {
        keep := keep + [a[i]];
      }
    }
    assert a[..|a|] == a;
    forall t ensures t in keep <==> t in a && t !in b {
      WithoutMembers(a, remove, t);
    }
  }

  function Depth(a: nat, b: nat): nat {
    if a > b then a - b else b - a
  }

  /** The list holds exactly the transactions of the blocks. */
  ghost predicate Collects(bodies: Bodies, s: seq<Hash>, txs: seq<TxHash>) {
    && (forall i :: 0 <= i < |s| ==> s[i] in bodies)
    && forall t :: t in txs <==> t in TxsOf(bodies, s)
  }

  lemma CollectsMore(bodies: Bodies, s: seq<Hash>, txs: seq<TxHash>, h: Hash)
    requires Collects(bodies, s, txs) && h in bodies
    ensures Collects(bodies, [h] + s, txs + bodies[h])
  {
    var r := [h] + s;
    forall t ensures t in TxsOf(bodies, r) <==> t in TxsOf(bodies, s) || t in bodies[h] {
      if t in TxsOf(bodies, r) {
        var i :| 0 <= i < |r| && t in bodies[r[i]];
        assert i > 0 ==> r[i] == s[i - 1];
      }
      if t in TxsOf(bodies, s) {
        var i :| 0 <= i < |s| && t in bodies[s[i]];
        assert r[i + 1] == s[i];
      }
      if t in bodies[h] {
        assert r[0] == h;
      }
    }
  }

  /** Above where the branches part, and only there, they differ in their transactions. */
  lemma BranchDifference(headers: Headers, bodies: Bodies, genesis: Hash, common: Hash, e: Change, from: Hash, to: Hash)
    requires Store(headers, bodies, genesis) && common in headers && from in headers && to in headers
    requires Segment(headers, common, e.reverted, from) && Segment(headers, common, e.applied, to)
    requires Apart(e.reverted, e.applied)
    requires Above(headers, headers[common].number, e.reverted) && Above(headers, headers[common].number, e.applied)
    ensures forall i :: 0 <= i < |e.reverted| ==> e.reverted[i] in bodies
    ensures forall i :: 0 <= i < |e.applied| ==> e.applied[i] in bodies
    ensures OnBranch(headers, bodies, genesis, from) - OnBranch(headers, bodies, genesis, to)
            == TxsOf(bodies, e.reverted) - TxsOf(bodies, e.applied)
  {
    hide Store, Segment, Above, Apart, TxsOf, OnBranch, Path;
    StoreIsRooted(headers, bodies, genesis);
    ChangeHolds(headers, genesis, common, e, from, to);
    BranchOfSegment(headers, bodies, genesis, common, e.reverted, from);
    BranchOfSegment(headers, bodies, genesis, common, e.applied, to);
  }

  lemma NothingCollected(bodies: Bodies)
    ensures Collects(bodies, [], [])
  {
  }

  /** The first part of reset: unless the new head follows the old one or is too far from it, walks both back to where
      they meet and keeps what only the old branch had. Fails, and with it the whole reset, when an ancestor is
      missing. */
  method Reinject(headers: Headers, bodies: Bodies, ghost genesis: Hash, oldHead: Option<Header>, newHead: Header)
    returns (r: Result<seq<TxHash>>)
    requires bodies.Keys == headers.Keys && forall h :: h in headers ==> headers[h].hash == h
    requires newHead.hash in headers && headers[newHead.hash] == newHead
    requires oldHead.Some? ==> oldHead.value.hash in headers && headers[oldHead.value.hash] == oldHead.value
    ensures Store(headers, bodies, genesis) ==> r.Ok?
    ensures oldHead.None? || Depth(oldHead.value.number, newHead.number) > MAX_DEPTH ==> r == Ok([])
    ensures Store(headers, bodies, genesis) && oldHead.Some? && Depth(oldHead.value.number, newHead.number) <= MAX_DEPTH
            && (newHead.hash == genesis ==> newHead.parent !in headers) ==>
              forall t :: t in r.value <==>
                && t in OnBranch(headers, bodies, genesis, oldHead.value.hash)
                && t !in OnBranch(headers, bodies, genesis, newHead.hash)
  {
    hide Rooted, Segment, Above, Apart, Collects, OnBranch, Store;
    if oldHead.None? {
      return Ok([]);
    }
    if oldHead.value.hash == newHead.parent {
      // a head that follows another has all its transactions
      FollowerHasAll(headers, bodies, genesis, newHead);
      return Ok([]);
    }
    if Depth(oldHead.value.number, newHead.number) > MAX_DEPTH {
      return Ok([]);
    }
    var rem, add := oldHead.value, newHead;
    var discarded: seq<TxHash>, included: seq<TxHash> := [], [];
    ghost var reverted: seq<Hash>, applied: seq<Hash> := [], [];
    SegmentsEmpty(headers, rem, add);
    NothingCollected(bodies);
    while rem.number > add.number
      invariant rem.hash in headers && headers[rem.hash] == rem
      invariant rem.number >= add.number || reverted == []
      invariant Segment(headers, rem.hash, reverted, oldHead.value.hash) && Above(headers, rem.number, reverted)
      invariant Collects(bodies, reverted, discarded)
      decreases rem.number
    {
      SegmentExtended(headers, genesis, rem, reverted, oldHead.value.hash);
      CollectsMore(bodies, reverted, discarded, rem.hash);
      StoredRooted(headers, bodies, genesis);
      reverted := [rem.hash] + reverted;
      discarded := discarded + bodies[rem.hash];
      var parent := Lookup(headers, rem.parent, rem.number - 1);
      if parent.None? {
        return Err;
      }
      rem := parent.value;
    }
    while add.number > rem.number
      invariant add.hash in headers && headers[add.hash] == add && add.number >= rem.number
      invariant reverted == [] || applied == []
      invariant Segment(headers, add.hash, applied, newHead.hash) && Above(headers, add.number, applied)
      invariant Collects(bodies, applied, included)
      decreases add.number
    {
      SegmentExtended(headers, genesis, add, applied, newHead.hash);
      CollectsMore(bodies, applied, included, add.hash);
      StoredRooted(headers, bodies, genesis);
      applied := [add.hash] + applied;
      included := included + bodies[add.hash];
      var parent := Lookup(headers, add.parent, add.number - 1);
      if parent.None? {
        return Err;
      }
      add := parent.value;
    }
    NothingShared(reverted, applied);
    while rem.hash != add.hash
      invariant rem.number == add.number
      invariant rem.hash in headers && headers[rem.hash] == rem && add.hash in headers && headers[add.hash] == add
      invariant Segment(headers, rem.hash, reverted, oldHead.value.hash) && Above(headers, rem.number, reverted)
      invariant Segment(headers, add.hash, applied, newHead.hash) && Above(headers, add.number, applied)
      invariant Apart(reverted, applied) && Collects(bodies, reverted, discarded) && Collects(bodies, applied, included)
      decreases rem.number
    {
      SegmentExtended(headers, genesis, rem, reverted, oldHead.value.hash);
      SegmentExtended(headers, genesis, add, applied, newHead.hash);
      ApartExtended(headers, genesis, reverted, applied, rem, add);
      CollectsMore(bodies, reverted, discarded, rem.hash);
      CollectsMore(bodies, applied, included, add.hash);
      StoredRooted(headers, bodies, genesis);
      reverted, applied := [rem.hash] + reverted, [add.hash] + applied;
      discarded := discarded + bodies[rem.hash];
      var parent := Lookup(headers, rem.parent, rem.number - 1);
      if parent.None? {
        return Err;
      }
      rem := parent.value;
      included := included + bodies[add.hash];
      parent := Lookup(headers, add.parent, add.number - 1);
      if parent.None? {
        return Err;
      }
      add := parent.value;
    }
    var keep := TxDifference(discarded, included);
    if Store(headers, bodies, genesis) {
      BranchDifference(headers, bodies, genesis, rem.hash, Change(reverted, applied), oldHead.value.hash, newHead.hash);
      Differs(headers, bodies, genesis, reverted, discarded, applied, included, oldHead.value.hash, newHead.hash, keep);
    }
    r := Ok(keep);
  }

  lemma StoredRooted(headers: Headers, bodies: Bodies, genesis: Hash)
    ensures Store(headers, bodies, genesis) ==> Rooted(headers, genesis)
  {
  }

  lemma Differs(headers: Headers, bodies: Bodies, genesis: Hash, reverted: seq<Hash>, discarded: seq<TxHash>,
                applied: seq<Hash>, included: seq<TxHash>, from: Hash, to: Hash, keep: seq<TxHash>)
    requires Store(headers, bodies, genesis) && from in headers && to in headers
    requires Collects(bodies, reverted, discarded) && Collects(bodies, applied, included)
    requires OnBranch(headers, bodies, genesis, from) - OnBranch(headers, bodies, genesis, to)
             == TxsOf(bodies, reverted) - TxsOf(bodies, applied)
    requires forall t :: t in keep <==> t in discarded && t !in included
    ensures forall t :: t in keep <==>
              t in OnBranch(headers, bodies, genesis, from) && t !in OnBranch(headers, bodies, genesis, to)
  {
    hide TxsOf, OnBranch;
    forall t
      ensures t in keep <==> t in OnBranch(headers, bodies, genesis, from) - OnBranch(headers, bodies, genesis, to)
    {
    }
  }

  lemma FollowerHasAll(headers: Headers, bodies: Bodies, genesis: Hash, newHead: Header)
    requires newHead.hash in headers && headers[newHead.hash] == newHead && newHead.parent in headers
    ensures Store(headers, bodies, genesis) && newHead.hash != genesis ==>
              OnBranch(headers, bodies, genesis, newHead.parent) <= OnBranch(headers, bodies, genesis, newHead.hash)
  {
    assert Store(headers, bodies, genesis) ==> Linked(headers, genesis, newHead.hash);
  }
}
