/** The canonical chain (core/blockchain.go): WriteBlockWithState, insert and reorg, with the number map, the
    transaction lookup index and the stream of chain change events. */
module BlockChains {
  import opened Wrappers
  import opened ChainStore
  import opened BranchTxs
  import opened HeaderChains

  datatype Block = Block(header: Header, txs: seq<TxHash>)

  /** ChainChangeEvent: what a subscriber has to undo and then to apply. */
  datatype Change = Change(reverted: seq<Hash>, applied: seq<Hash>)

  /** One write of a run, with the outcomes of shouldPreserve and of the tie-break. */
  datatype Write =
    | WithState(block: Block, preserveCurrent: bool, preserveBlock: bool, coin: bool)
    | WithoutState(block: Block)

  /** What is stored, and the head, at one moment. */
  datatype Moment = Moment(headers: Headers, bodies: Bodies, tds: map<Hash, nat>, current: Hash) {
    /** A block without a stored parent is left out, any other is stored with its total difficulty. It becomes the head
        only if it is written with state and is heavier, or as heavy and lower, or as heavy and as low and luckier. */
    ghost predicate LeadsTo(w: Write, after: Moment) {
      var header := w.block.header;
      if Lookup(headers, header.parent, header.number - 1) == None then after == this
      else
        && header.parent in tds && current in tds && current in headers
        && after.headers == headers[header.hash := header]
        && after.bodies == bodies[header.hash := w.block.txs]
        && after.tds == tds[header.hash := header.difficulty + tds[header.parent]]
        && (after.current == current || (w.WithState? && after.current == header.hash))
        && (w.WithState? && after.tds[header.hash] > tds[current] ==> after.current == header.hash)
        && (after.tds[header.hash] < tds[current] ==> after.current == current)
        && (w.WithState? && after.tds[header.hash] == tds[current] ==>
              && (header.number < headers[current].number ==> after.current == header.hash)
              && (header.number > headers[current].number ==> after.current == current)
              && (header.number == headers[current].number ==>
                    after.current ==
                    if !w.preserveCurrent && (w.preserveBlock || w.coin) then header.hash else current))
    }
  }

  // ---------- replaying change events ----------

  /** A subscriber drops the reverted suffix, which must be there, and appends the applied blocks. */
  function Replay(path: seq<Hash>, e: Change): Option<seq<Hash>> {
    if |e.reverted| <= |path| && path[|path| - |e.reverted|..] == e.reverted
    then Some(path[..|path| - |e.reverted|] + e.applied) else None
  }

  function ReplayAll(path: seq<Hash>, events: seq<Change>): Option<seq<Hash>> {
    if events == [] then Some(path) else
    match ReplayAll(path, events[..|events| - 1])
    case None => None
    case Some(p) => Replay(p, events[|events| - 1])
  }

  lemma ReplayOneMore(path: seq<Hash>, events: seq<Change>, e: Change, before: seq<Hash>)
    requires ReplayAll(path, events) == Some(before)
    ensures ReplayAll(path, events + [e]) == Replay(before, e)
  {
    assert (events + [e])[..|events|] == events;
  }

  // ---------- segments of branches ----------

  /** s lists, in ascending order, the blocks from just above `from` up to `to`, each the parent of the next. */
  ghost predicate Segment(headers: Headers, from: Hash, s: seq<Hash>, to: Hash) {
    && (s == [] ==> from == to)
    && (s != [] ==> s[|s| - 1] == to && s[0] in headers && headers[s[0]].parent == from)
    && (forall i :: 0 <= i < |s| ==> s[i] in headers)
    && (forall i :: 0 <= i < |s| - 1 ==>
          headers[s[i + 1]].parent == s[i] && headers[s[i + 1]].number == headers[s[i]].number + 1)
  }

  /** On a rooted store a segment is what separates two branches. */
  lemma {:induction false} SegmentIsSuffix(headers: Headers, genesis: Hash, from: Hash, s: seq<Hash>, to: Hash)
    requires Rooted(headers, genesis) && from in headers && to in headers && Segment(headers, from, s, to)
    requires s != [] ==> headers[s[0]].number == headers[from].number + 1
    ensures Path(headers, genesis, to) == Path(headers, genesis, from) + s
    decreases |s|
  {
    if s != [] {
      var k := |s| - 1;
      var prior := s[..k];
      assert Linked(headers, genesis, to);
      var mid := headers[to].parent;
      if k == 0 {
        assert s == [to];
      } else {
        assert headers[s[k - 1 + 1]].parent == s[k - 1];
        assert forall i :: 0 <= i < k ==> prior[i] == s[i];
        SegmentIsSuffix(headers, genesis, from, prior, mid);
        assert s == prior + [to];
      }
    }
  }

  /** The transactions of the segment's blocks. */
  ghost function TxsOf(bodies: Bodies, s: seq<Hash>): set<TxHash>
    requires forall i :: 0 <= i < |s| ==> s[i] in bodies
  {
    set i, t | 0 <= i < |s| && t in bodies[s[i]] :: t
  }

  lemma {:induction false} BranchOfSegment(headers: Headers, bodies: Bodies, genesis: Hash, from: Hash, s: seq<Hash>,
                                           to: Hash)
    requires Store(headers, bodies, genesis) && from in headers && to in headers
    requires Path(headers, genesis, to) == Path(headers, genesis, from) + s
    requires forall i :: 0 <= i < |s| ==> s[i] in headers
    ensures OnBranch(headers, bodies, genesis, to) == OnBranch(headers, bodies, genesis, from) + TxsOf(bodies, s)
    ensures TxsOf(bodies, s) !! OnBranch(headers, bodies, genesis, from)
    decreases |s|
  {
    var p := Path(headers, genesis, to);
    if s == [] {
      assert p == Path(headers, genesis, from);
    } else {
      var k := |s| - 1;
      var prior := s[..k];
      assert Linked(headers, genesis, to) && Fresh(headers, bodies, genesis, to);
      assert s[k] == to;
      assert Path(headers, genesis, headers[to].parent) == p[..|p| - 1] == Path(headers, genesis, from) + prior;
      BranchOfSegment(headers, bodies, genesis, from, prior, headers[to].parent);
      TxsOfLast(bodies, s);
    }
  }

  lemma TxsOfLast(bodies: Bodies, s: seq<Hash>)
    requires s != [] && forall i :: 0 <= i < |s| ==> s[i] in bodies
    ensures TxsOf(bodies, s) == TxsOf(bodies, s[..|s| - 1]) + TxSet(bodies[s[|s| - 1]])
  {
    var k := |s| - 1;
    forall t | t in TxsOf(bodies, s) ensures t in TxsOf(bodies, s[..k]) + TxSet(bodies[s[k]]) {
      var i :| 0 <= i < |s| && t in bodies[s[i]];
      if i < k {
        assert s[..k][i] == s[i];
      }
    }
    forall t | t in TxsOf(bodies, s[..k]) ensures t in TxsOf(bodies, s) {
      var i :| 0 <= i < k && t in bodies[s[..k][i]];
      assert s[i] == s[..k][i];
    }
    forall t | t in bodies[s[k]] ensures t in TxsOf(bodies, s) {
    }
  }

  /** Walks two blocks back to where their branches meet, collecting the blocks walked over in ascending order. Fails
      only when an ancestor is missing. */
  method CommonAncestor(headers: Headers, ghost genesis: Hash, old_: Header, new_: Header)
    returns (r: Result<(Hash, Change)>)
    requires forall h :: h in headers ==> headers[h].hash == h
    requires old_.hash in headers && headers[old_.hash] == old_ && new_.hash in headers && headers[new_.hash] == new_
    ensures Rooted(headers, genesis) ==> r.Ok?
    ensures r.Ok? ==>
              var (common, e) := r.value;
              && common in headers
              && Segment(headers, common, e.reverted, old_.hash) && Segment(headers, common, e.applied, new_.hash)
              && Above(headers, headers[common].number, e.reverted) && Above(headers, headers[common].number, e.applied)
              && Apart(e.reverted, e.applied)
  {
    hide Rooted, Segment, Above, Apart;
    var a, b := old_, new_;
    var reverted: seq<Hash>, applied: seq<Hash> := [], [];
    SegmentsEmpty(headers, a, b);
    if a.number > b.number {
      while a.number != b.number
        invariant a.number >= b.number && a.hash in headers && headers[a.hash] == a
        invariant Segment(headers, a.hash, reverted, old_.hash) && Above(headers, a.number, reverted)
        decreases a.number
      {
        SegmentExtended(headers, genesis, a, reverted, old_.hash);
        reverted := [a.hash] + reverted;
        var parent := Lookup(headers, a.parent, a.number - 1);
        if parent.None? {
          return Err;
        }
        a := parent.value;
      }
    } else {
      while b.number != a.number
        invariant b.number >= a.number && b.hash in headers && headers[b.hash] == b
        invariant Segment(headers, b.hash, applied, new_.hash) && Above(headers, b.number, applied)
        decreases b.number
      {
        SegmentExtended(headers, genesis, b, applied, new_.hash);
        applied := [b.hash] + applied;
        var parent := Lookup(headers, b.parent, b.number - 1);
        if parent.None? {
          return Err;
        }
        b := parent.value;
      }
    }
    NothingShared(reverted, applied);
    while a.hash != b.hash
      invariant a.number == b.number && a.hash in headers && headers[a.hash] == a && b.hash in headers
      invariant headers[b.hash] == b
      invariant Segment(headers, a.hash, reverted, old_.hash) && Above(headers, a.number, reverted)
      invariant Segment(headers, b.hash, applied, new_.hash) && Above(headers, b.number, applied)
      invariant Apart(reverted, applied)
      decreases a.number
    {
      SegmentExtended(headers, genesis, a, reverted, old_.hash);
      SegmentExtended(headers, genesis, b, applied, new_.hash);
      ApartExtended(headers, genesis, reverted, applied, a, b);
      reverted := [a.hash] + reverted;
      applied := [b.hash] + applied;
      var parentA, parentB := Lookup(headers, a.parent, a.number - 1), Lookup(headers, b.parent, b.number - 1);
      if parentA.None? || parentB.None? {
        return Err;
      }
      a, b := parentA.value, parentB.value;
    }
    r := Ok((a.hash, Change(reverted, applied)));
  }

  /** Every listed block is above the number, the first directly. */
  ghost predicate Above(headers: Headers, n: int, s: seq<Hash>) {
    && (forall i :: 0 <= i < |s| ==> s[i] in headers && headers[s[i]].number > n)
    && (s != [] ==> headers[s[0]].number == n + 1)
  }

  ghost predicate Apart(s: seq<Hash>, t: seq<Hash>) {
    forall i, j :: 0 <= i < |s| && 0 <= j < |t| ==> s[i] != t[j]
  }

  lemma SegmentsEmpty(headers: Headers, a: Header, b: Header)
    ensures Segment(headers, a.hash, [], a.hash) && Above(headers, a.number, [])
    ensures Segment(headers, b.hash, [], b.hash) && Above(headers, b.number, [])
  {
  }

  lemma NothingShared(s: seq<Hash>, t: seq<Hash>)
    requires s == [] || t == []
    ensures Apart(s, t)
  {
  }

  /** One block further back: the list grows at its front, and in a rooted store the parent is there. */
  lemma SegmentExtended(headers: Headers, genesis: Hash, header: Header, s: seq<Hash>, to: Hash)
    requires header.hash in headers && headers[header.hash] == header
    requires Segment(headers, header.hash, s, to) && Above(headers, header.number, s)
    ensures Segment(headers, header.parent, [header.hash] + s, to)
    ensures Above(headers, header.number - 1, [header.hash] + s)
    ensures Rooted(headers, genesis) && header.number > 0 ==> Lookup(headers, header.parent, header.number - 1).Some?
  {
    var r := [header.hash] + s;
    assert forall i :: 0 < i < |r| ==> r[i] == s[i - 1];
    forall i | 0 <= i < |r| - 1
      ensures headers[r[i + 1]].parent == r[i] && headers[r[i + 1]].number == headers[r[i]].number + 1
    {
      if i > 0 {
        assert r[i] == s[i - 1] && r[i + 1] == s[i];
      }
    }
    if Rooted(headers, genesis) {
      assert Linked(headers, genesis, header.hash);
    }
  }

  lemma ApartExtended(headers: Headers, genesis: Hash, s: seq<Hash>, t: seq<Hash>, a: Header, b: Header)
    requires a.hash in headers && headers[a.hash] == a && b.hash in headers && headers[b.hash] == b
    requires a.number == b.number && a.hash != b.hash
    requires Above(headers, a.number, s) && Above(headers, b.number, t) && Apart(s, t)
    ensures Apart([a.hash] + s, [b.hash] + t)
    ensures Rooted(headers, genesis) ==> a.number > 0
  {
    if Rooted(headers, genesis) {
      assert Linked(headers, genesis, a.hash) && Linked(headers, genesis, b.hash);
    }
  }

  /** The event leads from the branch of one block to that of another: below the cut they agree, above it the event
      lists exactly their blocks, in ascending order and without a common one. */
  ghost predicate IsChange(headers: Headers, genesis: Hash, from: Hash, to: Hash, e: Change)
    requires Rooted(headers, genesis) && from in headers && to in headers
  {
    var p, q := Path(headers, genesis, from), Path(headers, genesis, to);
    var cut := |p| - |e.reverted|;
    && 0 < cut <= |q| && p[..cut] == q[..cut] && p[cut..] == e.reverted && q[cut..] == e.applied
    && Apart(e.reverted, e.applied)
  }

  /** The cut is at the highest common block: a block is on both branches exactly when it is below the cut. */
  lemma CutIsHighest(headers: Headers, genesis: Hash, from: Hash, to: Hash, e: Change, x: Hash)
    requires Rooted(headers, genesis) && from in headers && to in headers && IsChange(headers, genesis, from, to, e)
    ensures var p, q := Path(headers, genesis, from), Path(headers, genesis, to);
            x in p && x in q <==> x in p[..|p| - |e.reverted|]
  {
    var p, q := Path(headers, genesis, from), Path(headers, genesis, to);
    var cut := |p| - |e.reverted|;
    assert p == p[..cut] + p[cut..] && q == q[..cut] + q[cut..];
    SharedOnlyBelow(p[..cut], e.reverted, e.applied, x);
  }

  lemma SharedOnlyBelow(base: seq<Hash>, s: seq<Hash>, t: seq<Hash>, x: Hash)
    requires Apart(s, t)
    ensures x in base + s && x in base + t <==> x in base
  {
    assert x in base + s <==> x in base || x in s;
    assert x in base + t <==> x in base || x in t;
  }

  /** A subscriber that has the old branch has the new one after replaying the event. */
  lemma ChangeReplays(headers: Headers, genesis: Hash, from: Hash, to: Hash, e: Change)
    requires Rooted(headers, genesis) && from in headers && to in headers && IsChange(headers, genesis, from, to, e)
    ensures Replay(Path(headers, genesis, from), e) == Some(Path(headers, genesis, to))
  {
    var p, q := Path(headers, genesis, from), Path(headers, genesis, to);
    var cut := |p| - |e.reverted|;
    assert q == q[..cut] + q[cut..];
  }

  /** Up to the head, the number map names the head's ancestors. */
  ghost predicate NamesAncestors(headers: Headers, genesis: Hash, canon: map<nat, Hash>, head: Hash)
    requires Rooted(headers, genesis) && head in headers
  {
    forall n: nat :: n <= headers[head].number ==> n in canon && canon[n] == Path(headers, genesis, head)[n]
  }

  ghost predicate Weighs(headers: Headers, genesis: Hash, tds: map<Hash, nat>)
    requires Rooted(headers, genesis)
  {
    tds.Keys == headers.Keys && forall h :: h in headers ==> tds[h] == TotalDifficulty(headers, genesis, h)
  }

  class BlockChain {
    const genesis: Hash
    var headers: Headers
    var bodies: Bodies
    var tds: map<Hash, nat>
    var canon: map<nat, Hash>
    var lookup: map<TxHash, Entry>
    var current: Hash
    /** The change events sent so far. */
    var events: seq<Change>

    ghost predicate Stored()
      reads this
    {
      Store(headers, bodies, genesis) && current in headers && Weighs(headers, genesis, tds)
    }

    ghost predicate Valid()
      reads this
    {
      && Stored()
      && NamesAncestors(headers, genesis, canon, current)
      && Indexed(headers, bodies, genesis, lookup, current)
      && ReplayAll([genesis], events) == Some(Path(headers, genesis, current))
    }

    constructor (header: Header)
      requires header.number == 0 && header.hash != NO_HASH
      ensures Valid() && HeadChosen() && genesis == header.hash && current == header.hash && events == []
    {
      genesis := header.hash;
      headers := map[header.hash := header];
      bodies := map[header.hash := []];
      tds := map[header.hash := header.difficulty];
      canon := map[0 := header.hash];
      lookup := map[];
      current := header.hash;
      events := [];
      GenesisOnly(header);
    }

    /** insert: the block becomes the head under its number. */
    method Insert(header: Header)
      modifies this`canon, this`current
      ensures canon == old(canon)[header.number := header.hash] && current == header.hash
    {
      canon := canon[header.number := header.hash];
      current := header.hash;
    }

    /** The new blocks of a reorganisation, lowest first: each becomes head and has its transactions indexed. */
    method ApplyBlocks(ghost common: Hash, applied: seq<Hash>, ghost leftovers: set<TxHash>, ghost target: Hash)
      requires Stored() && common in headers && target in headers
      requires Path(headers, genesis, target) == Path(headers, genesis, common) + applied
      requires NamesAncestors(headers, genesis, canon, common)
      requires IndexedWith(headers, bodies, genesis, lookup, common, leftovers)
      modifies this`canon, this`current, this`lookup
      ensures applied == [] ==> current == old(current)
      ensures applied != [] ==> current == target
      ensures NamesAncestors(headers, genesis, canon, target)
      ensures IndexedWith(headers, bodies, genesis, lookup, target, leftovers)
    {
      hide Store, NamesAncestors, IndexedWith, Path, Rooted;
      StoreIsRooted(headers, bodies, genesis);
      ghost var at := common;
      var i := 0;
      while i < |applied|
        invariant 0 <= i <= |applied| && at in headers
        invariant Path(headers, genesis, at) == Path(headers, genesis, common) + applied[..i]
        invariant i == 0 ==> current == old(current)
        invariant i > 0 ==> current == at
        invariant NamesAncestors(headers, genesis, canon, at)
        invariant IndexedWith(headers, bodies, genesis, lookup, at, leftovers)
        modifies this`canon, this`current, this`lookup
      {
        NextApplied(headers, bodies, genesis, common, applied, i, at, target);
        var h := applied[i];
        NamesNext(headers, genesis, canon, h);
        Insert(headers[h]);
        var before := lookup;
        lookup := WriteEntries(lookup, headers[h], bodies[h]);
        NextIndexed(headers, bodies, genesis, before, lookup, h, leftovers);
        at := h;
        i := i + 1;
      }
      assert applied[..|applied|] == applied;
      SamePathSameHead(headers, genesis, at, target);
    }

    /** reorg: moves the head from the current block to a stored one, and reports the change. */
    method Reorg(header: Header) returns (e: Change)
      requires Valid() && header.hash in headers && headers[header.hash] == header
      modifies this`canon, this`current, this`lookup
      ensures current == header.hash || (current == old(current) && e.applied == [])
      ensures NamesAncestors(headers, genesis, canon, header.hash)
      ensures Indexed(headers, bodies, genesis, lookup, header.hash)
      ensures IsChange(headers, genesis, old(current), header.hash, e)
    {
      hide Store, NamesAncestors, IndexedWith, Indexed, Path, Segment, Apart, Above, Rooted, IsChange, TxsOf;
      StoreIsRooted(headers, bodies, genesis);
      var r := CommonAncestor(headers, genesis, headers[current], header);
      var (common, change) := r.value;
      e := change;
      ChangeHolds(headers, genesis, common, e, current, header.hash);
      ReorgStarts(headers, bodies, genesis, canon, lookup, current, common, e);
      ghost var was := OnBranch(headers, bodies, genesis, current);
      ApplyBlocks(common, e.applied, was, header.hash);
      var deleted := CollectTxs(bodies, e.reverted);
      var added := CollectTxs(bodies, e.applied);
      ReorgEnds(headers, bodies, genesis, lookup, common, e, old(current), header.hash);
      lookup := lookup - (deleted - added);
    }

    /** WriteBlockWithoutState: stores a block of a competing fork, without touching the head. */
    method WriteBlockWithoutState(block: Block, td: nat)
      requires Valid() && Admissible(block)
      requires block.header.parent in headers && headers[block.header.parent].number == block.header.number - 1
      requires td == block.header.difficulty + tds[block.header.parent]
      modifies this`headers, this`bodies, this`tds
      ensures Valid() && headers == old(headers)[block.header.hash := block.header]
      ensures bodies == old(bodies)[block.header.hash := block.txs]
      ensures tds == old(tds)[block.header.hash := td]
    {
      hide Store, NamesAncestors, Indexed, Path, Weighs, Rooted;
      PutBlock(block, td);
    }

    /** The block and its total difficulty go to the database. */
    method PutBlock(block: Block, td: nat)
      requires Valid() && Admissible(block)
      requires block.header.parent in headers && headers[block.header.parent].number == block.header.number - 1
      requires td == block.header.difficulty + tds[block.header.parent]
      modifies this`headers, this`bodies, this`tds
      ensures Valid() && headers == old(headers)[block.header.hash := block.header]
      ensures bodies == old(bodies)[block.header.hash := block.txs]
      ensures tds == old(tds)[block.header.hash := td]
    {
      hide Store, NamesAncestors, Indexed, Path, Weighs, Rooted;
      var header := block.header;
      BlockAdded(headers, bodies, genesis, tds, canon, lookup, current, block);
      tds := tds[header.hash := td];
      headers := headers[header.hash := header];
      bodies := bodies[header.hash := block.txs];
    }

    /** What the source asks of a block it writes: its hash names it alone, and no transaction repeats on its branch. */
    ghost predicate Admissible(block: Block)
      reads this
      requires Stored()
    {
      var header := block.header;
      && header.hash != NO_HASH && NoRepeat(block.txs)
      && (header.hash in headers ==> headers[header.hash] == header && bodies[header.hash] == block.txs)
      && (header.parent in headers && header.number > 0 ==>
            TxSet(block.txs) !! OnBranch(headers, bodies, genesis, header.parent))
    }

    /** No stored block has a greater total difficulty than the head, and none of the same has a lower number. Blocks
        written without state can break this: they never become the head. */
    ghost predicate HeadChosen()
      reads this
    {
      Chosen(headers, tds, current)
    }

    ghost function Now(): Moment
      reads this
    {
      Moment(headers, bodies, tds, current)
    }

    /** WriteBlockWithState, with successful database writes. The block becomes the head if its branch is heavier; on
        equal weight if it is lower, or as low and favoured by the local miner or the coin. */
    method WriteBlockWithState(block: Block, preserveCurrent: bool, preserveBlock: bool, coin: bool)
      returns (status: WriteStatus)
      requires Valid() && Admissible(block)
      modifies this`headers, this`bodies, this`tds, this`canon, this`current, this`lookup, this`events
      ensures Valid()
      ensures status == NonStatTy <==> Lookup(old(headers), block.header.parent, block.header.number - 1) == None
      ensures status == NonStatTy ==>
                && headers == old(headers) && bodies == old(bodies) && tds == old(tds) && current == old(current)
                && events == old(events) && canon == old(canon) && lookup == old(lookup)
      ensures status != NonStatTy ==> headers == old(headers)[block.header.hash := block.header]
      ensures status != NonStatTy ==> bodies == old(bodies)[block.header.hash := block.txs]
      ensures status == SideStatTy ==>
                current == old(current) && events == old(events) && canon == old(canon) && lookup == old(lookup)
      ensures status == CanonStatTy ==>
                && current == block.header.hash && old(current) in headers && |events| == |old(events)| + 1
                && events[..|old(events)|] == old(events)
                && IsChange(headers, genesis, old(current), current, events[|old(events)|])
      ensures status != NonStatTy ==>
                && block.header.parent in old(tds) && old(current) in old(tds) && old(current) in old(headers)
                && tds == old(tds)[block.header.hash := block.header.difficulty + old(tds)[block.header.parent]]
      ensures status != NonStatTy ==>
                var td, headTd := block.header.difficulty + old(tds)[block.header.parent], old(tds)[old(current)];
                var number, headNumber := block.header.number, old(headers)[old(current)].number;
                && (td > headTd ==> status == CanonStatTy)
                && (td < headTd ==> status == SideStatTy)
                && (td == headTd && number < headNumber ==> status == CanonStatTy)
                && (td == headTd && number > headNumber ==> status == SideStatTy)
                && (td == headTd && number == headNumber && preserveCurrent ==> status == SideStatTy)
                && (td == headTd && number == headNumber && !preserveCurrent && preserveBlock ==> status == CanonStatTy)
                && (td == headTd && number == headNumber && !preserveCurrent && !preserveBlock ==>
                      (status == CanonStatTy <==> coin))
      ensures old(HeadChosen()) ==> HeadChosen()
    {
      hide Store, NamesAncestors, Indexed, Path, Weighs, Rooted, IsChange, Chosen;
      var header := block.header;
      if Lookup(headers, header.parent, header.number - 1) == None {
        return NonStatTy;
      }
      WeighsKeys(headers, bodies, genesis, tds);
      var localTd := tds[current];
      var externTd := header.difficulty + tds[header.parent];
      var was := current;
      var preferred := Preferred(externTd, header.number, localTd, headers[was].number, preserveCurrent, preserveBlock,
                                 coin);
      if old(HeadChosen()) {
        PreferredChosen(headers, bodies, genesis, tds, current, header, preferred);
      }
      PutBlock(block, externTd);
      if !preferred {
        return SideStatTy;
      }
      MakeHead(header);
      status := CanonStatTy;
    }

    /** Takes the number map and the index from the head to a stored block, and says what has changed. */
    method SwitchTo(header: Header) returns (e: Change)
      requires Valid() && header.hash in headers && headers[header.hash] == header && header.number > 0
      modifies this`canon, this`current, this`lookup
      ensures Rooted(headers, genesis) && bodies.Keys == headers.Keys
      ensures NamesAncestors(headers, genesis, canon[header.number := header.hash], header.hash)
      ensures Indexed(headers, bodies, genesis, lookup, header.hash)
      ensures IsChange(headers, genesis, old(current), header.hash, e)
    {
      hide Store, NamesAncestors, Indexed, Path, Weighs, Rooted, IsChange, PointsAt;
      StoreIsRooted(headers, bodies, genesis);
      BodyFresh(headers, bodies, genesis, header.hash);
      e := Change([], [header.hash]);
      if header.parent != current {
        e := Reorg(header);
        NamesSame(headers, genesis, canon, header.hash);
        ghost var before := lookup;
        lookup := WriteEntries(lookup, header, bodies[header.hash]);
        SameIndexed(headers, bodies, genesis, before, lookup, header.hash);
      } else {
        ExtensionIsChange(headers, bodies, genesis, current, header);
        NamesNext(headers, genesis, canon, header.hash);
        ghost var before := lookup;
        lookup := WriteEntries(lookup, header, bodies[header.hash]);
        ExtensionIndexed(headers, bodies, genesis, before, lookup, header);
      }
    }

    /** Makes a stored block the head, sending the change event. */
    method MakeHead(header: Header)
      requires Valid() && header.hash in headers && headers[header.hash] == header && header.number > 0
      modifies this`canon, this`current, this`lookup, this`events
      ensures Valid() && current == header.hash && |events| == |old(events)| + 1
      ensures events[..|old(events)|] == old(events)
      ensures Rooted(headers, genesis) && IsChange(headers, genesis, old(current), current, events[|old(events)|])
    {
      hide Store, NamesAncestors, Indexed, Path, Weighs, Rooted, IsChange, ReplayAll, Replay;
      StoreIsRooted(headers, bodies, genesis);
      ghost var path := Path(headers, genesis, current);
      var e := SwitchTo(header);
      ReplayOneMore([genesis], events, e, path);
      ChangeReplays(headers, genesis, old(current), header.hash, e);
      events := events + [e];
      Insert(header);
    }

    /** A run of writes, with and without state. The blocks come, in any order, from a tree of blocks in which hashes
        are unique and no transaction repeats on a branch; whatever the tie-breaks, the chain stays valid: its number
        map, index and events all agree with the head. */
    method Run(writes: seq<Write>, ghost allHeaders: Headers, ghost allBodies: Bodies)
      returns (ghost moments: seq<Moment>)
      requires Valid() && Store(allHeaders, allBodies, genesis) && Within(headers, bodies, allHeaders, allBodies)
      requires forall i :: 0 <= i < |writes| ==> OfTree(writes[i].block, allHeaders, allBodies)
      modifies this`headers, this`bodies, this`tds, this`canon, this`current, this`lookup, this`events
      ensures Valid() && |old(events)| <= |events| && events[..|old(events)|] == old(events)
      ensures |moments| == |writes| + 1 && moments[0] == old(Now()) && moments[|writes|] == Now()
      ensures forall i :: 0 <= i < |writes| ==> moments[i].LeadsTo(writes[i], moments[i + 1])
      ensures (forall i :: 0 <= i < |writes| ==> writes[i].WithState?) && old(HeadChosen()) ==> HeadChosen()
    {
      hide Store, NamesAncestors, Indexed, Path, Weighs, Rooted, IsChange, OfTree, Within, Moment.LeadsTo;
      moments := [Now()];
      for i := 0 to |writes|
        invariant Valid() && Within(headers, bodies, allHeaders, allBodies)
        invariant |old(events)| <= |events| && events[..|old(events)|] == old(events)
        invariant |moments| == i + 1 && moments[0] == old(Now()) && moments[i] == Now()
        invariant forall k :: 0 <= k < i ==> moments[k].LeadsTo(writes[k], moments[k + 1])
        invariant (forall k :: 0 <= k < i ==> writes[k].WithState?) && old(HeadChosen()) ==> HeadChosen()
      {
        Perform(writes[i], allHeaders, allBodies);
        moments := moments + [Now()];
      }
    }

    method Perform(w: Write, ghost allHeaders: Headers, ghost allBodies: Bodies)
      requires Valid() && Store(allHeaders, allBodies, genesis) && Within(headers, bodies, allHeaders, allBodies)
      requires OfTree(w.block, allHeaders, allBodies)
      modifies this`headers, this`bodies, this`tds, this`canon, this`current, this`lookup, this`events
      ensures Valid() && Within(headers, bodies, allHeaders, allBodies)
      ensures |old(events)| <= |events| && events[..|old(events)|] == old(events)
      ensures old(Now()).LeadsTo(w, Now())
      ensures w.WithState? && old(HeadChosen()) ==> HeadChosen()
    {
      hide Store, NamesAncestors, Indexed, Path, Weighs, Rooted, IsChange, OfTree, Within, Chosen;
      var block := w.block;
      FromTree(headers, bodies, genesis, allHeaders, allBodies, block);
      match w {
        case WithState(_, preserveCurrent, preserveBlock, coin) =>
          var status := WriteBlockWithState(block, preserveCurrent, preserveBlock, coin);
        case WithoutState(_) =>
          var parent := Lookup(headers, block.header.parent, block.header.number - 1);
          if parent.Some? {
            WeighsKeys(headers, bodies, genesis, tds);
            WriteBlockWithoutState(block, block.header.difficulty + tds[block.header.parent]);
          }
      }
    }
  }

  // ---------- lemmas ----------

  /** The choice between the head and a written block. */
  predicate Preferred(externTd: nat, number: nat, localTd: nat, currentNumber: nat, preserveCurrent: bool,
                      preserveBlock: bool, coin: bool) {
    externTd > localTd ||
    (externTd == localTd &&
     (number < currentNumber || (number == currentNumber && !preserveCurrent && (preserveBlock || coin))))
  }

  /** The fork choice: the head is heaviest, and lowest among the heaviest. */
  ghost predicate Chosen(headers: Headers, tds: map<Hash, nat>, head: Hash) {
    && head in tds && head in headers
    && forall h :: h in tds ==>
         && tds[h] <= tds[head]
         && (tds[h] == tds[head] && h in headers ==> headers[h].number >= headers[head].number)
  }

  /** What is preferred is heavier than the head, or as heavy and no higher; what is not is lighter, or as heavy and no
      lower. */
  lemma PreferredChosen(headers: Headers, bodies: Bodies, genesis: Hash, tds: map<Hash, nat>, head: Hash,
                        header: Header, preferred: bool)
    requires Store(headers, bodies, genesis) && Weighs(headers, genesis, tds) && Chosen(headers, tds, head)
    requires header.hash in headers ==> headers[header.hash] == header
    requires header.number > 0 && header.parent in headers && header.parent in tds
    requires var td := header.difficulty + tds[header.parent];
             if preferred then td > tds[head] || (td == tds[head] && header.number <= headers[head].number)
             else td < tds[head] || (td == tds[head] && header.number >= headers[head].number)
    ensures Chosen(headers[header.hash := header], tds[header.hash := header.difficulty + tds[header.parent]],
                   if preferred then header.hash else head)
  {
    if header.hash in headers {
      assert Linked(headers, genesis, header.hash);
    }
  }

  /** The stored blocks are blocks of the tree. */
  ghost predicate Within(headers: Headers, bodies: Bodies, allHeaders: Headers, allBodies: Bodies) {
    && bodies.Keys == headers.Keys && allBodies.Keys == allHeaders.Keys
    && forall h :: h in headers ==> h in allHeaders && allHeaders[h] == headers[h] && allBodies[h] == bodies[h]
  }

  ghost predicate OfTree(block: Block, allHeaders: Headers, allBodies: Bodies) {
    var h := block.header.hash;
    h in allHeaders && h in allBodies && allHeaders[h] == block.header && allBodies[h] == block.txs
  }

  /** A block of a tree without collisions and repetitions is admissible to a store of blocks of the tree. */
  lemma FromTree(headers: Headers, bodies: Bodies, genesis: Hash, allHeaders: Headers, allBodies: Bodies, block: Block)
    requires Store(headers, bodies, genesis) && Store(allHeaders, allBodies, genesis)
    requires Within(headers, bodies, allHeaders, allBodies)
    requires OfTree(block, allHeaders, allBodies)
    ensures block.header.hash != NO_HASH && NoRepeat(block.txs)
    ensures Within(headers[block.header.hash := block.header], bodies[block.header.hash := block.txs],
                   allHeaders, allBodies)
    ensures block.header.hash in headers ==>
              headers[block.header.hash] == block.header && bodies[block.header.hash] == block.txs
    ensures block.header.parent in headers && block.header.number > 0 ==>
              TxSet(block.txs) !! OnBranch(headers, bodies, genesis, block.header.parent)
  {
    var h := block.header.hash;
    assert Linked(allHeaders, genesis, h) && Fresh(allHeaders, allBodies, genesis, h);
    if block.header.parent in headers && block.header.number > 0 {
      BranchTxsKept(headers, bodies, allHeaders, allBodies, genesis, block.header.parent);
    }
  }

  lemma BodyFresh(headers: Headers, bodies: Bodies, genesis: Hash, h: Hash)
    requires Store(headers, bodies, genesis) && h in headers
    ensures NoRepeat(bodies[h]) && (headers[h].number > 0 ==> h != genesis)
  {
    assert Fresh(headers, bodies, genesis, h) && Linked(headers, genesis, h);
  }

  lemma NamesSame(headers: Headers, genesis: Hash, canon: map<nat, Hash>, h: Hash)
    requires Rooted(headers, genesis) && h in headers && NamesAncestors(headers, genesis, canon, h)
    ensures NamesAncestors(headers, genesis, canon[headers[h].number := h], h)
  {
  }

  lemma GenesisOnly(header: Header)
    requires header.number == 0 && header.hash != NO_HASH
    ensures var headers := map[header.hash := header];
            var bodies: Bodies := map[header.hash := []];
            var g := header.hash;
            && Store(headers, bodies, g) && Weighs(headers, g, map[g := header.difficulty])
            && NamesAncestors(headers, g, map[0 := g], g) && Indexed(headers, bodies, g, map[], g)
            && Path(headers, g, g) == [g]
  {
    var headers := map[header.hash := header];
    var bodies: Bodies := map[header.hash := []];
    assert Linked(headers, header.hash, header.hash);
    assert Fresh(headers, bodies, header.hash, header.hash);
  }

  lemma StoreIsRooted(headers: Headers, bodies: Bodies, genesis: Hash)
    requires Store(headers, bodies, genesis)
    ensures Rooted(headers, genesis) && bodies.Keys == headers.Keys
    ensures forall h :: h in headers ==> headers[h].hash == h
  {
    forall h | h in headers ensures headers[h].hash == h {
      assert Linked(headers, genesis, h);
    }
  }

  lemma WeighsKeys(headers: Headers, bodies: Bodies, genesis: Hash, tds: map<Hash, nat>)
    requires Store(headers, bodies, genesis) && Weighs(headers, genesis, tds)
    ensures tds.Keys == headers.Keys == bodies.Keys && Rooted(headers, genesis)
  {
  }

  /** The next block to apply is the child of the last one. */
  lemma NextApplied(headers: Headers, bodies: Bodies, genesis: Hash, common: Hash, applied: seq<Hash>, i: nat, at: Hash,
                    target: Hash)
    requires Store(headers, bodies, genesis) && common in headers && at in headers && target in headers && i < |applied|
    requires Path(headers, genesis, target) == Path(headers, genesis, common) + applied
    requires Path(headers, genesis, at) == Path(headers, genesis, common) + applied[..i]
    ensures var h := applied[i];
            && h in headers && h != genesis && headers[h].hash == h && headers[h].parent == at && NoRepeat(bodies[h])
            && Path(headers, genesis, h) == Path(headers, genesis, common) + applied[..i + 1]
  {
    var h := applied[i];
    var p := Path(headers, genesis, target);
    var n := |Path(headers, genesis, common)| + i;
    assert p[n] == h && p[..n] == Path(headers, genesis, common) + applied[..i];
    assert p[..n + 1] == Path(headers, genesis, common) + applied[..i + 1];
    StepBack(headers, genesis, target, n);
    PathOfAncestor(headers, genesis, target, n);
    assert Fresh(headers, bodies, genesis, h) && Linked(headers, genesis, h) && Linked(headers, genesis, genesis);
    var q := Path(headers, genesis, at);
    assert q[|q| - 1] == at;
  }

  lemma NamesNext(headers: Headers, genesis: Hash, canon: map<nat, Hash>, h: Hash)
    requires Rooted(headers, genesis) && h in headers && h != genesis && headers[h].parent in headers
    requires NamesAncestors(headers, genesis, canon, headers[h].parent)
    ensures NamesAncestors(headers, genesis, canon[headers[h].number := h], h)
  {
    assert Linked(headers, genesis, h);
    var p := Path(headers, genesis, headers[h].parent);
    forall n: nat | n <= headers[h].number
      ensures n in canon[headers[h].number := h] && canon[headers[h].number := h][n] == Path(headers, genesis, h)[n]
    {
      if n < headers[h].number {
        assert Path(headers, genesis, h)[n] == p[n];
      }
    }
  }

  lemma SamePathSameHead(headers: Headers, genesis: Hash, a: Hash, b: Hash)
    requires Rooted(headers, genesis) && a in headers && b in headers
    requires Path(headers, genesis, a) == Path(headers, genesis, b)
    ensures a == b
  {
  }

  lemma ChangeHolds(headers: Headers, genesis: Hash, common: Hash, e: Change, from: Hash, to: Hash)
    requires Rooted(headers, genesis) && common in headers && from in headers && to in headers
    requires Segment(headers, common, e.reverted, from) && Segment(headers, common, e.applied, to)
    requires Apart(e.reverted, e.applied)
    requires Above(headers, headers[common].number, e.reverted) && Above(headers, headers[common].number, e.applied)
    ensures Path(headers, genesis, from) == Path(headers, genesis, common) + e.reverted
    ensures Path(headers, genesis, to) == Path(headers, genesis, common) + e.applied
    ensures IsChange(headers, genesis, from, to, e)
    ensures forall i :: 0 <= i < |e.reverted| ==> e.reverted[i] in headers
    ensures forall i :: 0 <= i < |e.applied| ==> e.applied[i] in headers
  {
    SegmentIsSuffix(headers, genesis, common, e.reverted, from);
    SegmentIsSuffix(headers, genesis, common, e.applied, to);
    var p, q := Path(headers, genesis, from), Path(headers, genesis, to);
    var cut := |p| - |e.reverted|;
    assert p[..cut] == Path(headers, genesis, common) == q[..cut];
  }

  lemma ReorgStarts(headers: Headers, bodies: Bodies, genesis: Hash, canon: map<nat, Hash>, lookup: map<TxHash, Entry>,
                    from: Hash, common: Hash, e: Change)
    requires Store(headers, bodies, genesis) && from in headers && common in headers
    requires Path(headers, genesis, from) == Path(headers, genesis, common) + e.reverted
    requires NamesAncestors(headers, genesis, canon, from) && Indexed(headers, bodies, genesis, lookup, from)
    ensures NamesAncestors(headers, genesis, canon, common)
    ensures IndexedWith(headers, bodies, genesis, lookup, common, OnBranch(headers, bodies, genesis, from))
  {
    var p := Path(headers, genesis, common);
    assert p[|p| - 1] == common && Path(headers, genesis, from)[|p| - 1] == common;
    IndexedAncestor(headers, bodies, genesis, lookup, from, headers[common].number);
    forall n: nat | n <= headers[common].number ensures n in canon && canon[n] == p[n] {
      assert Path(headers, genesis, from)[n] == p[n];
    }
  }

  /** Dropping the entries of what was reverted and not applied again leaves exactly the new branch. */
  lemma ReorgEnds(headers: Headers, bodies: Bodies, genesis: Hash, lookup: map<TxHash, Entry>, common: Hash, e: Change,
                  from: Hash, to: Hash)
    requires Store(headers, bodies, genesis) && from in headers && to in headers && common in headers
    requires Path(headers, genesis, from) == Path(headers, genesis, common) + e.reverted
    requires Path(headers, genesis, to) == Path(headers, genesis, common) + e.applied
    requires forall i :: 0 <= i < |e.reverted| ==> e.reverted[i] in headers
    requires forall i :: 0 <= i < |e.applied| ==> e.applied[i] in headers
    requires IndexedWith(headers, bodies, genesis, lookup, to, OnBranch(headers, bodies, genesis, from))
    ensures Indexed(headers, bodies, genesis, lookup - (TxsOf(bodies, e.reverted) - TxsOf(bodies, e.applied)), to)
  {
    BranchOfSegment(headers, bodies, genesis, common, e.reverted, from);
    BranchOfSegment(headers, bodies, genesis, common, e.applied, to);
  }

  /** The transactions of a list of blocks, as a set of hashes. */
  method CollectTxs(bodies: Bodies, s: seq<Hash>) returns (r: set<TxHash>)
    requires forall i :: 0 <= i < |s| ==> s[i] in bodies
    ensures r == TxsOf(bodies, s)
  {
    r := {};
    for k := 0 to |s|
      invariant r == TxsOf(bodies, s[..k])
    {
      TxsOfLast(bodies, s[..k + 1]);
      assert s[..k + 1][..k] == s[..k];
      r := r + TxSet(bodies[s[k]]);
    }
    assert s[..|s|] == s;
  }

  /** Storing one more block disturbs nothing that is known of the head. */
  lemma BlockAdded(headers: Headers, bodies: Bodies, genesis: Hash, tds: map<Hash, nat>, canon: map<nat, Hash>,
                   lookup: map<TxHash, Entry>, head: Hash, block: Block)
    requires Store(headers, bodies, genesis) && head in headers && Weighs(headers, genesis, tds)
    requires NamesAncestors(headers, genesis, canon, head) && Indexed(headers, bodies, genesis, lookup, head)
    requires block.header.hash != NO_HASH && NoRepeat(block.txs)
    requires block.header.hash in headers ==>
               headers[block.header.hash] == block.header && bodies[block.header.hash] == block.txs
    requires block.header.number > 0 && block.header.parent in headers
    requires headers[block.header.parent].number == block.header.number - 1
    requires TxSet(block.txs) !! OnBranch(headers, bodies, genesis, block.header.parent)
    ensures var more := headers[block.header.hash := block.header];
            var bodies' := bodies[block.header.hash := block.txs];
            var tds' := tds[block.header.hash := block.header.difficulty + tds[block.header.parent]];
            && Store(more, bodies', genesis) && Weighs(more, genesis, tds') && head in more
            && NamesAncestors(more, genesis, canon, head) && Indexed(more, bodies', genesis, lookup, head)
            && Path(more, genesis, head) == Path(headers, genesis, head)
  {
    var header := block.header;
    var more := headers[header.hash := header];
    var bodies' := bodies[header.hash := block.txs];
    StoredBlock(headers, bodies, genesis, header, block.txs);
    BranchKept(headers, more, genesis, head);
    IndexKept(headers, bodies, more, bodies', genesis, lookup, head);
    var tds' := tds[header.hash := header.difficulty + tds[header.parent]];
    forall h | h in more ensures tds'[h] == TotalDifficulty(more, genesis, h) {
      if h == header.hash {
        BranchKept(headers, more, genesis, header.parent);
        assert Linked(more, genesis, h);
      } else {
        BranchKept(headers, more, genesis, h);
      }
    }
  }

  lemma ExtensionIsChange(headers: Headers, bodies: Bodies, genesis: Hash, head: Hash, header: Header)
    requires Store(headers, bodies, genesis) && header.hash in headers && headers[header.hash] == header
    requires header.parent == head && head in headers && header.number > 0
    ensures IsChange(headers, genesis, head, header.hash, Change([], [header.hash]))
  {
    assert Linked(headers, genesis, header.hash);
    var p, q := Path(headers, genesis, head), Path(headers, genesis, header.hash);
    assert q == p + [header.hash];
    assert p[..|p|] == p == q[..|p|] && q[|p|..] == [header.hash];
  }

  lemma ExtensionIndexed(headers: Headers, bodies: Bodies, genesis: Hash, lookup: map<TxHash, Entry>,
                         lookup': map<TxHash, Entry>, header: Header)
    requires Store(headers, bodies, genesis) && header.hash in headers && headers[header.hash] == header
    requires header.number > 0
    requires header.parent in headers && Indexed(headers, bodies, genesis, lookup, header.parent)
    requires lookup'.Keys == lookup.Keys + TxSet(bodies[header.hash])
    requires forall i :: 0 <= i < |bodies[header.hash]| ==>
               lookup'[bodies[header.hash][i]] == Entry(header.hash, header.number, i)
    requires forall t :: t in lookup && t !in bodies[header.hash] ==> lookup'[t] == lookup[t]
    ensures Indexed(headers, bodies, genesis, lookup', header.hash)
  {
    assert Linked(headers, genesis, header.hash);
    NextIndexed(headers, bodies, genesis, lookup, lookup', header.hash, {});
  }
}
