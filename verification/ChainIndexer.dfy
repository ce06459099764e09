/** The section indexer (core/chain_indexer.go), without a checkpoint. A section is processed without the lock while the
    chain moves and reorg notices arrive; each method below is one step that runs under the lock or between two reads,
    and any sequence of steps is an interleaving. Removing section heads is not one step: a section that the backend
    refuses removes them without the lock, one statement at a time, and a notice may do so meanwhile. */
module ChainIndexers {
  import opened Wrappers
  import opened ChainStore

  /** The section being processed: where it continues from, the next block number and the last block seen. */
  datatype Job = Job(section: nat, oldHead: Hash, number: nat, lastHead: Hash, failed: bool)

  /** k parent links back. */
  ghost function Back(tree: Headers, h: Hash, k: nat): Option<Hash>
    decreases k
  {
    if k == 0 then Some(h) else if h in tree then Back(tree, tree[h].parent, k - 1) else None
  }

  /** The stored heads are exactly those of the sections below the count, each a full section above the one before, the
      first a full section above the zero hash that genesis has for a parent. */
  ghost predicate OneChain(tree: Headers, size: nat, heads: map<nat, Hash>, stored: nat) {
    && (forall k: nat :: k in heads <==> k < stored)
    && (forall k: nat {:trigger SectionLinked(tree, size, heads, k)} :: k < stored ==>
          SectionLinked(tree, size, heads, k))
  }

  ghost predicate SectionLinked(tree: Headers, size: nat, heads: map<nat, Hash>, k: nat) {
    k in heads && heads[k] != NO_HASH && Back(tree, heads[k], size) == Some(HeadBelow(heads, k))
  }

  function HeadBelow(heads: map<nat, Hash>, section: nat): Hash {
    if section > 0 && section - 1 in heads then heads[section - 1] else NO_HASH
  }

  /** The head is the last block of its section, on whatever branch. */
  ghost predicate EndsSection(tree: Headers, size: nat, heads: map<nat, Hash>, k: nat)
    requires k in heads
  {
    heads[k] in tree && tree[heads[k]].number == (k + 1) * size - 1
  }

  /** What the job has read of its section are blocks of the right numbers. */
  ghost predicate JobNumbered(tree: Headers, size: nat, job: Job) {
    && job.section * size <= job.number <= job.section * size + size
    && (job.number > job.section * size ==> job.lastHead in tree && tree[job.lastHead].number == job.number - 1)
  }

  /** What the job has read is canonical now. */
  ghost predicate JobCanonical(tree: Headers, size: nat, canon: map<nat, Hash>, job: Job) {
    forall n: nat :: job.section * size <= n < job.number ==>
      n in canon && Back(tree, job.lastHead, job.number - 1 - n) == Some(canon[n])
  }

  /** What has been read of the section so far links back to the head the section continues from. */
  ghost predicate JobSound(tree: Headers, size: nat, stored: nat, job: Job) {
    && stored <= job.section
    && (job.section > 0 <==> job.oldHead != NO_HASH)
    && job.section * size <= job.number <= job.section * size + size
    && Back(tree, job.lastHead, job.number - job.section * size) == Some(job.oldHead)
    && (job.number > job.section * size ==> job.lastHead != NO_HASH)
  }

  // ---------- the statements of setValidSections ----------

  const MAX_UINT64: nat := 0xFFFF_FFFF_FFFF_FFFF

  /** Which statement of setValidSections comes next: the test of the loop, the decrement of the count, the removal of
      the head that the count names, or the final assignment. */
  datatype Point = Testing | Lowering | Removing | Storing

  datatype Cut = Cut(sections: nat, at: Point)

  /** The count of stored sections and their heads. */
  datatype Index = Index(stored: nat, heads: map<nat, Hash>)

  /** One statement; the cut is over after the last one. The count is a 64-bit word: below zero it wraps. */
  function CutStep(i: Index, c: Cut): (Index, Option<Cut>) {
    match c.at
    case Testing => (i, Some(c.(at := if i.stored > c.sections then Lowering else Storing)))
    case Lowering => (i.(stored := if i.stored == 0 then MAX_UINT64 else i.stored - 1), Some(c.(at := Removing)))
    case Removing => (i.(heads := i.heads - {i.stored}), Some(c.(at := Testing)))
    case Storing => (i.(stored := c.sections), None)
  }

  /** A cut that nobody disturbs: the heads are one chain, but for the one about to be removed. */
  ghost predicate CutSound(tree: Headers, size: nat, i: Index, c: Cut) {
    && c.sections <= i.stored
    && (c.at == Lowering ==> c.sections < i.stored)
    && (c.at == Storing ==> c.sections == i.stored)
    && OneChain(tree, size, if c.at == Removing then i.heads - {i.stored} else i.heads, i.stored)
  }

  lemma CutStarts(tree: Headers, size: nat, i: Index, sections: nat)
    requires sections <= i.stored
    ensures OneChain(tree, size, i.heads, i.stored) ==> CutSound(tree, size, i, Cut(sections, Testing))
  {
  }

  lemma CutStepSound(tree: Headers, size: nat, i: Index, c: Cut)
    requires CutSound(tree, size, i, c)
    ensures var (i', c') := CutStep(i, c);
            && i'.stored <= i.stored
            && if c'.Some? then CutSound(tree, size, i', c'.value) else OneChain(tree, size, i'.heads, i'.stored)
  {
    if c.at == Lowering {
      Shrinks(tree, size, i.heads, i.stored, i.stored - 1);
      assert (map k | k in i.heads && !(i.stored - 1 <= k < i.stored) :: i.heads[k]) == i.heads - {i.stored - 1};
    }
  }

  // ---------- two cuts at once ----------

  /** A notice's cut and a refused section's cut at work on the same index. */
  datatype Cutters = Cutters(index: Index, notice: Option<Cut>, refusal: Option<Cut>)

  datatype Who = ByNotice | ByRefusal

  function Turn(s: Cutters, who: Who): Cutters {
    match who
    case ByNotice =>
      if s.notice.None? then s else
      var (i, c) := CutStep(s.index, s.notice.value); Cutters(i, c, s.refusal)
    case ByRefusal =>
      if s.refusal.None? then s else
      var (i, c) := CutStep(s.index, s.refusal.value); Cutters(i, s.notice, c)
  }

  /** The states that a schedule of the two goes through. */
  ghost predicate Interleaving(states: seq<Cutters>, schedule: seq<Who>) {
    && |states| == |schedule| + 1
    && forall i {:trigger schedule[i]} :: 0 <= i < |schedule| ==> states[i + 1] == Turn(states[i], schedule[i])
  }

  lemma Joined(one: seq<Cutters>, first: seq<Who>, two: seq<Cutters>, second: seq<Who>)
    requires Interleaving(one, first) && Interleaving(two, second) && one[|one| - 1] == two[0]
    ensures Interleaving(one + two[1..], first + second)
    ensures (one + two[1..])[0] == one[0] && (one + two[1..])[|one| + |two| - 2] == two[|two| - 1]
  {
    var states, schedule := one + two[1..], first + second;
    forall i | 0 <= i < |schedule| ensures states[i + 1] == Turn(states[i], schedule[i]) {
      if i < |first| {
        assert first[i] == schedule[i];
      } else {
        var k := i - |first|;
        assert second[k] == schedule[i] && states[i + 1] == two[k + 1] && states[i] == two[k];
      }
    }
  }

  function Without(heads: map<nat, Hash>, stored: nat): map<nat, Hash> {
    map k | k in heads && k >= stored :: heads[k]
  }

  /** A refused section's cut that nobody disturbs removes every head below the count. */
  lemma {:induction false} RefusalAlone(stored: nat, heads: map<nat, Hash>, notice: Option<Cut>)
    returns (states: seq<Cutters>, schedule: seq<Who>)
    ensures Interleaving(states, schedule)
    ensures states[0] == Cutters(Index(stored, heads), notice, Some(Cut(0, Testing)))
    ensures states[|states| - 1] == Cutters(Index(0, Without(heads, stored)), notice, None)
    decreases stored
  {
    var s := Cutters(Index(stored, heads), notice, Some(Cut(0, Testing)));
    var s1 := Turn(s, ByRefusal);
    var s2 := Turn(s1, ByRefusal);
    if stored == 0 {
      assert Without(heads, 0) == heads;
      states, schedule := [s, s1, s2], [ByRefusal, ByRefusal];
    } else {
      var s3 := Turn(s2, ByRefusal);
      var rest, turns := RefusalAlone(stored - 1, heads - {stored - 1}, notice);
      assert Without(heads - {stored - 1}, stored - 1) == Without(heads, stored);
      Joined([s, s1, s2, s3], [ByRefusal, ByRefusal, ByRefusal], rest, turns);
      states, schedule := [s, s1, s2, s3] + rest[1..], [ByRefusal, ByRefusal, ByRefusal] + turns;
    }
  }

  /** Whatever is stored, once a notice has decided to cut to one section or more and a refused section's cut gets in
      between, the notice may store a count whose heads are gone. */
  lemma NoticeStoresLast(index: Index, sections: nat) returns (states: seq<Cutters>, schedule: seq<Who>)
    requires forall k :: k in index.heads ==> k < index.stored
    ensures Interleaving(states, schedule)
    ensures states[0] == Cutters(index, Some(Cut(sections, Testing)), Some(Cut(0, Testing)))
    ensures states[|states| - 1] == Cutters(Index(sections, map[]), None, None)
  {
    var first, turns := RefusalAlone(index.stored, index.heads, Some(Cut(sections, Testing)));
    assert Without(index.heads, index.stored) == map[];
    var s := first[|first| - 1];
    var s1 := Turn(s, ByNotice);
    var s2 := Turn(s1, ByNotice);
    Joined(first, turns, [s, s1, s2], [ByNotice, ByNotice]);
    states, schedule := first + [s, s1, s2][1..], turns + [ByNotice, ByNotice];
  }

  /** If the two decrements meet, both remove the lower head, and the upper one survives above the count. */
  lemma DecrementsMeet(index: Index, sections: nat) returns (states: seq<Cutters>, schedule: seq<Who>)
    requires index.stored >= 2 && sections < index.stored && index.stored - 1 in index.heads
    requires sections > 0 ==> index.stored - 2 < sections
    ensures Interleaving(states, schedule)
    ensures states[0] == Cutters(index, Some(Cut(sections, Testing)), Some(Cut(0, Testing)))
    ensures var last := states[|states| - 1];
            && last.notice.None? && last.refusal.None? && last.index.stored == 0
            && index.stored - 1 in last.index.heads
  {
    var N, R := ByNotice, ByRefusal;
    var low := index.stored - 2;
    var less := index.heads - {low};
    var s0 := Cutters(index, Some(Cut(sections, Testing)), Some(Cut(0, Testing)));
    var s1 := Cutters(index, Some(Cut(sections, Lowering)), Some(Cut(0, Testing)));
    var s2 := Cutters(index, Some(Cut(sections, Lowering)), Some(Cut(0, Lowering)));
    var s3 := Cutters(Index(low + 1, index.heads), Some(Cut(sections, Removing)), Some(Cut(0, Lowering)));
    var s4 := Cutters(Index(low, index.heads), Some(Cut(sections, Removing)), Some(Cut(0, Removing)));
    var s5 := Cutters(Index(low, less), Some(Cut(sections, Testing)), Some(Cut(0, Removing)));
    var s6 := Cutters(Index(low, less), Some(Cut(sections, Testing)), Some(Cut(0, Testing)));
    assert less - {low} == less;
    var meet := [s0, s1, s2, s3, s4, s5, s6];
    var turns := [N, R, N, R, N, R];
    assert Interleaving(meet, turns);
    if sections == 0 {
      var rest, after := RefusalAlone(low, less, Some(Cut(0, Testing)));
      Joined(meet, turns, rest, after);
      var t := rest[|rest| - 1];
      var t1 := Turn(t, N);
      var t2 := Turn(t1, N);
      Joined(meet + rest[1..], turns + after, [t, t1, t2], [N, N]);
      states, schedule := meet + rest[1..] + [t, t1, t2][1..], turns + after + [N, N];
    } else {
      var t1 := Turn(s6, N);
      var t2 := Turn(t1, N);
      assert t2 == Cutters(Index(sections, less), None, Some(Cut(0, Testing)));
      Joined(meet, turns, [s6, t1, t2], [N, N]);
      var rest, after := RefusalAlone(sections, less, None);
      Joined(meet + [s6, t1, t2][1..], turns + [N, N], rest, after);
      states, schedule := meet + [s6, t1, t2][1..] + rest[1..], turns + [N, N] + after;
    }
  }

  /** Some schedule of the two, run to the end of both, leads to this index. */
  ghost predicate MayEndIn(index: Index, sections: nat, last: Index) {
    exists states: seq<Cutters>, schedule: seq<Who> ::
      Interleaving(states, schedule) && states[0] == Cutters(index, Some(Cut(sections, Testing)), Some(Cut(0, Testing)))
      && states[|states| - 1] == Cutters(last, None, None)
  }

  /** A notice to cut below what is stored, and a refused section: all their interleavings end well exactly if a single
      section is stored (and the notice, then, is for none). */
  lemma CutsCollide(tree: Headers, size: nat, index: Index, sections: nat)
    requires OneChain(tree, size, index.heads, index.stored) && sections < index.stored
    ensures (forall last :: MayEndIn(index, sections, last) ==> OneChain(tree, size, last.heads, last.stored)) <==>
              index.stored == 1
  {
    if index.stored == 1 {
      forall last | MayEndIn(index, sections, last) ensures OneChain(tree, size, last.heads, last.stored) {
        var states: seq<Cutters>, schedule: seq<Who> :|
          && Interleaving(states, schedule)
          && states[0] == Cutters(index, Some(Cut(sections, Testing)), Some(Cut(0, Testing)))
          && states[|states| - 1] == Cutters(last, None, None);
        LoneHeadGoes(states, schedule, |states| - 1);
        assert last.heads == map[];
      }
    } else {
      var states, schedule;
      if sections == 0 {
        states, schedule := DecrementsMeet(index, sections);
      } else {
        states, schedule := NoticeStoresLast(index, sections);
      }
      var last := states[|states| - 1].index;
      assert MayEndIn(index, sections, last);
      assert if sections == 0 then index.stored - 1 in last.heads && last.stored == 0
             else 0 !in last.heads && last.stored > 0;
    }
  }

  /** Where the last head still is, the count is on its way down to it, or someone is about to remove it. */
  ghost predicate LastHeadDue(s: Cutters) {
    && (s.notice.Some? ==> s.notice.value.sections == 0) && (s.refusal.Some? ==> s.refusal.value.sections == 0)
    && (s.notice.None? && s.refusal.None? ==> s.index.stored == 0)
    && (forall k :: k in s.index.heads ==> k == 0)
    && (0 in s.index.heads ==>
          if s.index.stored == 0 then At(s.notice, Removing) || At(s.refusal, Removing)
          else s.notice.Some? && s.refusal.Some? && !At(s.notice, Storing) && !At(s.refusal, Storing))
  }

  predicate At(c: Option<Cut>, at: Point) {
    c.Some? && c.value.at == at
  }

  lemma {:induction false} LoneHeadGoes(states: seq<Cutters>, schedule: seq<Who>, n: nat)
    requires Interleaving(states, schedule) && n < |states| && LastHeadDue(states[0])
    ensures LastHeadDue(states[n])
    decreases n
  {
    if n > 0 {
      LoneHeadGoes(states, schedule, n - 1);
      assert states[n - 1 + 1] == Turn(states[n - 1], schedule[n - 1]);
    }
  }

  /** The run with two sections stored and a notice for one, step by step: the decrements meet, and head 1 is left
      although no section is stored. If the notice stores last, the count is one and its head is gone. */
  lemma TwoSectionsCollide(a: Hash, b: Hash)
    ensures exists last :: MayEndIn(Index(2, map[0 := a, 1 := b]), 1, last) && last.stored == 0 && 1 in last.heads
    ensures MayEndIn(Index(2, map[0 := a, 1 := b]), 1, Index(1, map[]))
  {
    var index := Index(2, map[0 := a, 1 := b]);
    var one, first := DecrementsMeet(index, 1);
    assert MayEndIn(index, 1, one[|one| - 1].index);
    var two, second := NoticeStoresLast(index, 1);
  }

  // ---------- the indexer ----------

  datatype Step =
    | Notice(head: nat, reorg: bool)
    | NoticeCuts
    | ChainMoves(canon: map<nat, Hash>, db: set<Hash>)
    | Start
    | Refuse
    | RefusalCuts
    | Process(ok: bool)
    | Finish(ok: bool)

  /** The indexer at one moment. */
  datatype Snapshot = Snapshot(
    canon: map<nat, Hash>,
    db: set<Hash>,
    known: nat,
    index: Index,
    job: Option<Job>,
    notice: Option<Cut>,
    refusal: Option<Cut>)

  predicate BothCutting(s: Snapshot) {
    s.notice.Some? && s.refusal.Some?
  }

  /** The sections that a head confirms. */
  function Confirmed(head: nat, size: nat, confirms: nat): nat
    requires size > 0
  {
    if head >= confirms then (head + 1 - confirms) / size else 0
  }

  /** A section is confirmed exactly if as many blocks as required come after its last one. */
  lemma ConfirmedMeaning(head: nat, size: nat, confirms: nat, section: nat)
    requires size > 0
    ensures section < Confirmed(head, size, confirms) <==> (section + 1) * size - 1 + confirms <= head
  {
    if head >= confirms {
      WholeSections(head + 1 - confirms, size, section);
    } else {
      assert (section + 1) * size >= 1 by { assert (section + 1) * size == section * size + size; }
    }
  }

  lemma WholeSections(blocks: nat, size: nat, section: nat)
    requires size > 0
    ensures section < blocks / size <==> (section + 1) * size <= blocks
  {
    var q, m := blocks / size, blocks % size;
    assert blocks == q * size + m;
    if section < q {
      assert q * size == (section + 1) * size + (q - section - 1) * size;
    } else {
      assert (section + 1) * size == q * size + (section - q) * size + size;
    }
  }

  /** The backend may still refuse the section of this job. */
  predicate Refusable(j: Job, size: nat) {
    !j.failed && j.number == j.section * size
  }

  /** The section of this job has blocks to read. */
  predicate Reading(j: Job, size: nat) {
    !j.failed && j.number < (j.section + 1) * size
  }

  /** The section of this job is done with, read or failed. */
  predicate Through(j: Job, size: nat) {
    j.failed || j.number == (j.section + 1) * size
  }

  /** The canonical block of the job's next number is there and is a child of the last one. */
  ghost predicate Continues(tree: Headers, canon: map<nat, Hash>, db: set<Hash>, j: Job) {
    && j.number in canon && canon[j.number] in db && canon[j.number] in tree
    && tree[canon[j.number]].number == j.number && tree[canon[j.number]].parent == j.lastHead
  }

  /** A job is through, and the head that its section continues from is still there. */
  predicate Recorded(heads: map<nat, Hash>, j: Job, ok: bool) {
    ok && !j.failed && j.oldHead == HeadBelow(heads, j.section)
  }

  /** The index with the job's section at its end: what was stored above is gone. */
  function WithSection(i: Index, j: Job): Index {
    var heads := i.heads[j.section := j.lastHead];
    Index(j.section + 1, map k | k in heads && !(j.section + 1 <= k < i.stored) :: heads[k])
  }

  predicate StartsNotice(step: Step) {
    step.Notice? && step.reorg
  }

  /** What a step makes of a moment; a step that does not apply changes nothing. */
  ghost function Next(s: Snapshot, step: Step, size: nat, confirms: nat, tree: Headers): Snapshot
    requires size > 0
  {
    match step
    case Notice(head, reorg) =>
      if s.notice.Some? then s
      else if !reorg then s.(known := Max(s.known, Confirmed(head, size, confirms)))
      else if head / size >= s.index.stored then s.(known := Min(s.known, head / size))
      else s.(known := Min(s.known, head / size), notice := Some(Cut(head / size, Testing)))
    case NoticeCuts =>
      if s.notice.None? then s
      else var (index, cut) := CutStep(s.index, s.notice.value); s.(index := index, notice := cut)
    case ChainMoves(canon, db) =>
      if db <= tree.Keys then s.(canon := canon, db := db) else s
    case Start =>
      if s.job.Some? || s.notice.Some? || s.known <= s.index.stored then s
      else s.(job := Some(NewJob(s.index, size)))
    case Refuse =>
      if s.job.Some? && s.refusal.None? && Refusable(s.job.value, size) then s.(refusal := Some(Cut(0, Testing))) else s
    case RefusalCuts =>
      if s.refusal.None? then s
      else
        var (index, cut) := CutStep(s.index, s.refusal.value);
        s.(index := index, refusal := cut, job := if cut.None? then Failed(s.job) else s.job)
    case Process(ok) =>
      if s.job.Some? && s.refusal.None? && Reading(s.job.value, size)
      then s.(job := Some(AfterBlock(tree, s.canon, s.db, s.job.value, ok)))
      else s
    case Finish(ok) =>
      if !(s.job.Some? && s.notice.None? && s.refusal.None? && Through(s.job.value, size)) then s
      else if Recorded(s.index.heads, s.job.value, ok) then s.(index := WithSection(s.index, s.job.value), job := None)
      else s.(known := s.index.stored, job := None)
  }

  /** Only a refusal starts a refusal's cut, and only a reorg notice a notice's. */
  lemma OnlyTheyStart(s: Snapshot, step: Step, size: nat, confirms: nat, tree: Headers)
    requires size > 0
    ensures s.refusal.None? && !step.Refuse? ==> Next(s, step, size, confirms, tree).refusal.None?
    ensures s.notice.None? && !StartsNotice(step) ==> Next(s, step, size, confirms, tree).notice.None?
  {
  }

  function NewJob(i: Index, size: nat): Job {
    Job(i.stored, HeadBelow(i.heads, i.stored), i.stored * size, HeadBelow(i.heads, i.stored), false)
  }

  function Failed(job: Option<Job>): Option<Job> {
    if job.Some? then Some(job.value.(failed := true)) else None
  }

  ghost function AfterBlock(tree: Headers, canon: map<nat, Hash>, db: set<Hash>, j: Job, ok: bool): Job {
    if ok && Continues(tree, canon, db, j)
    then j.(number := j.number + 1, lastHead := canon[j.number])
    else j.(failed := true)
  }

  class ChainIndexer {
    const sectionSize: nat
    const confirmsReq: nat
    /** Every header there will ever be, by hash; what the database holds of it changes. */
    const tree: Headers
    var canon: map<nat, Hash>
    var db: set<Hash>
    var storedSections: nat
    var knownSections: nat
    var cascadedHead: int
    var heads: map<nat, Hash>
    var job: Option<Job>
    /** The cut of a notice, which has the lock, and of a refused section, which has not. */
    var noticeCut: Option<Cut>
    var refusalCut: Option<Cut>
    /** Whether two cuts have ever been at work at once. */
    ghost var overlapped: bool
    /** Whether the chain has kept the blocks that the job has read. */
    ghost var steady: bool

    /** What holds in every interleaving: heads end their sections, and a job has read blocks of the right numbers. */
    ghost predicate Valid()
      reads this
    {
      && sectionSize > 0 && NO_HASH !in tree && db <= tree.Keys
      && (forall k :: k in heads ==> EndsSection(tree, sectionSize, heads, k))
      && (job.Some? ==> JobNumbered(tree, sectionSize, job.value))
      && (job.Some? && steady ==> JobCanonical(tree, sectionSize, canon, job.value))
      && (refusalCut.Some? ==> job.Some? && !job.value.failed && job.value.number == job.value.section * sectionSize)
      && (!overlapped ==> Orderly())
    }

    /** What holds as long as no two cuts overlap: at rest the heads are one chain. */
    ghost predicate Orderly()
      reads this
    {
      && (noticeCut.None? || refusalCut.None?)
      && (noticeCut.None? && refusalCut.None? ==> OneChain(tree, sectionSize, heads, storedSections))
      && (noticeCut.Some? ==> CutSound(tree, sectionSize, Index(storedSections, heads), noticeCut.value))
      && (refusalCut.Some? ==> CutSound(tree, sectionSize, Index(storedSections, heads), refusalCut.value))
      && (job.Some? ==> JobSound(tree, sectionSize, storedSections, job.value))
    }

    constructor (sectionSize: nat, confirmsReq: nat, tree: Headers)
      requires sectionSize > 0 && NO_HASH !in tree
      ensures Valid() && !overlapped && noticeCut.None? && refusalCut.None? && job.None?
      ensures storedSections == knownSections == 0 && heads == map[]
      ensures this.tree == tree && this.sectionSize == sectionSize && this.confirmsReq == confirmsReq
    {
      this.sectionSize, this.confirmsReq, this.tree := sectionSize, confirmsReq, tree;
      canon, db := map[], {};
      storedSections, knownSections, cascadedHead := 0, 0, 0;
      heads, job, noticeCut, refusalCut := map[], None, None, None;
      overlapped, steady := false, false;
    }

    /** setValidSections without interruption: removes the heads at and above the new count. */
    method SetValidSections(sections: nat)
      modifies this`storedSections, this`heads
      ensures storedSections == sections
      ensures heads == map k | k in old(heads) && !(sections <= k < old(storedSections)) :: old(heads)[k]
    {
      while storedSections > sections
        invariant storedSections <= old(storedSections)
        invariant storedSections >= sections || storedSections == old(storedSections)
        invariant heads == map k | k in old(heads) && !(storedSections <= k < old(storedSections)) :: old(heads)[k]
      {
        storedSections := storedSections - 1;
        heads := heads - {storedSections};
      }
      storedSections := sections;
    }

    /** newHead, under the lock: a reorg notice for less than is stored starts a cut; a new head makes sections
        known. */
    method NewHead(head: nat, reorg: bool)
      requires Valid() && noticeCut.None?
      modifies this`knownSections, this`cascadedHead, this`noticeCut, this`overlapped
      ensures Valid()
      ensures reorg ==> knownSections == Min(old(knownSections), head / sectionSize)
      ensures reorg && head / sectionSize < storedSections ==> noticeCut == Some(Cut(head / sectionSize, Testing))
      ensures !reorg || head / sectionSize >= storedSections ==> noticeCut.None?
      ensures overlapped == (old(overlapped) || (noticeCut.Some? && refusalCut.Some?))
      ensures !reorg ==> knownSections == Max(old(knownSections), Confirmed(head, sectionSize, confirmsReq))
    {
      hide OneChain, CutSound, JobSound, JobCanonical, JobNumbered, EndsSection;
      if reorg {
        var known := head / sectionSize;
        if known < knownSections {
          knownSections := known;
        }
        if known < storedSections {
          CutStarts(tree, sectionSize, Index(storedSections, heads), known);
          noticeCut := Some(Cut(known, Testing));
          overlapped := overlapped || refusalCut.Some?;
        } else {
          LowerCascade(known);
        }
        return;
      }
      if head >= confirmsReq {
        var sections := (head + 1 - confirmsReq) / sectionSize;
        if sections > knownSections {
          knownSections := sections;
        }
      }
    }

    method LowerCascade(known: nat)
      modifies this`cascadedHead
      ensures cascadedHead == if known * sectionSize < old(cascadedHead) then known * sectionSize else old(cascadedHead)
    {
      if known * sectionSize < cascadedHead {
        cascadedHead := known * sectionSize;
      }
    }

    /** One statement of the notice's cut. */
    method StepNotice()
      requires Valid() && noticeCut.Some?
      modifies this`storedSections, this`heads, this`cascadedHead, this`noticeCut
      ensures Valid()
      ensures (Now().index, noticeCut) == CutStep(old(Now()).index, old(noticeCut).value)
    {
      var (index, next) := CutStep(Index(storedSections, heads), noticeCut.value);
      if !overlapped {
        CutStepSound(tree, sectionSize, Index(storedSections, heads), noticeCut.value);
      }
      var known := noticeCut.value.sections;
      storedSections, heads, noticeCut := index.stored, index.heads, next;
      if next.None? {
        LowerCascade(known);
      }
    }

    /** The chain moves underneath: other blocks become canonical, headers come and go. */
    method MoveChain(canon: map<nat, Hash>, db: set<Hash>)
      requires Valid() && db <= tree.Keys
      modifies this`canon, this`db, this`steady
      ensures Valid() && this.canon == canon && this.db == db
      ensures steady == (old(steady) && (job.Some? ==> KeepsRead(old(this.canon), canon, job.value)))
    {
      steady := steady && (job.Some? ==> KeepsRead(this.canon, canon, job.value));
      this.canon, this.db := canon, db;
    }

    /** The numbers that the job has read name the same blocks. */
    ghost predicate KeepsRead(before: map<nat, Hash>, after: map<nat, Hash>, j: Job) {
      forall n: nat :: j.section * sectionSize <= n < j.number ==> n in before && n in after && after[n] == before[n]
    }

    /** updateLoop up to releasing the lock: picks the next section. */
    method Begin()
      requires Valid() && job.None? && noticeCut.None?
      modifies this`job, this`steady
      ensures Valid()
      ensures job == if knownSections > storedSections then Some(NewJob(Now().index, sectionSize)) else None
      ensures steady
    {
      steady := true;
      if knownSections > storedSections {
        assert !overlapped && storedSections > 0 ==> SectionLinked(tree, sectionSize, heads, storedSections - 1);
        var oldHead := HeadBelow(heads, storedSections);
        job := Some(Job(storedSections, oldHead, storedSections * sectionSize, oldHead, false));
      }
    }

    /** The backend refuses the section: without the lock, everything is going to be invalidated. */
    method Refuse()
      requires Valid() && refusalCut.None?
      requires job.Some? && Refusable(job.value, sectionSize)
      modifies this`refusalCut, this`overlapped
      ensures Valid() && refusalCut == Some(Cut(0, Testing)) && overlapped == (old(overlapped) || noticeCut.Some?)
    {
      refusalCut := Some(Cut(0, Testing));
      overlapped := overlapped || noticeCut.Some?;
    }

    /** One statement of the refused section's cut; after the last one the section has failed. */
    method StepRefusal()
      requires Valid() && refusalCut.Some?
      modifies this`storedSections, this`heads, this`refusalCut, this`job
      ensures Valid()
      ensures (Now().index, refusalCut) == CutStep(old(Now()).index, old(refusalCut).value)
      ensures job == if refusalCut.None? then Failed(old(job)) else old(job)
    {
      var (index, next) := CutStep(Index(storedSections, heads), refusalCut.value);
      if !overlapped {
        CutStepSound(tree, sectionSize, Index(storedSections, heads), refusalCut.value);
      }
      storedSections, heads, refusalCut := index.stored, index.heads, next;
      if next.None? {
        job := Some(job.value.(failed := true));
      }
    }

    /** One block of processSection: reads what is canonical now, and fails unless it continues the last block. */
    method ProcessBlock(ok: bool)
      requires Valid() && refusalCut.None?
      requires job.Some? && Reading(job.value, sectionSize)
      modifies this`job
      ensures Valid() && job == Some(AfterBlock(tree, canon, db, old(job).value, ok))
    {
      var j := job.value;
      var hash := if j.number in canon then canon[j.number] else NO_HASH;
      if hash == NO_HASH || hash !in db || tree[hash].number != j.number || tree[hash].parent != j.lastHead || !ok {
        job := Some(j.(failed := true));
        return;
      }
      if !overlapped {
        LinkOn(tree, sectionSize, storedSections, j, hash);
      }
      if steady {
        ReadOn(tree, sectionSize, canon, j, hash);
      }
      job := Some(j.(number := j.number + 1, lastHead := hash));
    }

    /** updateLoop from retaking the lock: records the section if it succeeded and nothing below it has been
        invalidated. If the chain has kept what the job read, the head recorded is canonical; otherwise it need not be,
        and a notice that came meanwhile for just this section has had nothing to cut. */
    method End(ok: bool)
      requires Valid() && noticeCut.None? && refusalCut.None?
      requires job.Some? && Through(job.value, sectionSize)
      modifies this`storedSections, this`heads, this`knownSections, this`cascadedHead, this`job
      ensures Valid() && job.None?
      ensures Recorded(old(heads), old(job).value, ok) ==>
                var j := old(job).value;
                && Now().index == WithSection(old(Now()).index, j)
                && knownSections == old(knownSections)
                && (!overlapped ==> old(storedSections) == j.section && heads == old(heads)[j.section := j.lastHead])
                && (steady ==> LastOf(j) in canon && canon[LastOf(j)] == j.lastHead)
      ensures !Recorded(old(heads), old(job).value, ok) ==>
                storedSections == old(storedSections) && heads == old(heads) && knownSections == storedSections
    {
      var j := job.value;
      if Recorded(heads, j, ok) {
        Completed(tree, sectionSize, canon, j, steady);
        if !overlapped {
          Completes(tree, sectionSize, heads, storedSections, j);
        }
        heads := heads[j.section := j.lastHead];
        SetValidSections(j.section + 1);
        assert !overlapped ==> heads == old(heads)[j.section := j.lastHead];
        cascadedHead := storedSections * sectionSize - 1;
      } else {
        knownSections := storedSections;
      }
      job := None;
    }

    /** The number of the last block of the job's section. */
    function LastOf(j: Job): int {
      (j.section + 1) * sectionSize - 1
    }

    function Now(): Snapshot
      reads this
    {
      Snapshot(canon, db, knownSections, Index(storedSections, heads), job, noticeCut, refusalCut)
    }

    /** One step, if it applies. */
    method Take(step: Step)
      requires Valid()
      modifies this
      ensures Valid()
      ensures Now() == Next(old(Now()), step, sectionSize, confirmsReq, tree)
      ensures overlapped == (old(overlapped) || BothCutting(Now()))
    {
      assert sectionSize > 0 && db <= tree.Keys;
      assert (BothCutting(Now()) ==> overlapped) && (refusalCut.Some? ==> job.Some?);
      hide ChainIndexer.Valid, ChainIndexer.KeepsRead, CutStep, HeadBelow, Continues;
      match step {
        case Notice(head, reorg) => if noticeCut.None? { NewHead(head, reorg); }
        case NoticeCuts => if noticeCut.Some? { StepNotice(); }
        case ChainMoves(canon', db') => if db' <= tree.Keys { MoveChain(canon', db'); }
        case Start => if job.None? && noticeCut.None? { Begin(); }
        case Refuse => if job.Some? && refusalCut.None? && Refusable(job.value, sectionSize) { Refuse(); }
        case RefusalCuts => if refusalCut.Some? { StepRefusal(); }
        case Process(ok) => if job.Some? && refusalCut.None? && Reading(job.value, sectionSize) { ProcessBlock(ok); }
        case Finish(ok) =>
          if job.Some? && noticeCut.None? && refusalCut.None? && Through(job.value, sectionSize) { End(ok); }
      }
    }

    /** Any interleaving. Heads always end their sections. Two cuts have overlapped exactly if they were both at work at
        some moment of the run, for which it takes a refusal and a reorg notice; as long as they have not, the heads are
        one chain whenever no cut is at work. */
    method Run(steps: seq<Step>) returns (ghost moments: seq<Snapshot>)
      requires Valid()
      modifies this
      ensures Valid() && |moments| == |steps| + 1 && moments[0] == old(Now()) && moments[|steps|] == Now()
      ensures forall i :: 0 <= i < |steps| ==>
                moments[i + 1] == Next(moments[i], steps[i], sectionSize, confirmsReq, tree)
      ensures overlapped <==> old(overlapped) || exists i :: 0 <= i < |moments| && BothCutting(moments[i])
      ensures !overlapped && noticeCut.None? && refusalCut.None? ==> OneChain(tree, sectionSize, heads, storedSections)
      ensures old(refusalCut).None? && (forall i :: 0 <= i < |steps| ==> !steps[i].Refuse?) ==>
                overlapped == old(overlapped) && refusalCut.None?
      ensures old(noticeCut).None? && (forall i :: 0 <= i < |steps| ==> !StartsNotice(steps[i])) ==>
                overlapped == old(overlapped) && noticeCut.None?
    {
      assert BothCutting(Now()) ==> overlapped;
      hide ChainIndexer.Valid, Next;
      moments := [Now()];
      for i := 0 to |steps|
        invariant Valid() && |moments| == i + 1 && moments[0] == old(Now()) && moments[i] == Now()
        invariant forall k :: 0 <= k < i ==>
                    moments[k + 1] == Next(moments[k], steps[k], sectionSize, confirmsReq, tree)
        invariant overlapped <==> old(overlapped) || exists k :: 0 <= k < |moments| && BothCutting(moments[k])
        invariant old(refusalCut).None? && (forall k :: 0 <= k < i ==> !steps[k].Refuse?) ==>
                    overlapped == old(overlapped) && refusalCut.None?
        invariant old(noticeCut).None? && (forall k :: 0 <= k < i ==> !StartsNotice(steps[k])) ==>
                    overlapped == old(overlapped) && noticeCut.None?
      {
        OnlyTheyStart(Now(), steps[i], sectionSize, confirmsReq, tree);
        Take(steps[i]);
        ghost var before := moments;
        moments := moments + [Now()];
        assert moments[i + 1] == Now() && forall k :: 0 <= k <= i ==> moments[k] == before[k];
      }
      AtRest();
    }

    lemma AtRest()
      requires Valid()
      ensures !overlapped && noticeCut.None? && refusalCut.None? ==> OneChain(tree, sectionSize, heads, storedSections)
    {
    }
  }

  /** A notice between the last read and the end of a section does not undo it: the chain replaces block 7, the only
      block of section 0, by block 8 and says so, and still 7 is recorded. */
  method AbandonedHeadRecorded() returns (recorded: Hash, canonical: Hash)
    ensures recorded == 7 && canonical == 8
  {
    hide ChainIndexer.Valid, ChainIndexer.KeepsRead;
    var indexer := SectionRead();
    indexer.MoveChain(map[0 := 8], {7, 8});
    indexer.NewHead(0, true);
    indexer.End(true);
    recorded, canonical := indexer.heads[0], indexer.canon[0];
  }

  method SectionRead() returns (indexer: ChainIndexer)
    ensures fresh(indexer) && indexer.Valid() && indexer.sectionSize == 1
    ensures indexer.tree == map[7 := Header(7, NO_HASH, 0, 1), 8 := Header(8, NO_HASH, 0, 1)]
    ensures indexer.job == Some(Job(0, NO_HASH, 1, 7, false)) && indexer.storedSections == 0 && indexer.heads == map[]
    ensures indexer.noticeCut.None? && indexer.refusalCut.None?
  {
    hide ChainIndexer.Valid, ChainIndexer.KeepsRead;
    indexer := new ChainIndexer(1, 0, map[7 := Header(7, NO_HASH, 0, 1), 8 := Header(8, NO_HASH, 0, 1)]);
    indexer.MoveChain(map[0 := 7], {7, 8});
    indexer.NewHead(0, false);
    indexer.Begin();
    assert indexer.job == Some(Job(0, NO_HASH, 0, NO_HASH, false));
    indexer.ProcessBlock(true);
  }

  lemma {:induction false} BackSplits(tree: Headers, h: Hash, a: nat, b: nat)
    requires Back(tree, h, a).Some?
    ensures Back(tree, h, a + b) == Back(tree, Back(tree, h, a).value, b)
    decreases a
  {
    if a > 0 {
      BackSplits(tree, tree[h].parent, a - 1, b);
    }
  }

  /** All stored heads lie on one branch: each is reached from every later one by the blocks in between. */
  lemma {:induction false} HeadsOnOneBranch(tree: Headers, size: nat, heads: map<nat, Hash>, stored: nat, j: nat,
                                            k: nat)
    requires OneChain(tree, size, heads, stored) && j <= k < stored
    ensures j in heads && k in heads && Back(tree, heads[k], (k - j) * size) == Some(heads[j])
    decreases k
  {
    assert SectionLinked(tree, size, heads, k);
    if j < k {
      HeadsOnOneBranch(tree, size, heads, stored, j, k - 1);
      BackSplits(tree, heads[k], size, (k - 1 - j) * size);
      assert size + (k - 1 - j) * size == (k - j) * size;
    }
  }

  /** Two databases with the same newest head have the same heads: the newest one determines all below it. */
  lemma {:induction false} NewestDetermines(tree: Headers, size: nat, a: map<nat, Hash>, b: map<nat, Hash>, stored: nat)
    requires OneChain(tree, size, a, stored) && OneChain(tree, size, b, stored)
    requires stored > 0 && stored - 1 in a && stored - 1 in b && a[stored - 1] == b[stored - 1]
    ensures a == b
  {
    forall j: nat | j < stored ensures j in a && j in b && a[j] == b[j] {
      HeadsOnOneBranch(tree, size, a, stored, j, stored - 1);
      HeadsOnOneBranch(tree, size, b, stored, j, stored - 1);
    }
  }

  function Min(a: nat, b: nat): nat {
    if a < b then a else b
  }

  function Max(a: nat, b: nat): nat {
    if a < b then b else a
  }

  /** Removing the heads at and above a lower count leaves one chain. */
  lemma Shrinks(tree: Headers, size: nat, heads: map<nat, Hash>, stored: nat, sections: nat)
    requires OneChain(tree, size, heads, stored) && sections <= stored
    ensures OneChain(tree, size, map k | k in heads && !(sections <= k < stored) :: heads[k], sections)
  {
    var less := map k | k in heads && !(sections <= k < stored) :: heads[k];
    forall k: nat | k < sections ensures SectionLinked(tree, size, less, k) {
      assert SectionLinked(tree, size, heads, k);
      assert HeadBelow(less, k) == HeadBelow(heads, k);
    }
  }

  lemma LinkOn(tree: Headers, size: nat, stored: nat, job: Job, hash: Hash)
    requires JobSound(tree, size, stored, job) && hash in tree && hash != NO_HASH && tree[hash].parent == job.lastHead
    requires job.number < (job.section + 1) * size
    ensures JobSound(tree, size, stored, job.(number := job.number + 1, lastHead := hash))
  {
  }

  lemma ReadOn(tree: Headers, size: nat, canon: map<nat, Hash>, job: Job, hash: Hash)
    requires JobCanonical(tree, size, canon, job) && job.number in canon && canon[job.number] == hash
    requires hash in tree && tree[hash].parent == job.lastHead && job.section * size <= job.number
    ensures JobCanonical(tree, size, canon, job.(number := job.number + 1, lastHead := hash))
  {
    var job' := job.(number := job.number + 1, lastHead := hash);
    forall n: nat | job.section * size <= n < job'.number
      ensures n in canon && Back(tree, hash, job'.number - 1 - n) == Some(canon[n])
    {
      if n < job.number {
        assert Back(tree, hash, job.number - n) == Back(tree, job.lastHead, job.number - n - 1);
      }
    }
  }

  /** A section read to its end: its head has the last number of the section, and is canonical if the reads still
      are. */
  lemma Completed(tree: Headers, size: nat, canon: map<nat, Hash>, job: Job, steady: bool)
    requires size > 0 && JobNumbered(tree, size, job) && job.number == (job.section + 1) * size
    requires steady ==> JobCanonical(tree, size, canon, job)
    ensures job.lastHead in tree && tree[job.lastHead].number == (job.section + 1) * size - 1
    ensures steady ==> (job.section + 1) * size - 1 in canon && canon[(job.section + 1) * size - 1] == job.lastHead
  {
    assert (job.section + 1) * size == job.section * size + size;
    if steady {
      assert Back(tree, job.lastHead, 0) == Some(canon[job.number - 1]);
    }
  }

  /** If the head the section continues from is still there, no section below it has been invalidated since, so the
      section is the next one and extends the chain. */
  lemma Completes(tree: Headers, size: nat, heads: map<nat, Hash>, stored: nat, job: Job)
    requires OneChain(tree, size, heads, stored) && JobSound(tree, size, stored, job) && size > 0
    requires job.number == (job.section + 1) * size && job.oldHead == HeadBelow(heads, job.section)
    ensures stored == job.section && OneChain(tree, size, heads[job.section := job.lastHead], stored + 1)
  {
    var more := heads[job.section := job.lastHead];
    assert job.number - job.section * size == size;
    forall k: nat | k < stored + 1 ensures SectionLinked(tree, size, more, k) {
      assert k < stored ==> SectionLinked(tree, size, heads, k);
      assert HeadBelow(more, k) == HeadBelow(heads, k);
    }
  }
}
