/** Taking several locks at once (common/trylock.go), as the steps that any number of threads take in any order. */
module TryLocks {
  import opened Wrappers

  type Thread = nat
  type LockId = nat

  /** Where a thread is in Lock and lockHelper. */
  datatype Pc =
    | Idle
    | AtHard(locks: seq<LockId>, hard: nat)                            // about to block on the hard lock
    | Trying(locks: seq<LockId>, hard: nat, i: nat)                    // the loop over the other locks, at i
    | Unlocking(locks: seq<LockId>, hard: nat, failed: nat, j: nat)    // locks[failed] was busy: undoing, at j
    | UnlockingHard(locks: seq<LockId>, hard: nat, failed: nat)        // the hard lock lies behind the failed one
    | Returned(held: seq<LockId>)                                      // Lock has returned; the caller unlocks

  /** `owner` has the locked locks. */
  datatype State = State(threads: map<Thread, Pc>, owner: map<LockId, Thread>) {
    function At(t: Thread): Pc { if t in threads then threads[t] else Idle }
    function Goto(t: Thread, pc: Pc): State { this.(threads := threads[t := pc]) }
    function Take(l: LockId, t: Thread): State { this.(owner := owner[l := t]) }
    function Free(l: LockId): State { this.(owner := owner - {l}) }
  }

  datatype Action =
    | Call(locks: seq<LockId>)
    | LockHard
    | SkipHard
    | TrySucceeds
    | TryFails
    | Unlock
    | Return
    | Release(i: nat)

  ghost predicate Distinct(locks: seq<LockId>) {
    forall i, j :: 0 <= i < j < |locks| ==> locks[i] != locks[j]
  }

  /** One step of one thread; None if it is not its turn. TryLock compares the whole word of the mutex, so it may fail
      on a free lock that has waiters. */
  ghost function Step(s: State, t: Thread, a: Action): Option<State> {
    match (s.At(t), a)
    case (Idle, Call(locks)) =>
      if !Distinct(locks) then None
      else Some(s.Goto(t, if locks == [] then Returned([]) else AtHard(locks, 0)))
    case (AtHard(locks, hard), LockHard) =>
      if hard >= |locks| || locks[hard] in s.owner then None
      else Some(s.Take(locks[hard], t).Goto(t, Trying(locks, hard, 0)))
    case (Trying(locks, hard, i), SkipHard) =>
      if i < |locks| && i == hard then Some(s.Goto(t, Trying(locks, hard, i + 1))) else None
    case (Trying(locks, hard, i), TrySucceeds) =>
      if i < |locks| && i != hard && locks[i] !in s.owner
      then Some(s.Take(locks[i], t).Goto(t, Trying(locks, hard, i + 1))) else None
    case (Trying(locks, hard, i), TryFails) =>
      if i < |locks| && i != hard then Some(s.Goto(t, Unlocking(locks, hard, i, 0))) else None
    case (Trying(locks, hard, i), Return) =>
      if i >= |locks| then Some(s.Goto(t, Returned(locks))) else None
    case (Unlocking(locks, hard, failed, j), Unlock) =>
      if j >= |locks| then None
      else if j != failed then Some(s.Free(locks[j]).Goto(t, Unlocking(locks, hard, failed, j + 1)))
      else if hard > failed then Some(s.Goto(t, UnlockingHard(locks, hard, failed)))
      else Some(s.Goto(t, AtHard(locks, failed)))
    case (UnlockingHard(locks, hard, failed), Unlock) =>
      if hard >= |locks| then None else Some(s.Free(locks[hard]).Goto(t, AtHard(locks, failed)))
    case (Returned(held), Release(i)) =>
      if held == [] then Some(s.Goto(t, Idle))
      else if i < |held| then Some(s.Free(held[i]).Goto(t, Returned(held[..i] + held[i + 1..])))
      else None
    case _ => None
  }

  /** The lock that a step unlocks. */
  ghost function Unlocked(pc: Pc, a: Action): Option<LockId> {
    match (pc, a)
    case (Unlocking(locks, _, failed, j), Unlock) => if j < |locks| && j != failed then Some(locks[j]) else None
    case (UnlockingHard(locks, hard, _), Unlock) => if hard < |locks| then Some(locks[hard]) else None
    case (Returned(held), Release(i)) => if i < |held| then Some(held[i]) else None
    case _ => None
  }

  /** The locks a thread has, by where it is. */
  ghost function Holds(pc: Pc): set<LockId> {
    match pc
    case Idle => {}
    case AtHard(_, _) => {}
    case Trying(locks, hard, i) => set k | 0 <= k < |locks| && (k < i || k == hard) :: locks[k]
    case Unlocking(locks, hard, failed, j) =>
      set k | 0 <= k < |locks| && (j <= k < failed || (k == hard && hard > failed)) :: locks[k]
    case UnlockingHard(locks, hard, _) => if hard < |locks| then {locks[hard]} else {}
    case Returned(held) => set l | l in held
  }

  ghost predicate WellFormed(pc: Pc) {
    match pc
    case Idle => true
    case AtHard(locks, hard) => Distinct(locks) && hard < |locks|
    case Trying(locks, hard, i) => Distinct(locks) && hard < |locks| && i <= |locks|
    case Unlocking(locks, hard, failed, j) =>
      Distinct(locks) && hard < |locks| && failed < |locks| && failed != hard && j <= failed
    case UnlockingHard(locks, hard, failed) => Distinct(locks) && failed < hard < |locks|
    case Returned(held) => Distinct(held)
  }

  /** Every lock is owned by exactly the thread that has it. */
  ghost predicate Inv(s: State) {
    && (forall t {:trigger s.At(t)} :: WellFormed(s.At(t)))
    && (forall l, t {:trigger l in Holds(s.At(t))} :: l in Holds(s.At(t)) <==> l in s.owner && s.owner[l] == t)
  }

  // ---------- every step ----------

  lemma TakenNext(locks: seq<LockId>, hard: nat, i: nat)
    requires i < |locks|
    ensures Holds(Trying(locks, hard, i + 1)) == Holds(Trying(locks, hard, i)) + {locks[i]}
    ensures i == hard ==> locks[i] in Holds(Trying(locks, hard, i))
  {
  }

  lemma UndoStarts(locks: seq<LockId>, hard: nat, i: nat)
    requires i < |locks| && i != hard
    ensures Holds(Unlocking(locks, hard, i, 0)) == Holds(Trying(locks, hard, i))
  {
  }

  lemma AllTaken(locks: seq<LockId>, hard: nat, i: nat)
    requires i >= |locks|
    ensures Holds(Returned(locks)) == Holds(Trying(locks, hard, i))
  {
    forall l | l in locks ensures l in Holds(Trying(locks, hard, i)) {
      var k :| 0 <= k < |locks| && locks[k] == l;
    }
  }

  lemma Undone(locks: seq<LockId>, hard: nat, failed: nat, j: nat)
    requires WellFormed(Unlocking(locks, hard, failed, j))
    ensures j < failed ==> locks[j] in Holds(Unlocking(locks, hard, failed, j))
    ensures j < failed ==>
              Holds(Unlocking(locks, hard, failed, j + 1)) == Holds(Unlocking(locks, hard, failed, j)) - {locks[j]}
    ensures j == failed ==> Holds(Unlocking(locks, hard, failed, j)) == if hard > failed then {locks[hard]} else {}
  {
  }

  lemma Released(held: seq<LockId>, i: nat)
    requires Distinct(held) && i < |held|
    ensures Holds(Returned(held[..i] + held[i + 1..])) == Holds(Returned(held)) - {held[i]}
    ensures held[i] in Holds(Returned(held)) && Distinct(held[..i] + held[i + 1..])
  {
    var rest := held[..i] + held[i + 1..];
    assert forall k :: 0 <= k < |rest| ==> rest[k] == held[if k < i then k else k + 1];
    forall l | l in held && l != held[i] ensures l in rest {
      var k :| 0 <= k < |held| && held[k] == l;
      assert rest[if k < i then k else k - 1] == l;
    }
  }

  /** The lock that a step takes. */
  ghost function Locked(pc: Pc, a: Action): Option<LockId> {
    match (pc, a)
    case (AtHard(locks, hard), LockHard) => if hard < |locks| then Some(locks[hard]) else None
    case (Trying(locks, hard, i), TrySucceeds) => if i < |locks| then Some(locks[i]) else None
    case _ => None
  }

  ghost function Single(l: Option<LockId>): set<LockId> {
    if l.Some? then {l.value} else {}
  }

  /** A step takes at most one lock, a free one, or unlocks at most one; nothing else changes. */
  lemma StepOwner(s: State, t: Thread, a: Action, s': State)
    requires Step(s, t, a) == Some(s')
    ensures Single(Locked(s.At(t), a)) !! s.owner.Keys
    ensures Locked(s.At(t), a).None? || Unlocked(s.At(t), a).None?
    ensures s'.owner == match (Locked(s.At(t), a), Unlocked(s.At(t), a))
                        case (Some(l), _) => s.owner[l := t]
                        case (None, Some(l)) => s.owner - {l}
                        case (None, None) => s.owner
    ensures forall u :: u != t ==> s'.At(u) == s.At(u)
  {
  }

  /** What the thread has changes by exactly that, and it unlocks only what it has. */
  lemma StepHolds(s: State, t: Thread, a: Action, s': State)
    requires WellFormed(s.At(t)) && Step(s, t, a) == Some(s')
    ensures WellFormed(s'.At(t))
    ensures Holds(s'.At(t)) == Holds(s.At(t)) + Single(Locked(s.At(t), a)) - Single(Unlocked(s.At(t), a))
    ensures Single(Unlocked(s.At(t), a)) <= Holds(s.At(t))
  {
    hide Holds;
    HoldsNothing(s.At(t));
    match s.At(t) {
      case Idle => HoldsNothing(s'.At(t));
      case AtHard(locks, hard) => OnlyHard(locks, hard);
      case Trying(locks, hard, i) =>
        if i < |locks| {
          TakenNext(locks, hard, i);
          if i != hard { UndoStarts(locks, hard, i); }
        } else {
          AllTaken(locks, hard, i);
        }
      case Unlocking(locks, hard, failed, j) =>
        Undone(locks, hard, failed, j);
        HoldsNothing(s'.At(t));
      case UnlockingHard(_, _, _) => HoldsNothing(s'.At(t));
      case Returned(held) =>
        if held != [] { Released(held, a.i); }
        HoldsNothing(s'.At(t));
    }
  }

  lemma HoldsNothing(pc: Pc)
    ensures pc.Idle? || pc.AtHard? || pc == Returned([]) ==> Holds(pc) == {}
    ensures pc.UnlockingHard? && pc.hard < |pc.locks| ==> Holds(pc) == {pc.locks[pc.hard]}
  {
  }

  lemma OnlyHard(locks: seq<LockId>, hard: nat)
    requires hard < |locks|
    ensures Holds(Trying(locks, hard, 0)) == {locks[hard]}
  {
  }

  /** Ownership and position agree after every step. */
  lemma InvKept(s: State, t: Thread, a: Action, s': State)
    requires Inv(s) && Step(s, t, a) == Some(s')
    ensures Inv(s')
  {
    hide Step, Holds, WellFormed, Locked, Unlocked;
    assert WellFormed(s.At(t));
    StepHolds(s, t, a, s');
    StepOwner(s, t, a, s');
    forall u ensures WellFormed(s'.At(u)) {
      assert WellFormed(s.At(u));
    }
    forall l, u ensures l in Holds(s'.At(u)) <==> l in s'.owner && s'.owner[l] == u {
      assert l in Holds(s.At(u)) <==> l in s.owner && s.owner[l] == u;
      assert l in Holds(s.At(t)) <==> l in s.owner && s.owner[l] == t;
    }
  }

  // ---------- whole runs ----------

  const START := State(map[], map[])

  datatype Event = Event(thread: Thread, action: Action)

  /** A run of any number of threads: states and the steps between them. */
  ghost predicate IsRun(states: seq<State>, events: seq<Event>) {
    && |states| == |events| + 1 && states[0] == START
    && forall i {:trigger events[i]} :: 0 <= i < |events| ==>
         Step(states[i], events[i].thread, events[i].action) == Some(states[i + 1])
  }

  lemma {:induction false} RunKeepsInv(states: seq<State>, events: seq<Event>, n: nat)
    requires IsRun(states, events) && n < |states|
    ensures Inv(states[n])
    decreases n
  {
    if n == 0 {
      assert forall t :: START.At(t) == Idle;
    } else {
      RunKeepsInv(states, events, n - 1);
      assert Step(states[n - 1], events[n - 1].thread, events[n - 1].action) == Some(states[n - 1 + 1]);
      InvKept(states[n - 1], events[n - 1].thread, events[n - 1].action, states[n]);
    }
  }

  /** t can go no further until u unlocks. */
  ghost predicate WaitsFor(s: State, t: Thread, u: Thread) {
    s.At(t).AtHard? && s.At(t).hard < |s.At(t).locks| && s.At(t).locks[s.At(t).hard] in s.owner
    && s.owner[s.At(t).locks[s.At(t).hard]] == u
  }

  /** In every state of every run: a thread waits only while it has no lock at all, and a returned call has every lock
      it asked for, whoever else is running. */
  lemma RunIsSafe(states: seq<State>, events: seq<Event>, n: nat, t: Thread, u: Thread)
    requires IsRun(states, events) && n < |states|
    ensures WaitsFor(states[n], t, u) ==> forall l :: l in states[n].owner ==> states[n].owner[l] != t
    ensures states[n].At(t).Returned? ==>
              forall l :: l in states[n].At(t).held ==> l in states[n].owner && states[n].owner[l] == t
    ensures states[n].At(t).Idle? ==> forall l :: l in states[n].owner ==> states[n].owner[l] != t
  {
    RunKeepsInv(states, events, n);
    var s := states[n];
    forall l ensures l in Holds(s.At(t)) <==> l in s.owner && s.owner[l] == t {
    }
  }

  /** Waiting never chains: whoever is waited for does not wait. So the wait-for graph has no path of two edges, and no
      cycle of any length. */
  lemma NoCycle(states: seq<State>, events: seq<Event>, n: nat, cycle: seq<Thread>)
    requires IsRun(states, events) && n < |states| && |cycle| > 0
    ensures !(forall i :: 0 <= i < |cycle| ==>
                WaitsFor(states[n], cycle[i], cycle[if i + 1 < |cycle| then i + 1 else 0]))
  {
    var next := if 1 < |cycle| then cycle[1] else cycle[0];
    RunKeepsInv(states, events, n);
    var s := states[n];
    if WaitsFor(s, cycle[0], next) {
      assert s.At(cycle[0]).locks[s.At(cycle[0]).hard] in Holds(s.At(next));
      assert !s.At(next).AtHard?;
      assert !WaitsFor(s, next, cycle[if 2 < |cycle| then 2 else 0]);
      var i := if 1 < |cycle| then 1 else 0;
      assert cycle[i] == next;
    }
  }

  /** Whoever is waited for can take a step, so some thread always can. */
  lemma NoDeadlock(states: seq<State>, events: seq<Event>, n: nat, t: Thread, u: Thread)
    requires IsRun(states, events) && n < |states| && WaitsFor(states[n], t, u)
    ensures exists a :: Step(states[n], u, a).Some?
  {
    RunKeepsInv(states, events, n);
    var s := states[n];
    assert s.At(t).locks[s.At(t).hard] in Holds(s.At(u));
    assert WellFormed(s.At(u));
    match s.At(u) {
      case Idle =>
      case AtHard(_, _) =>
      case Trying(locks, hard, i) =>
        assert if i >= |locks| then Step(s, u, Return).Some?
               else if i == hard then Step(s, u, SkipHard).Some?
               else Step(s, u, TryFails).Some?;
      case Unlocking(_, _, _, _) => assert Step(s, u, Unlock).Some?;
      case UnlockingHard(_, _, _) => assert Step(s, u, Unlock).Some?;
      case Returned(_) => assert Step(s, u, Release(0)).Some?;
    }
  }

  /** A step of a run unlocks only a lock that its own thread has locked: no lock is unlocked twice, or for another. */
  lemma UnlocksOwn(states: seq<State>, events: seq<Event>, n: nat)
    requires IsRun(states, events) && n < |events|
    ensures var l := Unlocked(states[n].At(events[n].thread), events[n].action);
            l.Some? ==>
              && l.value in states[n].owner && states[n].owner[l.value] == events[n].thread
              && l.value !in states[n + 1].owner
  {
    RunKeepsInv(states, events, n);
    var s, t, a := states[n], events[n].thread, events[n].action;
    assert Step(s, t, a) == Some(states[n + 1]) && WellFormed(s.At(t));
    StepHolds(s, t, a, states[n + 1]);
    StepOwner(s, t, a, states[n + 1]);
  }

  // ---------- one failed round ----------

  /** The unlocks still to come of a round that failed. */
  ghost function Undoing(pc: Pc): seq<LockId>
    requires WellFormed(pc) && (pc.Unlocking? || pc.UnlockingHard? || pc.AtHard?)
    decreases if pc.AtHard? then 0 else if pc.UnlockingHard? then 1 else pc.failed - pc.j + 2
  {
    match pc
    case Unlocking(locks, hard, failed, j) =>
      if j < failed then [locks[j]] + Undoing(Unlocking(locks, hard, failed, j + 1))
      else if hard > failed then Undoing(UnlockingHard(locks, hard, failed)) else []
    case UnlockingHard(locks, hard, failed) => [locks[hard]]
    case AtHard(_, _) => []
  }

  /** A failed round unlocks exactly what it took, each lock once. */
  lemma {:induction false} FailedRoundUndoes(pc: Pc)
    requires WellFormed(pc) && (pc.Unlocking? || pc.UnlockingHard? || pc.AtHard?)
    ensures Distinct(Undoing(pc)) && forall l :: l in Undoing(pc) <==> l in Holds(pc)
    decreases if pc.AtHard? then 0 else if pc.UnlockingHard? then 1 else pc.failed - pc.j + 2
  {
    match pc
    case Unlocking(locks, hard, failed, j) =>
      Undone(locks, hard, failed, j);
      if j < failed {
        var rest := Undoing(Unlocking(locks, hard, failed, j + 1));
        FailedRoundUndoes(Unlocking(locks, hard, failed, j + 1));
        assert locks[j] !in rest;
      } else if hard > failed {
        FailedRoundUndoes(UnlockingHard(locks, hard, failed));
      }
    case UnlockingHard(_, _, _) =>
    case AtHard(_, _) =>
  }

  /** The unlocks of a failed round are those of its steps, in order. */
  lemma UndoingStepByStep(s: State, t: Thread, s': State)
    requires WellFormed(s.At(t)) && (s.At(t).Unlocking? || s.At(t).UnlockingHard?) && Step(s, t, Unlock) == Some(s')
    ensures WellFormed(s'.At(t)) && (s'.At(t).Unlocking? || s'.At(t).UnlockingHard? || s'.At(t).AtHard?)
    ensures Undoing(s.At(t)) ==
            (if Unlocked(s.At(t), Unlock).Some? then [Unlocked(s.At(t), Unlock).value] else []) + Undoing(s'.At(t))
  {
    var pc := s.At(t);
    if pc.Unlocking? && pc.j == pc.failed {
      assert [] + Undoing(s'.At(t)) == Undoing(s'.At(t));
    }
  }

  /** The thread is undoing a round that failed on the given lock of its list. */
  ghost predicate Undoes(pc: Pc, locks: seq<LockId>, failed: nat) {
    (pc.Unlocking? || pc.UnlockingHard?) && pc.locks == locks && pc.failed == failed
  }

  lemma UndoesOn(s: State, u: Thread, a: Action, s': State, t: Thread, locks: seq<LockId>, failed: nat)
    requires Step(s, u, a) == Some(s')
    requires Undoes(s.At(t), locks, failed) || (u == t && a.TryFails? && s.At(t).locks == locks && s.At(t).i == failed)
    ensures Undoes(s'.At(t), locks, failed) || s'.At(t) == AtHard(locks, failed)
  {
  }

  /** A thread whose attempt on a lock failed undoes its round and then blocks on that lock. */
  lemma {:induction false} BlocksOnBusy(states: seq<State>, events: seq<Event>, t: Thread, m: nat, n: nat)
    requires IsRun(states, events) && m < n < |states| && states[m].At(t).Trying?
    requires events[m] == Event(t, TryFails)
    requires forall k :: m < k < n ==> !states[k].At(t).AtHard?
    ensures var pc := states[m].At(t); var now := states[n].At(t);
            if now.AtHard? then now == AtHard(pc.locks, pc.i) else Undoes(now, pc.locks, pc.i)
  {
    hide Step, Undoes;
    var pc := states[m].At(t);
    var e := events[n - 1];
    assert Step(states[n - 1], e.thread, e.action) == Some(states[n]);
    if n > m + 1 {
      BlocksOnBusy(states, events, t, m, n - 1);
    }
    UndoesOn(states[n - 1], e.thread, e.action, states[n], t, pc.locks, pc.i);
    NotBlocked(states[n].At(t), pc.locks, pc.i);
  }

  lemma NotBlocked(pc: Pc, locks: seq<LockId>, failed: nat)
    ensures Undoes(pc, locks, failed) ==> !pc.AtHard?
  {
  }
}
