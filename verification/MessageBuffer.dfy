/** The eth messages of a peer: the reader appends to a buffer and sets a one-slot signal (eth/dispatcher.go,
    eth/peer.go), the handler works through snapshots of the buffer and waits for the signal (eth/storagehandler.go).
    Every lock-protected access and every channel operation is one step; reader and handler interleave freely. */
module MessageBuffers {
  import opened Wrappers

  type Msg = nat

  /** Where ethMsgHandler is. `todo` is what is left of its snapshot. */
  datatype Handler =
    | Snapshotting               // about to read the buffer: at the start, or after a wake-up
    | Looping(todo: seq<Msg>)    // at the head of the loop over the snapshot
    | Handled(todo: seq<Msg>)    // has handled the first message of it, not yet removed it from the buffer
    | Waiting                    // in waitEthStartIndicator
    | Stopped                    // told to quit

  /** `pending`: the reader has inserted a message and is about to set the signal. */
  datatype State = State(
    buffer: seq<Msg>,
    signal: bool,
    pending: bool,
    handler: Handler,
    arrived: seq<Msg>,
    handled: seq<Msg>)

  const START := State([], false, false, Snapshotting, [], [])

  datatype Action = Insert(msg: Msg) | Signal | Snapshot | Handle | Update | EndLoop | Wake | Quit

  /** One step; None if it is not possible. Update reslices the buffer, which must not be empty. */
  function Step(s: State, a: Action): Option<State> {
    match a
    case Insert(msg) =>
      if s.pending then None else Some(s.(buffer := s.buffer + [msg], arrived := s.arrived + [msg], pending := true))
    case Signal =>
      if s.pending then Some(s.(pending := false, signal := true)) else None
    case Snapshot =>
      if s.handler.Snapshotting? then Some(s.(handler := Looping(s.buffer))) else None
    case Handle =>
      if s.handler.Looping? && s.handler.todo != []
      then Some(s.(handler := Handled(s.handler.todo), handled := s.handled + [s.handler.todo[0]])) else None
    case Update =>
      if s.handler.Handled? && s.handler.todo != [] && s.buffer != []
      then Some(s.(handler := Looping(s.handler.todo[1..]), buffer := s.buffer[1..])) else None
    case EndLoop =>
      if s.handler == Looping([]) then Some(s.(handler := Waiting)) else None
    case Wake =>
      if s.handler.Waiting? && s.signal then Some(s.(handler := Snapshotting, signal := false)) else None
    case Quit =>
      if s.handler.Waiting? then Some(s.(handler := Stopped)) else None
  }

  /** What the handler has not seen yet is announced. */
  ghost predicate Announced(s: State) {
    match s.handler
    case Looping(todo) => |s.buffer| > |todo| ==> s.signal || s.pending
    case Handled(todo) => |s.buffer| > |todo| ==> s.signal || s.pending
    case Waiting => s.buffer != [] ==> s.signal || s.pending
    case _ => true
  }

  ghost predicate Inv(s: State) {
    && (if s.handler.Handled? then s.buffer != [] && s.handled + s.buffer[1..] == s.arrived
        else s.handled + s.buffer == s.arrived)
    && (s.handler.Looping? || s.handler.Handled? ==> s.handler.todo <= s.buffer)
    && (s.handler.Handled? ==> s.handler.todo != [])
    && Announced(s)
  }

  lemma InvKept(s: State, a: Action, s': State)
    requires Inv(s) && Step(s, a) == Some(s')
    ensures Inv(s')
  {
    match a
    case Insert(msg) =>
      if s.handler.Handled? {
        assert s'.buffer[1..] == s.buffer[1..] + [msg];
      }
      assert s.handled + (s.buffer + [msg]) == (s.handled + s.buffer) + [msg];
    case Handle =>
      assert s.handled + s.buffer == (s.handled + [s.buffer[0]]) + s.buffer[1..];
    case Update =>
    case _ =>
  }

  ghost predicate IsRun(states: seq<State>, actions: seq<Action>) {
    && |states| == |actions| + 1 && states[0] == START
    && forall i {:trigger actions[i]} :: 0 <= i < |actions| ==> Step(states[i], actions[i]) == Some(states[i + 1])
  }

  lemma {:induction false} RunKeepsInv(states: seq<State>, actions: seq<Action>, n: nat)
    requires IsRun(states, actions) && n < |states|
    ensures Inv(states[n])
    decreases n
  {
    if n > 0 {
      RunKeepsInv(states, actions, n - 1);
      assert Step(states[n - 1], actions[n - 1]) == Some(states[n - 1 + 1]);
      InvKept(states[n - 1], actions[n - 1], states[n]);
    }
  }

  /** In every interleaving: the messages handled are the first that arrived, in order and once each; after a message is
      handled the buffer is never empty when it is resliced; and a handler that waits while there is something to handle
      has a signal, or one on its way. */
  lemma RunIsSafe(states: seq<State>, actions: seq<Action>, n: nat)
    requires IsRun(states, actions) && n < |states|
    ensures states[n].handled <= states[n].arrived
    ensures states[n].handler.Handled? ==> Step(states[n], Update).Some?
    ensures states[n].handler.Waiting? && states[n].handled != states[n].arrived ==>
              states[n].signal || states[n].pending
  {
    RunKeepsInv(states, actions, n);
  }

  // ---------- the handler on its own ----------

  /** The handler's next step, when the reader rests. */
  function HandlerAction(s: State): Action {
    match s.handler
    case Snapshotting => Snapshot
    case Looping(todo) => if todo != [] then Handle else EndLoop
    case Handled(_) => Update
    case Waiting => Wake
    case Stopped => Quit
  }

  function Rank(h: Handler): nat {
    match h
    case Handled(_) => 0
    case Looping(todo) => if todo != [] then 1 else 4
    case Snapshotting => 2
    case Waiting => 3
    case Stopped => 0
  }

  /** From any state of any run in which the handler has not been told to quit: if no more messages arrive and the
      reader only sets the signal it may still owe, the handler gets through everything that has arrived. No wake-up is
      lost. */
  lemma {:induction false} HandlerCatchesUp(s: State) returns (actions: seq<Action>, last: State)
    requires Inv(s) && !s.handler.Stopped?
    ensures Leads(s, actions, last) && last.handled == last.arrived == s.arrived
    ensures forall a :: a in actions ==> !a.Insert? && !a.Quit? && (a.Signal? ==> s.pending)
    decreases s.pending, |s.buffer|, Rank(s.handler)
  {
    if s.handled == s.arrived {
      return [], s;
    }
    var a := if s.pending then Signal else HandlerAction(s);
    assert Step(s, a).Some?;
    var s' := Step(s, a).value;
    InvKept(s, a, s');
    assert s.handler.Waiting? && !s.pending ==> s.signal;
    var rest;
    rest, last := HandlerCatchesUp(s');
    actions := [a] + rest;
  }

  ghost predicate Leads(s: State, actions: seq<Action>, last: State)
    decreases |actions|
  {
    if actions == [] then s == last else
      Step(s, actions[0]).Some? && Leads(Step(s, actions[0]).value, actions[1..], last)
  }
}
