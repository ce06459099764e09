/** Feed (event/feed.go): one-to-many sending over select cases kept in one array, of which Send uses a shrinking
    prefix. While Send holds the send lock nobody else touches the send cases: a removal reaches Send through the
    removeSub channel, as one of the outcomes of its select, and Subscribe only touches the inbox, which Send has
    emptied before. So every interleaving is a resolution of the choices inside Send. */
module Feeds {

  type Channel = nat

  /** The channel of the case at index 0, on which Send is told of removals. */
  const REMOVE_SUB: Channel := 0

  const FIRST_SUB_SEND_CASE: nat := 1

  ghost predicate NoRepeats(s: seq<Channel>) {
    forall i, j :: 0 <= i < j < |s| ==> s[i] != s[j]
  }

  function Members(s: seq<Channel>): set<Channel> {
    set c | c in s
  }

  /** caseList.find */
  method Find(cases: array<Channel>, n: nat, channel: Channel) returns (index: int)
    requires n <= cases.Length
    ensures -1 <= index < n
    ensures index >= 0 ==> cases[index] == channel && channel !in cases[..index]
    ensures index == -1 <==> channel !in cases[..n]
  {
    for i := 0 to n
      invariant channel !in cases[..i]
    {
      if cases[i] == channel {
        return i;
      }
      assert cases[..i + 1] == cases[..i] + [cases[i]];
    }
    index := -1;
  }

  /** caseList.delete: shifts the cases behind index down by one, in place. */
  method Delete(cases: array<Channel>, n: nat, index: nat)
    requires index < n <= cases.Length
    modifies cases
    ensures cases[..n - 1] == old(cases[..index] + cases[index + 1..n])
  {
    for k := index to n - 1
      invariant forall i :: 0 <= i < index ==> cases[i] == old(cases[i])
      invariant forall i :: index <= i < k ==> cases[i] == old(cases[i + 1])
      invariant forall i :: k <= i < cases.Length ==> cases[i] == old(cases[i])
    {
      cases[k] := cases[k + 1];
    }
    ghost var was := old(cases[..index] + cases[index + 1..n]);
    assert |was| == n - 1;
    forall i | 0 <= i < n - 1 ensures cases[..n - 1][i] == was[i] {
    }
  }

  /** caseList.deactivate: swaps the case with the last active one and shortens the active prefix. */
  method Deactivate(cases: array<Channel>, active: nat, index: nat) returns (left: nat)
    requires index < active <= cases.Length
    modifies cases
    ensures left == active - 1
    ensures cases[..] == old(cases[..])[index := old(cases[active - 1])][active - 1 := old(cases[index])]
  {
    left := active - 1;
    cases[index], cases[left] := cases[left], cases[index];
  }

  /** What holds at every point of a Send: the first `active` cases still wait for the value, the others of the `n`
      cases have got it. `start` are the channels registered when the lock was taken, `delivered` those served so far,
      `gone` those removed while they waited, `left` those removed after they were served. */
  ghost predicate Sending(cases: seq<Channel>, n: nat, active: nat, start: set<Channel>, delivered: seq<Channel>,
                          gone: set<Channel>, left: set<Channel>) {
    && 1 <= active <= n <= |cases| && cases[0] == REMOVE_SUB && NoRepeats(cases[..n])
    && NoRepeats(delivered) && Members(delivered) !! gone && left <= Members(delivered)
    && Members(cases[1..active]) == start - gone - Members(delivered)
    && Members(cases[active..n]) == Members(delivered) - left
    && Members(delivered) <= start && gone <= start
  }

  /** Serving the active case at index. */
  lemma Served(cases: seq<Channel>, n: nat, active: nat, start: set<Channel>, delivered: seq<Channel>,
               gone: set<Channel>, left: set<Channel>, index: nat, cases': seq<Channel>)
    requires Sending(cases, n, active, start, delivered, gone, left) && 1 <= index < active
    requires cases' == cases[index := cases[active - 1]][active - 1 := cases[index]]
    ensures Sending(cases', n, active - 1, start, delivered + [cases[index]], gone, left)
  {
    var c := cases[index];
    assert c == cases[1..active][index - 1];
    assert c in Members(cases[1..active]);
    assert NoRepeats(delivered + [c]);
    SwapActive(cases, n, active, index, cases');
    assert Members(delivered + [c]) == Members(delivered) + {c};
  }

  lemma SwapActive(cases: seq<Channel>, n: nat, active: nat, index: nat, cases': seq<Channel>)
    requires 1 <= index < active <= n <= |cases| && NoRepeats(cases[..n])
    requires cases' == cases[index := cases[active - 1]][active - 1 := cases[index]]
    ensures NoRepeats(cases'[..n]) && |cases'| == |cases| && cases'[0] == cases[0]
    ensures Members(cases'[1..active - 1]) == Members(cases[1..active]) - {cases[index]}
    ensures Members(cases'[active - 1..n]) == Members(cases[active..n]) + {cases[index]}
  {
    var c := cases[index];
    forall i | 0 <= i < n && i != index ensures cases[i] != c {
      assert cases[..n][i] == cases[i] && cases[..n][index] == c;
    }
    forall d ensures d in Members(cases'[1..active - 1]) <==> d in Members(cases[1..active]) && d != c {
      if d in Members(cases[1..active]) && d != c {
        var i :| 0 <= i < active - 1 && cases[1..active][i] == d;
        var k := if i + 1 == active - 1 then index - 1 else i;
        assert cases'[1..active - 1][k] == d;
      }
      if d in Members(cases'[1..active - 1]) {
        var i :| 0 <= i < active - 2 && cases'[1..active - 1][i] == d;
        var k := if i + 1 == index then active - 2 else i;
        assert cases[1..active][k] == d;
      }
    }
    assert cases'[active - 1..n] == [c] + cases[active..n];
    assert forall i, j :: 0 <= i < j < n ==> cases[..n][i] != cases[..n][j];
    forall i, j | 0 <= i < j < n ensures cases'[..n][i] != cases'[..n][j] {
      var i0 := if i == index then active - 1 else if i == active - 1 then index else i;
      var j0 := if j == index then active - 1 else if j == active - 1 then index else j;
      assert cases'[..n][i] == cases[..n][i0] && cases'[..n][j] == cases[..n][j0] && i0 != j0;
    }
  }

  /** A removal of the case at index: of one that waits, or of one already served. */
  lemma Withdrawn(cases: seq<Channel>, n: nat, active: nat, start: set<Channel>, delivered: seq<Channel>,
                  gone: set<Channel>, left: set<Channel>, index: nat, cases': seq<Channel>)
    requires Sending(cases, n, active, start, delivered, gone, left) && 1 <= index < n
    requires |cases'| == |cases| && cases'[..n - 1] == cases[..index] + cases[index + 1..n]
    ensures index < active ==> Sending(cases', n - 1, active - 1, start, delivered, gone + {cases[index]}, left)
    ensures index >= active ==> Sending(cases', n - 1, active, start, delivered, gone, left + {cases[index]})
  {
    hide NoRepeats, Members;
    StillDistinct(cases, cases', n, index);
    if index < active {
      WaitingWithdrawn(cases, n, active, index, cases');
    } else {
      ServedWithdrawn(cases, n, active, index, cases');
    }
  }

  lemma StillDistinct(cases: seq<Channel>, cases': seq<Channel>, n: nat, index: nat)
    requires 1 <= index < n <= |cases| == |cases'| && NoRepeats(cases[..n])
    requires cases'[..n - 1] == cases[..index] + cases[index + 1..n]
    ensures cases'[0] == cases[0] && NoRepeats(cases'[..n - 1])
  {
    var s := cases'[..n - 1];
    assert cases'[0] == s[0];
    forall i, j | 0 <= i < j < n - 1 ensures s[i] != s[j] {
      var i0 := if i < index then i else i + 1;
      var j0 := if j < index then j else j + 1;
      assert s[i] == cases[..n][i0] && s[j] == cases[..n][j0];
    }
  }

  lemma WaitingWithdrawn(cases: seq<Channel>, n: nat, active: nat, index: nat, cases': seq<Channel>)
    requires 1 <= index < active <= n <= |cases| == |cases'| && NoRepeats(cases[..n])
    requires cases'[..n - 1] == cases[..index] + cases[index + 1..n]
    ensures cases[index] in Members(cases[1..active])
    ensures Members(cases'[1..active - 1]) == Members(cases[1..active]) - {cases[index]}
    ensures Members(cases'[active - 1..n - 1]) == Members(cases[active..n])
  {
    hide NoRepeats, Members;
    WithoutOne(cases, n, 1, active, index);
    Shifted(cases, cases', n, index, 1, active - 1);
    Shifted(cases, cases', n, index, active - 1, n - 1);
    assert index == active - 1 ==> cases[1..index] + cases[index + 1..active] == cases[1..index];
    assert index == active - 1 ==> cases[index..index] + cases[index + 1..n] == cases[active..n];
    assert active == n ==> cases'[active - 1..n - 1] == cases[active..n];
  }

  lemma ServedWithdrawn(cases: seq<Channel>, n: nat, active: nat, index: nat, cases': seq<Channel>)
    requires 1 <= active <= index < n <= |cases| == |cases'| && NoRepeats(cases[..n])
    requires cases'[..n - 1] == cases[..index] + cases[index + 1..n]
    ensures cases[index] in Members(cases[active..n])
    ensures cases'[1..active] == cases[1..active]
    ensures Members(cases'[active..n - 1]) == Members(cases[active..n]) - {cases[index]}
  {
    hide NoRepeats, Members;
    WithoutOne(cases, n, active, n, index);
    Shifted(cases, cases', n, index, 1, active);
    Shifted(cases, cases', n, index, active, n - 1);
    assert index == n - 1 ==> cases[active..index] + cases[index + 1..n] == cases[active..index];
  }

  /** A stretch of the cases after the deletion of one. */
  lemma Shifted(cases: seq<Channel>, cases': seq<Channel>, n: nat, index: nat, lo: nat, hi: nat)
    requires index < n <= |cases| == |cases'| && lo <= hi <= n - 1
    requires cases'[..n - 1] == cases[..index] + cases[index + 1..n]
    ensures cases'[lo..hi] ==
            if hi <= index then cases[lo..hi]
            else if index < lo then cases[lo + 1..hi + 1]
            else cases[lo..index] + cases[index + 1..hi + 1]
  {
    var s := cases'[..n - 1];
    assert forall i :: lo <= i < hi ==> cases'[i] == s[i] && s[i] == if i < index then cases[i] else cases[i + 1];
  }

  lemma WithoutOne(cases: seq<Channel>, n: nat, lo: nat, hi: nat, index: nat)
    requires lo <= index < hi <= n <= |cases| && NoRepeats(cases[..n])
    ensures Members(cases[lo..index] + cases[index + 1..hi]) == Members(cases[lo..hi]) - {cases[index]}
    ensures cases[index] in Members(cases[lo..hi])
  {
    var c := cases[index];
    assert cases[lo..hi] == cases[lo..index] + [c] + cases[index + 1..hi];
    forall i | lo <= i < hi && i != index ensures cases[i] != c {
      assert cases[..n][i] == cases[i] && cases[..n][index] == c;
    }
  }

  class Feed {
    /** The backing array of the send cases, the number of send cases, and the subscriptions not yet among them. */
    var cases: array<Channel>
    var n: nat
    var inbox: seq<Channel>

    ghost predicate Valid()
      reads this, cases
    {
      && 1 <= n <= cases.Length && cases[0] == REMOVE_SUB
      && NoRepeats(cases[..n] + inbox)
    }

    /** The subscribed channels. */
    ghost function Subscribed(): set<Channel>
      reads this, cases
      requires n <= cases.Length && 1 <= n
    {
      Members(cases[1..n]) + Members(inbox)
    }

    constructor ()
      ensures Valid() && fresh(cases) && Subscribed() == {}
    {
      cases := new Channel[1](_ => REMOVE_SUB);
      n := 1;
      inbox := [];
    }

    method Subscribe(channel: Channel)
      requires Valid() && channel !in Subscribed() && channel != REMOVE_SUB
      modifies this`inbox
      ensures Valid() && Subscribed() == old(Subscribed()) + {channel}
    {
      JoinsInbox(cases[..n], inbox, channel);
      inbox := inbox + [channel];
    }

    /** remove, when no Send is in progress. */
    method Remove(channel: Channel)
      requires Valid() && channel in Subscribed()
      modifies this, cases
      ensures Valid() && cases == old(cases) && Subscribed() == old(Subscribed()) - {channel}
    {
      hide NoRepeats, Members;
      ghost var before := cases[..n];
      assert before[1..] == cases[1..n];
      InEither(channel, before[1..], inbox);
      if channel in inbox {
        var i: nat :| i < |inbox| && inbox[i] == channel;
        LeavesInbox(before, inbox, i);
        inbox := inbox[..i] + inbox[i + 1..];
      } else {
        var index := Find(cases, n, channel);
        LeavesCases(before, inbox, channel, index);
        assert cases[..index] + cases[index + 1..n] == before[..index] + before[index + 1..];
        Delete(cases, n, index);
        n := n - 1;
        assert cases[1..n] == cases[..n][1..] && cases[0] == cases[..n][0];
      }
    }

    /** Adopts the inbox into the send cases. */
    method TakeInbox()
      requires Valid()
      modifies this
      ensures Valid() && fresh(cases) && inbox == [] && cases.Length == n
      ensures Members(cases[1..n]) == old(Subscribed())
      ensures NoRepeats(cases[..][..n]) && cases[..][1..n] == cases[1..n]
    {
      ghost var was := cases[..n];
      var all := cases[..n] + inbox;
      var grown := new Channel[|all|](i requires 0 <= i < |all| => all[i]);
      assert grown[..] == all;
      assert all[1..] == was[1..] + inbox && was[1..] == cases[1..n];
      cases, n, inbox := grown, |all|, [];
      assert cases[..n] == all && cases[1..n] == all[1..] && cases[..n] + inbox == all && cases[..][..n] == all;
    }

    /** Send, while the given channels may be unsubscribed at any time: each channel subscribed when the lock is taken
        gets the value exactly once, or is one of those and is removed while it waits. The ghost results are the
        deliveries in order, the channels removed while waiting, and those removed once served. */
    method Send(requested: set<Channel>)
      returns (nsent: nat, ghost delivered: seq<Channel>, ghost gone: set<Channel>, ghost left: set<Channel>)
      requires Valid()
      modifies this, cases
      ensures Valid() && nsent == |delivered| && NoRepeats(delivered)
      ensures Members(delivered) !! gone && Members(delivered) + gone == old(Subscribed()) && left <= Members(delivered)
      ensures Subscribed() == old(Subscribed()) - gone - left
      ensures gone + left <= requested && nsent + |gone| == |old(Subscribed())|
      ensures requested !! old(Subscribed()) ==>
                && Members(delivered) == old(Subscribed()) == Subscribed()
                && nsent == |old(Subscribed())|
    {
      hide Sending, NoRepeats, Members;
      TakeInbox();
      nsent, delivered, gone, left := 0, [], {}, {};
      ghost var start := Members(cases[1..n]);
      var active := n;
      SendStarts(cases[..], n, start);
      while active > FIRST_SUB_SEND_CASE
        invariant fresh(cases) && inbox == [] && nsent == |delivered|
        invariant 1 <= active <= n <= cases.Length && Sending(cases[..], n, active, start, delivered, gone, left)
        invariant gone + left <= requested
        decreases n + active
      {
        // fast path: try every waiting channel without blocking
        active, nsent, delivered := TryAll(active, nsent, start, delivered, gone, left);
        if active == FIRST_SUB_SEND_CASE {
          break;
        }
        active, nsent, delivered, gone, left := Select(requested, active, nsent, start, delivered, gone, left);
      }
      SendEnds(cases[..], n, active, start, delivered, gone, left);
      AllCounted(delivered, gone, left, start, requested);
    }

    /** One select over the waiting channels and the removals: some channel whose removal is requested is removed, or
        some waiting channel is served. */
    method Select(requested: set<Channel>, active0: nat, nsent0: nat, ghost start: set<Channel>,
                  ghost delivered0: seq<Channel>, ghost gone0: set<Channel>, ghost left0: set<Channel>)
      returns (active: nat, nsent: nat, ghost delivered: seq<Channel>, ghost gone: set<Channel>,
               ghost left: set<Channel>)
      requires nsent0 == |delivered0| && 2 <= active0 <= n <= cases.Length
      requires Sending(cases[..], n, active0, start, delivered0, gone0, left0)
      modifies this`n, cases
      ensures nsent == |delivered| && 1 <= active <= n <= cases.Length && n + active < old(n) + active0
      ensures Sending(cases[..], n, active, start, delivered, gone, left)
      ensures gone + left <= gone0 + left0 + requested
      ensures (nsent == nsent0 + 1 && gone == gone0 && left == left0) || (nsent == nsent0 && delivered == delivered0)
    {
      hide Sending, NoRepeats, Members;
      active, nsent, delivered, gone, left := active0, nsent0, delivered0, gone0, left0;
      ghost var was := cases[..];
      var leaving := set c | c in requested && c in cases[1..n];
      var told: bool := *;
      if told && leaving != {} {
        var channel :| channel in leaving;
        IsMember(channel, cases[1..n]);
        active, gone, left := Withdraw(channel, active0, start, delivered0, gone0, left0);
      } else {
        var chosen: nat :| 1 <= chosen < active;
        Served(was, n, active, start, delivered, gone, left, chosen,
               was[chosen := was[active - 1]][active - 1 := was[chosen]]);
        delivered := delivered + [cases[chosen]];
        nsent := nsent + 1;
        active := Deactivate(cases, active, chosen);
      }
    }

    /** A channel leaves while the Send goes on: its case is taken out, in whichever part it stands. */
    method Withdraw(channel: Channel, active0: nat, ghost start: set<Channel>, ghost delivered: seq<Channel>,
                    ghost gone0: set<Channel>, ghost left0: set<Channel>)
      returns (active: nat, ghost gone: set<Channel>, ghost left: set<Channel>)
      requires 2 <= active0 <= n <= cases.Length && channel in cases[1..n]
      requires Sending(cases[..], n, active0, start, delivered, gone0, left0)
      modifies this`n, cases
      ensures n == old(n) - 1 && 1 <= active <= n <= cases.Length && active <= active0
      ensures Sending(cases[..], n, active, start, delivered, gone, left)
      ensures (gone == gone0 + {channel} && left == left0) || (gone == gone0 && left == left0 + {channel})
    {
      hide Sending, NoRepeats, Members;
      ghost var was := cases[..];
      ghost var some: nat :| 1 <= some < n && cases[some] == channel;
      active, gone, left := active0, gone0, left0;
      var index := Find(cases, n, channel);
      FoundBehindFirst(was, n, active, start, delivered, gone, left, some, index);
      DeleteCase(was, index);
      Withdrawn(was, n, active, start, delivered, gone, left, index, cases[..]);
      n := n - 1;
      if index < active {
        gone := gone + {channel};
        active := active - 1;
      } else {
        left := left + {channel};
      }
    }

    method DeleteCase(ghost was: seq<Channel>, index: nat)
      requires index < n <= cases.Length && was == cases[..]
      modifies cases
      ensures |cases[..]| == |was| && cases[..][..n - 1] == was[..index] + was[index + 1..n]
    {
      Delete(cases, n, index);
      assert was[..index] + was[index + 1..n] == old(cases[..index] + cases[index + 1..n]);
      assert cases[..][..n - 1] == cases[..n - 1];
    }

    /** The fast path: offers the value to every waiting channel, in place; a served case trades places with the last
        waiting one, which is tried next. */
    method TryAll(active0: nat, nsent0: nat, ghost start: set<Channel>, ghost delivered0: seq<Channel>,
                  ghost gone: set<Channel>, ghost left: set<Channel>)
      returns (active: nat, nsent: nat, ghost delivered: seq<Channel>)
      requires nsent0 == |delivered0| && 1 <= active0 <= n <= cases.Length
      requires Sending(cases[..], n, active0, start, delivered0, gone, left)
      modifies cases
      ensures 1 <= active <= active0 && nsent == |delivered|
      ensures Sending(cases[..], n, active, start, delivered, gone, left)
    {
      hide Sending, NoRepeats, Members;
      active, nsent, delivered := active0, nsent0, delivered0;
      var i := FIRST_SUB_SEND_CASE;
      while i < active
        invariant 1 <= i <= active <= active0 && nsent == |delivered|
        invariant Sending(cases[..], n, active, start, delivered, gone, left)
        decreases active - i
      {
        if * {
          ghost var was := cases[..];
          delivered := delivered + [cases[i]];
          nsent := nsent + 1;
          active := Deactivate(cases, active, i);
          assert delivered[..|delivered| - 1] + [was[i]] == delivered;
          Served(was, n, active + 1, start, delivered[..|delivered| - 1], gone, left, i, cases[..]);
        } else {
          i := i + 1;
        }
      }
    }
  }

  lemma IsMember(c: Channel, s: seq<Channel>)
    requires c in s
    ensures c in Members(s)
  {
  }

  lemma {:induction false} MembersCount(s: seq<Channel>)
    requires NoRepeats(s)
    ensures |Members(s)| == |s|
    decreases |s|
  {
    if s == [] {
      assert Members(s) == {};
    } else {
      var rest := s[..|s| - 1];
      var last := s[|s| - 1];
      MembersCount(rest);
      assert Members(s) == Members(rest) + {last};
      assert last !in rest;
    }
  }

  /** Everyone is served or gone, and who stays until the end is served. */
  lemma AllCounted(delivered: seq<Channel>, gone: set<Channel>, left: set<Channel>, start: set<Channel>,
                   requested: set<Channel>)
    requires NoRepeats(delivered) && Members(delivered) !! gone && Members(delivered) + gone == start
    requires left <= Members(delivered) && gone + left <= requested
    ensures |delivered| + |gone| == |start|
    ensures requested !! start ==> gone == {} && left == {} && Members(delivered) == start
  {
    MembersCount(delivered);
    assert |Members(delivered) + gone| == |Members(delivered)| + |gone|;
    hide Members;
    if requested !! start {
      assert forall c :: c in gone + left ==> c in start && c in requested;
      assert gone == {} && left == {};
    }
  }

  lemma InEither(c: Channel, s: seq<Channel>, t: seq<Channel>)
    requires c in Members(s) + Members(t)
    ensures c in t || c in Members(s)
  {
  }

  lemma JoinsInbox(s: seq<Channel>, inbox: seq<Channel>, c: Channel)
    requires s != [] && NoRepeats(s + inbox) && c != s[0] && c !in Members(s[1..]) + Members(inbox)
    ensures NoRepeats(s + (inbox + [c])) && Members(inbox + [c]) == Members(inbox) + {c}
  {
    assert s == [s[0]] + s[1..];
    assert s + (inbox + [c]) == (s + inbox) + [c];
    assert c !in s + inbox;
  }

  lemma LeavesInbox(s: seq<Channel>, inbox: seq<Channel>, i: nat)
    requires s != [] && NoRepeats(s + inbox) && i < |inbox|
    ensures NoRepeats(s + (inbox[..i] + inbox[i + 1..]))
    ensures Members(inbox[..i] + inbox[i + 1..]) == Members(inbox) - {inbox[i]}
    ensures inbox[i] !in Members(s[1..])
  {
    var all := s + inbox;
    var k := |s| + i;
    assert s + (inbox[..i] + inbox[i + 1..]) == all[..k] + all[k + 1..];
    RemovedOnce(all, k);
    assert all[..|all|] == all;
    assert inbox == all[|s|..|all|] && inbox[..i] == all[|s|..k] && inbox[i + 1..] == all[k + 1..|all|];
    WithoutOne(all, |all|, |s|, |all|, k);
    forall j | 0 <= j < |s[1..]| ensures s[1..][j] != inbox[i] {
      assert all[j + 1] == s[1..][j] && all[k] == inbox[i];
    }
  }

  lemma RemovedOnce(s: seq<Channel>, k: nat)
    requires NoRepeats(s) && k < |s|
    ensures NoRepeats(s[..k] + s[k + 1..])
  {
    var r := s[..k] + s[k + 1..];
    forall i, j | 0 <= i < j < |r| ensures r[i] != r[j] {
      assert r[i] == s[if i < k then i else i + 1] && r[j] == s[if j < k then j else j + 1];
    }
  }

  lemma LeavesCases(s: seq<Channel>, inbox: seq<Channel>, c: Channel, index: int)
    requires s != [] && NoRepeats(s + inbox) && c in Members(s[1..]) && -1 <= index < |s|
    requires index >= 0 ==> s[index] == c
    requires index == -1 <==> c !in s
    ensures 1 <= index && c !in inbox && c !in Members(inbox)
    ensures NoRepeats(s[..index] + s[index + 1..] + inbox)
    ensures (s[..index] + s[index + 1..])[0] == s[0]
    ensures Members((s[..index] + s[index + 1..])[1..]) == Members(s[1..]) - {c}
  {
    var all := s + inbox;
    var k :| 0 <= k < |s[1..]| && s[1..][k] == c;
    assert s[k + 1] == c && all[k + 1] == c;
    assert all[index] == s[index] == c;
    assert index == k + 1;
    forall j | 0 <= j < |inbox| ensures inbox[j] != c {
      assert all[|s| + j] == inbox[j];
    }
    RemovedOnce(all, index);
    assert all[..index] + all[index + 1..] == s[..index] + s[index + 1..] + inbox;
    assert NoRepeats(s[..|s|]) by {
      forall i, j | 0 <= i < j < |s| ensures s[..|s|][i] != s[..|s|][j] {
        assert all[i] == s[i] && all[j] == s[j];
      }
    }
    WithoutOne(s, |s|, 1, |s|, index);
    assert s[1..|s|] == s[1..];
    assert (s[..index] + s[index + 1..])[1..] == s[1..index] + s[index + 1..|s|];
  }

  lemma SendStarts(cases: seq<Channel>, n: nat, start: set<Channel>)
    requires 1 <= n == |cases| && cases[0] == REMOVE_SUB && NoRepeats(cases[..n]) && start == Members(cases[1..n])
    ensures Sending(cases, n, n, start, [], {}, {})
  {
    assert cases[n..n] == [];
  }

  lemma FoundBehindFirst(cases: seq<Channel>, n: nat, active: nat, start: set<Channel>, delivered: seq<Channel>,
                         gone: set<Channel>, left: set<Channel>, some: nat, index: int)
    requires Sending(cases, n, active, start, delivered, gone, left) && 1 <= some < n && -1 <= index < n
    requires index >= 0 ==> cases[index] == cases[some]
    requires index == -1 <==> cases[some] !in cases[..n]
    ensures index == some
  {
    assert cases[..n][some] == cases[some];
    assert index >= 0;
    assert cases[..n][index] == cases[index];
  }

  lemma SendEnds(cases: seq<Channel>, n: nat, active: nat, start: set<Channel>, delivered: seq<Channel>,
                 gone: set<Channel>, left: set<Channel>)
    requires Sending(cases, n, active, start, delivered, gone, left) && active == 1
    ensures NoRepeats(cases[..n] + []) && cases[0] == REMOVE_SUB && NoRepeats(delivered)
    ensures Members(delivered) !! gone && Members(delivered) + gone == start && left <= Members(delivered)
    ensures Members(cases[1..n]) + Members([]) == start - gone - left
  {
    assert cases[..n] + [] == cases[..n];
    assert cases[1..active] == [] && Members([]) == {};
    assert start - gone - Members(delivered) == {};
    forall c | c in start ensures c in Members(delivered) + gone {
      assert c !in start - gone - Members(delivered);
    }
  }
}
