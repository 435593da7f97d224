/**
 The parent of the process pool as a state machine.  Slot k holds the pid of child k, or -1 once
 the child has been reaped.  A new connection is given to the first live slot in cyclic order from
 the counter; SIGCHLD reaps children in whatever order they died.
 */
module PoolSpec {
  import opened Sequences

  datatype Event =
    | Connection(position: nat)   // the listening socket, at this position of its batch
    | Sigchld(deads: seq<int>)    // what waitpid returns, in order
    | Sigterm
    | OtherEvent

  /** A connection given to slot chosen while the notice is written to the pipe of slot target. */
  datatype Send = Send(chosen: nat, target: nat)

  datatype State = State(pids: seq<int>, counter: nat, stop: bool)

  predicate Live(pids: seq<int>, k: nat)
    requires k < |pids|
  {
    pids[k] != -1
  }

  predicate NoneLeft(pids: seq<int>) {
    forall k :: 0 <= k < |pids| ==> pids[k] == -1
  }

  /** Slot c + d counted cyclically. */
  function Wrap(c: nat, d: nat, n: nat): (j: nat)
    requires c < n && d <= n
    ensures j < n
  {
    if c + d < n then c + d else c + d - n
  }

  /** The next slot, as the source computes it. */
  function Next(j: nat, n: nat): (r: nat)
    requires j < n
    ensures r == if j + 1 < n then j + 1 else 0
  {
    (j + 1) % n
  }

  /** How many steps forward it takes from slot c to slot j. */
  function Distance(c: nat, j: nat, n: nat): (d: nat)
    requires c < n && j < n
    ensures d < n && Wrap(c, d, n) == j
  {
    if c <= j then j - c else j + n - c
  }

  datatype Choice = Slot(j: nat) | NoSlot

  /** The slot the parent picks from counter c, looking at distances d, d + 1, ... */
  function PickFrom(pids: seq<int>, c: nat, d: nat): (r: Choice)
    requires c < |pids| && d <= |pids|
    ensures r.Slot? ==> r.j < |pids| && Live(pids, r.j) && d <= Distance(c, r.j, |pids|)
    decreases |pids| - d
  {
    if d == |pids| then NoSlot
    else if Live(pids, Wrap(c, d, |pids|)) then Slot(Wrap(c, d, |pids|))
    else PickFrom(pids, c, d + 1)
  }

  function Pick(pids: seq<int>, c: nat): Choice
    requires c < |pids|
  {
    PickFrom(pids, c, 0)
  }

  lemma {:induction false} PickFromIsFirst(pids: seq<int>, c: nat, d: nat, k: nat)
    requires c < |pids| && d <= |pids| && k < |pids| && Live(pids, k) && d <= Distance(c, k, |pids|)
    ensures PickFrom(pids, c, d).Slot?
    ensures Distance(c, PickFrom(pids, c, d).j, |pids|) <= Distance(c, k, |pids|)
    decreases |pids| - d
  {
    if !Live(pids, Wrap(c, d, |pids|)) {
      PickFromIsFirst(pids, c, d + 1, k);
    }
  }

  /** A slot is found exactly when a child is alive, and it is the nearest live one from the counter. */
  lemma PickIsNearestLive(pids: seq<int>, c: nat)
    requires c < |pids|
    ensures Pick(pids, c).NoSlot? <==> NoneLeft(pids)
    ensures Pick(pids, c).Slot? ==>
              var j := Pick(pids, c).j;
              && Live(pids, j)
              && forall k :: 0 <= k < |pids| && Live(pids, k) ==>
                   Distance(c, j, |pids|) <= Distance(c, k, |pids|)
  {
    forall k | 0 <= k < |pids| && pids[k] != -1
      ensures Pick(pids, c).Slot? && Distance(c, Pick(pids, c).j, |pids|) <= Distance(c, k, |pids|)
    {
      PickFromIsFirst(pids, c, 0, k);
    }
  }

  // ----- steps

  function Clear(pids: seq<int>, pid: int): (r: seq<int>)
    ensures |r| == |pids|
    ensures forall k :: 0 <= k < |r| ==> r[k] == if pids[k] == pid then -1 else pids[k]
  {
    seq(|pids|, k requires 0 <= k < |pids| => if pids[k] == pid then -1 else pids[k])
  }

  function Reap(pids: seq<int>, deads: seq<int>): (r: seq<int>)
    ensures |r| == |pids|
    decreases |deads|
  {
    if deads == [] then pids else Reap(Clear(pids, deads[0]), deads[1..])
  }

  /** Reaping kills exactly the slots of the dead pids, in whatever order they come. */
  lemma {:induction false} ReapExactly(pids: seq<int>, deads: seq<int>)
    ensures forall k :: 0 <= k < |pids| ==>
              Reap(pids, deads)[k] == if pids[k] in deads then -1 else pids[k]
    decreases |deads|
  {
    if deads != [] {
      ReapExactly(Clear(pids, deads[0]), deads[1..]);
    }
  }

  function Apply(s: State, e: Event): State
    requires s.counter < |s.pids|
  {
    match e
    case Connection(_) =>
      (match Pick(s.pids, s.counter)
       case NoSlot => s.(stop := true)
       case Slot(j) => s.(counter := Next(j, |s.pids|)))
    case Sigchld(deads) =>
      var pids := Reap(s.pids, deads);
      s.(pids := pids, stop := NoneLeft(pids))
    case Sigterm => s
    case OtherEvent => s
  }

  function Run(s: State, events: seq<Event>): (r: State)
    requires s.counter < |s.pids|
    ensures |r.pids| == |s.pids| && r.counter < |r.pids|
    decreases |events|
  {
    if events == [] then s else Run(Apply(s, events[0]), events[1..])
  }

  /** What one event sends. */
  function SendsOf(s: State, e: Event): (r: seq<Send>)
    requires s.counter < |s.pids|
    ensures forall i :: 0 <= i < |r| ==> r[i].chosen < |s.pids|
  {
    if e.Connection? && Pick(s.pids, s.counter).Slot? then [Send(Pick(s.pids, s.counter).j, e.position)] else []
  }

  /** The sends of a run, in order. */
  function Sends(s: State, events: seq<Event>): (r: seq<Send>)
    requires s.counter < |s.pids|
    ensures forall i :: 0 <= i < |r| ==> r[i].chosen < |s.pids|
    decreases |events|
  {
    if events == [] then []
    else SendsOf(s, events[0]) + Sends(Apply(s, events[0]), events[1..])
  }

  /** The parent after its constructor: every child forked, nobody reaped. */
  ghost predicate Initial(s: State) {
    |s.pids| > 0 && s.counter == 0 && !s.stop && forall k :: 0 <= k < |s.pids| ==> s.pids[k] > 0
  }

  ghost predicate Inv(s: State) {
    s.counter < |s.pids| && (s.stop <==> NoneLeft(s.pids))
  }

  // ----- shutdown

  lemma StepKeepsInv(s: State, e: Event)
    requires Inv(s)
    ensures Inv(Apply(s, e))
    ensures s.stop ==> Apply(s, e).stop
    ensures forall k :: 0 <= k < |s.pids| && Live(Apply(s, e).pids, k) ==> Apply(s, e).pids[k] == s.pids[k]
  {
    match e
    case Connection(_) => PickIsNearestLive(s.pids, s.counter);
    case Sigchld(deads) => ReapExactly(s.pids, deads);
    case _ =>
  }

  /** Over every run: stop means exactly that every child is reaped, it is never taken back, and no slot revives. */
  lemma {:induction false} StopMeansAllReaped(s: State, events: seq<Event>)
    requires Inv(s)
    ensures var t := Run(s, events);
            && Inv(t) && (s.stop ==> t.stop)
            && (forall k :: 0 <= k < |s.pids| && Live(t.pids, k) ==> t.pids[k] == s.pids[k])
    decreases |events|
  {
    if events != [] {
      StepKeepsInv(s, events[0]);
      StopMeansAllReaped(Apply(s, events[0]), events[1..]);
    }
  }

  /** waitpid has returned this pid in the run. */
  ghost predicate ReapedIn(events: seq<Event>, pid: int) {
    exists i :: 0 <= i < |events| && events[i].Sigchld? && pid in events[i].deads
  }

  lemma ReapedInSplit(events: seq<Event>, pid: int)
    requires events != []
    ensures ReapedIn(events, pid) <==>
            (events[0].Sigchld? && pid in events[0].deads) || ReapedIn(events[1..], pid)
  {
    if ReapedIn(events[1..], pid) {
      var i :| 0 <= i < |events[1..]| && events[1..][i].Sigchld? && pid in events[1..][i].deads;
      assert events[i + 1] == events[1..][i];
    }
    if ReapedIn(events, pid) {
      var i :| 0 <= i < |events| && events[i].Sigchld? && pid in events[i].deads;
      assert i > 0 ==> events[1..][i - 1] == events[i];
    }
  }

  /** Over every run a slot is cleared exactly when waitpid has returned its child's pid. */
  lemma {:induction false} SlotsExactly(s: State, events: seq<Event>, k: nat)
    requires Inv(s) && k < |s.pids|
    ensures Run(s, events).pids[k] == if ReapedIn(events, s.pids[k]) then -1 else s.pids[k]
    decreases |events|
  {
    if events != [] {
      var e, t := events[0], Apply(s, events[0]);
      StepKeepsInv(s, e);
      SlotsExactly(t, events[1..], k);
      ReapedInSplit(events, s.pids[k]);
      if e.Sigchld? {
        ReapExactly(s.pids, e.deads);
      }
    }
  }

  lemma InitialIsInv(s: State)
    requires Initial(s)
    ensures Inv(s)
  {
    assert s.pids[0] > 0;
  }

  /** Once every child is reaped the rest of a batch changes nothing, so leaving the loop early loses nothing. */
  lemma {:induction false} StoppedStaysPut(s: State, events: seq<Event>)
    requires Inv(s) && s.stop
    ensures Run(s, events) == s && Sends(s, events) == []
    decreases |events|
  {
    if events != [] {
      var e := events[0];
      if e.Sigchld? {
        ReapExactly(s.pids, e.deads);
        assert Reap(s.pids, e.deads) == s.pids;
      }
      StoppedStaysPut(s, events[1..]);
    }
  }

  // ----- fairness

  lemma {:induction false} SendsAppend(s: State, a: seq<Event>, b: seq<Event>)
    requires s.counter < |s.pids|
    ensures Sends(s, a + b) == Sends(s, a) + Sends(Run(s, a), b)
    ensures Run(s, a + b) == Run(Run(s, a), b)
    decreases |a|
  {
    if a == [] {
      assert a + b == b;
    } else {
      assert (a + b)[1..] == a[1..] + b;
      var t := Apply(s, a[0]);
      SendsAppend(t, a[1..], b);
      Associate(SendsOf(s, a[0]), Sends(t, a[1..]), Sends(Run(t, a[1..]), b));
    }
  }

  /** Passing over the nearest live slot j brings every farther slot closer, by at least one. */
  lemma PickApproaches(c: nat, j: nat, k: nat, n: nat)
    requires c < n && j < n && k < n && j != k
    requires Distance(c, j, n) <= Distance(c, k, n)
    ensures Distance(Next(j, n), k, n) == Distance(c, k, n) - Distance(c, j, n) - 1
  {
  }

  /** The first event of a run, and its send if it makes one. */
  lemma SendsSplit(s: State, events: seq<Event>)
    requires s.counter < |s.pids| && events != []
    ensures var rest := Sends(Apply(s, events[0]), events[1..]);
            if events[0].Connection? && Pick(s.pids, s.counter).Slot?
            then Sends(s, events) != [] && Sends(s, events)[1..] == rest
                 && Sends(s, events)[0].chosen == Pick(s.pids, s.counter).j
            else Sends(s, events) == rest
  {
  }

  /** Where the search of the next connection starts: behind the slot that was picked last. */
  ghost function Behind(sends: seq<Send>, c: nat, n: nat): nat
    requires forall i :: 0 <= i < |sends| ==> sends[i].chosen < n
  {
    if sends == [] then c else Next(sends[|sends| - 1].chosen, n)
  }

  lemma BehindMore(a: seq<Send>, b: seq<Send>, c: nat, n: nat)
    requires forall i :: 0 <= i < |a| ==> a[i].chosen < n
    requires forall i :: 0 <= i < |b| ==> b[i].chosen < n
    ensures Behind(a + b, c, n) == Behind(b, Behind(a, c, n), n)
  {
    if b == [] {
      assert a + b == a;
    }
  }

  lemma {:induction false} CounterIsBehindLastPick(s: State, events: seq<Event>)
    requires Inv(s)
    ensures Run(s, events).counter == Behind(Sends(s, events), s.counter, |s.pids|)
    decreases |events|
  {
    if events != [] {
      var e, t := events[0], Apply(s, events[0]);
      StepKeepsInv(s, e);
      CounterIsBehindLastPick(t, events[1..]);
      BehindMore(SendsOf(s, e), Sends(t, events[1..]), s.counter, |s.pids|);
    }
  }

  /** j is the first live slot from c on, cyclically. */
  ghost predicate Nearest(pids: seq<int>, c: nat, j: nat) {
    && c < |pids| && j < |pids| && Live(pids, j)
    && forall k :: 0 <= k < |pids| && Live(pids, k) ==> Distance(c, j, |pids|) <= Distance(c, k, |pids|)
  }

  /**
   What each event of a run adds to its sends: a connection that finds a live child one send, to the
   nearest live slot behind the last pick, with its own position as target; anything else none.
   */
  lemma EachDispatch(s: State, events: seq<Event>, e: Event)
    requires Inv(s)
    ensures var sends, t := Sends(s, events), Run(s, events);
            var c := Behind(sends, s.counter, |s.pids|);
            if e.Connection? && !NoneLeft(t.pids)
            then exists j :: Nearest(t.pids, c, j) && Sends(s, events + [e]) == sends + [Send(j, e.position)]
            else Sends(s, events + [e]) == sends
  {
    var t := Run(s, events);
    StopMeansAllReaped(s, events);
    SendsAppend(s, events, [e]);
    SendsSplit(t, [e]);
    CounterIsBehindLastPick(s, events);
    PickIsNearestLive(t.pids, t.counter);
    if e.Connection? && !NoneLeft(t.pids) {
      var j := Pick(t.pids, t.counter).j;
      assert Nearest(t.pids, t.counter, j);
      assert Sends(t, [e]) == [Send(j, e.position)] + Sends(Apply(t, e), [e][1..]);
    }
  }

  predicate Picks(sends: seq<Send>, a: nat) {
    sends != [] && (sends[0].chosen == a || Picks(sends[1..], a))
  }

  /**
   While child k stays alive and is not picked, every dispatch brings the counter closer to it, so
   that it is passed over at most Distance times; among any n dispatches it is picked.
   */
  lemma {:induction false} PickedWithinOneRound(s: State, events: seq<Event>, k: nat)
    requires Inv(s) && k < |s.pids| && Live(Run(s, events).pids, k)
    ensures !Picks(Sends(s, events), k) ==>
              |Sends(s, events)| + Distance(Run(s, events).counter, k, |s.pids|)
              <= Distance(s.counter, k, |s.pids|)
    ensures |Sends(s, events)| >= |s.pids| ==> Picks(Sends(s, events), k)
    decreases |events|
  {
    if events != [] {
      var t := Apply(s, events[0]);
      StepKeepsInv(s, events[0]);
      StopMeansAllReaped(t, events[1..]);
      PickedWithinOneRound(t, events[1..], k);
      SendsSplit(s, events);
      PickIsNearestLive(s.pids, s.counter);
      if events[0].Connection? && Sends(s, events)[0].chosen != k {
        PickApproaches(s.counter, Sends(s, events)[0].chosen, k, |s.pids|);
      }
    }
  }

  /** The slots picked before a is. */
  function Until(sends: seq<Send>, a: nat): (r: seq<nat>)
    ensures forall i :: 0 <= i < |r| ==> r[i] != a
  {
    if sends == [] || sends[0].chosen == a then [] else [sends[0].chosen] + Until(sends[1..], a)
  }

  /** Slots in strictly increasing cyclic order from base, none closer than low. */
  ghost predicate Increasing(base: nat, low: nat, slots: seq<nat>, n: nat)
    requires base < n
    decreases |slots|
  {
    slots != [] ==>
      && slots[0] < n && low <= Distance(base, slots[0], n)
      && Increasing(base, Distance(base, slots[0], n) + 1, slots[1..], n)
  }

  lemma {:induction false} IncreasingBounds(base: nat, low: nat, slots: seq<nat>, n: nat, q: nat)
    requires base < n && Increasing(base, low, slots, n) && q < |slots|
    ensures slots[q] < n && low <= Distance(base, slots[q], n)
    decreases |slots|
  {
    if q > 0 {
      IncreasingBounds(base, Distance(base, slots[0], n) + 1, slots[1..], n, q - 1);
    }
  }

  lemma {:induction false} IncreasingIsDistinct(base: nat, low: nat, slots: seq<nat>, n: nat, p: nat, q: nat)
    requires base < n && Increasing(base, low, slots, n) && p < q < |slots|
    ensures slots[p] != slots[q]
    decreases |slots|
  {
    var next := Distance(base, slots[0], n) + 1;
    if p > 0 {
      IncreasingIsDistinct(base, next, slots[1..], n, p - 1, q - 1);
    } else {
      IncreasingBounds(base, next, slots[1..], n, q - 1);
    }
  }

  /** Whoever is picked at some point of a run is alive at its start. */
  lemma {:induction false} PickedMeansLive(s: State, events: seq<Event>, a: nat)
    requires Inv(s) && Picks(Sends(s, events), a)
    ensures a < |s.pids| && Live(s.pids, a)
    decreases |events|
  {
    var e := events[0];
    StepKeepsInv(s, e);
    PickIsNearestLive(s.pids, s.counter);
    SendsSplit(s, events);
    if Picks(Sends(Apply(s, e), events[1..]), a) {
      PickedMeansLive(Apply(s, e), events[1..], a);
    }
  }

  /** Seen from the slot behind a, going on to a slot short of a never wraps around. */
  lemma NoWrapBefore(a: nat, c: nat, j: nat, n: nat)
    requires a < n && c < n && j < n && j != a && Distance(c, j, n) <= Distance(c, a, n)
    ensures Distance(Next(a, n), c, n) <= Distance(Next(a, n), j, n)
    ensures Distance(Next(a, n), Next(j, n), n) == Distance(Next(a, n), j, n) + 1
  {
  }

  lemma OneMorePick(a: nat, c: nat, j: nat, later: seq<nat>, n: nat)
    requires a < n && c < n && j < n && j != a && Distance(c, j, n) <= Distance(c, a, n)
    requires Increasing(Next(a, n), Distance(Next(a, n), Next(j, n), n), later, n)
    ensures Increasing(Next(a, n), Distance(Next(a, n), c, n), [j] + later, n)
  {
    NoWrapBefore(a, c, j, n);
    assert ([j] + later)[1..] == later;
  }

  /** Until a is picked, the picks come in strictly increasing cyclic order, counted from the slot behind a. */
  lemma {:induction false} PicksIncrease(s: State, events: seq<Event>, a: nat)
    requires Inv(s) && a < |s.pids| && Picks(Sends(s, events), a)
    ensures var base := Next(a, |s.pids|);
            Increasing(base, Distance(base, s.counter, |s.pids|), Until(Sends(s, events), a), |s.pids|)
    decreases |events|
  {
    var e, sends := events[0], Sends(s, events);
    var t := Apply(s, e);
    PickedMeansLive(s, events, a);
    PickIsNearestLive(s.pids, s.counter);
    SendsSplit(s, events);
    if !e.Connection? {
      PicksIncrease(t, events[1..], a);
    } else if sends[0].chosen != a {
      var j, later := sends[0].chosen, Until(sends[1..], a);
      PicksIncrease(t, events[1..], a);
      OneMorePick(a, s.counter, j, later, |s.pids|);
      assert Until(sends, a) == [j] + later;
    }
  }

  /**
   Bounded overtaking, under any deaths: between a dispatch to a child and the next one to the same
   child, the other children are dispatched to in cyclic order, each at most once.
   */
  lemma {:induction false} BoundedOvertaking(s: State, events: seq<Event>, i: nat, p: nat, q: nat)
    requires Inv(s) && i < |Sends(s, events)|
    requires Picks(Sends(s, events)[i + 1..], Sends(s, events)[i].chosen)
    requires p < q < |Until(Sends(s, events)[i + 1..], Sends(s, events)[i].chosen)|
    ensures var between := Until(Sends(s, events)[i + 1..], Sends(s, events)[i].chosen);
            between[p] != between[q]
    decreases |events|
  {
    var e, sends := events[0], Sends(s, events);
    var t := Apply(s, e);
    StepKeepsInv(s, e);
    SendsSplit(s, events);
    if e.Connection? && Pick(s.pids, s.counter).Slot? {
      var rest := Sends(t, events[1..]);
      if i > 0 {
        BoundedOvertaking(t, events[1..], i - 1, p, q);
      } else {
        var a := sends[0].chosen;
        var base := Next(a, |s.pids|);
        PicksIncrease(t, events[1..], a);
        IncreasingIsDistinct(base, Distance(base, t.counter, |s.pids|), Until(rest, a), |s.pids|, p, q);
      }
    } else {
      BoundedOvertaking(t, events[1..], i, p, q);
    }
  }

  // ----- where the notice goes

  /** The slot that the source writes the notice to is alive. */
  predicate Delivered(pids: seq<int>, send: Send) {
    send.target < |pids| && Live(pids, send.target)
  }

  /**
   The source writes to the slot numbered like the event, not to the one it chose.  One connection
   reaches the chosen child exactly when its position is the nearest live slot.
   */
  lemma NoticeReachesChosenExactly(s: State, position: nat)
    requires Inv(s) && !s.stop
    ensures var sends := Sends(s, [Connection(position)]);
            && |sends| == 1 && Live(s.pids, sends[0].chosen)
            && (sends[0].target == sends[0].chosen <==>
                  && position < |s.pids| && Live(s.pids, position)
                  && forall k :: 0 <= k < |s.pids| && Live(s.pids, k) ==>
                       Distance(s.counter, position, |s.pids|) <= Distance(s.counter, k, |s.pids|))
  {
    PickIsNearestLive(s.pids, s.counter);
  }

  lemma {:induction false} TargetsArePositions(s: State, events: seq<Event>, k: nat)
    requires s.counter < |s.pids|
    requires forall i :: 0 <= i < |events| && events[i].Connection? ==> events[i].position != k
    ensures forall m :: 0 <= m < |Sends(s, events)| ==> Sends(s, events)[m].target != k
    decreases |events|
  {
    if events != [] {
      TargetsArePositions(Apply(s, events[0]), events[1..], k);
    }
  }

  lemma {:induction false} PickedAt(sends: seq<Send>, k: nat)
    requires Picks(sends, k)
    ensures exists m :: 0 <= m < |sends| && sends[m].chosen == k
    decreases |sends|
  {
    if sends[0].chosen != k {
      PickedAt(sends[1..], k);
      var m :| 0 <= m < |sends[1..]| && sends[1..][m].chosen == k;
      assert sends[m + 1].chosen == k;
    }
  }

  /**
   A child that stays alive while the listening socket never comes at its position is starved: any
   n dispatches choose it at least once, and no notice is ever written to its pipe.
   */
  lemma ChosenButNeverNotified(s: State, events: seq<Event>, k: nat)
    requires Inv(s) && k < |s.pids| && Live(Run(s, events).pids, k)
    requires |Sends(s, events)| >= |s.pids|
    requires forall i :: 0 <= i < |events| && events[i].Connection? ==> events[i].position != k
    ensures exists m :: 0 <= m < |Sends(s, events)| && Sends(s, events)[m].chosen == k
    ensures forall m :: 0 <= m < |Sends(s, events)| ==> Sends(s, events)[m].target != k
  {
    PickedWithinOneRound(s, events, k);
    PickedAt(Sends(s, events), k);
    TargetsArePositions(s, events, k);
  }

  /** With child 0 reaped and child 1 alive, the notice is written to the closed pipe of child 0. */
  lemma NoticeLost()
    ensures var s := State([-1, 7], 0, false);
            var sends := Sends(s, [Connection(0)]);
            Inv(s) && sends == [Send(1, 0)] && !Delivered(s.pids, sends[0])
  {
    var s := State([-1, 7], 0, false);
    assert Sends(Apply(s, Connection(0)), []) == [];
  }
}
