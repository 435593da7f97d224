/**
 The idle-connection server as a state machine: one step per event taken from epoll, and one at
 the end of every batch, where a pending timeout runs tick.  The clock never goes back.
 */
module ReaperSpec {
  import opened TimerSpec

  const TIMESLOT := 5
  const FD_LIMIT := 65535

  datatype Signal = Alarm | Terminate | OtherSignal

  datatype Step =
    | Accept(fd: int, at: int)
    | Data(fd: int, at: int)
    | WouldBlock(fd: int)
    | Hangup(fd: int)
    | Signals(sigs: seq<Signal>)
    | BatchEnd(at: int)

  /** last holds exactly the open client fds, each with the time of its last activity. */
  datatype State = State(
    timers: seq<Entry<int>>, last: map<int, int>, clock: int, lastTick: int,
    timeout: bool, stop: bool, exited: bool)

  function Init(start: int): State {
    State([], map[], start, start, false, false, false)
  }

  /** The index of the entry of fd; |s| if there is none. */
  function Find(s: seq<Entry<int>>, fd: int): (k: nat)
    ensures k <= |s|
    ensures k < |s| ==> s[k].id == fd
    ensures forall i :: 0 <= i < k ==> s[i].id != fd
  {
    FindFrom(s, 0, fd)
  }

  function FindFrom(s: seq<Entry<int>>, i: nat, fd: int): (k: nat)
    requires i <= |s|
    ensures i <= k <= |s|
    ensures k < |s| ==> s[k].id == fd
    ensures forall j :: i <= j < k ==> s[j].id != fd
    decreases |s| - i
  {
    if i == |s| || s[i].id == fd then i else FindFrom(s, i + 1, fd)
  }

  /** What the kernel may report: accept returns an unused fd, clients that report are open. */
  ghost predicate Enabled(s: State, step: Step) {
    && !s.exited
    && match step
       case Accept(fd, at) => 0 <= fd < FD_LIMIT && fd !in s.last && s.clock <= at
       case Data(fd, at) => fd in s.last && s.clock <= at
       case WouldBlock(fd) => fd in s.last
       case Hangup(fd) => fd in s.last
       case Signals(_) => true
       case BatchEnd(at) => s.clock <= at
  }

  function Renew(timers: seq<Entry<int>>, fd: int, expire: int): seq<Entry<int>> {
    var k := Find(timers, fd);
    if k == |timers| then timers else Adjust(timers[k := Entry(fd, expire)], k)
  }

  function Drop(timers: seq<Entry<int>>, fd: int): seq<Entry<int>> {
    var k := Find(timers, fd);
    if k == |timers| then timers else RemoveAt(timers, k)
  }

  function Tick(s: State, at: int): State {
    var k := Expired(s.timers, at);
    s.(timers := s.timers[k..], lastTick := at,
       last := s.last - set i | 0 <= i < k :: s.timers[i].id)
  }

  function Apply(s: State, step: Step): State {
    match step
    case Accept(fd, at) =>
      s.(timers := StableInsert(s.timers, Entry(fd, at + 3 * TIMESLOT)), last := s.last[fd := at], clock := at)
    case Data(fd, at) =>
      s.(timers := Renew(s.timers, fd, at + 3 * TIMESLOT), last := s.last[fd := at], clock := at)
    case WouldBlock(_) => s
    case Hangup(fd) => s.(timers := Drop(s.timers, fd), last := s.last - {fd})
    case Signals(sigs) => s.(timeout := s.timeout || Alarm in sigs, stop := s.stop || Terminate in sigs)
    case BatchEnd(at) =>
      (if s.timeout then Tick(s, at) else s).(clock := at, timeout := false, exited := s.stop)
  }

  function Run(s: State, steps: seq<Step>): State
    decreases |steps|
  {
    if steps == [] then s else Run(Apply(s, steps[0]), steps[1..])
  }

  /** The fds that the end of a batch closes, in callback order. */
  function ClosedAt(s: State, at: int): (fds: seq<int>)
    ensures forall i :: 0 <= i < |fds| ==> i < |s.timers| && fds[i] == s.timers[i].id
  {
    if s.timeout then seq(Expired(s.timers, at), i requires 0 <= i < |s.timers| => s.timers[i].id) else []
  }

  ghost predicate Possible(s: State, steps: seq<Step>)
    decreases |steps|
  {
    steps == [] || (Enabled(s, steps[0]) && Possible(Apply(s, steps[0]), steps[1..]))
  }

  lemma {:induction false} RunAppend(s: State, a: seq<Step>, b: seq<Step>)
    ensures Run(s, a + b) == Run(Run(s, a), b)
    ensures Possible(s, a + b) <==> Possible(s, a) && Possible(Run(s, a), b)
    decreases |a|
  {
    if a == [] {
      assert a + b == b;
    } else {
      assert (a + b)[1..] == a[1..] + b;
      RunAppend(Apply(s, a[0]), a[1..], b);
    }
  }

  lemma RunMore(s: State, steps: seq<Step>, step: Step)
    ensures Run(s, steps + [step]) == Apply(Run(s, steps), step)
    ensures Possible(s, steps + [step]) <==> Possible(s, steps) && Enabled(Run(s, steps), step)
  {
    var t, last := Run(s, steps), [step];
    RunAppend(s, steps, last);
    assert Run(t, last) == Run(Apply(t, last[0]), []);
    assert Possible(t, last) <==> Enabled(t, last[0]) && Possible(Apply(t, last[0]), []);
  }

  lemma RunLast(s: State, steps: seq<Step>)
    requires steps != [] && Possible(s, steps)
    ensures var n := |steps| - 1;
            var t := Run(s, steps[..n]);
            Possible(s, steps[..n]) && Enabled(t, steps[n]) && Run(s, steps) == Apply(t, steps[n])
  {
    var n := |steps| - 1;
    assert steps[..n] + [steps[n]] == steps;
    RunMore(s, steps[..n], steps[n]);
  }

  // ----- the invariant

  ghost predicate Ids(timers: seq<Entry<int>>, last: map<int, int>) {
    && (forall i, j :: 0 <= i < j < |timers| ==> timers[i].id != timers[j].id)
    && (forall i :: 0 <= i < |timers| ==> timers[i].id in last)
    && (forall fd :: fd in last ==> Find(timers, fd) < |timers|)
  }

  ghost predicate Timely(timers: seq<Entry<int>>, last: map<int, int>, lastTick: int, clock: int) {
    && Sorted(timers)
    && forall i :: 0 <= i < |timers| ==>
         && timers[i].id in last
         && timers[i].expire == last[timers[i].id] + 3 * TIMESLOT
         && lastTick < timers[i].expire <= clock + 3 * TIMESLOT
  }

  /**
   Open fds and timers correspond one to one, every expiry is the last activity plus 3 * TIMESLOT, the
   list is in order of last activity, and nothing that had expired survived the latest tick.
   */
  ghost predicate Inv(s: State) {
    && Ids(s.timers, s.last)
    && Timely(s.timers, s.last, s.lastTick, s.clock)
    && s.lastTick <= s.clock
    && (forall fd :: fd in s.last ==> 0 <= fd < FD_LIMIT)
  }

  lemma FindIs(s: seq<Entry<int>>, k: nat, fd: int)
    requires k < |s| && s[k].id == fd
    requires forall i, j :: 0 <= i < j < |s| ==> s[i].id != s[j].id
    ensures Find(s, fd) == k
  {
  }

  /** Under a nondecreasing clock a new timer always goes to the tail. */
  lemma AddGoesToTail(s: State, fd: int, at: int)
    requires Inv(s) && s.clock <= at
    ensures StableInsert(s.timers, Entry(fd, at + 3 * TIMESLOT)) == s.timers + [Entry(fd, at + 3 * TIMESLOT)]
  {
  }

  /** And so does every renewed one. */
  lemma RenewGoesToTail(s: State, fd: int, at: int)
    requires Inv(s) && fd in s.last && s.clock <= at
    ensures Renew(s.timers, fd, at + 3 * TIMESLOT)
            == RemoveAt(s.timers, Find(s.timers, fd)) + [Entry(fd, at + 3 * TIMESLOT)]
  {
    AdjustToTail(s.timers, Find(s.timers, fd), Entry(fd, at + 3 * TIMESLOT));
  }

  // ----- every step keeps the invariant

  /** fd comes in at the tail, possibly taken out elsewhere first. */
  lemma AppendKeepsIds(timers: seq<Entry<int>>, last: map<int, int>, x: Entry<int>, at: int)
    requires Ids(timers, last) && x.id !in last
    ensures Ids(timers + [x], last[x.id := at])
  {
    var t := timers + [x];
    forall fd | fd in last[x.id := at] ensures Find(t, fd) < |t| {
      var k := if fd == x.id then |timers| else Find(timers, fd);
      FindIs(t, k, fd);
    }
  }

  lemma FindAfterRemove(timers: seq<Entry<int>>, k: nat, i: nat)
    requires k < |timers| && i < |timers| && i != k
    requires forall i, j :: 0 <= i < j < |timers| ==> timers[i].id != timers[j].id
    ensures Find(RemoveAt(timers, k), timers[i].id) < |timers| - 1
  {
    FindIs(RemoveAt(timers, k), if i < k then i else i - 1, timers[i].id);
  }

  lemma RemoveKeepsIds(timers: seq<Entry<int>>, last: map<int, int>, fd: int)
    requires Ids(timers, last) && fd in last
    ensures Ids(RemoveAt(timers, Find(timers, fd)), last - {fd})
  {
    var k := Find(timers, fd);
    forall g | g in last && g != fd ensures Find(RemoveAt(timers, k), g) < |timers| - 1 {
      FindAfterRemove(timers, k, Find(timers, g));
    }
  }

  lemma AppendKeepsTimely(timers: seq<Entry<int>>, last: map<int, int>, lastTick: int, clock: int,
                          fd: int, at: int)
    requires Timely(timers, last, lastTick, clock) && fd !in last && lastTick <= clock <= at
    ensures Timely(timers + [Entry(fd, at + 3 * TIMESLOT)], last[fd := at], lastTick, at)
  {
  }

  lemma RemoveKeepsTimely(timers: seq<Entry<int>>, last: map<int, int>, lastTick: int, clock: int, k: nat)
    requires Ids(timers, last) && Timely(timers, last, lastTick, clock) && k < |timers|
    ensures Timely(RemoveAt(timers, k), last - {timers[k].id}, lastTick, clock)
  {
    RemoveKeepsSorted(timers, k);
  }

  /** The state after fd came in at the tail. */
  function Arrived(s: State, fd: int, at: int): State {
    s.(timers := s.timers + [Entry(fd, at + 3 * TIMESLOT)], last := s.last[fd := at], clock := at)
  }

  lemma ArrivalKeepsInv(s: State, fd: int, at: int)
    requires Inv(s) && 0 <= fd < FD_LIMIT && fd !in s.last && s.clock <= at
    ensures Inv(Arrived(s, fd, at))
  {
    AppendKeepsIds(s.timers, s.last, Entry(fd, at + 3 * TIMESLOT), at);
    AppendKeepsTimely(s.timers, s.last, s.lastTick, s.clock, fd, at);
  }

  lemma AcceptIsArrival(s: State, fd: int, at: int)
    requires Inv(s) && s.clock <= at
    ensures Apply(s, Accept(fd, at)) == Arrived(s, fd, at)
  {
    AddGoesToTail(s, fd, at);
  }

  lemma AcceptKeepsInv(s: State, fd: int, at: int)
    requires Inv(s) && Enabled(s, Accept(fd, at))
    ensures Inv(Apply(s, Accept(fd, at)))
    ensures Apply(s, Accept(fd, at)) == Arrived(s, fd, at)
  {
    AcceptIsArrival(s, fd, at);
    ArrivalKeepsInv(s, fd, at);
  }

  lemma HangupKeepsInv(s: State, fd: int)
    requires Inv(s) && Enabled(s, Hangup(fd))
    ensures Inv(Apply(s, Hangup(fd)))
  {
    RemoveKeepsIds(s.timers, s.last, fd);
    RemoveKeepsTimely(s.timers, s.last, s.lastTick, s.clock, Find(s.timers, fd));
  }

  lemma DataIsArrival(s: State, fd: int, at: int)
    requires Inv(s) && Enabled(s, Data(fd, at))
    ensures Apply(s, Data(fd, at)) == Arrived(Apply(s, Hangup(fd)), fd, at)
  {
    RenewGoesToTail(s, fd, at);
    assert (s.last - {fd})[fd := at] == s.last[fd := at];
  }

  /** Renewing a connection leaves the server as if it had hung up and come back at once. */
  lemma DataIsHangupThenAccept(s: State, fd: int, at: int)
    requires Inv(s) && Enabled(s, Data(fd, at))
    ensures Apply(s, Data(fd, at)) == Apply(Apply(s, Hangup(fd)), Accept(fd, at))
    ensures Inv(Apply(s, Data(fd, at)))
  {
    HangupKeepsInv(s, fd);
    AcceptKeepsInv(Apply(s, Hangup(fd)), fd, at);
    DataIsArrival(s, fd, at);
  }

  /** A tick closes fd exactly when it was idle for 3 * TIMESLOT. */
  lemma TickClosesExactlyTheIdle(s: State, at: int, fd: int)
    requires Inv(s) && s.clock <= at && fd in s.last
    ensures fd in Tick(s, at).last <==> at < s.last[fd] + 3 * TIMESLOT
    ensures fd in Tick(s, at).last ==>
              Tick(s, at).last[fd] == s.last[fd] && Find(Tick(s, at).timers, fd) < |Tick(s, at).timers|
  {
  }

  lemma TickKeepsIds(s: State, at: int)
    requires Inv(s)
    ensures Ids(Tick(s, at).timers, Tick(s, at).last)
  {
    var k, t := Expired(s.timers, at), Tick(s, at);
    forall fd | fd in t.last ensures Find(t.timers, fd) < |t.timers| {
      assert Find(s.timers, fd) >= k && t.timers[Find(s.timers, fd) - k].id == fd;
    }
  }

  lemma TickKeepsInv(s: State, at: int)
    requires Inv(s) && s.clock <= at
    ensures Inv(Tick(s, at).(clock := at))
  {
    TickKeepsIds(s, at);
  }

  lemma StepKeepsInv(s: State, step: Step)
    requires Inv(s) && Enabled(s, step)
    ensures Inv(Apply(s, step))
  {
    match step
    case Accept(fd, at) => AcceptKeepsInv(s, fd, at);
    case Data(fd, at) => DataIsHangupThenAccept(s, fd, at);
    case Hangup(fd) => HangupKeepsInv(s, fd);
    case BatchEnd(at) => TickKeepsInv(s, at);
    case _ =>
  }

  lemma {:induction false} RunKeepsInv(s: State, steps: seq<Step>)
    requires Inv(s) && Possible(s, steps)
    ensures Inv(Run(s, steps))
    decreases |steps|
  {
    if steps != [] {
      StepKeepsInv(s, steps[0]);
      RunKeepsInv(Apply(s, steps[0]), steps[1..]);
    }
  }

  /** In every reachable state the list runs in order of last activity and holds each open fd once. */
  lemma ReachableIsConsistent(start: int, steps: seq<Step>)
    requires Possible(Init(start), steps)
    ensures var s := Run(Init(start), steps);
            && Inv(s)
            && (forall fd :: fd in s.last <==> fd in (set i | 0 <= i < |s.timers| :: s.timers[i].id))
            && |s.timers| == |s.last|
            && (forall i :: 0 <= i < |s.timers| ==> s.timers[i].expire == s.last[s.timers[i].id] + 3 * TIMESLOT)
            && forall i, j :: 0 <= i < j < |s.timers| ==>
                 && s.timers[i].id != s.timers[j].id
                 && s.last[s.timers[i].id] <= s.last[s.timers[j].id]
  {
    RunKeepsInv(Init(start), steps);
    var s := Run(Init(start), steps);
    IdsAreKeys(s.timers, s.last);
    forall i, j | 0 <= i < j < |s.timers|
      ensures s.last[s.timers[i].id] <= s.last[s.timers[j].id]
    {
      assert s.timers[i].expire <= s.timers[j].expire;
    }
  }

  lemma {:induction false} IdsAreKeys(timers: seq<Entry<int>>, last: map<int, int>)
    requires Ids(timers, last)
    ensures last.Keys == (set i | 0 <= i < |timers| :: timers[i].id)
    ensures |timers| == |last|
  {
    forall fd | fd in last ensures exists i :: 0 <= i < |timers| && timers[i].id == fd {
      assert timers[Find(timers, fd)].id == fd;
    }
    DistinctCount(timers);
  }

  lemma {:induction false} DistinctCount(timers: seq<Entry<int>>)
    requires forall i, j :: 0 <= i < j < |timers| ==> timers[i].id != timers[j].id
    ensures |set i | 0 <= i < |timers| :: timers[i].id| == |timers|
  {
    if timers != [] {
      var n := |timers| - 1;
      DistinctCount(timers[..n]);
      assert (set i | 0 <= i < |timers| :: timers[i].id)
             == (set i | 0 <= i < n :: timers[..n][i].id) + {timers[n].id};
    }
  }

  // ----- the time bound

  /** Every tick of the run comes at most d after the one before it. */
  ghost predicate TicksWithin(s: State, steps: seq<Step>, d: int)
    decreases |steps|
  {
    steps != [] ==>
    && (steps[0].BatchEnd? && s.timeout ==> steps[0].at - s.lastTick <= d)
    && TicksWithin(Apply(s, steps[0]), steps[1..], d)
  }

  ghost predicate Quiet(steps: seq<Step>, fd: int) {
    forall i :: 0 <= i < |steps| ==>
      match steps[i]
      case Accept(g, _) => g != fd
      case Data(g, _) => g != fd
      case Hangup(g) => g != fd
      case _ => true
  }

  /** Step i is a tick that closes fd, no sooner than 3 * TIMESLOT after its last activity and less than d later. */
  ghost predicate ClosesInTime(s: State, steps: seq<Step>, i: nat, fd: int, d: int)
    requires fd in s.last
  {
    && i < |steps| && steps[i].BatchEnd?
    && fd in Run(s, steps[..i]).last && fd !in Run(s, steps[..i + 1]).last
    && s.last[fd] + 3 * TIMESLOT <= steps[i].at < s.last[fd] + 3 * TIMESLOT + d
  }

  lemma {:induction false} StaysClosed(s: State, steps: seq<Step>, fd: int)
    requires Inv(s) && Possible(s, steps) && Quiet(steps, fd) && fd !in s.last
    ensures fd !in Run(s, steps).last && s.lastTick <= Run(s, steps).lastTick
    decreases |steps|
  {
    if steps != [] {
      StepKeepsInv(s, steps[0]);
      StaysClosed(Apply(s, steps[0]), steps[1..], fd);
    }
  }

  lemma QuietStep(s: State, step: Step, fd: int)
    requires Inv(s) && Enabled(s, step) && Quiet([step], fd) && fd in s.last
    ensures var t := Apply(s, step);
            if step.BatchEnd? && s.timeout && s.last[fd] + 3 * TIMESLOT <= step.at
            then fd !in t.last && t.lastTick == step.at
            else fd in t.last && t.last[fd] == s.last[fd]
  {
    assert step == [step][0];
    if step.BatchEnd? && s.timeout {
      TickClosesExactlyTheIdle(s, step.at, fd);
    }
  }

  lemma RunPrefix(s: State, steps: seq<Step>, i: nat)
    requires i < |steps|
    ensures Run(s, steps[..i + 1]) == Run(Apply(s, steps[0]), steps[1..][..i])
  {
    assert steps[..i + 1][1..] == steps[1..][..i];
  }

  /**
   Over every run in which fd stays idle: it is still open at the end exactly when no tick has come
   3 * TIMESLOT or more after its last activity; and if it is not, the tick that closed it was in time.
   */
  lemma {:induction false} IdleIsClosedInTime(s: State, steps: seq<Step>, fd: int, d: int)
    requires Inv(s) && Possible(s, steps) && TicksWithin(s, steps, d)
    requires fd in s.last && Quiet(steps, fd)
    ensures fd in Run(s, steps).last <==> Run(s, steps).lastTick < s.last[fd] + 3 * TIMESLOT
    ensures fd !in Run(s, steps).last ==> exists i: nat :: ClosesInTime(s, steps, i, fd, d)
    decreases |steps|
  {
    if steps != [] {
      var t := Apply(s, steps[0]);
      StepKeepsInv(s, steps[0]);
      assert Quiet([steps[0]], fd) && Quiet(steps[1..], fd);
      QuietStep(s, steps[0], fd);
      if fd in t.last {
        IdleIsClosedInTime(t, steps[1..], fd, d);
        if fd !in Run(s, steps).last {
          var i: nat :| ClosesInTime(t, steps[1..], i, fd, d);
          RunPrefix(s, steps, i);
          RunPrefix(s, steps, i + 1);
          assert ClosesInTime(s, steps, i + 1, fd, d);
        }
      } else {
        StaysClosed(t, steps[1..], fd);
        ClosedByFirst(s, steps, fd, d);
      }
    }
  }

  lemma ClosedByFirst(s: State, steps: seq<Step>, fd: int, d: int)
    requires Inv(s) && steps != [] && Enabled(s, steps[0]) && TicksWithin(s, steps, d)
    requires fd in s.last && Quiet([steps[0]], fd) && fd !in Apply(s, steps[0]).last
    ensures ClosesInTime(s, steps, 0, fd, d)
  {
    QuietStep(s, steps[0], fd);
  }

  // ----- what is open, from the steps alone

  ghost predicate Rung(step: Step, sig: Signal) {
    step.Signals? && sig in step.sigs
  }

  /** An alarm has come in since the last batch end. */
  ghost predicate Pending(steps: seq<Step>) {
    exists i :: 0 <= i < |steps| && Rung(steps[i], Alarm)
                && forall j :: i < j < |steps| ==> !steps[j].BatchEnd?
  }

  /** Some byte read was that of SIGTERM. */
  ghost predicate ToldToStop(steps: seq<Step>) {
    exists i :: 0 <= i < |steps| && Rung(steps[i], Terminate)
  }

  /** The flags over every run. */
  lemma {:induction false} FlagsExactly(start: int, steps: seq<Step>)
    requires Possible(Init(start), steps)
    ensures Run(Init(start), steps).timeout <==> Pending(steps)
    ensures Run(Init(start), steps).stop <==> ToldToStop(steps)
    decreases |steps|
  {
    if steps != [] {
      var n := |steps| - 1;
      RunLast(Init(start), steps);
      FlagsExactly(start, steps[..n]);
      FlagsOfLast(steps);
    }
  }

  /** A batch has ended after a SIGTERM. */
  ghost predicate Ended(steps: seq<Step>) {
    exists i, j :: 0 <= i < j < |steps| && Rung(steps[i], Terminate) && steps[j].BatchEnd?
  }

  lemma EndedLast(steps: seq<Step>)
    requires steps != []
    ensures var n := |steps| - 1;
            Ended(steps) <==> Ended(steps[..n]) || (ToldToStop(steps[..n]) && steps[n].BatchEnd?)
  {
    var n := |steps| - 1;
    if i, j :| 0 <= i < j < |steps| && Rung(steps[i], Terminate) && steps[j].BatchEnd? {
      assert Rung(steps[..n][i], Terminate);
      assert j < n ==> steps[..n][j].BatchEnd?;
    }
    if i, j :| 0 <= i < j < n && Rung(steps[..n][i], Terminate) && steps[..n][j].BatchEnd? {
      assert Rung(steps[i], Terminate) && steps[j].BatchEnd?;
    }
    if i :| 0 <= i < n && Rung(steps[..n][i], Terminate) {
      assert Rung(steps[i], Terminate);
    }
  }

  /** The loop is over exactly when a batch has ended after a SIGTERM. */
  lemma {:induction false} ExitsExactly(start: int, steps: seq<Step>)
    requires Possible(Init(start), steps)
    ensures Run(Init(start), steps).exited <==> Ended(steps)
    decreases |steps|
  {
    if steps != [] {
      var n := |steps| - 1;
      RunLast(Init(start), steps);
      EndedLast(steps);
      FlagsExactly(start, steps[..n]);
      ExitsExactly(start, steps[..n]);
    }
  }

  lemma FlagsOfLast(steps: seq<Step>)
    requires steps != []
    ensures var n := |steps| - 1;
            && (Pending(steps) <==> Rung(steps[n], Alarm) || (!steps[n].BatchEnd? && Pending(steps[..n])))
            && (ToldToStop(steps) <==> Rung(steps[n], Terminate) || ToldToStop(steps[..n]))
  {
    var n := |steps| - 1;
    if Pending(steps[..n]) && !steps[n].BatchEnd? {
      var i :| 0 <= i < n && Rung(steps[..n][i], Alarm) && forall j :: i < j < n ==> !steps[..n][j].BatchEnd?;
      assert Rung(steps[i], Alarm) && forall j :: i < j < |steps| ==> j == n || steps[j] == steps[..n][j];
    }
    if Pending(steps) && !Rung(steps[n], Alarm) {
      var i :| 0 <= i < |steps| && Rung(steps[i], Alarm) && forall j :: i < j < |steps| ==> !steps[j].BatchEnd?;
      assert Rung(steps[..n][i], Alarm);
    }
    if ToldToStop(steps[..n]) {
      var i :| 0 <= i < n && Rung(steps[..n][i], Terminate);
      assert Rung(steps[i], Terminate);
    }
    if ToldToStop(steps) && !Rung(steps[n], Terminate) {
      var i :| 0 <= i < |steps| && Rung(steps[i], Terminate);
      assert Rung(steps[..n][i], Terminate);
    }
  }

  /** Step j is a batch end that runs tick. */
  ghost predicate Ticks(steps: seq<Step>, j: int) {
    0 <= j < |steps| && steps[j].BatchEnd? && Pending(steps[..j])
  }

  /** fd is accepted or sends data at this time. */
  ghost predicate Touches(step: Step, fd: int, at: int) {
    step == Accept(fd, at) || step == Data(fd, at)
  }

  ghost predicate Concerns(step: Step, fd: int) {
    (step.Accept? || step.Data? || step.Hangup?) && step.fd == fd
  }

  /** Step i touched fd, nothing about it came later, and no tick since then came at or after expiry. */
  ghost predicate OpenSince(steps: seq<Step>, i: int, fd: int, at: int) {
    && 0 <= i < |steps| && Touches(steps[i], fd, at)
    && (forall j :: i < j < |steps| ==> !Concerns(steps[j], fd))
    && forall j :: i < j < |steps| && Ticks(steps, j) ==> steps[j].at < at + 3 * TIMESLOT
  }

  lemma OpenSinceLast(steps: seq<Step>, i: int, fd: int, at: int)
    requires steps != []
    ensures var n := |steps| - 1;
            OpenSince(steps, i, fd, at) <==>
            || (i == n && Touches(steps[n], fd, at))
            || (OpenSince(steps[..n], i, fd, at) && !Concerns(steps[n], fd)
                && (Ticks(steps, n) ==> steps[n].at < at + 3 * TIMESLOT))
  {
    var n := |steps| - 1;
    forall j | 0 <= j < n ensures Ticks(steps[..n], j) == Ticks(steps, j) && steps[..n][j] == steps[j] {
      assert steps[..n][..j] == steps[..j];
    }
  }

  lemma SomeOpenSince(steps: seq<Step>, fd: int, at: int)
    requires steps != []
    ensures var n := |steps| - 1;
            (exists i :: OpenSince(steps, i, fd, at)) <==>
            || Touches(steps[n], fd, at)
            || ((exists i :: OpenSince(steps[..n], i, fd, at)) && !Concerns(steps[n], fd)
                && (Ticks(steps, n) ==> steps[n].at < at + 3 * TIMESLOT))
  {
    var n := |steps| - 1;
    if i :| OpenSince(steps, i, fd, at) {
      OpenSinceLast(steps, i, fd, at);
    }
    if i :| OpenSince(steps[..n], i, fd, at) {
      OpenSinceLast(steps, i, fd, at);
    }
    OpenSinceLast(steps, n, fd, at);
  }

  lemma LastOfStep(s: State, step: Step, fd: int, at: int)
    requires Inv(s) && Enabled(s, step)
    ensures fd in Apply(s, step).last && Apply(s, step).last[fd] == at <==>
            || Touches(step, fd, at)
            || (fd in s.last && s.last[fd] == at && !Concerns(step, fd)
                && (step.BatchEnd? && s.timeout ==> step.at < at + 3 * TIMESLOT))
  {
    if step.BatchEnd? && s.timeout && fd in s.last {
      TickClosesExactlyTheIdle(s, step.at, fd);
    }
  }

  /**
   Which connections are open at the end of a run, and since when idle, from its steps alone: those
   with a latest accept or data that no hangup followed, and no tick 3 * TIMESLOT later or more.
   */
  lemma {:induction false} OpenExactly(start: int, steps: seq<Step>, fd: int, at: int)
    requires Possible(Init(start), steps)
    ensures var s := Run(Init(start), steps);
            fd in s.last && s.last[fd] == at <==> exists i :: OpenSince(steps, i, fd, at)
    decreases |steps|
  {
    if steps != [] {
      var n := |steps| - 1;
      var s := Run(Init(start), steps[..n]);
      RunLast(Init(start), steps);
      RunKeepsInv(Init(start), steps[..n]);
      OpenExactly(start, steps[..n], fd, at);
      FlagsExactly(start, steps[..n]);
      LastOfStep(s, steps[n], fd, at);
      SomeOpenSince(steps, fd, at);
    }
  }

  /** TIMESLOT is 5: a client that says nothing is closed by a tick 15 after its accept, and by none earlier. */
  lemma ClosedAfterFifteen(start: int, fd: int, at: int)
    requires 0 <= fd < FD_LIMIT && start <= at
    ensures var steps := [Accept(fd, start), Signals([Alarm]), BatchEnd(at)];
            Possible(Init(start), steps) && (fd in Run(Init(start), steps).last <==> at < start + 15)
  {
    var s, a, b := Init(start), Accept(fd, start), Signals([Alarm]);
    RunMore(s, [], a);
    RunMore(s, [a], b);
    RunMore(s, [a, b], BatchEnd(at));
    assert [] + [a] == [a] && [a] + [b] == [a, b] && [a, b] + [BatchEnd(at)] == [a, b, BatchEnd(at)];
    AcceptKeepsInv(s, fd, start);
    TickClosesExactlyTheIdle(Run(s, [a, b]), at, fd);
  }

  // ----- the server with the source's own add

  datatype RunOutcome = Running(state: State) | Crashed

  /** A step of the server that adds timers exactly as the source writes it. */
  function ApplyAsWritten(s: State, step: Step): RunOutcome {
    match step
    case Accept(fd, at) =>
      (match AddAsWritten(s.timers, Entry(fd, at + 3 * TIMESLOT))
       case NullDereference => Crashed
       case Done(list) => Running(s.(timers := list, last := s.last[fd := at], clock := at)))
    case _ => Running(Apply(s, step))
  }

  function RunAsWritten(s: State, steps: seq<Step>): RunOutcome
    decreases |steps|
  {
    if steps == [] then Running(s)
    else match ApplyAsWritten(s, steps[0])
         case Crashed => Crashed
         case Running(t) => RunAsWritten(t, steps[1..])
  }

  /**
   As written, the server survives a run exactly when no two connections are ever open together:
   the second one dereferences null.
   */
  lemma {:induction false} AsWrittenSurvivesExactly(s: State, steps: seq<Step>)
    requires Inv(s) && |s.timers| <= 1 && Possible(s, steps)
    ensures RunAsWritten(s, steps) ==
            if AtMostOne(s, steps) then Running(Run(s, steps)) else Crashed
    decreases |steps|
  {
    IdsAreKeys(s.timers, s.last);
    if steps != [] {
      var step := steps[0];
      StepKeepsInv(s, step);
      IdsAreKeys(Apply(s, step).timers, Apply(s, step).last);
      StepAsWritten(s, step);
      if !(step.Accept? && |s.timers| == 1) {
        AsWrittenSurvivesExactly(Apply(s, step), steps[1..]);
      }
    }
  }

  lemma StepAsWritten(s: State, step: Step)
    requires Inv(s) && Enabled(s, step) && |s.timers| <= 1
    ensures var two := step.Accept? && |s.timers| == 1;
            && ApplyAsWritten(s, step) == (if two then Crashed else Running(Apply(s, step)))
            && (two <==> |Apply(s, step).timers| > 1)
  {
  }

  /** At most one connection is open before and after every step of the run. */
  ghost predicate AtMostOne(s: State, steps: seq<Step>)
    decreases |steps|
  {
    |s.last| <= 1 && (steps == [] || AtMostOne(Apply(s, steps[0]), steps[1..]))
  }
}
