/**
 The idle-connection server in place: the users table, the timer list and the flags of the event
 loop.  Every handler is proved to take the step of the same name in ReaperSpec.
 */
module Reaper {
  import opened Sequences
  import opened TimerSpec
  import opened TimerList
  import opened ReaperSpec

  /** The same list with other identities. */
  ghost function Relabel<A, B>(s: seq<Entry<A>>, ids: seq<B>): (r: seq<Entry<B>>)
    requires |ids| == |s|
    ensures |r| == |s|
    ensures forall i :: 0 <= i < |r| ==> r[i] == Entry(ids[i], s[i].expire)
  {
    seq(|s|, i requires 0 <= i < |s| => Entry(ids[i], s[i].expire))
  }

  lemma {:induction false} RelabelFirstAfter<A, B>(s: seq<Entry<A>>, ids: seq<B>, k: nat, e: int)
    requires |ids| == |s| && k <= |s|
    ensures FirstAfter(Relabel(s, ids), k, e) == FirstAfter(s, k, e)
    decreases |s| - k
  {
  }

  lemma RelabelInsert<A, B>(s: seq<Entry<A>>, ids: seq<B>, p: nat, x: Entry<A>, id: B)
    requires |ids| == |s| && p <= |s|
    ensures Relabel(InsertAt(s, p, x), InsertAt(ids, p, id))
            == InsertAt(Relabel(s, ids), p, Entry(id, x.expire))
  {
  }

  lemma RelabelAdded<A, B>(s: seq<Entry<A>>, ids: seq<B>, x: Entry<A>, id: B)
    requires |ids| == |s|
    ensures Relabel(StableInsert(s, x), InsertAt(ids, FirstAfter(s, 0, x.expire), id))
            == StableInsert(Relabel(s, ids), Entry(id, x.expire))
  {
    RelabelFirstAfter(s, ids, 0, x.expire);
    RelabelInsert(s, ids, FirstAfter(s, 0, x.expire), x, id);
  }

  lemma RelabelRemove<A, B>(s: seq<Entry<A>>, ids: seq<B>, k: nat)
    requires |ids| == |s| && k < |s|
    ensures Relabel(RemoveAt(s, k), RemoveAt(ids, k)) == RemoveAt(Relabel(s, ids), k)
  {
  }

  lemma RelabelDrop<A, B>(s: seq<Entry<A>>, ids: seq<B>, k: nat)
    requires |ids| == |s| && k <= |s|
    ensures Relabel(s[k..], ids[k..]) == Relabel(s, ids)[k..]
  {
  }

  lemma RelabelAdjust<A, B>(s: seq<Entry<A>>, ids: seq<B>, k: nat)
    requires |ids| == |s| && k < |s|
    ensures |Adjust(s, k)| == |s|
    ensures Relabel(Adjust(s, k), AdjustAlong(s, ids, k)) == Adjust(Relabel(s, ids), k)
  {
    if k + 1 < |s| && s[k + 1].expire <= s[k].expire {
      var t, js := RemoveAt(s, k), RemoveAt(ids, k);
      RelabelRemove(s, ids, k);
      RelabelFirstAfter(t, js, k + 1, s[k].expire);
      RelabelInsert(t, js, FirstAfter(t, k + 1, s[k].expire), s[k], ids[k]);
    }
  }

  /** Timer i of the list belongs to client fds[i], and that client points back at it. */
  ghost predicate Linked(ns: seq<Timer>, fds: seq<int>, users: seq<ClientData>)
    reads ns`userData, users`socketFd, users`timer
  {
    && |fds| == |ns|
    && forall i :: 0 <= i < |ns| ==>
         && 0 <= fds[i] < |users|
         && ns[i].userData == users[fds[i]]
         && users[fds[i]].socketFd == fds[i]
         && users[fds[i]].timer == ns[i]
  }

  /** What epoll reports: a new connection, bytes on the signal pipe, or a readable client with recv's result. */
  datatype Event =
    | ListenReady(fd: int, at: int)
    | SignalPipe(sigs: seq<Signal>)
    | Readable(fd: int, received: int, again: bool, at: int)

  function StepOf(e: Event): Step {
    match e
    case ListenReady(fd, at) => Accept(fd, at)
    case SignalPipe(sigs) => Signals(sigs)
    case Readable(fd, received, again, at) =>
      if received > 0 then Data(fd, at)
      else if received < 0 && again then WouldBlock(fd)
      else Hangup(fd)
  }

  function StepsOf(events: seq<Event>): (steps: seq<Step>)
    ensures |steps| == |events|
    ensures forall i :: 0 <= i < |steps| ==> steps[i] == StepOf(events[i])
  {
    seq(|events|, i requires 0 <= i < |events| => StepOf(events[i]))
  }

  // ----- what events do, in terms of what was read

  /** What one event does to the timers, to the times of last activity and to the flags. */
  ghost predicate Effect(s: State, e: Event, t: State) {
    match e
    case ListenReady(fd, at) =>
      t == s.(timers := s.timers + [Entry(fd, at + 3 * TIMESLOT)], last := s.last[fd := at], clock := at)
    case SignalPipe(sigs) =>
      t == s.(timeout := s.timeout || Alarm in sigs, stop := s.stop || Terminate in sigs)
    case Readable(fd, received, again, at) => ReadEffect(s, fd, received, again, at, t)
  }

  /** The same for what recv returned; the other clients and the flags are as they were. */
  ghost predicate ReadEffect(s: State, fd: int, received: int, again: bool, at: int, t: State) {
    && (fd in t.last <==> received > 0 || (received < 0 && again))
    && (received < 0 && again ==> t == s)
    && (received > 0 ==>
          t.last[fd] == at && t.timers == Drop(s.timers, fd) + [Entry(fd, at + 3 * TIMESLOT)])
    && (received == 0 || (received < 0 && !again) ==> t.timers == Drop(s.timers, fd))
    && (forall g :: g != fd ==> (g in t.last <==> g in s.last) && (g in s.last ==> t.last[g] == s.last[g]))
    && t.timeout == s.timeout && t.stop == s.stop && t.exited == s.exited && t.lastTick == s.lastTick
  }

  lemma DataEffect(s: State, fd: int, received: int, again: bool, at: int)
    requires received > 0
    ensures ReadEffect(s, fd, received, again, at,
                       s.(timers := Drop(s.timers, fd) + [Entry(fd, at + 3 * TIMESLOT)],
                          last := s.last[fd := at], clock := at))
  {
  }

  lemma HangupEffect(s: State, fd: int, received: int, again: bool, at: int)
    requires received == 0 || (received < 0 && !again)
    ensures ReadEffect(s, fd, received, again, at, Apply(s, Hangup(fd)))
  {
  }

  lemma DataIs(s: State, fd: int, at: int)
    requires Inv(s) && Enabled(s, Data(fd, at))
    ensures Apply(s, Data(fd, at)) ==
            s.(timers := Drop(s.timers, fd) + [Entry(fd, at + 3 * TIMESLOT)],
               last := s.last[fd := at], clock := at)
  {
    RenewGoesToTail(s, fd, at);
  }

  lemma RenewedAt(s: State, fd: int, at: int)
    requires Find(s.timers, fd) < |s.timers|
    ensures var k, t := Find(s.timers, fd), Apply(s, Data(fd, at));
            t.timers == Adjust(s.timers[k := Entry(fd, at + 3 * TIMESLOT)], k)
  {
  }

  lemma EventEffect(s: State, e: Event)
    requires Inv(s) && Enabled(s, StepOf(e))
    ensures Effect(s, e, Apply(s, StepOf(e)))
  {
    match e
    case ListenReady(fd, at) => AddGoesToTail(s, fd, at);
    case SignalPipe(_) =>
    case Readable(fd, received, again, at) =>
      if received > 0 {
        DataIs(s, fd, at);
        DataEffect(s, fd, received, again, at);
      } else if received == 0 || !again {
        HangupEffect(s, fd, received, again, at);
      }
  }

  /** fd is accepted, or bytes have come from it. */
  ghost predicate Seen(e: Event, fd: int, at: int) {
    || e == ListenReady(fd, at)
    || (e.Readable? && e.fd == fd && e.received > 0 && e.at == at)
  }

  /** The event changes what is known of fd: it is accepted, read from, or found closed or broken. */
  ghost predicate Concerned(e: Event, fd: int) {
    || (e.ListenReady? && e.fd == fd)
    || (e.Readable? && e.fd == fd && !(e.received < 0 && e.again))
  }

  /** Once the events are through, fd is open and was last seen at this time. */
  ghost predicate SeenLast(last: map<int, int>, events: seq<Event>, fd: int, at: int) {
    || (exists i :: 0 <= i < |events| && Seen(events[i], fd, at)
                    && forall j :: i < j < |events| ==> !Concerned(events[j], fd))
    || (fd in last && last[fd] == at && forall j :: 0 <= j < |events| ==> !Concerned(events[j], fd))
  }

  ghost predicate Read(events: seq<Event>, sig: Signal) {
    exists i :: 0 <= i < |events| && events[i].SignalPipe? && sig in events[i].sigs
  }

  lemma SeenLastStep(last: map<int, int>, events: seq<Event>, fd: int, at: int)
    requires events != []
    ensures var n := |events| - 1;
            SeenLast(last, events, fd, at) <==>
            Seen(events[n], fd, at) || (SeenLast(last, events[..n], fd, at) && !Concerned(events[n], fd))
  {
    var n := |events| - 1;
    assert forall i :: 0 <= i < n ==> events[..n][i] == events[i];
  }

  lemma ReadStep(events: seq<Event>, sig: Signal)
    requires events != []
    ensures var n := |events| - 1;
            Read(events, sig) <==> (events[n].SignalPipe? && sig in events[n].sigs) || Read(events[..n], sig)
  {
    var n := |events| - 1;
    assert forall i :: 0 <= i < n ==> events[..n][i] == events[i];
  }

  lemma LastOfEvent(s: State, e: Event, fd: int, at: int)
    requires Inv(s) && Enabled(s, StepOf(e))
    ensures var t := Apply(s, StepOf(e));
            fd in t.last && t.last[fd] == at <==>
            Seen(e, fd, at) || (fd in s.last && s.last[fd] == at && !Concerned(e, fd))
  {
    EventEffect(s, e);
  }

  /** The events of a batch in turn: who is open then, since when idle, and what the flags are. */
  lemma {:induction false} EventsExactly(s: State, events: seq<Event>)
    requires Inv(s) && Possible(s, StepsOf(events))
    ensures var t := Run(s, StepsOf(events));
            && Inv(t)
            && (forall fd, at :: fd in t.last && t.last[fd] == at <==> SeenLast(s.last, events, fd, at))
            && (t.timeout <==> s.timeout || Read(events, Alarm))
            && (t.stop <==> s.stop || Read(events, Terminate))
    decreases |events|
  {
    if events != [] {
      var n := |events| - 1;
      var p := Run(s, StepsOf(events)[..n]);
      assert StepsOf(events)[..n] == StepsOf(events[..n]);
      RunLast(s, StepsOf(events));
      EventsExactly(s, events[..n]);
      StepKeepsInv(p, StepOf(events[n]));
      EventEffect(p, events[n]);
      ReadStep(events, Alarm);
      ReadStep(events, Terminate);
      forall fd, at ensures
        var t := Run(s, StepsOf(events));
        fd in t.last && t.last[fd] == at <==> SeenLast(s.last, events, fd, at)
      {
        LastOfEvent(p, events[n], fd, at);
        SeenLastStep(s.last, events, fd, at);
      }
    }
  }

  /** A tick runs at the end of the batch, and fd, last seen at this time, has been idle for too long by then. */
  ghost predicate TimesOut(s: State, events: seq<Event>, at: int, seen: int) {
    (s.timeout || Read(events, Alarm)) && seen + 3 * TIMESLOT <= at
  }

  /** After the batch, open are the clients last seen in time. */
  ghost predicate OpenAfter(s: State, events: seq<Event>, at: int, last: map<int, int>) {
    forall fd, seen ::
      fd in last && last[fd] == seen <==>
      SeenLast(s.last, events, fd, seen) && !TimesOut(s, events, at, seen)
  }

  /** closed are the other clients, in order of their last activity. */
  ghost predicate ClosedBy(s: State, events: seq<Event>, at: int, closed: seq<int>) {
    && (forall fd :: fd in closed <==>
                     exists seen :: SeenLast(s.last, events, fd, seen) && TimesOut(s, events, at, seen))
    && Distinct(closed)
    && forall i, j, x, y ::
         (0 <= i < j < |closed| && SeenLast(s.last, events, closed[i], x) && SeenLast(s.last, events, closed[j], y)
          ==> x <= y)
  }

  /** One turn of the event loop from s to t: it ends the loop if SIGTERM has come. */
  ghost predicate Turn(s: State, events: seq<Event>, at: int, t: State, closed: seq<int>) {
    && OpenAfter(s, events, at, t.last) && ClosedBy(s, events, at, closed)
    && !t.timeout
    && (t.stop <==> s.stop || Read(events, Terminate)) && t.exited == t.stop
  }

  /** last is what a tick at this time, if there is one, leaves of before. */
  ghost predicate Remains(before: map<int, int>, last: map<int, int>, ticks: bool, at: int) {
    && (forall fd :: fd in last <==> fd in before && !(ticks && before[fd] + 3 * TIMESLOT <= at))
    && (forall fd :: fd in last ==> last[fd] == before[fd])
  }

  lemma EndKeeps(p: State, at: int)
    requires Inv(p) && p.clock <= at
    ensures Remains(p.last, Apply(p, BatchEnd(at)).last, p.timeout, at)
  {
    var last := Apply(p, BatchEnd(at)).last;
    if p.timeout {
      assert last == Tick(p, at).last;
      forall fd | fd in p.last
        ensures fd in last <==> at < p.last[fd] + 3 * TIMESLOT
      {
        TickClosesExactlyTheIdle(p, at, fd);
      }
    } else {
      assert last == p.last;
    }
  }

  /** The end of a batch closes exactly the clients that time out. */
  lemma EndExactly(p: State, at: int)
    requires Inv(p) && p.clock <= at
    ensures forall fd :: fd in ClosedAt(p, at) <==>
                         fd in p.last && p.timeout && p.last[fd] + 3 * TIMESLOT <= at
  {
    var closed := ClosedAt(p, at);
    forall i | 0 <= i < |closed|
      ensures closed[i] in p.last && p.timers[i].expire == p.last[closed[i]] + 3 * TIMESLOT <= at
    {
    }
    if p.timeout {
      forall fd | fd in p.last && p.last[fd] + 3 * TIMESLOT <= at ensures fd in closed {
        assert closed[Find(p.timers, fd)] == fd;
      }
    }
  }

  /** And it closes them in order of their last activity. */
  lemma ClosedInOrder(p: State, at: int)
    requires Inv(p)
    ensures Distinct(ClosedAt(p, at))
    ensures var closed := ClosedAt(p, at);
            forall i, j :: 0 <= i < j < |closed| ==>
              closed[i] in p.last && closed[j] in p.last && p.last[closed[i]] <= p.last[closed[j]]
  {
  }

  lemma EndOpens(s: State, events: seq<Event>, before: map<int, int>, last: map<int, int>, at: int)
    requires forall fd, seen :: fd in before && before[fd] == seen <==> SeenLast(s.last, events, fd, seen)
    requires Remains(before, last, s.timeout || Read(events, Alarm), at)
    ensures OpenAfter(s, events, at, last)
  {
    forall fd, seen
      ensures fd in last && last[fd] == seen <==>
              SeenLast(s.last, events, fd, seen) && !TimesOut(s, events, at, seen)
    {
      assert fd in before && before[fd] == seen <==> SeenLast(s.last, events, fd, seen);
    }
  }

  lemma EndCloses(s: State, events: seq<Event>, p: State, at: int)
    requires Inv(p) && p.clock <= at && (p.timeout <==> s.timeout || Read(events, Alarm))
    requires forall fd, seen :: fd in p.last && p.last[fd] == seen <==> SeenLast(s.last, events, fd, seen)
    ensures ClosedBy(s, events, at, ClosedAt(p, at))
  {
    EndExactly(p, at);
    ClosedInOrder(p, at);
    var closed := ClosedAt(p, at);
    forall fd ensures fd in closed <==>
                        exists seen :: SeenLast(s.last, events, fd, seen) && TimesOut(s, events, at, seen)
    {
      if fd in closed {
        assert SeenLast(s.last, events, fd, p.last[fd]);
      }
    }
  }

  lemma TurnExactly(s: State, events: seq<Event>, at: int)
    requires Inv(s) && Possible(s, StepsOf(events) + [BatchEnd(at)])
    ensures Turn(s, events, at, Run(s, StepsOf(events) + [BatchEnd(at)]),
                 ClosedAt(Run(s, StepsOf(events)), at))
  {
    var p, end := Run(s, StepsOf(events)), [BatchEnd(at)];
    RunAppend(s, StepsOf(events), end);
    assert Run(p, end) == Run(Apply(p, BatchEnd(at)), end[1..]) == Apply(p, BatchEnd(at));
    EventsExactly(s, events);
    EndKeeps(p, at);
    EndOpens(s, events, p.last, Apply(p, BatchEnd(at)).last, at);
    EndCloses(s, events, p, at);
  }

  lemma LinkedInsert(ns: seq<Timer>, fds: seq<int>, users: seq<ClientData>, p: nat, timer: Timer, fd: int)
    requires Linked(ns, fds, users) && p <= |ns|
    requires 0 <= fd < |users| && timer.userData == users[fd]
    requires users[fd].socketFd == fd && users[fd].timer == timer
    ensures Linked(InsertAt(ns, p, timer), InsertAt(fds, p, fd), users)
  {
  }

  lemma LinkedRemove(ns: seq<Timer>, fds: seq<int>, users: seq<ClientData>, k: nat)
    requires Linked(ns, fds, users) && k < |ns|
    ensures Linked(RemoveAt(ns, k), RemoveAt(fds, k), users)
  {
  }

  lemma LinkedAdjust(s: seq<Entry<Timer>>, ns: seq<Timer>, fds: seq<int>, users: seq<ClientData>, k: nat)
    requires Linked(ns, fds, users) && k < |ns| == |s|
    ensures Linked(AdjustAlong(s, ns, k), AdjustAlong(s, fds, k), users)
  {
  }

  lemma LinkedDrop(ns: seq<Timer>, fds: seq<int>, users: seq<ClientData>, k: nat)
    requires Linked(ns, fds, users) && k <= |ns|
    ensures Linked(ns[k..], fds[k..], users)
  {
  }

  function SocketsOf(clients: seq<ClientData>): (r: seq<int>)
    reads clients
    ensures |r| == |clients|
    ensures forall i :: 0 <= i < |r| ==> r[i] == clients[i].socketFd
  {
    seq(|clients|, i requires 0 <= i < |clients| reads clients => clients[i].socketFd)
  }

  lemma LinkedSockets(ns: seq<Timer>, fds: seq<int>, users: seq<ClientData>)
    requires Linked(ns, fds, users)
    ensures SocketsOf(UsersOf(ns)) == fds
  {
  }

  lemma QueueIds(timers: seq<Entry<int>>, fds: seq<int>, last: map<int, int>)
    requires Ids(timers, last) && |fds| == |timers|
    requires forall i :: 0 <= i < |fds| ==> timers[i].id == fds[i]
    ensures forall fd :: fd in fds <==> fd in last
    ensures forall fd :: fd in last ==> Find(timers, fd) < |fds| && fds[Find(timers, fd)] == fd
  {
  }

  lemma ClosedFds(s: State, fds: seq<int>, at: int)
    requires |fds| == |s.timers| && forall i :: 0 <= i < |fds| ==> s.timers[i].id == fds[i]
    ensures ClosedAt(s, at) == if s.timeout then fds[..Expired(s.timers, at)] else []
  {
  }

  /** The pointers: the list is sound, and each of its timers is tied to its client both ways. */
  ghost predicate Wired(timers: SortTimerList, fds: seq<int>, users: seq<ClientData>)
    reads timers, timers.nodes, users
  {
    && |users| == FD_LIMIT && Distinct(users)
    && timers.Valid()
    && Linked(timers.nodes, fds, users)
  }

  /** The list as fds and expiries. */
  ghost function Queue(timers: SortTimerList, fds: seq<int>): seq<Entry<int>>
    requires |fds| == |timers.nodes|
    reads timers, timers.nodes
  {
    Relabel(timers.Entries(), fds)
  }

  /** `state` is the server as ReaperSpec sees it; `fds` names the client of each list node. */
  class Server {
    const users: seq<ClientData>
    const timers: SortTimerList
    var timeout: bool
    var stopServer: bool
    ghost var fds: seq<int>
    ghost var state: State

    ghost predicate Valid()
      reads this, timers, timers.nodes, users
    {
      && Wired(timers, fds, users)
      && state.timers == Queue(timers, fds)
      && state.timeout == timeout && state.stop == stopServer
    }

    /**
     Open clients and list nodes point at each other, one to one: no open client holds a freed
     timer, and each timer expires 3 * TIMESLOT after its client's last activity.
     */
    lemma ClientsAndTimersMatch()
      requires Valid() && Inv(state)
      ensures forall fd :: fd in state.last ==>
                && 0 <= fd < |users| && users[fd].socketFd == fd
                && users[fd].timer in timers.nodes && users[fd].timer !in timers.freed
                && users[fd].timer.userData == users[fd]
                && users[fd].timer.expire == state.last[fd] + 3 * TIMESLOT
      ensures forall t :: t in timers.nodes ==>
                && t.userData.socketFd in state.last
                && t.userData == users[t.userData.socketFd] && t.userData.timer == t
    {
      QueueIds(state.timers, fds, state.last);
      forall fd | fd in state.last
        ensures 0 <= fd < |users| && users[fd].timer in timers.nodes
        ensures users[fd].timer.expire == state.last[fd] + 3 * TIMESLOT
      {
        var k := Find(state.timers, fd);
        assert fds[k] == fd && users[fds[k]].timer == timers.nodes[k];
      }
      forall t | t in timers.nodes
        ensures t.userData.socketFd in state.last && t.userData == users[t.userData.socketFd]
        ensures t.userData.timer == t
      {
        var k :| 0 <= k < |fds| && timers.nodes[k] == t;
        assert users[fds[k]].timer == timers.nodes[k] && fds[k] in fds;
      }
    }

    constructor (start: int)
      ensures Valid() && state == Init(start)
      ensures fresh(timers) && fresh(users)
    {
      var us: seq<ClientData> := [];
      while |us| < FD_LIMIT
        invariant |us| <= FD_LIMIT && Distinct(us) && fresh(us)
      {
        var client := new ClientData();
        us := us + [client];
      }
      users := us;
      timers := new SortTimerList();
      timeout, stopServer := false, false;
      fds, state := [], Init(start);
    }

    /** Fills in the client's record and makes its timer. */
    method NewTimer(fd: int, expire: int) returns (timer: Timer)
      requires Wired(timers, fds, users) && 0 <= fd < FD_LIMIT && fd !in fds
      modifies users
      ensures Wired(timers, fds, users) && timers.Entries() == old(timers.Entries())
      ensures fresh(timer) && timer.prev == null && timer.next == null
      ensures timer.expire == expire && timer.userData == users[fd]
      ensures users[fd].socketFd == fd && users[fd].timer == timer
      ensures unchanged(timers)
    {
      users[fd].socketFd := fd;
      timer := new Timer(users[fd], expire);
      users[fd].timer := timer;
      assert Chain(timers.head, timers.tail, timers.nodes);
    }

    /** The list takes the timer; the ties of the other clients are untouched. */
    method AddLinked(timer: Timer)
      requires Wired(timers, fds, users)
      requires timer !in timers.added && timer.prev == null && timer.next == null
      modifies timers, timers.nodes`prev, timers.nodes`next, timer`prev, timer`next
      ensures timers.Valid() && timers.added == old(timers.added) + {timer}
      ensures Linked(old(timers.nodes), fds, users)
      ensures timers.nodes == InsertAt(old(timers.nodes), FirstAfter(old(timers.Entries()), 0, timer.expire), timer)
      ensures timers.Entries() == StableInsert(old(timers.Entries()), Entry(timer, timer.expire))
    {
      timers.AddTimer(timer);
    }

    /** The new client is tied to its timer like the others. */
    method AddWired(timer: Timer, fd: int) returns (ghost newFds: seq<int>)
      requires Wired(timers, fds, users) && 0 <= fd < FD_LIMIT
      requires timer !in timers.added && timer.prev == null && timer.next == null
      requires timer.userData == users[fd] && users[fd].socketFd == fd && users[fd].timer == timer
      modifies timers, timers.nodes, timer
      ensures Wired(timers, newFds, users) && timers.added == old(timers.added) + {timer}
      ensures newFds == InsertAt(fds, FirstAfter(old(timers.Entries()), 0, old(timer.expire)), fd)
      ensures timers.Entries() == StableInsert(old(timers.Entries()), Entry(timer, old(timer.expire)))
    {
      ghost var ns, p := timers.nodes, FirstAfter(timers.Entries(), 0, timer.expire);
      newFds := InsertAt(fds, p, fd);
      AddLinked(timer);
      LinkedInsert(ns, fds, users, p, timer, fd);
    }

    /** Puts a prepared timer into the list. */
    method Enlist(timer: Timer, fd: int) returns (ghost newFds: seq<int>)
      requires Wired(timers, fds, users) && 0 <= fd < FD_LIMIT
      requires timer !in timers.added && timer.prev == null && timer.next == null
      requires timer.userData == users[fd] && users[fd].socketFd == fd && users[fd].timer == timer
      modifies timers, timers.nodes, timer
      ensures Wired(timers, newFds, users) && timers.added == old(timers.added) + {timer}
      ensures Queue(timers, newFds) == StableInsert(old(Queue(timers, fds)), Entry(fd, old(timer.expire)))
    {
      RelabelAdded(timers.Entries(), fds, Entry(timer, timer.expire), fd);
      newFds := AddWired(timer, fd);
    }

    method Register(fd: int, expire: int) returns (ghost newFds: seq<int>)
      requires Wired(timers, fds, users) && 0 <= fd < FD_LIMIT && fd !in fds
      modifies timers, timers.nodes, users
      ensures Wired(timers, newFds, users)
      ensures Queue(timers, newFds) == StableInsert(old(Queue(timers, fds)), Entry(fd, expire))
      ensures fresh(timers.added - old(timers.added))
    {
      var timer := NewTimer(fd, expire);
      newFds := Enlist(timer, fd);
    }

    /** Records the abstract state that the pointers and flags have just reached. */
    ghost method Commit(next: State, newFds: seq<int>)
      requires Wired(timers, newFds, users)
      requires next.timers == Queue(timers, newFds)
      requires next.timeout == timeout && next.stop == stopServer
      modifies this`state, this`fds
      ensures Valid() && state == next
    {
      state, fds := next, newFds;
      assert Wired(timers, newFds, users);
    }

    method OnAccept(fd: int, at: int)
      requires Valid() && Inv(state) && Enabled(state, Accept(fd, at))
      modifies this, timers, timers.nodes, users
      ensures Valid() && state == Apply(old(state), Accept(fd, at))
      ensures fresh(timers.added - old(timers.added))
    {
      QueueIds(state.timers, fds, state.last);
      AdmitClient(fd, at);
    }

    method AdmitClient(fd: int, at: int)
      requires Valid() && 0 <= fd < FD_LIMIT && fd !in fds
      modifies this, timers, timers.nodes, users
      ensures Valid() && state == Apply(old(state), Accept(fd, at))
      ensures fresh(timers.added - old(timers.added))
    {
      ghost var newFds := Register(fd, at + 3 * TIMESLOT);
      Commit(Apply(state, Accept(fd, at)), newFds);
    }

    method SetExpire(timer: Timer, expire: int, ghost k: nat)
      requires Wired(timers, fds, users) && k < |fds| && timers.nodes[k] == timer
      modifies timer`expire
      ensures Wired(timers, fds, users)
      ensures timers.Entries() == old(timers.Entries())[k := Entry(timer, expire)]
      ensures timers.added == old(timers.added)
    {
      timer.expire := expire;
      assert Chain(timers.head, timers.tail, timers.nodes);
    }

    method Reposition(timer: Timer, ghost k: nat) returns (ghost newFds: seq<int>)
      requires Wired(timers, fds, users) && k < |fds| && timers.nodes[k] == timer
      modifies timers, timers.nodes
      ensures Wired(timers, newFds, users)
      ensures Queue(timers, newFds) == Adjust(old(Queue(timers, fds)), k)
      ensures timers.added == old(timers.added)
    {
      ghost var s, ns := timers.Entries(), timers.nodes;
      RelabelAdjust(s, fds, k);
      newFds := AdjustAlong(s, fds, k);
      timers.AdjustTimer(timer, k);
      LinkedAdjust(s, ns, fds, users, k);
    }

    /** Moves the expiry of a client's timer and repositions it. */
    method Extend(fd: int, expire: int, ghost k: nat) returns (ghost newFds: seq<int>)
      requires Wired(timers, fds, users) && k < |fds| && fds[k] == fd
      modifies timers, timers.nodes
      ensures Wired(timers, newFds, users)
      ensures Queue(timers, newFds) == Adjust(old(Queue(timers, fds))[k := Entry(fd, expire)], k)
      ensures timers.added == old(timers.added)
    {
      var timer := users[fd].timer;
      if timer != null {
        SetExpire(timer, expire, k);
        assert Queue(timers, fds) == old(Queue(timers, fds))[k := Entry(fd, expire)];
        newFds := Reposition(timer, k);
      }
    }

    method OnData(fd: int, at: int)
      requires Valid() && Inv(state) && Enabled(state, Data(fd, at))
      modifies this, timers, timers.nodes, users
      ensures Valid() && state == Apply(old(state), Data(fd, at))
      ensures timers.added == old(timers.added)
    {
      QueueIds(state.timers, fds, state.last);
      RenewClient(fd, at);
    }

    method RenewClient(fd: int, at: int)
      requires Valid() && Find(state.timers, fd) < |fds| && fds[Find(state.timers, fd)] == fd
      modifies this, timers, timers.nodes
      ensures Valid() && state == Apply(old(state), Data(fd, at))
      ensures timers.added == old(timers.added)
    {
      ghost var k, next := Find(state.timers, fd), Apply(state, Data(fd, at));
      RenewedAt(state, fd, at);
      ghost var newFds := Extend(fd, at + 3 * TIMESLOT, k);
      Commit(next, newFds);
    }

    /** The callback closes the fd; its timer leaves the list and is deleted. */
    method OnHangup(fd: int)
      requires Valid() && Inv(state) && Enabled(state, Hangup(fd))
      modifies this, timers, timers.nodes
      ensures Valid() && state == Apply(old(state), Hangup(fd))
      ensures timers.added == old(timers.added)
    {
      QueueIds(state.timers, fds, state.last);
      DropClient(fd);
    }

    method DropClient(fd: int)
      requires Valid() && Find(state.timers, fd) < |fds| && fds[Find(state.timers, fd)] == fd
      modifies this, timers, timers.nodes
      ensures Valid() && state == Apply(old(state), Hangup(fd))
      ensures timers.added == old(timers.added)
    {
      var timer := users[fd].timer;
      if timer != null {
        ghost var k, next := Find(state.timers, fd), Apply(state, Hangup(fd));
        assert next.timers == RemoveAt(Queue(timers, fds), k);
        ghost var newFds := Strike(timer, k);
        Commit(next, newFds);
      }
    }

    method Strike(timer: Timer, ghost k: nat) returns (ghost newFds: seq<int>)
      requires Wired(timers, fds, users) && k < |fds| && timers.nodes[k] == timer
      modifies timers, timers.nodes
      ensures Wired(timers, newFds, users)
      ensures Queue(timers, newFds) == RemoveAt(old(Queue(timers, fds)), k)
      ensures timers.added == old(timers.added)
    {
      RelabelRemove(timers.Entries(), fds, k);
      newFds := RemoveAt(fds, k);
      timers.DelTimer(timer, k);
      LinkedRemove(old(timers.nodes), fds, users, k);
    }

    /** The loop over the bytes that were read. */
    method RaiseFlags(sigs: seq<Signal>)
      modifies this`timeout, this`stopServer
      ensures timeout == (old(timeout) || Alarm in sigs)
      ensures stopServer == (old(stopServer) || Terminate in sigs)
    {
      var i := 0;
      while i < |sigs|
        invariant i <= |sigs|
        invariant timeout == (old(timeout) || Alarm in sigs[..i])
        invariant stopServer == (old(stopServer) || Terminate in sigs[..i])
      {
        match sigs[i] {
          case Alarm => timeout := true;
          case Terminate => stopServer := true;
          case OtherSignal =>
        }
        i := i + 1;
      }
      assert sigs[..i] == sigs;
    }

    /** One read of the signal pipe only raises flags. */
    method OnSignals(sigs: seq<Signal>)
      requires Valid()
      modifies this
      ensures Valid() && state == Apply(old(state), Signals(sigs))
    {
      RaiseFlags(sigs);
      assert Wired(timers, fds, users);
      Commit(Apply(state, Signals(sigs)), fds);
    }

    /** tick, which fires the first k timers; the clients that are left are tied to theirs as before. */
    method TickWired(at: int, ghost k: nat) returns (called: seq<ClientData>)
      requires Wired(timers, fds, users) && k <= |fds| && k == Expired(timers.Entries(), at)
      modifies timers, timers.nodes
      ensures Wired(timers, fds[k..], users) && timers.added == old(timers.added)
      ensures timers.Entries() == old(timers.Entries())[k..]
      ensures called == old(UsersOf(timers.nodes))[..k]
    {
      ghost var ns := timers.nodes;
      called := timers.Tick(at);
      LinkedDrop(ns, fds, users, k);
    }

    /** The callbacks close the fds they are given. */
    method RunTick(at: int, ghost k: nat) returns (closed: seq<int>)
      requires Wired(timers, fds, users) && k <= |fds| && k == Expired(timers.Entries(), at)
      modifies timers, timers.nodes
      ensures Wired(timers, fds[k..], users) && timers.added == old(timers.added)
      ensures timers.Entries() == old(timers.Entries())[k..]
      ensures closed == fds[..k]
    {
      LinkedSockets(timers.nodes, fds, users);
      var called := TickWired(at, k);
      closed := SocketsOf(called);
      assert closed == fds[..k];
    }

    method ClearTimeout(ghost newFds: seq<int>)
      requires Wired(timers, newFds, users)
      modifies this`timeout
      ensures !timeout && Wired(timers, newFds, users)
      ensures Queue(timers, newFds) == old(Queue(timers, newFds))
    {
      timeout := false;
      assert Wired(timers, newFds, users);
    }

    /** timer_handler, and the flag is taken back. */
    method Expire(at: int, ghost k: nat) returns (closed: seq<int>)
      requires Wired(timers, fds, users) && k <= |fds| && k == Expired(timers.Entries(), at)
      modifies this`timeout, timers, timers.nodes
      ensures Wired(timers, fds[k..], users) && !timeout && timers.added == old(timers.added)
      ensures Queue(timers, fds[k..]) == old(Queue(timers, fds))[k..]
      ensures closed == fds[..k]
    {
      RelabelDrop(timers.Entries(), fds, k);
      closed := RunTick(at, k);
      ClearTimeout(fds[k..]);
    }

    ghost method CommitTick(newFds: seq<int>, at: int)
      requires Wired(timers, newFds, users) && !timeout && state.timeout && state.stop == stopServer
      requires Queue(timers, newFds) == state.timers[Expired(state.timers, at)..]
      modifies this`state, this`fds
      ensures Valid() && state == Apply(old(state), BatchEnd(at))
    {
      Commit(Apply(state, BatchEnd(at)), newFds);
    }

    method OnTimeout(at: int) returns (closed: seq<int>)
      requires Valid() && timeout
      modifies this, timers, timers.nodes
      ensures Valid() && state == Apply(old(state), BatchEnd(at))
      ensures timers.added == old(timers.added)
      ensures closed == old(fds)[..Expired(old(state).timers, at)]
    {
      ghost var k := Expired(timers.Entries(), at);
      RelabelFirstAfter(timers.Entries(), fds, 0, at);
      closed := Expire(at, k);
      CommitTick(fds[k..], at);
    }

    /** The end of a batch: a pending timeout runs tick, and the callbacks close the fds they are given. */
    method OnBatchEnd(at: int) returns (closed: seq<int>)
      requires Valid()
      modifies this, timers, timers.nodes
      ensures Valid() && state == Apply(old(state), BatchEnd(at))
      ensures timers.added == old(timers.added)
      ensures closed == ClosedAt(old(state), at)
    {
      ClosedFds(state, fds, at);
      if timeout {
        closed := OnTimeout(at);
      } else {
        closed := [];
        Commit(Apply(state, BatchEnd(at)), fds);
      }
    }

    method Handle(e: Event)
      requires Valid() && Inv(state) && Enabled(state, StepOf(e))
      modifies this, timers, timers.nodes, users
      ensures Valid() && state == Apply(old(state), StepOf(e)) && Effect(old(state), e, state)
      ensures fresh(timers.added - old(timers.added))
    {
      EventEffect(state, e);
      match e
      case ListenReady(fd, at) => OnAccept(fd, at);
      case SignalPipe(sigs) => OnSignals(sigs);
      case Readable(fd, received, again, at) =>
        if received < 0 {
          if !again {
            OnHangup(fd);
          }
        } else if received == 0 {
          OnHangup(fd);
        } else {
          OnData(fd, at);
        }
    }

    /** One event of a batch, as the first step of what is left of the run. */
    method TakeEvent(e: Event, ghost steps: seq<Step>)
      requires Valid() && Inv(state) && steps != [] && steps[0] == StepOf(e) && Possible(state, steps)
      modifies this, timers, timers.nodes, users
      ensures Valid() && Inv(state) && Possible(state, steps[1..])
      ensures Run(state, steps[1..]) == Run(old(state), steps)
      ensures fresh(timers.added - old(timers.added))
    {
      StepKeepsInv(state, StepOf(e));
      Handle(e);
    }

    /** The events of a batch in turn. */
    method TakeEvents(events: seq<Event>)
      requires Valid() && Inv(state) && Possible(state, StepsOf(events))
      modifies this, timers, timers.added, users
      ensures Valid() && Inv(state) && state == Run(old(state), StepsOf(events))
      ensures fresh(timers.added - old(timers.added))
    {
      ghost var steps, final := StepsOf(events), Run(state, StepsOf(events));
      var i := 0;
      while i < |events|
        invariant i <= |events| && Valid() && Inv(state)
        invariant fresh(timers.added - old(timers.added))
        invariant Possible(state, steps[i..]) && Run(state, steps[i..]) == final
      {
        assert steps[i..][1..] == steps[i + 1..];
        TakeEvent(events[i], steps[i..]);
        i := i + 1;
      }
    }

    /** One turn of the event loop: a batch of events, then a pending timeout; closed are the fds that tick closes. */
    method RunBatch(events: seq<Event>, at: int) returns (closed: seq<int>)
      requires Valid() && Inv(state) && Possible(state, StepsOf(events) + [BatchEnd(at)])
      modifies this, timers, timers.added, users
      ensures Valid() && Inv(state)
      ensures state == Run(old(state), StepsOf(events) + [BatchEnd(at)])
      ensures closed == ClosedAt(Run(old(state), StepsOf(events)), at)
      ensures Turn(old(state), events, at, state, closed)
      ensures fresh(timers.added - old(timers.added))
    {
      TurnExactly(state, events, at);
      RunAppend(state, StepsOf(events), [BatchEnd(at)]);
      TakeEvents(events);
      StepKeepsInv(state, BatchEnd(at));
      closed := OnBatchEnd(at);
    }
  }
}
