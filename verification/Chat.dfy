/**
 The parent of the chat server in place: the users array with its counter, the map from pid to
 index and the flags of the event loop.  Every handler is proved to take the step of the same event
 in ChatSpec.
 */
module Chat {
  import opened Sequences
  import opened ChatSpec

  class Parent {
    const limit: nat
    const users: array<Client>
    const subProcess: array<int>
    var userCount: nat
    var terminate: bool
    var stopServer: bool
    ghost var slots: map<int, int>

    ghost predicate Shaped()
      reads this
    {
      users.Length == limit + 1 && userCount <= limit
    }

    ghost function Abs(): State
      requires Shaped()
      reads this, users, subProcess
    {
      State(users[..userCount], subProcess[..], slots, limit, terminate, stopServer)
    }

    ghost predicate Valid()
      reads this, users, subProcess
    {
      Shaped() && Inv(Abs())
    }

    constructor (limit: nat, pidLimit: nat)
      ensures Valid() && Abs() == Init(limit, pidLimit)
      ensures fresh(users) && fresh(subProcess)
    {
      this.limit := limit;
      users := new Client[limit + 1];
      subProcess := new int[pidLimit](_ => -1);
      userCount, terminate, stopServer, slots := 0, false, false, map[];
      new;
      assert subProcess[..] == seq(pidLimit, _ => -1);
    }

    /** What a ready listening socket amounts to, given the results of accept, fork and socketpair. */
    static function Listening(connfd: int, pid: int, pipe: int): Event {
      if connfd < 0 then AcceptFailed else if pid < 0 then ForkFailed else Accept(connfd, pid, pipe)
    }

    /** Nothing, or one more client at the end of the table, found through its pid, in the slot of its index. */
    static ghost predicate Listened(s: State, connfd: int, pid: int, pipe: int, t: State) {
      var n := |s.users|;
      if connfd < 0 || pid < 0 || n == s.limit then t == s
      else
        && pid < |s.sub|
        && t == State(s.users + [Client(connfd, pid, pipe)], s.sub[pid := n], s.slots[pid := n],
                      s.limit, s.terminate, s.stop)
    }

    static lemma ListenedIs(s: State, connfd: int, pid: int, pipe: int)
      requires Inv(s) && Enabled(s, Listening(connfd, pid, pipe))
      ensures Listened(s, connfd, pid, pipe, Apply(s, Listening(connfd, pid, pipe)))
    {
    }

    method OnListen(connfd: int, pid: int, pipe: int)
      requires Valid() && Enabled(Abs(), Listening(connfd, pid, pipe))
      modifies this, users, subProcess
      ensures Valid() && Abs() == Apply(old(Abs()), Listening(connfd, pid, pipe))
      ensures Listened(old(Abs()), connfd, pid, pipe, Abs())
    {
      ListenedIs(Abs(), connfd, pid, pipe);
      StepKeepsInv(Abs(), Listening(connfd, pid, pipe));
      if connfd < 0 || userCount >= limit {
        return;
      }
      users[userCount] := users[userCount].(connfd := connfd, pipe := pipe);
      assert users[..userCount] == old(users[..userCount]);
      if pid < 0 {
        return;
      }
      users[userCount] := users[userCount].(pid := pid);
      subProcess[pid] := userCount;
      slots := slots[pid := userCount];
      userCount := userCount + 1;
      assert users[..userCount] == old(users[..userCount]) + [Client(connfd, pid, pipe)];
    }

    /** One pid from waitpid. */
    method ReapChild(pid: int)
      requires Valid() && pid in slots
      modifies this, users, subProcess
      ensures Valid() && Abs() == ReapOne(old(Abs()), pid)
    {
      ReapOneKeepsInv(Abs(), pid);
      ghost var us, sub := users[..userCount], subProcess[..];
      var dead := subProcess[pid];
      subProcess[pid] := -1;
      slots := slots - {pid};
      if dead < 0 || dead > limit {
        return;
      }
      userCount := userCount - 1;
      users[dead] := users[userCount];
      subProcess[users[dead].pid] := dead;
      assert users[..userCount] == SwapRemove(us, dead);
      assert subProcess[..] == sub[pid := -1][us[|us| - 1].pid := dead];
    }

    /** SIGCHLD: reaps until waitpid has no more, then stops a terminated server without users. */
    method OnSigchld(deads: seq<int>)
      requires Valid() && Enabled(Abs(), Sigchld(deads))
      modifies this, users, subProcess
      ensures Valid() && Abs() == Apply(old(Abs()), Sigchld(deads))
      ensures forall pid :: pid in slots <==> pid in old(slots) && pid !in deads
      ensures stopServer <==> old(stopServer) || (old(terminate) && slots == map[])
      ensures terminate == old(terminate)
    {
      ReapAllKeepsInv(Abs(), deads);
      FlagsOfStep(Abs(), Sigchld(deads));
      ghost var all := ReapAll(Abs(), deads);
      var i := 0;
      while i < |deads|
        invariant i <= |deads| && Valid()
        invariant Enabled(Abs(), Sigchld(deads[i..]))
        invariant ReapAll(Abs(), deads[i..]) == all
      {
        assert deads[i..][0] == deads[i] && deads[i..][1..] == deads[i + 1..];
        RestIsEnabled(Abs(), deads[i..]);
        ReapChild(deads[i]);
        i := i + 1;
      }
      if terminate && userCount == 0 {
        stopServer := true;
      }
    }

    /** SIGTERM and SIGINT: stops at once without users, otherwise signals every child. */
    method OnSigterm() returns (killed: seq<int>)
      requires Valid()
      modifies this
      ensures Valid() && Abs() == Apply(old(Abs()), Sigterm) && slots == old(slots)
      ensures stopServer <==> old(stopServer) || slots == map[]
      ensures terminate <==> old(terminate) || slots != map[]
      ensures killed == Pids(old(Abs()).users) && Distinct(killed)
      ensures forall pid :: pid in killed <==> pid in slots
    {
      EachChildKilledOnce(Abs());
      FlagsOfStep(Abs(), Sigterm);
      killed := [];
      if userCount == 0 {
        stopServer := true;
        return;
      }
      var i := 0;
      while i < userCount
        invariant i <= userCount && Valid() && Abs() == old(Abs())
        invariant killed == Pids(users[..i])
      {
        killed := killed + [users[i].pid];
        i := i + 1;
      }
      terminate := true;
    }

    /** A child's message on fd is passed on to the pipes of all other clients. */
    method OnMessage(fd: int) returns (sent: seq<int>)
      requires Valid()
      ensures sent == Recipients(Abs().users, fd)
    {
      sent := [];
      var j := 0;
      while j < userCount
        invariant j <= userCount && sent == Recipients(users[..j], fd)
      {
        assert users[..j + 1][..j] == users[..j];
        if users[j].pipe != fd {
          sent := sent + [users[j].pipe];
        }
        j := j + 1;
      }
    }

    method Handle(e: Event) returns (outs: seq<Output>)
      requires Valid() && Enabled(Abs(), e)
      modifies this, users, subProcess
      ensures Valid() && Abs() == Apply(old(Abs()), e) && outs == Emits(old(Abs()), e)
    {
      outs := [];
      match e
      case Accept(connfd, pid, pipe) => OnListen(connfd, pid, pipe);
      case AcceptFailed => OnListen(-1, -1, -1);
      case ForkFailed => OnListen(0, -1, -1);
      case Sigchld(deads) => OnSigchld(deads);
      case Sigterm =>
        var killed := OnSigterm();
        outs := [Killed(killed)];
      case Message(fd) =>
        var sent := OnMessage(fd);
        outs := [Sent(fd, sent)];
    }

    /** One event of a batch, as the first of what is left of the run. */
    method TakeEvent(e: Event, ghost rest: seq<Event>) returns (outs: seq<Output>)
      requires Valid() && rest != [] && rest[0] == e && Possible(Abs(), rest)
      modifies this, users, subProcess
      ensures Valid() && Possible(Abs(), rest[1..]) && Run(Abs(), rest[1..]) == Run(old(Abs()), rest)
      ensures outs + Outputs(Abs(), rest[1..]) == Outputs(old(Abs()), rest)
    {
      outs := Handle(e);
    }

    /** The events of a batch in turn. */
    method TakeEvents(events: seq<Event>) returns (outs: seq<Output>)
      requires Valid() && Possible(Abs(), events)
      modifies this, users, subProcess
      ensures Valid() && Abs() == Run(old(Abs()), events) && outs == Outputs(old(Abs()), events)
    {
      ghost var final, all := Run(Abs(), events), Outputs(Abs(), events);
      outs := [];
      var i := 0;
      while i < |events|
        invariant i <= |events| && Valid()
        invariant Possible(Abs(), events[i..]) && Run(Abs(), events[i..]) == final
        invariant outs + Outputs(Abs(), events[i..]) == all
      {
        ghost var rest := events[i..];
        assert rest[1..] == events[i + 1..];
        var more := TakeEvent(events[i], rest);
        Associate(outs, more, Outputs(Abs(), events[i + 1..]));
        outs := outs + more;
        i := i + 1;
      }
    }

    /** One batch of events; the stop flag is looked at only after the batch. */
    method RunBatch(events: seq<Event>) returns (outs: seq<Output>)
      requires Valid() && Possible(Abs(), events)
      modifies this, users, subProcess
      ensures Valid() && Abs() == Run(old(Abs()), events) && outs == Outputs(old(Abs()), events)
      ensures !old(stopServer) && !old(terminate) ==>
                && (stopServer <==> StoppedBy(old(Abs()), events))
                && (terminate <==> SignalledChildren(old(Abs()), events))
      ensures !old(stopServer) && stopServer ==> (slots == map[] <==> LateChildrenReaped(old(Abs()), events))
    {
      ghost var start := Abs();
      outs := TakeEvents(events);
      if !start.stop && !start.terminate {
        StopsExactly(start, events);
      }
      if !start.stop && stopServer {
        LeavesNoneExactly(start, events);
      }
    }

    /** The event loop over the batches epoll delivers; it can end with a child that is still running. */
    method EventLoop(batches: seq<seq<Event>>) returns (outs: seq<Output>)
      requires Valid() && LoopPossible(Abs(), batches)
      modifies this, users, subProcess
      ensures Valid() && Abs() == Loop(old(Abs()), batches)
      ensures outs == Outputs(old(Abs()), Handled(old(Abs()), batches))
      ensures !old(stopServer) && !old(terminate) ==>
                (stopServer <==> StoppedBy(old(Abs()), Handled(old(Abs()), batches)))
      ensures !old(stopServer) && stopServer ==>
                (slots == map[] <==> LateChildrenReaped(old(Abs()), Handled(old(Abs()), batches)))
    {
      ghost var start := Abs();
      ghost var final, all := Loop(start, batches), Outputs(start, Handled(start, batches));
      outs := [];
      var i := 0;
      while i < |batches| && !stopServer
        invariant i <= |batches| && Valid()
        invariant LoopPossible(Abs(), batches[i..]) && Loop(Abs(), batches[i..]) == final
        invariant outs + Outputs(Abs(), Handled(Abs(), batches[i..])) == all
      {
        ghost var s := Abs();
        assert batches[i..][0] == batches[i] && batches[i..][1..] == batches[i + 1..];
        var more := RunBatch(batches[i]);
        OutputsAppend(s, batches[i], Handled(Abs(), batches[i + 1..]));
        Associate(outs, more, Outputs(Abs(), Handled(Abs(), batches[i + 1..])));
        outs := outs + more;
        i := i + 1;
      }
      if !start.stop && !start.terminate {
        LoopStopsExactly(start, batches);
      }
      if !start.stop && stopServer {
        ExitLeavesNoneExactly(start, batches);
      }
    }
  }
}
