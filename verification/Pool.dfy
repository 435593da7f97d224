/**
 The parent of the process pool in place: the array of child pids, the round-robin counter and the
 stop flag.  Every handler is proved to take the step of the same event in PoolSpec.
 */
module Pool {
  import opened Sequences
  import opened PoolSpec

  class Parent {
    const subProcess: array<int>
    var counter: nat
    var stop: bool

    /** MAX_PROCESS_NUMBER is 16, and the constructor insists on fewer. */
    ghost predicate Valid()
      reads this, subProcess
    {
      0 < subProcess.Length < 16 && Inv(Abs())
    }

    ghost function Abs(): State
      reads this, subProcess
    {
      State(subProcess[..], counter, stop)
    }

    /** pids are what fork returned in the parent, one for each child. */
    constructor (pids: seq<int>)
      requires 0 < |pids| < 16 && forall k :: 0 <= k < |pids| ==> pids[k] > 0
      ensures Valid() && Initial(Abs()) && Abs().pids == pids && fresh(subProcess)
    {
      subProcess := new int[|pids|](k requires 0 <= k < |pids| => pids[k]);
      counter, stop := 0, false;
      new;
      assert subProcess[..] == pids;
      InitialIsInv(Abs());
    }

    /** The do-while search; probes counts its rounds. */
    method Search() returns (j: nat, ghost probes: nat)
      requires Valid()
      ensures j < subProcess.Length && 1 <= probes <= subProcess.Length
      ensures match Pick(subProcess[..], counter)
              case Slot(k) => j == k && subProcess[j] != -1
              case NoSlot => subProcess[j] == -1
    {
      ghost var n := subProcess.Length;
      j, probes := counter, 0;
      while true
        invariant probes < n && j == Wrap(counter, probes, n)
        invariant PickFrom(subProcess[..], counter, probes) == Pick(subProcess[..], counter)
        decreases n - probes
      {
        probes := probes + 1;
        if subProcess[j] != -1 {
          break;
        }
        j := (j + 1) % subProcess.Length;
        assert j == Next(Wrap(counter, probes - 1, n), n);
        if j == counter {
          break;
        }
      }
    }

    /** The listening socket, at position i of its batch: picks a child and writes the notice, or stops. */
    method OnConnection(i: nat) returns (sends: seq<Send>)
      requires Valid()
      modifies this
      ensures Valid() && Abs() == Apply(old(Abs()), Connection(i))
      ensures sends == Sends(old(Abs()), [Connection(i)])
      ensures sends == [] <==> NoneLeft(subProcess[..])
    {
      StepKeepsInv(Abs(), Connection(i));
      PickIsNearestLive(subProcess[..], counter);
      var j, probes := Search();
      if subProcess[j] == -1 {
        stop := true;
        sends := [];
      } else {
        counter := (j + 1) % subProcess.Length;
        assert counter == Next(j, subProcess.Length);
        sends := [Send(j, i)];
      }
      SendsSplit(old(Abs()), [Connection(i)]);
    }

    /** The inner loop of SIGCHLD: the slots of one dead pid. */
    method ClearSlots(pid: int)
      modifies subProcess
      ensures subProcess[..] == Clear(old(subProcess[..]), pid)
    {
      var k := 0;
      while k < subProcess.Length
        invariant k <= subProcess.Length
        invariant forall i :: 0 <= i < k ==>
                    subProcess[i] == old(if subProcess[i] == pid then -1 else subProcess[i])
        invariant forall i :: k <= i < subProcess.Length ==> subProcess[i] == old(subProcess[i])
      {
        if subProcess[k] == pid {
          subProcess[k] := -1;
        }
        k := k + 1;
      }
    }

    /** SIGCHLD: reaps every pid that waitpid returns, then stops unless a child is left. */
    method OnSigchld(deads: seq<int>)
      requires Valid()
      modifies this, subProcess
      ensures Valid() && Abs() == Apply(old(Abs()), Sigchld(deads))
      ensures forall k :: 0 <= k < subProcess.Length ==>
                subProcess[k] == if old(subProcess[k]) in deads then -1 else old(subProcess[k])
    {
      StepKeepsInv(Abs(), Sigchld(deads));
      ReapExactly(subProcess[..], deads);
      var i := 0;
      while i < |deads|
        invariant i <= |deads| && counter == old(counter)
        invariant Reap(subProcess[..], deads[i..]) == Reap(old(subProcess[..]), deads)
      {
        assert deads[i..][1..] == deads[i + 1..];
        ClearSlots(deads[i]);
        i := i + 1;
      }
      stop := true;
      var k := 0;
      while k < subProcess.Length
        invariant k <= subProcess.Length && counter == old(counter)
        invariant stop <==> forall i :: 0 <= i < k ==> subProcess[i] == -1
        invariant subProcess[..] == Reap(old(subProcess[..]), deads)
      {
        if subProcess[k] != -1 {
          stop := false;
        }
        k := k + 1;
      }
    }

    /** One event at position i; leave is the break of the connection branch. */
    method Handle(e: Event, i: nat) returns (sends: seq<Send>, leave: bool)
      requires Valid() && (e.Connection? ==> e.position == i)
      modifies this, subProcess
      ensures Valid() && Abs() == Run(old(Abs()), [e]) && sends == Sends(old(Abs()), [e])
      ensures leave ==> stop
    {
      assert [e][1..] == [];
      SendsSplit(Abs(), [e]);
      sends, leave := [], false;
      match e {
        case Connection(_) =>
          sends := OnConnection(i);
          leave := sends == [];
        case Sigchld(deads) =>
          OnSigchld(deads);
        case Sigterm =>
        case OtherEvent =>
      }
    }

    /** One event of a batch, as the first of what is left of the run. */
    method TakeEvent(e: Event, i: nat, ghost rest: seq<Event>) returns (sends: seq<Send>, leave: bool)
      requires Valid() && (e.Connection? ==> e.position == i) && rest != [] && rest[0] == e
      modifies this, subProcess
      ensures Valid() && Run(Abs(), rest[1..]) == Run(old(Abs()), rest)
      ensures sends + Sends(Abs(), rest[1..]) == Sends(old(Abs()), rest)
      ensures leave ==> stop
    {
      assert [e] + rest[1..] == rest;
      SendsAppend(Abs(), [e], rest[1..]);
      sends, leave := Handle(e, i);
    }

    /** One batch of events; the connection branch leaves the loop when no child is left. */
    method RunBatch(events: seq<Event>) returns (sends: seq<Send>)
      requires Valid()
      requires forall i :: 0 <= i < |events| && events[i].Connection? ==> events[i].position == i
      modifies this, subProcess
      ensures Valid() && Abs() == Run(old(Abs()), events) && sends == Sends(old(Abs()), events)
    {
      ghost var final, all := Run(Abs(), events), Sends(Abs(), events);
      sends := [];
      var i, leave := 0, false;
      while i < |events| && !leave
        invariant i <= |events| && Valid()
        invariant Run(Abs(), events[i..]) == final
        invariant sends + Sends(Abs(), events[i..]) == all
        invariant leave ==> stop
      {
        ghost var rest := events[i..];
        assert rest[1..] == events[i + 1..];
        var more;
        more, leave := TakeEvent(events[i], i, rest);
        Associate(sends, more, Sends(Abs(), events[i + 1..]));
        sends := sends + more;
        i := i + 1;
      }
      if leave {
        StoppedStaysPut(Abs(), events[i..]);
      }
    }
  }
}
