/**
 The parent of the chat server as a state machine: a dense table of clients, the map from a child's
 pid to its table index, and the shared-memory slot that every child keeps from its fork.
 */
module ChatSpec {
  import opened Sequences

  const BUFFER_SIZE := 1024

  datatype Client = Client(connfd: int, pid: int, pipe: int)

  datatype Event =
    | Accept(connfd: int, pid: int, pipe: int)
    | AcceptFailed
    | ForkFailed
    | Sigchld(deads: seq<int>)
    | Sigterm
    | Message(fd: int)

  /**
   users is the table up to user_count, sub the whole map array, limit is USER_LIMIT.  slots names
   the children that have not been reaped, each with the index it was forked with.
   */
  datatype State = State(
    users: seq<Client>, sub: seq<int>, slots: map<int, int>, limit: nat, terminate: bool, stop: bool)

  function Init(limit: nat, pidLimit: nat): State {
    State([], seq(pidLimit, _ => -1), map[], limit, false, false)
  }

  /**
   accept returns a descriptor, fork a pid no unreaped child has, socketpair a pipe not in use, and
   waitpid unreaped children.
   */
  ghost predicate Enabled(s: State, e: Event) {
    match e
    case Accept(connfd, pid, pipe) =>
      && 0 <= connfd && 0 < pid < |s.sub| && pid !in s.slots
      && forall i :: 0 <= i < |s.users| ==> s.users[i].pipe != pipe
    case Sigchld(deads) => Distinct(deads) && forall i :: 0 <= i < |deads| ==> deads[i] in s.slots
    case _ => true
  }

  function Register(s: State, u: Client): State
    requires 0 <= u.pid < |s.sub|
  {
    s.(users := s.users + [u], sub := s.sub[u.pid := |s.users|], slots := s.slots[u.pid := |s.users|])
  }

  /** The last record takes the place of record d. */
  function SwapRemove(users: seq<Client>, d: nat): (r: seq<Client>)
    requires d < |users|
    ensures |r| == |users| - 1
    ensures forall i :: 0 <= i < |r| ==> r[i] == if i == d then users[|r|] else users[i]
  {
    users[d := users[|users| - 1]][..|users| - 1]
  }

  /**
   One dead child.  A live child's entry is always inside the table (Inv), so the branch that skips
   is never taken for one.
   */
  function ReapOne(s: State, pid: int): (t: State)
    ensures |t.sub| == |s.sub| && t.limit == s.limit
  {
    if !(0 <= pid < |s.sub|) || !(0 <= s.sub[pid] < |s.users|) then s
    else
      var d, last := s.sub[pid], s.users[|s.users| - 1];
      var sub := s.sub[pid := -1];
      s.(users := SwapRemove(s.users, d),
         sub := if 0 <= last.pid < |sub| then sub[last.pid := d] else sub,
         slots := s.slots - {pid})
  }

  function ReapAll(s: State, deads: seq<int>): (t: State)
    ensures |t.sub| == |s.sub| && t.limit == s.limit
    decreases |deads|
  {
    if deads == [] then s else ReapAll(ReapOne(s, deads[0]), deads[1..])
  }

  function Apply(s: State, e: Event): State {
    match e
    case Accept(connfd, pid, pipe) =>
      if |s.users| >= s.limit || !(0 <= pid < |s.sub|) then s else Register(s, Client(connfd, pid, pipe))
    case Sigchld(deads) =>
      var t := ReapAll(s, deads);
      t.(stop := t.stop || (t.terminate && t.users == []))
    case Sigterm => if s.users == [] then s.(stop := true) else s.(terminate := true)
    case _ => s
  }

  function Run(s: State, events: seq<Event>): State
    decreases |events|
  {
    if events == [] then s else Run(Apply(s, events[0]), events[1..])
  }

  ghost predicate Possible(s: State, events: seq<Event>)
    decreases |events|
  {
    events != [] ==> Enabled(s, events[0]) && Possible(Apply(s, events[0]), events[1..])
  }

  lemma {:induction false} RunAppend(s: State, a: seq<Event>, b: seq<Event>)
    ensures Run(s, a + b) == Run(Run(s, a), b)
    ensures Possible(s, a + b) <==> Possible(s, a) && Possible(Run(s, a), b)
    decreases |a|
  {
    if a == [] {
      assert a + b == b;
    } else {
      assert (a + b)[1..] == a[1..] + b;
      RunAppend(Apply(s, a[0]), a[1..], b);
    }
  }

  lemma RunOne(s: State, events: seq<Event>, e: Event)
    ensures Run(s, events + [e]) == Apply(Run(s, events), e)
    ensures Possible(s, events + [e]) <==> Possible(s, events) && Enabled(Run(s, events), e)
  {
    var t := Run(s, events);
    RunAppend(s, events, [e]);
    assert Run(t, [e]) == Run(Apply(t, e), []);
    assert Possible(t, [e]) <==> Enabled(t, e) && Possible(Apply(t, e), []);
  }

  // ----- the invariant

  /** Record i belongs to an unreaped child whose map entry is i, and no other record has its pipe. */
  ghost predicate Indexed(users: seq<Client>, sub: seq<int>, slots: map<int, int>) {
    && (forall i :: 0 <= i < |users| ==>
          && 0 < users[i].pid < |sub| && users[i].pid in slots
          && sub[users[i].pid] == i)
    && (forall i, j :: 0 <= i < j < |users| ==> users[i].pipe != users[j].pipe)
  }

  /** Every unreaped child is found in the table through the map. */
  ghost predicate Found(users: seq<Client>, sub: seq<int>, slots: map<int, int>) {
    forall pid :: pid in slots ==>
      0 < pid < |sub| && 0 <= sub[pid] < |users| && users[sub[pid]].pid == pid
  }

  ghost predicate Inv(s: State) {
    && |s.users| <= s.limit
    && Indexed(s.users, s.sub, s.slots)
    && Found(s.users, s.sub, s.slots)
    && forall pid :: pid in s.slots ==> 0 <= s.slots[pid] < s.limit
  }

  lemma RegisterKeepsInv(s: State, u: Client)
    requires Inv(s) && |s.users| < s.limit
    requires Enabled(s, Accept(u.connfd, u.pid, u.pipe))
    ensures Inv(Register(s, u))
  {
  }

  /** Removing a dead child keeps table and map in agreement, also when the dead record is the last one. */
  lemma ReapOneKeepsInv(s: State, pid: int)
    requires Inv(s) && pid in s.slots
    ensures Inv(ReapOne(s, pid))
    ensures ReapOne(s, pid).slots == s.slots - {pid} && |ReapOne(s, pid).users| == |s.users| - 1
    ensures forall u :: u in ReapOne(s, pid).users <==> u in s.users && u.pid != pid
    ensures forall i :: 0 <= i < |s.users| - 1 ==>
              ReapOne(s, pid).users[i] == s.users[if s.users[i].pid == pid then |s.users| - 1 else i]
  {
  }

  /** Some of the records are gone, those of the dead children; the flags are untouched. */
  ghost predicate Reaped(s: State, t: State, deads: seq<int>) {
    && (forall u :: u in t.users <==> u in s.users && u.pid !in deads)
    && (forall pid :: pid in t.slots <==> pid in s.slots && pid !in deads)
    && |t.users| == |s.users| - |deads|
    && t.terminate == s.terminate && t.stop == s.stop
  }

  lemma ReapedStep(s: State, t: State, v: State, deads: seq<int>)
    requires deads != [] && Reaped(s, t, [deads[0]]) && Reaped(t, v, deads[1..])
    ensures Reaped(s, v, deads)
  {
  }

  lemma RestIsEnabled(s: State, deads: seq<int>)
    requires Inv(s) && Enabled(s, Sigchld(deads)) && deads != []
    ensures Enabled(ReapOne(s, deads[0]), Sigchld(deads[1..]))
  {
  }

  /**
   A batch of deaths in any order: the records left are the old ones minus the dead children's, and
   table and map still agree.
   */
  lemma {:induction false} ReapAllKeepsInv(s: State, deads: seq<int>)
    requires Inv(s) && Enabled(s, Sigchld(deads))
    ensures Inv(ReapAll(s, deads)) && Reaped(s, ReapAll(s, deads), deads)
    decreases |deads|
  {
    if deads != [] {
      var t := ReapOne(s, deads[0]);
      ReapOneKeepsInv(s, deads[0]);
      RestIsEnabled(s, deads);
      ReapAllKeepsInv(t, deads[1..]);
      ReapedStep(s, t, ReapAll(s, deads), deads);
    }
  }

  ghost function Records(s: State): set<Client> {
    set u | u in s.users
  }

  lemma ReapOrderDoesNotMatter(s: State, deads: seq<int>, deads': seq<int>)
    requires Inv(s) && Enabled(s, Sigchld(deads)) && Enabled(s, Sigchld(deads'))
    requires forall pid :: pid in deads <==> pid in deads'
    ensures Records(ReapAll(s, deads)) == Records(ReapAll(s, deads'))
    ensures ReapAll(s, deads).slots.Keys == ReapAll(s, deads').slots.Keys
  {
    ReapAllKeepsInv(s, deads);
    ReapAllKeepsInv(s, deads');
    SameReaped(s, ReapAll(s, deads), ReapAll(s, deads'), deads, deads');
  }

  lemma SameReaped(s: State, t: State, t': State, deads: seq<int>, deads': seq<int>)
    requires Reaped(s, t, deads) && Reaped(s, t', deads')
    requires forall pid :: pid in deads <==> pid in deads'
    ensures Records(t) == Records(t') && t.slots.Keys == t'.slots.Keys
  {
    forall u ensures u in Records(t) <==> u in Records(t') {
    }
    forall pid ensures pid in t.slots.Keys <==> pid in t'.slots.Keys {
    }
  }

  lemma StepKeepsInv(s: State, e: Event)
    requires Inv(s) && Enabled(s, e)
    ensures Inv(Apply(s, e))
  {
    match e
    case Accept(connfd, pid, pipe) =>
      if |s.users| < s.limit {
        RegisterKeepsInv(s, Client(connfd, pid, pipe));
      }
    case Sigchld(deads) => ReapAllKeepsInv(s, deads);
    case _ =>
  }

  lemma {:induction false} RunKeepsInv(s: State, events: seq<Event>)
    requires Inv(s) && Possible(s, events)
    ensures Inv(Run(s, events))
    decreases |events|
  {
    if events != [] {
      StepKeepsInv(s, events[0]);
      RunKeepsInv(Apply(s, events[0]), events[1..]);
    }
  }

  /** In every reachable state the table lists the unreaped children, each exactly once, and sub inverts it. */
  lemma ReachableTable(limit: nat, pidLimit: nat, events: seq<Event>)
    requires Possible(Init(limit, pidLimit), events)
    ensures var s := Run(Init(limit, pidLimit), events);
            && Inv(s) && |s.users| <= limit && s.limit == limit
            && s.slots.Keys == (set i | 0 <= i < |s.users| :: s.users[i].pid)
            && (forall i, j :: 0 <= i < j < |s.users| ==> s.users[i].pid != s.users[j].pid)
            && (forall i :: 0 <= i < |s.users| ==> s.sub[s.users[i].pid] == i)
  {
    RunKeepsInv(Init(limit, pidLimit), events);
    LimitIsFixed(Init(limit, pidLimit), events);
    var s := Run(Init(limit, pidLimit), events);
    forall pid | pid in s.slots ensures exists i :: 0 <= i < |s.users| && s.users[i].pid == pid {
      assert s.users[s.sub[pid]].pid == pid;
    }
  }

  lemma {:induction false} LimitIsFixed(s: State, events: seq<Event>)
    ensures Run(s, events).limit == s.limit
    decreases |events|
  {
    if events != [] {
      LimitIsFixed(Apply(s, events[0]), events[1..]);
    }
  }

  // ----- shared-memory slots

  /** Every child still uses the slot of its table index. */
  ghost predicate Aligned(s: State) {
    forall i :: 0 <= i < |s.users| ==> s.users[i].pid in s.slots && s.slots[s.users[i].pid] == i
  }

  ghost predicate SlotsDisjoint(s: State) {
    forall p, q :: p in s.slots && q in s.slots && p != q ==> s.slots[p] != s.slots[q]
  }

  /** The bytes of a slot lie inside the mapping, and different slots share no byte. */
  lemma SlotsFitTheMapping(s: State, p: int, q: int)
    requires Inv(s) && p in s.slots && q in s.slots
    ensures 0 <= s.slots[p] * BUFFER_SIZE && (s.slots[p] + 1) * BUFFER_SIZE <= s.limit * BUFFER_SIZE
    ensures s.slots[p] < s.slots[q] <==>
            s.slots[p] != s.slots[q] && (s.slots[p] + 1) * BUFFER_SIZE <= s.slots[q] * BUFFER_SIZE
  {
  }

  /** A death keeps slots and indices together exactly when the dead child's record is the last one. */
  lemma ReapKeepsAlignedExactly(s: State, pid: int)
    requires Inv(s) && Aligned(s) && pid in s.slots
    ensures Aligned(ReapOne(s, pid)) <==> s.sub[pid] == |s.users| - 1
  {
  }

  /** No two children share a slot after an accept exactly when the slot numbered user_count was free. */
  lemma AcceptCollidesExactly(s: State, connfd: int, pid: int, pipe: int)
    requires Inv(s) && SlotsDisjoint(s) && Enabled(s, Accept(connfd, pid, pipe)) && |s.users| < s.limit
    ensures SlotsDisjoint(Apply(s, Accept(connfd, pid, pipe))) <==>
            forall p :: p in s.slots ==> s.slots[p] != |s.users|
  {
    var t := Apply(s, Accept(connfd, pid, pipe));
    if SlotsDisjoint(t) {
      forall p | p in s.slots ensures s.slots[p] != |s.users| {
        assert p in t.slots && pid in t.slots && t.slots[p] == s.slots[p];
      }
    }
  }

  /**
   As soon as a death has moved a live record, the very next accept gives the new child the slot
   that the moved child is still using.
   */
  lemma MoveThenAcceptCollides(s: State, dead: int, connfd: int, pid: int, pipe: int)
    requires Inv(s) && Aligned(s) && dead in s.slots && s.sub[dead] < |s.users| - 1
    requires Enabled(ReapOne(s, dead), Accept(connfd, pid, pipe))
    ensures var moved := s.users[|s.users| - 1].pid;
            var t := Apply(ReapOne(s, dead), Accept(connfd, pid, pipe));
            && moved in t.slots && pid in t.slots && moved != pid
            && t.slots[moved] == t.slots[pid] == |s.users| - 1
            && !SlotsDisjoint(t)
  {
  }

  /** Every child of the run that is reaped has the last record at that moment. */
  ghost predicate LastOutOnly(s: State, events: seq<Event>)
    decreases |events|
  {
    events != [] ==>
      && (events[0].Sigchld? ==> LastDeadOnly(s, events[0].deads))
      && LastOutOnly(Apply(s, events[0]), events[1..])
  }

  ghost predicate LastDeadOnly(s: State, deads: seq<int>)
    decreases |deads|
  {
    deads != [] ==>
      && 0 <= deads[0] < |s.sub| && s.sub[deads[0]] == |s.users| - 1
      && LastDeadOnly(ReapOne(s, deads[0]), deads[1..])
  }

  lemma {:induction false} LastDeadKeepsAligned(s: State, deads: seq<int>)
    requires Inv(s) && Aligned(s) && Enabled(s, Sigchld(deads)) && LastDeadOnly(s, deads)
    ensures Aligned(ReapAll(s, deads))
    decreases |deads|
  {
    if deads != [] {
      ReapOneKeepsInv(s, deads[0]);
      RestIsEnabled(s, deads);
      LastDeadKeepsAligned(ReapOne(s, deads[0]), deads[1..]);
    }
  }

  /** Over whole runs: until a death first moves a live record, slots are table indices and never shared. */
  lemma {:induction false} SlotsAreSafeUntilAMove(s: State, events: seq<Event>)
    requires Inv(s) && Aligned(s) && Possible(s, events) && LastOutOnly(s, events)
    ensures Aligned(Run(s, events)) && SlotsDisjoint(Run(s, events))
    decreases |events|
  {
    if events != [] {
      var e := events[0];
      StepKeepsInv(s, e);
      if e.Sigchld? {
        LastDeadKeepsAligned(s, e.deads);
      } else if e.Accept? && |s.users| < s.limit {
        assert forall i :: 0 <= i < |s.users| ==> s.users[i].pid != e.pid;
      }
      SlotsAreSafeUntilAMove(Apply(s, e), events[1..]);
    }
  }

  /** A successful accept: a child is forked and registered. */
  ghost predicate Registers(s: State, e: Event) {
    e.Accept? && |s.users| < s.limit
  }

  /** No unreaped child uses the slot that the next child would get. */
  ghost predicate NextSlotFree(s: State) {
    forall p :: p in s.slots ==> s.slots[p] != |s.users|
  }

  lemma {:induction false} ReapKeepsSlots(s: State, deads: seq<int>, p: int)
    requires p in ReapAll(s, deads).slots
    ensures p in s.slots && ReapAll(s, deads).slots[p] == s.slots[p]
    decreases |deads|
  {
    if deads != [] {
      ReapKeepsSlots(ReapOne(s, deads[0]), deads[1..], p);
    }
  }

  lemma StepDisjointExactly(s: State, e: Event)
    requires Inv(s) && Enabled(s, e) && SlotsDisjoint(s)
    ensures SlotsDisjoint(Apply(s, e)) <==> (Registers(s, e) ==> NextSlotFree(s))
  {
    if Registers(s, e) {
      AcceptCollidesExactly(s, e.connfd, e.pid, e.pipe);
    } else if e.Sigchld? {
      forall p, q | p in Apply(s, e).slots && q in Apply(s, e).slots && p != q
        ensures Apply(s, e).slots[p] != Apply(s, e).slots[q]
      {
        ReapKeepsSlots(s, e.deads, p);
        ReapKeepsSlots(s, e.deads, q);
      }
    }
  }

  /** The state before event i, and the step that event i takes from it. */
  lemma PrefixStep(s: State, events: seq<Event>, i: nat)
    requires Inv(s) && Possible(s, events) && i < |events|
    ensures var t := Run(s, events[..i]);
            Inv(t) && Enabled(t, events[i]) && Run(s, events[..i + 1]) == Apply(t, events[i])
  {
    assert events[..i] + events[i..] == events;
    RunAppend(s, events[..i], events[i..]);
    RunKeepsInv(s, events[..i]);
    assert events[..i + 1] == events[..i] + [events[i]];
    RunOne(s, events[..i], events[i]);
  }

  lemma {:induction false} DisjointUpTo(s: State, events: seq<Event>, i: nat)
    requires Inv(s) && Possible(s, events) && SlotsDisjoint(s) && i <= |events|
    requires forall j :: 0 <= j < |events| ==>
               (Registers(Run(s, events[..j]), events[j]) ==> NextSlotFree(Run(s, events[..j])))
    ensures SlotsDisjoint(Run(s, events[..i]))
  {
    if i > 0 {
      DisjointUpTo(s, events, i - 1);
      PrefixStep(s, events, i - 1);
      StepDisjointExactly(Run(s, events[..i - 1]), events[i - 1]);
    }
  }

  /**
   Over every run: no two children ever share a slot exactly when every successful accept of the run
   finds the slot numbered user_count free.
   */
  lemma SlotsStayDisjointExactly(s: State, events: seq<Event>)
    requires Inv(s) && Possible(s, events) && SlotsDisjoint(s)
    ensures (forall i :: 0 <= i <= |events| ==> SlotsDisjoint(Run(s, events[..i]))) <==>
            (forall j :: 0 <= j < |events| ==>
               (Registers(Run(s, events[..j]), events[j]) ==> NextSlotFree(Run(s, events[..j]))))
  {
    if forall i :: 0 <= i <= |events| ==> SlotsDisjoint(Run(s, events[..i])) {
      forall j | 0 <= j < |events| && Registers(Run(s, events[..j]), events[j])
        ensures NextSlotFree(Run(s, events[..j]))
      {
        PrefixStep(s, events, j);
        StepDisjointExactly(Run(s, events[..j]), events[j]);
        assert SlotsDisjoint(Run(s, events[..j + 1]));
      }
    } else if forall j :: 0 <= j < |events| ==>
                (Registers(Run(s, events[..j]), events[j]) ==> NextSlotFree(Run(s, events[..j]))) {
      forall i | 0 <= i <= |events| ensures SlotsDisjoint(Run(s, events[..i])) {
        DisjointUpTo(s, events, i);
      }
    }
  }

  /** From the start: two clients come, the first leaves, a third comes and shares the second's slot. */
  lemma SlotsCollideInARun()
    ensures var s := Init(5, 100);
            var events := [Accept(3, 7, 9), Accept(4, 8, 10), Sigchld([7]), Accept(3, 7, 9)];
            var t := Run(s, events);
            && Possible(s, events)
            && 7 in t.slots && 8 in t.slots && t.slots[7] == t.slots[8] == 1 && !SlotsDisjoint(t)
  {
    var s, e1 := Init(5, 100), [] + [Accept(3, 7, 9)];
    var e2 := e1 + [Accept(4, 8, 10)];
    var e3 := e2 + [Sigchld([7])];
    RunOne(s, [], Accept(3, 7, 9));
    RunOne(s, e1, Accept(4, 8, 10));
    RunOne(s, e2, Sigchld([7]));
    RunOne(s, e3, Accept(3, 7, 9));
    assert [Accept(3, 7, 9), Accept(4, 8, 10), Sigchld([7]), Accept(3, 7, 9)] == e3 + [Accept(3, 7, 9)];
    TwoClients(Run(s, e2));
  }

  /** When the first of two clients leaves, the second moves, its slot does not. */
  lemma TwoClients(s: State)
    requires s.users == [Client(3, 7, 9), Client(4, 8, 10)] && s.slots == map[7 := 0, 8 := 1]
    requires |s.sub| == 100 && s.sub[7] == 0 && s.sub[8] == 1
    ensures var t := Apply(s, Sigchld([7]));
            t.users == [Client(4, 8, 10)] && t.slots == map[8 := 1] && |t.sub| == 100
  {
    assert ReapAll(s, [7]) == ReapAll(ReapOne(s, 7), []);
  }

  // ----- broadcast

  /** The pipes a message that came in on fd is passed on to, in table order. */
  function Recipients(users: seq<Client>, fd: int): seq<int> {
    if users == [] then []
    else Recipients(users[..|users| - 1], fd)
         + (if users[|users| - 1].pipe == fd then [] else [users[|users| - 1].pipe])
  }

  function Pipes(users: seq<Client>): (r: seq<int>)
    ensures |r| == |users|
    ensures forall i :: 0 <= i < |r| ==> r[i] == users[i].pipe
  {
    seq(|users|, i requires 0 <= i < |users| => users[i].pipe)
  }

  lemma {:induction false} RecipientsOfStranger(users: seq<Client>, fd: int)
    requires forall i :: 0 <= i < |users| ==> users[i].pipe != fd
    ensures Recipients(users, fd) == Pipes(users)
  {
    if users != [] {
      var n := |users| - 1;
      RecipientsOfStranger(users[..n], fd);
    }
  }

  lemma {:induction false} RecipientsSkip(users: seq<Client>, k: nat)
    requires k < |users|
    requires forall i :: 0 <= i < |users| && i != k ==> users[i].pipe != users[k].pipe
    ensures Recipients(users, users[k].pipe) == Pipes(users[..k]) + Pipes(users[k + 1..])
  {
    var n := |users| - 1;
    var init := users[..n];
    if k == n {
      RecipientsOfStranger(init, users[k].pipe);
    } else {
      RecipientsSkip(init, k);
    }
  }

  /** A message from client k goes to every other client exactly once, in table order, and not back. */
  lemma MessageReachesEveryoneElse(s: State, k: nat)
    requires Inv(s) && k < |s.users|
    ensures Recipients(s.users, s.users[k].pipe) == Pipes(s.users[..k]) + Pipes(s.users[k + 1..])
    ensures s.users[k].pipe !in Recipients(s.users, s.users[k].pipe)
    ensures Distinct(Recipients(s.users, s.users[k].pipe))
  {
    RecipientsSkip(s.users, k);
  }

  // ----- what the parent sends

  /** The pipes written to for the message on fd, or the pids signalled on a termination signal. */
  datatype Output = Sent(fd: int, pipes: seq<int>) | Killed(pids: seq<int>)

  function Pids(users: seq<Client>): (r: seq<int>)
    ensures |r| == |users|
    ensures forall i :: 0 <= i < |r| ==> r[i] == users[i].pid
  {
    seq(|users|, i requires 0 <= i < |users| => users[i].pid)
  }

  function Emits(s: State, e: Event): seq<Output> {
    match e
    case Message(fd) => [Sent(fd, Recipients(s.users, fd))]
    case Sigterm => [Killed(Pids(s.users))]
    case _ => []
  }

  function Outputs(s: State, events: seq<Event>): seq<Output>
    decreases |events|
  {
    if events == [] then [] else Emits(s, events[0]) + Outputs(Apply(s, events[0]), events[1..])
  }

  /** A termination signal is passed on to every unreaped child exactly once. */
  lemma EachChildKilledOnce(s: State)
    requires Inv(s)
    ensures Distinct(Pids(s.users))
    ensures forall pid :: pid in Pids(s.users) <==> pid in s.slots
  {
    var pids := Pids(s.users);
    forall i, j | 0 <= i < j < |pids| ensures pids[i] != pids[j] {
      assert s.sub[s.users[i].pid] == i && s.sub[s.users[j].pid] == j;
    }
    forall pid | pid in s.slots ensures pid in pids {
      assert pids[s.sub[pid]] == pid;
    }
  }

  lemma {:induction false} OutputsAppend(s: State, a: seq<Event>, b: seq<Event>)
    ensures Outputs(s, a + b) == Outputs(s, a) + Outputs(Run(s, a), b)
    decreases |a|
  {
    if a == [] {
      assert a + b == b;
    } else {
      assert (a + b)[1..] == a[1..] + b;
      OutputsAppend(Apply(s, a[0]), a[1..], b);
    }
  }

  /** What the children alive before event e get to see of it. */
  ghost predicate RightOutput(s: State, e: Event, outs: seq<Output>) {
    match e
    case Sigterm =>
      && |outs| == 1 && outs[0].Killed? && Distinct(outs[0].pids)
      && forall pid :: pid in outs[0].pids <==> pid in s.slots
    case Message(fd) =>
      && |outs| == 1 && outs[0].Sent? && outs[0].fd == fd && Distinct(outs[0].pipes)
      && forall pipe :: pipe in outs[0].pipes <==> pipe != fd && pipe in Pipes(s.users)
    case _ => outs == []
  }

  /**
   Over every run: each message reaches every other client of that moment once, and each termination
   signal every child unreaped at that moment once.
   */
  lemma EveryOutputIsRight(s: State, events: seq<Event>, i: nat)
    requires Inv(s) && Possible(s, events) && i < |events|
    ensures var before, after := Outputs(s, events[..i]), Outputs(Run(s, events[..i + 1]), events[i + 1..]);
            exists outs :: Outputs(s, events) == before + outs + after
                           && RightOutput(Run(s, events[..i]), events[i], outs)
  {
    PrefixStep(s, events, i);
    var before, after := events[..i], events[i..];
    assert before + after == events && after[1..] == events[i + 1..];
    OutputsAppend(s, before, after);
    EmitsTheRight(Run(s, events[..i]), events[i]);
  }

  lemma EmitsTheRight(s: State, e: Event)
    requires Inv(s)
    ensures RightOutput(s, e, Emits(s, e))
  {
    EachChildKilledOnce(s);
    if e.Message? {
      RecipientsAreTheOthers(s.users, e.fd);
    }
  }

  /** Whoever sends, the pipes are those of the clients with another pipe, each once. */
  lemma {:induction false} RecipientsAreTheOthers(users: seq<Client>, fd: int)
    requires Distinct(Pipes(users))
    ensures Distinct(Recipients(users, fd))
    ensures forall pipe :: pipe in Recipients(users, fd) <==> pipe != fd && pipe in Pipes(users)
  {
    if users != [] {
      var n := |users| - 1;
      assert Pipes(users) == Pipes(users[..n]) + [users[n].pipe];
      assert users[n].pipe !in Pipes(users[..n]);
      RecipientsAreTheOthers(users[..n], fd);
    }
  }

  // ----- shutdown

  /** The server is told to stop only at a moment when no child is left. */
  lemma StopsOnlyWhenEmpty(s: State, e: Event)
    requires Inv(s) && Enabled(s, e)
    ensures !s.stop && Apply(s, e).stop ==> Apply(s, e).users == [] && Apply(s, e).slots == map[]
    ensures s.stop ==> Apply(s, e).stop
    ensures s.terminate ==> Apply(s, e).terminate
  {
    if e.Sigchld? {
      ReapAllKeepsInv(s, e.deads);
    }
    if Apply(s, e).users == [] {
      assert forall pid :: pid !in Apply(s, e).slots;
    }
  }

  /** After a termination signal, a batch of deaths stops the server exactly when it leaves no child. */
  lemma TerminatedStopsExactly(s: State, deads: seq<int>)
    requires Inv(s) && Enabled(s, Sigchld(deads)) && s.terminate && !s.stop
    ensures Apply(s, Sigchld(deads)).stop <==> forall pid :: pid in s.slots ==> pid in deads
  {
    var t := ReapAll(s, deads);
    ReapAllKeepsInv(s, deads);
    if t.users != [] {
      assert t.users[0].pid in t.slots;
    }
  }

  /** pid is reaped somewhere in events. */
  ghost predicate ReapedIn(events: seq<Event>, pid: int) {
    exists i :: 0 <= i < |events| && events[i].Sigchld? && pid in events[i].deads
  }

  lemma ReapedInSplit(events: seq<Event>, pid: int)
    requires events != []
    ensures ReapedIn(events, pid) <==>
            (events[0].Sigchld? && pid in events[0].deads) || ReapedIn(events[1..], pid)
  {
    if ReapedIn(events[1..], pid) {
      var i :| 0 <= i < |events[1..]| && events[1..][i].Sigchld? && pid in events[1..][i].deads;
      assert events[i + 1] == events[1..][i];
    }
    if ReapedIn(events, pid) {
      var i :| 0 <= i < |events| && events[i].Sigchld? && pid in events[i].deads;
      assert i > 0 ==> events[1..][i - 1] == events[i];
    }
  }

  /** Every child accepted after the stop flag went up is reaped later in the run. */
  ghost predicate LateChildrenReaped(s: State, events: seq<Event>)
    decreases |events|
  {
    events != [] ==>
      && (s.stop && Registers(s, events[0]) ==> ReapedIn(events[1..], events[0].pid))
      && LateChildrenReaped(Apply(s, events[0]), events[1..])
  }

  lemma NoKeyNoEntry(m: map<int, int>)
    ensures m == map[] <==> forall k :: k !in m
  {
    if forall k :: k !in m {
      assert m == map[];
    }
  }

  /**
   From a stopped state on, no child is left at the end exactly when every child alive now and every
   child still accepted is reaped on the way.
   */
  lemma {:induction false} StoppedLeavesNoneExactly(s: State, events: seq<Event>)
    requires Inv(s) && s.stop && Possible(s, events)
    ensures Run(s, events).slots == map[] <==>
            (forall pid :: pid in s.slots ==> ReapedIn(events, pid)) && LateChildrenReaped(s, events)
    decreases |events|
  {
    if events == [] {
      assert forall pid :: !ReapedIn(events, pid);
      NoKeyNoEntry(s.slots);
    } else {
      var e, t := events[0], Apply(s, events[0]);
      StepKeepsInv(s, e);
      StopsOnlyWhenEmpty(s, e);
      StoppedLeavesNoneExactly(t, events[1..]);
      forall pid ensures ReapedIn(events, pid) <==>
                           (e.Sigchld? && pid in e.deads) || ReapedIn(events[1..], pid)
      {
        ReapedInSplit(events, pid);
      }
      if e.Sigchld? {
        ReapAllKeepsInv(s, e.deads);
      }
    }
  }

  /**
   A run that raises the stop flag leaves no child exactly when every child it accepts after that is
   reaped in it: at the moment the flag goes up there is none.
   */
  lemma {:induction false} LeavesNoneExactly(s: State, events: seq<Event>)
    requires Inv(s) && !s.stop && Possible(s, events) && Run(s, events).stop
    ensures Run(s, events).slots == map[] <==> LateChildrenReaped(s, events)
    decreases |events|
  {
    if events != [] {
      var t := Apply(s, events[0]);
      StepKeepsInv(s, events[0]);
      StopsOnlyWhenEmpty(s, events[0]);
      if t.stop {
        StoppedLeavesNoneExactly(t, events[1..]);
      } else {
        LeavesNoneExactly(t, events[1..]);
      }
    }
  }

  lemma EmptyTable(s: State)
    requires Inv(s)
    ensures s.users == [] <==> s.slots == map[]
  {
    NoKeyNoEntry(s.slots);
    if s.users != [] {
      assert s.users[0].pid in s.slots;
    }
  }

  /** What one event does to the flags, in terms of who is left. */
  lemma FlagsOfStep(s: State, e: Event)
    requires Inv(s) && Enabled(s, e)
    ensures var t := Apply(s, e);
            && (t.stop <==> s.stop || (e.Sigterm? && s.slots == map[])
                            || (e.Sigchld? && s.terminate && t.slots == map[]))
            && (t.terminate <==> s.terminate || (e.Sigterm? && s.slots != map[]))
            && (e.Sigterm? ==> t.slots == s.slots)
            && (!e.Sigchld? && t.slots == map[] ==> s.slots == map[])
  {
    EmptyTable(s);
    if e.Sigchld? {
      ReapAllKeepsInv(s, e.deads);
      EmptyTable(ReapAll(s, e.deads));
    }
  }

  /** A termination signal found a child that had not been reaped. */
  ghost predicate SignalledChildren(s: State, events: seq<Event>) {
    exists i :: 0 <= i < |events| && events[i].Sigterm? && Run(s, events[..i]).slots != map[]
  }

  /** There was a moment without children after a termination signal. */
  ghost predicate StoppedBy(s: State, events: seq<Event>) {
    exists i, j :: 0 <= i < j <= |events| && events[i].Sigterm? && Run(s, events[..j]).slots == map[]
  }

  lemma PrefixesOf(events: seq<Event>, n: nat)
    requires n <= |events|
    ensures forall i :: 0 <= i <= n ==> events[..n][..i] == events[..i]
    ensures forall i :: 0 <= i < n ==> events[..n][i] == events[i]
  {
  }

  lemma SignalledLast(s: State, events: seq<Event>)
    requires events != []
    ensures var n := |events| - 1;
            SignalledChildren(s, events) <==>
            SignalledChildren(s, events[..n]) || (events[n].Sigterm? && Run(s, events[..n]).slots != map[])
  {
    PrefixesOf(events, |events| - 1);
  }

  lemma StoppedByLast(s: State, events: seq<Event>)
    requires Inv(s) && Possible(s, events) && events != []
    ensures var n := |events| - 1;
            StoppedBy(s, events) <==>
            || StoppedBy(s, events[..n])
            || (events[n].Sigterm? && Run(s, events[..n]).slots == map[])
            || (events[n].Sigchld? && SignalledChildren(s, events[..n]) && Run(s, events).slots == map[])
  {
    var n := |events| - 1;
    PrefixesOf(events, n);
    PrefixStep(s, events, n);
    assert events[..n + 1] == events;
    FlagsOfStep(Run(s, events[..n]), events[n]);
    if i :| 0 <= i < n && events[i].Sigterm? && Run(s, events).slots == map[] {
      PrefixStep(s, events, i);
      FlagsOfStep(Run(s, events[..i]), events[i]);
    }
  }

  /**
   Over every run: the server is told to stop exactly when at some moment after a termination signal
   no child is left, and is waiting for that exactly when such a signal found a child.
   */
  lemma {:induction false} StopsExactly(s: State, events: seq<Event>)
    requires Inv(s) && !s.stop && !s.terminate && Possible(s, events)
    ensures Run(s, events).stop <==> StoppedBy(s, events)
    ensures Run(s, events).terminate <==> SignalledChildren(s, events)
    decreases |events|
  {
    if events != [] {
      var n := |events| - 1;
      PrefixStep(s, events, n);
      assert events[..n] + [events[n]] == events == events[..n + 1];
      RunAppend(s, events[..n], [events[n]]);
      StopsExactly(s, events[..n]);
      FlagsOfStep(Run(s, events[..n]), events[n]);
      SignalledLast(s, events);
      StoppedByLast(s, events);
    }
  }

  /** Event i forked this child, and it has not been reaped since. */
  ghost predicate ForkedAt(s: State, events: seq<Event>, i: int, pid: int) {
    && 0 <= i < |events| && Registers(Run(s, events[..i]), events[i]) && events[i].pid == pid
    && !ReapedIn(events[i + 1..], pid)
  }

  lemma ForkedAtSplit(s: State, events: seq<Event>, i: int, pid: int)
    requires events != []
    ensures ForkedAt(s, events, i, pid) <==>
            || (i == 0 && Registers(s, events[0]) && events[0].pid == pid && !ReapedIn(events[1..], pid))
            || ForkedAt(Apply(s, events[0]), events[1..], i - 1, pid)
  {
    if 0 < i < |events| {
      assert events[..i][1..] == events[1..][..i - 1];
      assert events[i + 1..] == events[1..][i..];
    }
  }

  lemma SomeForked(s: State, events: seq<Event>, pid: int)
    requires events != []
    ensures (exists i :: ForkedAt(s, events, i, pid)) <==>
            || (Registers(s, events[0]) && events[0].pid == pid && !ReapedIn(events[1..], pid))
            || exists i :: ForkedAt(Apply(s, events[0]), events[1..], i, pid)
  {
    if i :| ForkedAt(s, events, i, pid) {
      ForkedAtSplit(s, events, i, pid);
    }
    if i :| ForkedAt(Apply(s, events[0]), events[1..], i, pid) {
      ForkedAtSplit(s, events, i + 1, pid);
    }
    ForkedAtSplit(s, events, 0, pid);
  }

  lemma SlotsOfStep(s: State, e: Event, pid: int)
    requires Inv(s) && Enabled(s, e)
    ensures var t := Apply(s, e);
            && (pid in t.slots <==> || (pid in s.slots && !(e.Sigchld? && pid in e.deads))
                                    || (Registers(s, e) && e.pid == pid))
            && (Registers(s, e) && e.pid == pid ==> pid !in s.slots && t.slots[pid] == |s.users|)
            && (pid in s.slots && pid in t.slots ==> t.slots[pid] == s.slots[pid])
  {
    if e.Sigchld? {
      ReapAllKeepsInv(s, e.deads);
      if pid in Apply(s, e).slots {
        ReapKeepsSlots(s, e.deads, pid);
      }
    }
  }

  lemma {:induction false} SlotIsKept(s: State, events: seq<Event>, pid: int)
    requires Inv(s) && Possible(s, events) && pid in s.slots && !ReapedIn(events, pid)
    ensures pid in Run(s, events).slots && Run(s, events).slots[pid] == s.slots[pid]
    decreases |events|
  {
    if events != [] {
      StepKeepsInv(s, events[0]);
      SlotsOfStep(s, events[0], pid);
      ReapedInSplit(events, pid);
      SlotIsKept(Apply(s, events[0]), events[1..], pid);
    }
  }

  /** A child has the slot numbered by the clients there were when it was forked. */
  lemma ForkedSlot(s: State, events: seq<Event>, i: nat, pid: int)
    requires Inv(s) && Possible(s, events) && ForkedAt(s, events, i, pid)
    ensures pid in Run(s, events).slots && Run(s, events).slots[pid] == |Run(s, events[..i]).users|
  {
    var before, after := events[..i + 1], events[i + 1..];
    assert before + after == events;
    PrefixStep(s, events, i);
    SlotsOfStep(Run(s, events[..i]), events[i], pid);
    RunAppend(s, before, after);
    RunKeepsInv(s, before);
    SlotIsKept(Run(s, before), after, pid);
  }

  /**
   Who is unreaped after a run, from its events: the children there were and those forked on the way,
   except those reaped since.
   */
  lemma {:induction false} ChildrenExactly(s: State, events: seq<Event>, pid: int)
    requires Inv(s) && Possible(s, events)
    ensures pid in Run(s, events).slots <==>
            (pid in s.slots && !ReapedIn(events, pid)) || exists i :: ForkedAt(s, events, i, pid)
    decreases |events|
  {
    if events != [] {
      StepKeepsInv(s, events[0]);
      SlotsOfStep(s, events[0], pid);
      ChildrenExactly(Apply(s, events[0]), events[1..], pid);
      ReapedInSplit(events, pid);
      SomeForked(s, events, pid);
    }
  }

  // ----- the event loop

  /** The loop looks at the stop flag before every batch. */
  function Loop(s: State, batches: seq<seq<Event>>): State
    decreases |batches|
  {
    if s.stop || batches == [] then s else Loop(Run(s, batches[0]), batches[1..])
  }

  /** The events that the loop gets to. */
  function Handled(s: State, batches: seq<seq<Event>>): seq<Event>
    decreases |batches|
  {
    if s.stop || batches == [] then [] else batches[0] + Handled(Run(s, batches[0]), batches[1..])
  }

  function Flat(batches: seq<seq<Event>>): seq<Event> {
    if batches == [] then [] else batches[0] + Flat(batches[1..])
  }

  lemma FlatFirst(batches: seq<seq<Event>>, i: nat)
    requires 0 < i <= |batches|
    ensures Flat(batches[..i]) == batches[0] + Flat(batches[1..][..i - 1])
  {
    assert batches[..i][1..] == batches[1..][..i - 1];
  }

  /** Handled are whole batches: all of them, or those up to the first after which the stop flag is up. */
  lemma {:induction false} HandledExactly(s: State, batches: seq<seq<Event>>, k: nat)
    requires k <= |batches|
    requires forall i :: 0 <= i < k ==> !Run(s, Flat(batches[..i])).stop
    requires k < |batches| ==> Run(s, Flat(batches[..k])).stop
    ensures Handled(s, batches) == Flat(batches[..k]) && Loop(s, batches) == Run(s, Flat(batches[..k]))
    decreases |batches|
  {
    if k > 0 {
      assert Flat(batches[..0]) == [];
      var t, rest := Run(s, batches[0]), batches[1..];
      forall i | 0 <= i < k
        ensures Run(t, Flat(rest[..i])) == Run(s, Flat(batches[..i + 1]))
      {
        FlatFirst(batches, i + 1);
        RunAppend(s, batches[0], Flat(rest[..i]));
      }
      HandledExactly(t, rest, k - 1);
      FlatFirst(batches, k);
    }
  }

  ghost predicate LoopPossible(s: State, batches: seq<seq<Event>>)
    decreases |batches|
  {
    !s.stop && batches != [] ==>
      Possible(s, batches[0]) && LoopPossible(Run(s, batches[0]), batches[1..])
  }

  lemma {:induction false} LoopIsRun(s: State, batches: seq<seq<Event>>)
    requires LoopPossible(s, batches)
    ensures Loop(s, batches) == Run(s, Handled(s, batches)) && Possible(s, Handled(s, batches))
    decreases |batches|
  {
    if !s.stop && batches != [] {
      var t := Run(s, batches[0]);
      LoopIsRun(t, batches[1..]);
      RunAppend(s, batches[0], Handled(t, batches[1..]));
    }
  }

  /**
   The server leaves its loop with no child running exactly when every child accepted after the stop
   flag went up is reaped before the batch ends.
   */
  lemma ExitLeavesNoneExactly(s: State, batches: seq<seq<Event>>)
    requires Inv(s) && !s.stop && LoopPossible(s, batches) && Loop(s, batches).stop
    ensures Loop(s, batches).slots == map[] <==> LateChildrenReaped(s, Handled(s, batches))
  {
    LoopIsRun(s, batches);
    LeavesNoneExactly(s, Handled(s, batches));
  }

  /** And it leaves it only through a termination signal, once no child was left after one. */
  lemma LoopStopsExactly(s: State, batches: seq<seq<Event>>)
    requires Inv(s) && !s.stop && !s.terminate && LoopPossible(s, batches)
    ensures Loop(s, batches).stop <==> StoppedBy(s, Handled(s, batches))
  {
    LoopIsRun(s, batches);
    StopsExactly(s, Handled(s, batches));
  }

  /** It can leave a child behind: a termination signal and a new client in one batch. */
  lemma ExitCanLeaveAChild()
    ensures var s, batches := Init(1, 100), [[Sigterm, Accept(3, 7, 9)]];
            && LoopPossible(s, batches) && Loop(s, batches).stop
            && Loop(s, batches).slots == map[7 := 0] && Loop(s, batches).users == [Client(3, 7, 9)]
  {
    var s, events := Init(1, 100), [Sigterm, Accept(3, 7, 9)];
    RunOne(s, [], Sigterm);
    RunOne(s, [Sigterm], Accept(3, 7, 9));
    assert [] + [Sigterm] == [Sigterm] && [Sigterm] + [Accept(3, 7, 9)] == events;
    var batches := [events];
    assert batches[1..] == [];
    assert Loop(Run(s, events), batches[1..]) == Run(s, events);
  }
}
