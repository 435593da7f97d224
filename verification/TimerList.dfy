/**
 The sorted timer list: a doubly linked list rewritten in place through head, tail, prev and next.

 Ghost state: `nodes` is the list as a sequence, `freed` the timers deleted so far in order, and
 `added` every timer ever handed to the list.
 */
module TimerList {
  import opened Sequences
  import opened TimerSpec

  class ClientData {
    var socketFd: int
    var timer: Timer?

    constructor ()
      ensures timer == null
    {
      socketFd, timer := -1, null;
    }
  }

  class Timer {
    var expire: int
    var userData: ClientData
    var prev: Timer?
    var next: Timer?

    constructor (userData: ClientData, expire: int)
      ensures this.userData == userData && this.expire == expire
      ensures prev == null && next == null
    {
      this.userData, this.expire := userData, expire;
      prev, next := null, null;
    }
  }

  ghost function EntriesOf(ns: seq<Timer>): (s: seq<Entry<Timer>>)
    reads ns
    ensures |s| == |ns|
    ensures forall i :: 0 <= i < |s| ==> s[i] == Entry(ns[i], ns[i].expire)
  {
    seq(|ns|, i requires 0 <= i < |ns| reads ns => Entry(ns[i], ns[i].expire))
  }

  ghost function UsersOf(ns: seq<Timer>): (us: seq<ClientData>)
    reads ns
    ensures |us| == |ns|
    ensures forall i :: 0 <= i < |us| ==> us[i] == ns[i].userData
  {
    seq(|ns|, i requires 0 <= i < |ns| reads ns => ns[i].userData)
  }

  function Append<T>(s: seq<T>, ghost whole: seq<T>, ghost n: nat, x: T): (r: seq<T>)
    requires n < |whole| && s == whole[..n] && x == whole[n]
    ensures r == whole[..n + 1]
  {
    s + [x]
  }

  lemma Appended<T>(s: seq<T>, t: seq<T>, n: nat)
    requires n < |t|
    ensures s + t[..n] + [t[n]] == s + t[..n + 1]
  {
  }

  lemma DropFirst<T>(s: seq<T>)
    requires s != []
    ensures RemoveAt(s, 0) == s[1..]
  {
  }

  /** Conservation: every timer ever added is in the list or was freed, and no timer occurs twice. */
  ghost predicate Accounted(nodes: seq<Timer>, freed: seq<Timer>, added: set<Timer>) {
    && Distinct(nodes) && Distinct(freed)
    && added == (set t | t in nodes) + (set t | t in freed)
    && (forall t :: t in nodes ==> t !in freed)
  }

  lemma AccountedInsert(nodes: seq<Timer>, freed: seq<Timer>, added: set<Timer>, p: nat, t: Timer)
    requires Accounted(nodes, freed, added) && p <= |nodes| && t !in added
    ensures Accounted(InsertAt(nodes, p, t), freed, added + {t})
  {
    var r := InsertAt(nodes, p, t);
    forall n | n in nodes ensures n in r {
      var i :| 0 <= i < |nodes| && nodes[i] == n;
      assert r[if i < p then i else i + 1] == n;
    }
  }

  lemma Removed(nodes: seq<Timer>, k: nat)
    requires Distinct(nodes) && k < |nodes|
    ensures nodes[k] !in RemoveAt(nodes, k) && Distinct(RemoveAt(nodes, k))
    ensures (set t | t in nodes) == (set t | t in RemoveAt(nodes, k)) + {nodes[k]}
  {
    var r := RemoveAt(nodes, k);
    forall n | n in nodes ensures n in r || n == nodes[k] {
      var i :| 0 <= i < |nodes| && nodes[i] == n;
      assert i > k ==> r[i - 1] == n;
    }
  }

  lemma AccountedRemove(nodes: seq<Timer>, freed: seq<Timer>, added: set<Timer>, k: nat)
    requires Accounted(nodes, freed, added) && k < |nodes|
    ensures Accounted(RemoveAt(nodes, k), freed + [nodes[k]], added)
  {
    Removed(nodes, k);
  }

  lemma AccountedDrop(nodes: seq<Timer>, freed: seq<Timer>, added: set<Timer>)
    requires Accounted(nodes, freed, added) && nodes != []
    ensures Accounted(nodes[1..], freed + [nodes[0]], added)
  {
    AccountedRemove(nodes, freed, added, 0);
    DropFirst(nodes);
  }

  /** A whole prefix goes the same way. */
  lemma {:induction false} AccountedTake(nodes: seq<Timer>, freed: seq<Timer>, added: set<Timer>, k: nat)
    requires Accounted(nodes, freed, added) && k <= |nodes|
    ensures Accounted(nodes[k..], freed + nodes[..k], added)
  {
    if k == 0 {
      assert freed + nodes[..0] == freed;
    } else {
      AccountedTake(nodes, freed, added, k - 1);
      AccountedDrop(nodes[k - 1..], freed + nodes[..k - 1], added);
      Appended(freed, nodes, k - 1);
    }
  }

  lemma AccountedMove(nodes: seq<Timer>, freed: seq<Timer>, added: set<Timer>, k: nat, p: nat)
    requires Accounted(nodes, freed, added) && k < |nodes| && p < |nodes|
    ensures Accounted(InsertAt(RemoveAt(nodes, k), p, nodes[k]), freed, added)
  {
    Removed(nodes, k);
    AccountedInsert(RemoveAt(nodes, k), freed, added - {nodes[k]}, p, nodes[k]);
  }

  ghost function Given(t: Timer?): set<Timer> {
    if t == null then {} else {t}
  }

  lemma {:induction false} EntriesInserted(ns: seq<Timer>, p: nat, t: Timer)
    requires p <= |ns|
    ensures EntriesOf(InsertAt(ns, p, t)) == InsertAt(EntriesOf(ns), p, Entry(t, t.expire))
  {
  }

  lemma EntriesRemoved(ns: seq<Timer>, k: nat)
    requires k < |ns|
    ensures EntriesOf(RemoveAt(ns, k)) == RemoveAt(EntriesOf(ns), k)
  {
  }

  twostate lemma {:induction false} EntriesUnchanged(ns: seq<Timer>)
    requires forall n :: n in ns ==> n.expire == old(n.expire)
    ensures EntriesOf(ns) == old(EntriesOf(ns))
  {
  }

  /** next and prev are inverse to each other along nodes; tail means nothing while the list is empty. */
  ghost predicate Chain(head: Timer?, tail: Timer?, nodes: seq<Timer>)
    reads nodes
  {
    && Distinct(nodes)
    && (nodes == [] ==> head == null)
    && (nodes != [] ==>
          && head == nodes[0] && nodes[0].prev == null
          && tail == nodes[|nodes| - 1] && nodes[|nodes| - 1].next == null)
    && (forall i {:trigger nodes[i].next} :: 0 <= i < |nodes| - 1 ==> nodes[i].next == nodes[i + 1])
    && (forall i {:trigger nodes[i].prev} :: 1 <= i < |nodes| ==> nodes[i].prev == nodes[i - 1])
  }

  class SortTimerList {
    var head: Timer?
    var tail: Timer?
    ghost var nodes: seq<Timer>
    ghost var freed: seq<Timer>
    ghost var added: set<Timer>

    ghost predicate Chained()
      reads this, nodes
    {
      Chain(head, tail, nodes)
    }

    ghost predicate Valid()
      reads this, nodes
    {
      Chained() && Accounted(nodes, freed, added)
    }

    ghost function Entries(): seq<Entry<Timer>>
      reads this, nodes
    {
      EntriesOf(nodes)
    }

    constructor ()
      ensures Valid() && nodes == [] && freed == [] && added == {}
    {
      head, tail := null, null;
      nodes, freed, added := [], [], {};
    }

    /** Records a sequence of nodes that the pointers already form. */
    ghost method SetNodes(ns: seq<Timer>)
      requires Chain(head, tail, ns)
      modifies this`nodes
      ensures Chained() && nodes == ns && Entries() == old(EntriesOf(ns))
    {
      nodes := ns;
      EntriesUnchanged(ns);
    }

    /** The four writes that link timer in between two neighbours. */
    method Weave(timer: Timer, before: Timer, after: Timer, ghost i: nat)
      requires Chained() && timer !in nodes
      requires i + 1 < |nodes| && before == nodes[i] && after == nodes[i + 1]
      modifies before`next, after`prev, timer`prev, timer`next
      ensures Chain(head, tail, InsertAt(nodes, i + 1, timer))
    {
      timer.next := after;
      timer.prev := before;
      before.next := timer;
      after.prev := timer;
    }

    method LinkBetween(timer: Timer, before: Timer, after: Timer, ghost i: nat)
      requires Chained() && timer !in nodes
      requires i + 1 < |nodes| && before == nodes[i] && after == nodes[i + 1]
      modifies this`nodes, before`next, after`prev, timer`prev, timer`next
      ensures Chained() && nodes == InsertAt(old(nodes), i + 1, timer)
    {
      Weave(timer, before, after, i);
      SetNodes(InsertAt(nodes, i + 1, timer));
    }

    /** The four writes that make timer the new tail. */
    method LinkLast(timer: Timer, last: Timer)
      requires Chained() && timer !in nodes && nodes != [] && last == nodes[|nodes| - 1]
      modifies this`nodes, this`tail, last`next, timer`prev, timer`next
      ensures Chained() && nodes == InsertAt(old(nodes), |old(nodes)|, timer)
    {
      last.next := timer;
      timer.prev := last;
      timer.next := null;
      tail := timer;
      nodes := InsertAt(nodes, |nodes|, timer);
    }

    /** The private helper's walk: the last node not later than timer, counting from start, and its successor. */
    method FindGap(timer: Timer, start: Timer, ghost k: nat) returns (before: Timer, tmp: Timer?, ghost i: nat)
      requires Chained() && k < |nodes| && start == nodes[k]
      ensures i < |nodes| && before == nodes[i]
      ensures tmp == if i + 1 < |nodes| then nodes[i + 1] else null
      ensures i + 1 == FirstAfter(Entries(), k + 1, timer.expire)
    {
      before := start;
      tmp := before.next;
      i := k;
      while tmp != null
        invariant k <= i < |nodes| && before == nodes[i]
        invariant tmp == if i + 1 < |nodes| then nodes[i + 1] else null
        invariant forall j :: k < j <= i ==> nodes[j].expire <= timer.expire
        decreases |nodes| - i
      {
        if timer.expire < tmp.expire {
          break;
        }
        before := tmp;
        tmp := tmp.next;
        i := i + 1;
      }
      FirstAfterUnique(Entries(), k + 1, timer.expire, i + 1);
    }

    /** The private helper: links timer in behind start, before the first later node that expires after it. */
    method Place(timer: Timer, start: Timer, ghost k: nat)
      requires Chained() && k < |nodes| && start == nodes[k]
      requires timer !in nodes
      modifies this`nodes, this`tail, nodes`prev, nodes`next, timer`prev, timer`next
      ensures Chained()
      ensures nodes == InsertAt(old(nodes), FirstAfter(old(Entries()), k + 1, timer.expire), timer)
      ensures Entries() == InsertAfterNode(old(Entries()), k, Entry(timer, timer.expire))
    {
      var before, tmp, i := FindGap(timer, start, k);
      if tmp != null {
        LinkBetween(timer, before, tmp, i);
      } else {
        LinkLast(timer, before);
      }
      EntriesUnchanged(old(nodes));
      EntriesInserted(old(nodes), i + 1, timer);
    }

    /** The first two branches of adding: an empty list, or a timer that becomes the new head. */
    method LinkFirst(timer: Timer)
      requires Chained() && timer !in nodes
      requires timer.prev == null && (nodes == [] ==> timer.next == null)
      modifies this`nodes, this`head, this`tail, nodes`prev, timer`next
      ensures Chained() && nodes == InsertAt(old(nodes), 0, timer)
      ensures Entries() == InsertAt(old(Entries()), 0, Entry(timer, timer.expire))
    {
      if head == null {
        head, tail := timer, timer;
      } else {
        timer.next := head;
        head.prev := timer;
        head := timer;
      }
      nodes := InsertAt(nodes, 0, timer);
      EntriesUnchanged(old(nodes));
      EntriesInserted(old(nodes), 0, timer);
    }

    /** The public branches, with the private helper started at the head. */
    method Link(timer: Timer)
      requires Chained() && timer !in nodes && timer.prev == null && timer.next == null
      modifies this`nodes, this`head, this`tail, nodes`prev, nodes`next, timer`prev, timer`next
      ensures Chained()
      ensures nodes == InsertAt(old(nodes), FirstAfter(old(Entries()), 0, timer.expire), timer)
      ensures Entries() == StableInsert(old(Entries()), Entry(timer, timer.expire))
    {
      if head == null || timer.expire < head.expire {
        LinkFirst(timer);
      } else {
        Place(timer, head, 0);
      }
    }

    /** Adding a timer with the helper started at the head. */
    method AddTimer(timer: Timer?)
      requires Valid()
      requires timer != null ==> timer !in added && timer.prev == null && timer.next == null
      modifies this`nodes, this`head, this`tail, this`added
      modifies nodes`prev, nodes`next, Given(timer)`prev, Given(timer)`next
      ensures Valid() && freed == old(freed) && added == old(added) + Given(timer)
      ensures timer == null ==> nodes == old(nodes)
      ensures timer != null ==>
                && nodes == InsertAt(old(nodes), FirstAfter(old(Entries()), 0, timer.expire), timer)
                && Entries() == StableInsert(old(Entries()), Entry(timer, timer.expire))
    {
      if timer != null {
        ghost var ns, p := nodes, FirstAfter(Entries(), 0, timer.expire);
        Link(timer);
        AccountedInsert(ns, freed, added, p, timer);
        label linked:
        added := added + {timer};
        assert Chain(head, tail, nodes);
        assert Accounted(nodes, freed, added);
        EntriesUnchanged@linked(nodes);
      }
    }

    /** The source's own add, which starts the helper at the node after the head; fault marks a null dereference. */
    method AddTimerAsWritten(timer: Timer) returns (fault: bool)
      requires Chained() && timer !in nodes && timer.prev == null && timer.next == null
      modifies this`nodes, this`head, this`tail, nodes`prev, nodes`next, timer`prev, timer`next
      ensures Chained()
      ensures match AddAsWritten(old(Entries()), Entry(timer, timer.expire))
              case Done(list) => !fault && Entries() == list
              case NullDereference => fault && nodes == old(nodes)
    {
      fault := false;
      if head == null || timer.expire < head.expire {
        LinkFirst(timer);
      } else if head.next == null {
        fault := true;
      } else {
        Place(timer, head.next, 1);
      }
    }

    /** Takes the first of at least one node out of the chain. */
    method UnlinkFirst()
      requires Chained() && nodes != []
      modifies this`nodes, this`head, nodes`prev
      ensures Chained() && nodes == RemoveAt(old(nodes), 0)
      ensures Entries() == RemoveAt(old(Entries()), 0)
    {
      head := head.next;
      if head != null {
        head.prev := null;
      }
      nodes := RemoveAt(nodes, 0);
    }

    /** The two writes that make the neighbours of node k skip it. */
    method Bridge(timer: Timer, ghost k: nat)
      requires Chained() && 0 < k < |nodes| - 1 && nodes[k] == timer
      modifies nodes`next, nodes`prev
      ensures Chain(head, tail, RemoveAt(nodes, k)) && timer.next == nodes[k + 1]
    {
      timer.prev.next := timer.next;
      timer.next.prev := timer.prev;
    }

    /** Takes an inner node out of the chain; its own links keep pointing at its former neighbours. */
    method UnlinkInner(timer: Timer, ghost k: nat)
      requires Chained() && 0 < k < |nodes| - 1 && nodes[k] == timer
      modifies this`nodes, nodes`next, nodes`prev
      ensures Chained() && nodes == RemoveAt(old(nodes), k) && timer.next == nodes[k]
      ensures Entries() == RemoveAt(old(Entries()), k)
    {
      Bridge(timer, k);
      EntriesUnchanged(nodes);
      EntriesRemoved(nodes, k);
      SetNodes(RemoveAt(nodes, k));
    }

    /** Takes the last of at least two nodes out of the chain. */
    method UnlinkLast()
      requires Chained() && |nodes| > 1
      modifies this`nodes, this`tail, nodes`next
      ensures Chained() && nodes == RemoveAt(old(nodes), |old(nodes)| - 1)
      ensures Entries() == RemoveAt(old(Entries()), |old(nodes)| - 1)
    {
      tail := tail.prev;
      tail.next := null;
      nodes := RemoveAt(nodes, |nodes| - 1);
    }

    method ClearNext(timer: Timer)
      requires Chained() && timer !in nodes
      modifies timer`next
      ensures Chained() && Entries() == old(Entries())
    {
      timer.next := null;
      assert Chain(head, tail, nodes);
      EntriesUnchanged(nodes);
    }

    /** The head branch of adjusting. */
    method RelinkFirst()
      requires Chained() && |nodes| > 1
      modifies this`nodes, this`head, this`tail, nodes`prev, nodes`next
      ensures Chained()
      ensures nodes == InsertAt(RemoveAt(old(nodes), 0),
                FirstAfter(RemoveAt(old(Entries()), 0), 1, old(Entries())[0].expire), old(nodes)[0])
      ensures Entries() == InsertAfterNode(RemoveAt(old(Entries()), 0), 0, old(Entries())[0])
    {
      var timer: Timer := head;
      ghost var rest, x := RemoveAt(Entries(), 0), Entries()[0];
      Removed(nodes, 0);
      UnlinkFirst();
      ClearNext(timer);
      assert Entries() == rest && x == Entry(timer, timer.expire);
      Place(timer, head, 0);
    }

    /** The inner branch of adjusting. */
    method RelinkInner(timer: Timer, ghost k: nat)
      requires Chained() && 0 < k < |nodes| - 1 && nodes[k] == timer
      modifies this`nodes, this`head, this`tail, nodes`prev, nodes`next
      ensures Chained()
      ensures nodes == InsertAt(RemoveAt(old(nodes), k),
                FirstAfter(RemoveAt(old(Entries()), k), k + 1, old(Entries())[k].expire), timer)
      ensures Entries() == InsertAfterNode(RemoveAt(old(Entries()), k), k, old(Entries())[k])
    {
      ghost var rest, x := RemoveAt(Entries(), k), Entries()[k];
      Removed(nodes, k);
      UnlinkInner(timer, k);
      assert Entries() == rest && x == Entry(timer, timer.expire);
      Place(timer, timer.next, k);
    }

    /** Repositions a timer whose expiry has changed. */
    method AdjustTimer(timer: Timer?, ghost k: nat)
      requires Valid()
      requires timer != null ==> k < |nodes| && nodes[k] == timer
      modifies this`nodes, this`head, this`tail, nodes`prev, nodes`next
      ensures Valid() && freed == old(freed) && added == old(added)
      ensures timer == null ==> nodes == old(nodes)
      ensures timer != null ==>
                && nodes == AdjustAlong(old(Entries()), old(nodes), k)
                && Entries() == Adjust(old(Entries()), k)
    {
      if timer == null {
        return;
      }
      var tmp := timer.next;
      if tmp == null || timer.expire < tmp.expire {
        return;
      }
      ghost var p := FirstAfter(RemoveAt(Entries(), k), k + 1, timer.expire);
      AccountedMove(nodes, freed, added, k, p);
      if timer == head {
        RelinkFirst();
      } else {
        RelinkInner(timer, k);
      }
    }

    /** The four branches that take a timer out of the chain. */
    method Unlink(timer: Timer, ghost k: nat)
      requires Chained() && k < |nodes| && nodes[k] == timer
      modifies this`nodes, this`head, this`tail, nodes`prev, nodes`next
      ensures Chained() && nodes == RemoveAt(old(nodes), k)
      ensures Entries() == RemoveAt(old(Entries()), k)
    {
      if timer == head && timer == tail {
        head, tail, nodes := null, null, [];
      } else if timer == head {
        UnlinkFirst();
      } else if timer == tail {
        UnlinkLast();
      } else {
        UnlinkInner(timer, k);
      }
    }

    /** Unlinks and deletes a timer of the list. */
    method DelTimer(timer: Timer?, ghost k: nat)
      requires Valid()
      requires timer != null ==> k < |nodes| && nodes[k] == timer
      modifies this, nodes`prev, nodes`next
      ensures Valid() && added == old(added)
      ensures timer == null ==> nodes == old(nodes) && freed == old(freed)
      ensures timer != null ==> nodes == RemoveAt(old(nodes), k) && freed == old(freed) + [timer]
      ensures timer != null ==> Entries() == RemoveAt(old(Entries()), k)
    {
      if timer == null {
        return;
      }
      AccountedRemove(nodes, freed, added, k);
      Unlink(timer, k);
      Delete(timer);
    }

    /** delete: the timer is gone, the chain is untouched. */
    method Delete(timer: Timer)
      requires Chained()
      modifies this`freed
      ensures Chained() && freed == old(freed) + [timer]
      ensures Entries() == old(Entries())
    {
      freed := freed + [timer];
      assert Chain(head, tail, nodes);
    }

    /** The head is unlinked and deleted. */
    method DropHead()
      requires Chained() && nodes != []
      modifies this`nodes, this`head, this`freed, nodes`prev
      ensures Chained()
      ensures nodes == old(nodes)[1..] && freed == old(freed) + [old(nodes)[0]]
      ensures Entries() == old(Entries())[1..]
    {
      DropFirst(nodes);
      DropFirst(Entries());
      var first := head;
      UnlinkFirst();
      Delete(first);
    }

    /** One round of tick: the argument for the callback is read before the timer goes. */
    method FireHead() returns (arg: ClientData)
      requires Chained() && nodes != []
      modifies this`nodes, this`head, this`freed, nodes`prev
      ensures Chained()
      ensures nodes == old(nodes)[1..] && freed == old(freed) + [old(nodes)[0]]
      ensures Entries() == old(Entries())[1..]
      ensures arg == old(UsersOf(nodes))[0] && UsersOf(nodes) == old(UsersOf(nodes))[1..]
    {
      arg := head.userData;
      DropHead();
    }

    /** The first n of the timers ns have been called back and deleted, in order. */
    ghost predicate Fired(ns: seq<Timer>, fs: seq<Timer>, s: seq<Entry<Timer>>, us: seq<ClientData>,
                          n: nat, called: seq<ClientData>)
      reads this, nodes
    {
      && Chained()
      && |ns| == |s| == |us| && n <= |ns|
      && nodes == ns[n..] && Entries() == s[n..] && UsersOf(nodes) == us[n..]
      && freed == fs + ns[..n] && called == us[..n]
    }

    /** One round of tick. */
    method FireOne(called: seq<ClientData>, ghost ns: seq<Timer>, ghost fs: seq<Timer>,
                   ghost s: seq<Entry<Timer>>, ghost us: seq<ClientData>, ghost n: nat)
      returns (called': seq<ClientData>)
      requires Fired(ns, fs, s, us, n, called) && n < |ns|
      modifies this`nodes, this`head, this`freed, nodes`prev
      ensures Fired(ns, fs, s, us, n + 1, called')
    {
      Appended(fs, ns, n);
      var arg := FireHead();
      called' := Append(called, us, n, arg);
    }

    /** The loop of tick: from the head on, until a timer has not expired. */
    method FireExpired(cur: int) returns (called: seq<ClientData>)
      requires Chained()
      modifies this`nodes, this`head, this`freed, nodes`prev
      ensures Fired(old(nodes), old(freed), old(Entries()), old(UsersOf(nodes)), Expired(old(Entries()), cur), called)
    {
      called := [];
      var tmp := head;
      ghost var n, ns, fs, s, us := 0, nodes, freed, Entries(), UsersOf(nodes);
      while tmp != null
        invariant Fired(ns, fs, s, us, n, called) && tmp == head
        invariant forall i :: 0 <= i < n ==> s[i].expire <= cur
        decreases |s| - n
      {
        assert s[n] == Entries()[0];
        if cur < tmp.expire {
          break;
        }
        called := FireOne(called, ns, fs, s, us, n);
        tmp := head;
        n := n + 1;
      }
      FirstAfterUnique(s, 0, cur, n);
    }

    /**
     Calls back and deletes timers from the head until one has not expired; called lists the
     arguments of the callback in call order.
     */
    method Tick(cur: int) returns (called: seq<ClientData>)
      requires Valid()
      modifies this`nodes, this`head, this`freed, nodes`prev
      ensures Valid() && added == old(added)
      ensures var k := Expired(old(Entries()), cur);
              && nodes == old(nodes)[k..] && freed == old(freed) + old(nodes)[..k]
              && Entries() == old(Entries())[k..]
              && called == old(UsersOf(nodes))[..k]
    {
      AccountedTake(nodes, freed, added, Expired(Entries(), cur));
      called := FireExpired(cur);
    }

    /** The destructor deletes exactly what is left, so that every timer ever added has been freed once. */
    method Destroy()
      requires Valid()
      modifies this`nodes, this`head, this`freed
      ensures Valid() && nodes == [] && head == null && freed == old(freed) + old(nodes)
      ensures added == old(added) && Accounted([], freed, added)
    {
      var temp := head;
      ghost var n := 0;
      while temp != null
        invariant n <= |nodes| && temp == head && nodes == old(nodes)
        invariant temp == if n < |old(nodes)| then old(nodes)[n] else null
        invariant freed == old(freed) + old(nodes)[..n]
        decreases |old(nodes)| - n
      {
        head := temp.next;
        freed := freed + [temp];
        temp := head;
        n := n + 1;
      }
      assert nodes[..n] == nodes;
      AllFreed(nodes, old(freed), added);
      assert Accounted([], freed, added);
      nodes := [];
      assert Chain(head, tail, nodes);
    }
  }

  /** Once all that is left has been freed, every timer ever added has been freed once. */
  lemma AllFreed(nodes: seq<Timer>, freed: seq<Timer>, added: set<Timer>)
    requires Accounted(nodes, freed, added)
    ensures Accounted([], freed + nodes, added)
  {
    AccountedTake(nodes, freed, added, |nodes|);
    assert nodes[..|nodes|] == nodes;
  }
}
