/**
 The timer list as a value: a sequence of entries ordered by expiry.

 The functions below say what each list operation does to the sequence.  What those effects are
 worth (order, stability, conservation, exactly the expired entries) is proved about them here;
 module TimerList proves that the linked structure computes them.
 */
module TimerSpec {

  datatype Entry<T> = Entry(id: T, expire: int)

  ghost predicate Sorted<T>(s: seq<Entry<T>>) {
    forall i, j :: 0 <= i < j < |s| ==> s[i].expire <= s[j].expire
  }

  function InsertAt<T>(s: seq<T>, p: nat, x: T): (r: seq<T>)
    requires p <= |s|
    ensures |r| == |s| + 1 && r[p] == x
    ensures forall i :: 0 <= i < p ==> r[i] == s[i]
    ensures forall i :: p < i < |r| ==> r[i] == s[i - 1]
  {
    seq(|s| + 1, i requires 0 <= i <= |s| => if i < p then s[i] else if i == p then x else s[i - 1])
  }

  function RemoveAt<T>(s: seq<T>, k: nat): (r: seq<T>)
    requires k < |s|
    ensures |r| == |s| - 1
    ensures forall i :: 0 <= i < k ==> r[i] == s[i]
    ensures forall i :: k <= i < |r| ==> r[i] == s[i + 1]
  {
    seq(|s| - 1, i requires 0 <= i < |s| - 1 => if i < k then s[i] else s[i + 1])
  }

  /** The first index from k on whose entry expires strictly after e; |s| if there is none. */
  function FirstAfter<T>(s: seq<Entry<T>>, k: nat, e: int): (p: nat)
    requires k <= |s|
    ensures k <= p <= |s|
    ensures forall i :: k <= i < p ==> s[i].expire <= e
    ensures p < |s| ==> e < s[p].expire
    decreases |s| - k
  {
    if k == |s| || e < s[k].expire then k else FirstAfter(s, k + 1, e)
  }

  /** The position is determined: nothing before it is later than e, and it is later than e. */
  lemma {:induction false} FirstAfterUnique<T>(s: seq<Entry<T>>, k: nat, e: int, p: nat)
    requires k <= p <= |s|
    requires forall i :: k <= i < p ==> s[i].expire <= e
    requires p < |s| ==> e < s[p].expire
    ensures p == FirstAfter(s, k, e)
    decreases |s| - k
  {
  }

  /** The intended insertion: behind every entry that does not expire later. */
  function StableInsert<T>(s: seq<Entry<T>>, x: Entry<T>): seq<Entry<T>> {
    InsertAt(s, FirstAfter(s, 0, x.expire), x)
  }

  /** What the private helper does when it starts at node k: node k itself is never compared. */
  function InsertAfterNode<T>(s: seq<Entry<T>>, k: nat, x: Entry<T>): seq<Entry<T>>
    requires k < |s|
  {
    InsertAt(s, FirstAfter(s, k + 1, x.expire), x)
  }

  datatype AddOutcome<T> = Done(list: seq<Entry<T>>) | NullDereference

  /** Adding a timer exactly as the source writes it: the helper starts at the node after the head. */
  function AddAsWritten<T>(s: seq<Entry<T>>, x: Entry<T>): AddOutcome<T> {
    if s == [] then Done([x])
    else if x.expire < s[0].expire then Done([x] + s)
    else if |s| == 1 then NullDereference
    else Done(InsertAfterNode(s, 1, x))
  }

  /** What repositioning node k does, whatever its expiry has become. */
  function Adjust<T>(s: seq<Entry<T>>, k: nat): seq<Entry<T>>
    requires k < |s|
  {
    if k + 1 == |s| || s[k].expire < s[k + 1].expire then s
    else InsertAfterNode(RemoveAt(s, k), k, s[k])
  }

  /** The same repositioning on a sequence that runs alongside the list. */
  function AdjustAlong<T, U>(s: seq<Entry<T>>, ids: seq<U>, k: nat): (r: seq<U>)
    requires |ids| == |s| && k < |s|
    ensures |r| == |s|
  {
    if k + 1 == |s| || s[k].expire < s[k + 1].expire then ids
    else InsertAt(RemoveAt(ids, k), FirstAfter(RemoveAt(s, k), k + 1, s[k].expire), ids[k])
  }

  // ----- insertion

  lemma InsertKeepsElements<T>(s: seq<T>, p: nat, x: T)
    requires p <= |s|
    ensures multiset(InsertAt(s, p, x)) == multiset(s) + multiset{x}
    ensures RemoveAt(InsertAt(s, p, x), p) == s
  {
    assert s == s[..p] + s[p..];
    assert InsertAt(s, p, x) == s[..p] + [x] + s[p..];
  }

  lemma RemoveKeepsElements<T>(s: seq<T>, k: nat)
    requires k < |s|
    ensures multiset(s) == multiset(RemoveAt(s, k)) + multiset{s[k]}
    ensures InsertAt(RemoveAt(s, k), k, s[k]) == s
  {
    assert s == s[..k] + [s[k]] + s[k + 1..];
    assert RemoveAt(s, k) == s[..k] + s[k + 1..];
  }

  lemma SortedInsert<T>(s: seq<Entry<T>>, p: nat, x: Entry<T>)
    requires Sorted(s) && p <= |s|
    ensures Sorted(InsertAt(s, p, x)) <==>
            (0 < p ==> s[p - 1].expire <= x.expire) && (p < |s| ==> x.expire <= s[p].expire)
  {
    var r := InsertAt(s, p, x);
    if Sorted(r) {
      assert p < |s| ==> r[p].expire <= r[p + 1].expire;
    }
  }

  /** Stable insertion keeps the order and the elements. */
  lemma StableInsertSorted<T>(s: seq<Entry<T>>, x: Entry<T>)
    requires Sorted(s)
    ensures Sorted(StableInsert(s, x))
    ensures multiset(StableInsert(s, x)) == multiset(s) + multiset{x}
  {
    var q := FirstAfter(s, 0, x.expire);
    SortedInsert(s, q, x);
    InsertKeepsElements(s, q, x);
  }

  /** No other position is both in order and behind every entry with the same expiry. */
  lemma StableInsertUnique<T>(s: seq<Entry<T>>, x: Entry<T>, p: nat)
    requires Sorted(s) && p <= |s|
    ensures Sorted(InsertAt(s, p, x)) && (p < |s| ==> x.expire < s[p].expire)
            <==> p == FirstAfter(s, 0, x.expire)
  {
  }

  /** The helper does its documented job exactly when its start node does not expire after the timer. */
  lemma InsertAfterNodeCorrect<T>(s: seq<Entry<T>>, k: nat, x: Entry<T>)
    requires Sorted(s) && k < |s|
    ensures InsertAfterNode(s, k, x) == StableInsert(s, x) <==> s[k].expire <= x.expire
    ensures Sorted(InsertAfterNode(s, k, x)) <==> s[k].expire <= x.expire
  {
  }

  /** Otherwise the timer ends up right behind the start node, which expires later. */
  lemma InsertAfterNodeTooLate<T>(s: seq<Entry<T>>, k: nat, x: Entry<T>)
    requires Sorted(s) && k < |s| && x.expire < s[k].expire
    ensures InsertAfterNode(s, k, x) == s[..k + 1] + [x] + s[k + 1..]
  {
    FirstAfterUnique(s, k + 1, x.expire, k + 1);
  }

  /** The source's own add meets its purpose exactly when the timer does not belong right behind the head. */
  lemma AddAsWrittenExactly<T>(s: seq<Entry<T>>, x: Entry<T>)
    requires Sorted(s)
    ensures AddAsWritten(s, x) == Done(StableInsert(s, x)) <==>
            !(s != [] && s[0].expire <= x.expire && (|s| == 1 || x.expire < s[1].expire))
    ensures AddAsWritten(s, x).NullDereference? <==> |s| == 1 && s[0].expire <= x.expire
    ensures AddAsWritten(s, x).Done? ==>
              (Sorted(AddAsWritten(s, x).list) <==> AddAsWritten(s, x).list == StableInsert(s, x))
    ensures |s| > 1 && s[0].expire <= x.expire < s[1].expire ==>
              AddAsWritten(s, x) == Done([s[0], s[1], x] + s[2..])
  {
    if |s| > 1 && s[0].expire <= x.expire < s[1].expire {
      InsertAfterNodeTooLate(s, 1, x);
      assert s[..2] + [x] + s[2..] == [s[0], s[1], x] + s[2..];
    }
  }

  /** Both ways the source's add goes wrong: a null pointer, and a list out of order. */
  lemma AddAsWrittenCounterexamples()
    ensures AddAsWritten([Entry('a', 1)], Entry('b', 2)).NullDereference?
    ensures var s := [Entry('a', 1), Entry('b', 5)];
            var x := Entry('c', 3);
            Sorted(s) && AddAsWritten(s, x) == Done([s[0], s[1], x]) && !Sorted([s[0], s[1], x])
  {
  }

  // ----- repositioning

  lemma RemoveKeepsSorted<T>(s: seq<Entry<T>>, k: nat)
    requires Sorted(s) && k < |s|
    ensures Sorted(RemoveAt(s, k))
  {
  }

  lemma AdjustMoves<T>(s: seq<Entry<T>>, k: nat)
    requires k + 1 < |s| && Sorted(RemoveAt(s, k)) && s[k + 1].expire <= s[k].expire
    ensures Adjust(s, k) == StableInsert(RemoveAt(s, k), s[k]) && Sorted(Adjust(s, k))
    ensures multiset(Adjust(s, k)) == multiset(s)
    ensures k == 0 || s[k - 1].expire <= s[k].expire
  {
    var t := RemoveAt(s, k);
    InsertAfterNodeCorrect(t, k, s[k]);
    RemoveKeepsElements(s, k);
    InsertKeepsElements(t, FirstAfter(t, k + 1, s[k].expire), s[k]);
  }

  lemma AdjustStays<T>(s: seq<Entry<T>>, k: nat)
    requires k < |s| && Sorted(RemoveAt(s, k))
    requires k + 1 < |s| ==> s[k].expire < s[k + 1].expire
    ensures StableInsert(RemoveAt(s, k), s[k]) == s <==> (k == 0 || s[k - 1].expire <= s[k].expire)
    ensures Sorted(s) <==> (k == 0 || s[k - 1].expire <= s[k].expire)
  {
    var t := RemoveAt(s, k);
    SortedInsert(t, k, s[k]);
  }

  /**
   On a list that is in order except for node k, adjusting equals taking the node out and stably
   putting it back exactly when its expiry did not drop below its predecessor's; growing never does.
   */
  lemma AdjustIsReinsertion<T>(s: seq<Entry<T>>, k: nat)
    requires k < |s| && Sorted(RemoveAt(s, k))
    ensures Adjust(s, k) == StableInsert(RemoveAt(s, k), s[k]) <==>
            (k == 0 || s[k - 1].expire <= s[k].expire)
    ensures Sorted(Adjust(s, k)) <==> (k == 0 || s[k - 1].expire <= s[k].expire)
    ensures k > 0 && s[k].expire < s[k - 1].expire ==> Adjust(s, k) == s
    ensures multiset(Adjust(s, k)) == multiset(s)
  {
    if k + 1 < |s| && s[k + 1].expire <= s[k].expire {
      AdjustMoves(s, k);
    } else {
      AdjustStays(s, k);
    }
  }

  /** A timer that now expires last, or ties for it, goes to the tail. */
  lemma AdjustToTail<T>(s: seq<Entry<T>>, k: nat, x: Entry<T>)
    requires k < |s| && forall i :: 0 <= i < |s| ==> s[i].expire <= x.expire
    ensures Adjust(s[k := x], k) == RemoveAt(s, k) + [x]
  {
    var t, r := s[k := x], RemoveAt(s, k);
    assert RemoveAt(t, k) == r;
    if k + 1 < |t| {
      FirstAfterUnique(r, k + 1, x.expire, |r|);
      assert InsertAt(r, |r|, x) == r + [x];
    } else {
      assert t == r + [x];
    }
  }

  // ----- expiry

  /** How many entries tick fires: the prefix up to the first one that has not expired. */
  function Expired<T>(s: seq<Entry<T>>, cur: int): nat {
    FirstAfter(s, 0, cur)
  }

  ghost function DueBy<T>(s: seq<Entry<T>>, cur: int): seq<Entry<T>> {
    if s == [] then [] else (if s[0].expire <= cur then [s[0]] else []) + DueBy(s[1..], cur)
  }

  ghost function NotDueBy<T>(s: seq<Entry<T>>, cur: int): seq<Entry<T>> {
    if s == [] then [] else (if cur < s[0].expire then [s[0]] else []) + NotDueBy(s[1..], cur)
  }

  lemma {:induction false} NoneDue<T>(s: seq<Entry<T>>, cur: int)
    requires Sorted(s) && (s != [] ==> cur < s[0].expire)
    ensures DueBy(s, cur) == [] && NotDueBy(s, cur) == s
  {
    if s != [] {
      NoneDue(s[1..], cur);
    }
  }

  /** Stopping at the first unexpired entry loses nothing: the prefix is all that expired, in list order. */
  lemma {:induction false} TickFiresExactlyTheExpired<T>(s: seq<Entry<T>>, cur: int)
    requires Sorted(s)
    ensures s[..Expired(s, cur)] == DueBy(s, cur)
    ensures s[Expired(s, cur)..] == NotDueBy(s, cur)
    ensures Sorted(s[Expired(s, cur)..])
  {
    ExpiredFrom(s, 0, cur);
  }

  lemma {:induction false} ExpiredFrom<T>(s: seq<Entry<T>>, k: nat, cur: int)
    requires Sorted(s) && k <= |s|
    ensures s[k..FirstAfter(s, k, cur)] == DueBy(s[k..], cur)
    ensures s[FirstAfter(s, k, cur)..] == NotDueBy(s[k..], cur)
    decreases |s| - k
  {
    var p := FirstAfter(s, k, cur);
    if k == |s| || cur < s[k].expire {
      NoneDue(s[k..], cur);
      assert s[k..p] == [];
    } else {
      ExpiredFrom(s, k + 1, cur);
      assert s[k..][1..] == s[k + 1..];
      assert s[k..p] == [s[k]] + s[k + 1..p];
    }
  }
}
