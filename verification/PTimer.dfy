/** The timer manager: timers are nodes of one list, kept in the order of their expiry seconds. */
module PTimer {
  import opened DoublyLinkedList
  import opened OrderedInsert
  import opened TimerClock

  ghost function Removed<T(!new)>(s: seq<Node<T>>, n: Node<T>): (r: seq<Node<T>>)
    ensures |r| <= |s| && forall x :: x in r ==> x in s
    ensures n !in s ==> r == s
  {
    if s == [] then [] else if s[0] == n then s[1..] else [s[0]] + Removed(s[1..], n)
  }

  lemma {:induction false} RemovedAt<T(!new)>(s: seq<Node<T>>, i: nat)
    requires Distinct(s) && i < |s|
    ensures Removed(s, s[i]) == s[..i] + s[i + 1..]
    ensures forall x :: x in Removed(s, s[i]) <==> x in s && x != s[i]
  {
    var r := s[..i] + s[i + 1..];
    if i > 0 {
      RemovedAt(s[1..], i - 1);
      assert s[..i] == [s[0]] + s[1..][..i - 1] && s[i + 1..] == s[1..][i..];
      assert [s[0]] + (s[1..][..i - 1] + s[1..][i..]) == r;
    }
    forall x | x in s && x != s[i] ensures x in r {
      var k :| 0 <= k < |s| && s[k] == x;
      assert if k < i then r[k] == x else r[k - 1] == x;
    }
    assert s[i] !in s[..i] && s[i] !in s[i + 1..];
  }

  lemma {:induction false} ItemsOfRemoved<T(!new)>(s: seq<Node<T>>, i: nat)
    requires i < |s|
    ensures Items(s[..i] + s[i + 1..]) == Items(s)[..i] + Items(s)[i + 1..]
  {
  }

  lemma {:induction false} ItemsOfInserted<T(!new)>(s: seq<Node<T>>, p: nat, n: Node<T>)
    requires p <= |s|
    ensures Items(InsertAt(s, p, n)) == InsertAt(Items(s), p, n.item)
  {
    hide Items;
    var r := InsertAt(s, p, n);
    assert forall i :: 0 <= i < p ==> r[i] == s[i];
    assert r[p] == n;
    assert forall i :: p < i < |r| ==> r[i] == s[i - 1];
  }

  lemma {:induction false} InsertedMembers<T(!new)>(s: seq<Node<T>>, p: nat, n: Node<T>)
    requires p <= |s|
    ensures forall x :: x in InsertAt(s, p, n) <==> x in s || x == n
  {
    assert s == s[..p] + s[p..];
  }

  lemma {:induction false} ListFacts<T(!new)>(l: List<T>)
    requires l.Valid()
    ensures Distinct(l.nodes) && l.count == |l.nodes|
    ensures l.nodes != [] ==> l.first == l.nodes[0]
  {
  }

  class Manager {
    const list: List<Timer>
    // the timers created and not yet deleted
    ghost var timers: set<Node<Timer>>

    // A timer knows that it is armed iff the list holds it, and the list is in order.
    ghost predicate Valid()
      reads this, list, list.nodes, timers
    {
      && list.Valid()
      && (forall n :: n in list.nodes ==> n in timers)
      && (forall t :: t in timers ==> (t.item.armed <==> t in list.nodes))
      && Sorted(SecondsLe, Items(list.nodes))
    }

    constructor ()
      ensures Valid() && fresh(list) && list.nodes == [] && timers == {}
    {
      list := new List();
      timers := {};
    }

    method Create() returns (t: Node<Timer>)
      requires Valid()
      modifies this
      ensures Valid() && fresh(t) && !t.item.armed && timers == old(timers) + {t}
    {
      t := new Node(Timer(false, 0, Expiry(0, 0)));
      timers := timers + {t};
    }

    // Off the list and marked so, if it was on it.
    method Disarm(t: Node<Timer>)
      requires Valid() && t in timers
      modifies list, list.nodes`next, list.nodes`prev, t`item
      ensures Valid() && t.item == old(t.item).(armed := false)
      ensures list.nodes == Removed(old(list.nodes), t)
    {
      hide Items, Linked, Sorted, List<Timer>.Valid, Removed, Distinct;
      ListFacts(list);
      if t.item.armed {
        ghost var s := list.nodes;
        ghost var i :| 0 <= i < |s| && s[i] == t;
        RemovedAt(s, i);
        ItemsOfRemoved(s, i);
        DeleteKeepsSorted(SecondsLe, Items(s), i);
        list.Delete(t, i);
        t.item := t.item.(armed := false);
      }
    }

    // Onto the list, where its expiry belongs.
    method Arm(t: Node<Timer>, data: nat, expire: Expiry)
      requires Valid() && t in timers && !t.item.armed && |list.nodes| < MAX_INDEXABLE
      modifies list, list.nodes`next, list.nodes`prev, t
      ensures Valid() && t.item == Timer(true, data, expire)
      ensures var s := old(list.nodes); list.nodes == InsertAt(s, InsertPos(Compare, Items(s), t.item), t)
    {
      hide Items, Linked, Sorted, List<Timer>.Valid, Distinct, InsertAt, InsertPos, Compare;
      t.item := Timer(true, data, expire);
      ghost var s := list.nodes;
      ghost var p, items := InsertPos(Compare, Items(s), t.item), Items(s);
      assert Sorted(SecondsLe, items);
      TimerInsertKeepsSeconds(items, t.item);
      var _ := list.Insert(t, Compare);
      InsertedMembers(s, p, t);
      ItemsOfInserted(s, p, t);
      assert Items(s) == items;
    }

    method Start(t: Node<Timer>, ms: nat, data: nat, now: Wall)
      requires Valid() && t in timers && |list.nodes| < MAX_INDEXABLE
      modifies list, list.nodes`next, list.nodes`prev, t
      ensures Valid() && t.item == Timer(true, data, ExpiryAt(now, ms))
      ensures var rest := Removed(old(list.nodes), t);
              t !in rest && list.nodes == InsertAt(rest, InsertPos(Compare, Items(rest), t.item), t)
    {
      hide Items, Linked, Sorted, List<Timer>.Valid, Removed, Distinct, InsertAt, InsertPos, ExpiryAt, Compare;
      Disarm(t);
      Arm(t, data, ExpiryAt(now, ms));
    }

    method Stop(t: Node<Timer>)
      requires Valid() && t in timers
      modifies list, list.nodes`next, list.nodes`prev, t`item
      ensures Valid() && t.item == old(t.item).(armed := false)
      ensures list.nodes == Removed(old(list.nodes), t)
    {
      Disarm(t);
    }

    method Delete(t: Node<Timer>)
      requires Valid() && t in timers
      modifies this, list, list.nodes`next, list.nodes`prev, t`item
      ensures Valid() && timers == old(timers) - {t} && list.nodes == Removed(old(list.nodes), t)
      ensures t !in list.nodes
    {
      hide Items, Linked, Sorted, List<Timer>.Valid, Removed, Distinct;
      Disarm(t);
      timers := timers - {t};
    }

    method GetNextDuration(now: Wall) returns (ret: int, ms: nat)
      requires Valid()
      ensures list.nodes == [] ==> ret == 1 && ms == 0
      ensures list.nodes != [] ==> ret == 0 && ms == Duration(list.nodes[0].item.expire, now)
    {
      if list.count == 0 {
        return 1, 0;
      }
      return 0, Duration(list.first.item.expire, now);
    }

    // The head, taken off the list, once it is due.
    method GetExpired(now: Wall) returns (t: Node?<Timer>)
      requires Valid()
      modifies list, list.nodes`next, list.nodes`prev, list.nodes`item
      ensures Valid()
      ensures var s := old(list.nodes);
              if s != [] && Due(old(s[0].item.expire), now) then
                && t == s[0] && list.nodes == s[1..]
                && t.item == old(s[0].item).(armed := false)
                && forall n :: n in s && n != t ==> n.item == old(n.item)
              else t == null && list.nodes == s && forall n :: n in s ==> n.item == old(n.item)
    {
      if list.count == 0 {
        return null;
      }
      var head := list.first;
      if Due(head.item.expire, now) {
        Disarm(head);
        return head;
      }
      return null;
    }
  }
}
