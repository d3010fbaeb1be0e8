/** The pool of 64 callback timers on top of the timer manager. */
module PowerTimer {
  import opened DoublyLinkedList
  import opened OrderedInsert
  import opened TimerClock
  import opened PTimer

  const MAX_TIMER_COUNT: nat := 64

  // A callback is known by its address; NULL is 0.
  type Callback = nat

  datatype Slot = Slot(used: bool, timer: Node?<Timer>, cb: Callback)

  const FREE := Slot(false, null, 0)

  // Distinct numbers below a bound are no more than the bound.
  lemma {:induction false} Pigeonhole(s: seq<nat>, bound: nat)
    requires forall i :: 0 <= i < |s| ==> s[i] < bound
    requires forall i, j :: 0 <= i < j < |s| ==> s[i] != s[j]
    ensures |s| <= bound
    decreases bound
  {
    if s != [] {
      var last := |s| - 1;
      var top := s[last];
      // swap the largest value out of the way
      var t := seq(last, i requires 0 <= i < last => if s[i] == bound - 1 then top else s[i]);
      forall i, j | 0 <= i < j < |t| ensures t[i] != t[j] {
        assert s[i] != s[j] && s[i] != s[last] && s[j] != s[last];
      }
      forall i | 0 <= i < |t| ensures t[i] < bound - 1 {
        assert s[i] != s[last];
      }
      Pigeonhole(t, bound - 1);
    }
  }

  class Pool {
    const mng: Manager
    const slots: array<Slot>
    // the fate of every timer ever added
    ghost var added: set<Node<Timer>>
    ghost var fired: set<Node<Timer>>
    ghost var cancelled: set<Node<Timer>>

    // Used slots, `skip` aside, and existing timers are in bijection.
    ghost predicate BoundBut(skip: int)
      reads mng, mng.timers`item, slots
    {
      && slots.Length == MAX_TIMER_COUNT
      && (forall i :: 0 <= i < MAX_TIMER_COUNT && i != skip && !slots[i].used ==> slots[i] == FREE)
      && (forall i :: 0 <= i < MAX_TIMER_COUNT && i != skip && slots[i].used ==>
            slots[i].timer != null && slots[i].timer in mng.timers && slots[i].timer.item.slot == i)
      && (forall t :: t in mng.timers && t.item.slot != skip ==>
            && t.item.slot < MAX_TIMER_COUNT
            && slots[t.item.slot].used && slots[t.item.slot].timer == t)
    }

    ghost predicate Bound()
      reads mng, mng.timers`item, slots
    {
      BoundBut(-1)
    }

    // Every timer added is armed, has fired, or was cancelled: exactly one of the three.
    ghost predicate Conserved()
      reads this, mng
    {
      && added == mng.timers + fired + cancelled
      && mng.timers !! fired && mng.timers !! cancelled && fired !! cancelled
    }

    ghost predicate Valid()
      reads this, mng, mng.list, mng.list.nodes, mng.timers, slots
    {
      && mng.Valid() && Bound() && Conserved()
      && forall t :: t in mng.timers ==> t.item.armed
    }

    constructor ()
      ensures Valid() && fresh(mng) && fresh(mng.list) && fresh(slots) && added == {}
    {
      mng := new Manager();
      slots := new Slot[MAX_TIMER_COUNT](_ => FREE);
      added, fired, cancelled := {}, {}, {};
    }

    // The bijection keeps the list short.
    lemma {:induction false} AtMost64()
      requires mng.Valid() && Bound()
      ensures |mng.list.nodes| <= MAX_TIMER_COUNT
    {
      var nodes := mng.list.nodes;
      var items := Items(nodes);
      var at := seq(|nodes|, i requires 0 <= i < |nodes| => items[i].slot);
      ListFacts(mng.list);
      forall i, j | 0 <= i < j < |at| ensures at[i] != at[j] {
        assert nodes[i] in mng.timers && nodes[j] in mng.timers && nodes[i] != nodes[j];
      }
      forall i | 0 <= i < |at| ensures at[i] < MAX_TIMER_COUNT {
        assert nodes[i] in mng.timers;
      }
      Pigeonhole(at, MAX_TIMER_COUNT);
    }

    method AllocateTimer() returns (i: int)
      requires slots.Length == MAX_TIMER_COUNT
      modifies slots
      ensures i == -1 || 0 <= i < MAX_TIMER_COUNT
      ensures i == -1 ==> slots[..] == old(slots[..]) && forall k :: 0 <= k < MAX_TIMER_COUNT ==> slots[k].used
      ensures i >= 0 ==>
                && !old(slots[i].used) && slots[..] == old(slots[..])[i := old(slots[i]).(used := true)]
                && forall k :: 0 <= k < i ==> old(slots[k].used)
    {
      i := 0;
      while i < MAX_TIMER_COUNT
        invariant 0 <= i <= MAX_TIMER_COUNT && slots[..] == old(slots[..])
        invariant forall k :: 0 <= k < i ==> slots[k].used && slots[k] == old(slots[k])
      {
        if !slots[i].used {
          slots[i] := slots[i].(used := true);
          return;
        }
        i := i + 1;
      }
      return -1;
    }

    method FindTimer(cb: Callback) returns (idx: int)
      requires slots.Length == MAX_TIMER_COUNT
      ensures idx == -1 || 0 <= idx < MAX_TIMER_COUNT
      ensures idx >= 0 ==> slots[idx].used && slots[idx].cb == cb
      ensures forall k :: 0 <= k < (if idx < 0 then MAX_TIMER_COUNT else idx) ==> !(slots[k].used && slots[k].cb == cb)
    {
      for i := 0 to MAX_TIMER_COUNT
        invariant forall k :: 0 <= k < i ==> !(slots[k].used && slots[k].cb == cb)
      {
        if slots[i].used && slots[i].cb == cb {
          return i;
        }
      }
      return -1;
    }

    method AddTimerCallback(timeout: int, cb: Callback, now: Wall) returns (ret: int, ghost idx: int)
      requires Valid()
      modifies this, mng, mng.list, mng.list.nodes`next, mng.list.nodes`prev, slots
      ensures Valid()
      ensures fired == old(fired) && cancelled == old(cancelled)
      ensures ret == -1 <==> forall k :: 0 <= k < MAX_TIMER_COUNT ==> old(slots[k].used)
      ensures ret == -1 ==> added == old(added) && slots[..] == old(slots[..]) && mng.list.nodes == old(mng.list.nodes)
      ensures ret != -1 ==>
                && ret == 0 && 0 <= idx < MAX_TIMER_COUNT && !old(slots[idx].used)
                && (forall k :: 0 <= k < idx ==> old(slots[k].used))
                && slots[..] == old(slots[..])[idx := slots[idx]]
                && slots[idx].timer != null
                && var t: Node<Timer> := slots[idx].timer;
                && fresh(t) && slots[idx] == Slot(true, t, cb) && added == old(added) + {t}
                && t.item == Timer(true, idx, ExpiryAt(now, Wrap(timeout)))
                && var s := old(mng.list.nodes);
                mng.list.nodes == InsertAt(s, InsertPos(Compare, Items(s), t.item), t)
    {
      hide Items, InsertAt, InsertPos, ExpiryAt, Compare, Conserved, Manager.Valid;
      AtMost64();
      var i := AllocateTimer();
      idx := i;
      if i < 0 || i >= MAX_TIMER_COUNT {
        return -1, i;
      }
      AddAt(i, Wrap(timeout), cb, now);
      return 0, i;
    }

    method AddAt(i: nat, ms: nat, cb: Callback, now: Wall)
      requires mng.Valid() && BoundBut(i) && Conserved()
      requires forall t :: t in mng.timers ==> t.item.armed && t.item.slot != i
      requires i < MAX_TIMER_COUNT == slots.Length && slots[i] == Slot(true, null, 0)
      requires |mng.list.nodes| < MAX_INDEXABLE
      modifies this, mng, mng.list, mng.list.nodes`next, mng.list.nodes`prev, slots
      ensures Valid()
      ensures fired == old(fired) && cancelled == old(cancelled)
      ensures slots[..] == old(slots[..])[i := slots[i]]
      ensures slots[i].timer != null
      ensures var t: Node<Timer> := slots[i].timer;
              && fresh(t) && slots[i] == Slot(true, t, cb) && added == old(added) + {t}
              && t.item == Timer(true, i, ExpiryAt(now, ms))
              && var s := old(mng.list.nodes);
              mng.list.nodes == InsertAt(s, InsertPos(Compare, Items(s), t.item), t)
    {
      hide Items, InsertAt, InsertPos, ExpiryAt, Compare, Manager.Valid, BoundBut;
      ghost var s := mng.list.nodes;
      var t := NewTimer(ms, i, now);
      ghost var items := Items(s);
      FillSlot(i, t, cb);
      added := added + {t};
      assert Items(s) == items;
    }

    method FillSlot(i: nat, t: Node<Timer>, cb: Callback)
      requires i < MAX_TIMER_COUNT == slots.Length && BoundBut(i) && slots[i].used
      requires t in mng.timers && t.item.slot == i && forall u :: u in mng.timers && u.item.slot == i ==> u == t
      modifies slots
      ensures Bound() && slots[..] == old(slots[..])[i := Slot(true, t, cb)]
    {
      slots[i] := slots[i].(cb := cb, timer := t);
    }

    // Created and started.
    method NewTimer(ms: nat, data: nat, now: Wall) returns (t: Node<Timer>)
      requires mng.Valid() && |mng.list.nodes| < MAX_INDEXABLE && BoundBut(data)
      modifies mng, mng.list, mng.list.nodes`next, mng.list.nodes`prev
      ensures mng.Valid() && BoundBut(data) && fresh(t) && mng.timers == old(mng.timers) + {t}
      ensures t.item == Timer(true, data, ExpiryAt(now, ms))
      ensures var s := old(mng.list.nodes);
              mng.list.nodes == InsertAt(s, InsertPos(Compare, Items(s), t.item), t)
    {
      hide Items, InsertAt, InsertPos, ExpiryAt, Compare, Removed, List<Timer>.Valid, Sorted;
      t := mng.Create();
      mng.Start(t, ms, data, now);
    }

    method ResetTimer(i: int) returns (ret: int)
      requires slots.Length == MAX_TIMER_COUNT
      modifies slots
      ensures ret == -1 <==> i < 0 || i >= MAX_TIMER_COUNT
      ensures slots[..] == if ret == -1 then old(slots[..]) else old(slots[..])[i := FREE]
    {
      if i < 0 || i >= MAX_TIMER_COUNT {
        return -1;
      }
      slots[i] := FREE;
      return 0;
    }

    ghost predicate OthersArmed(t: Node<Timer>)
      reads mng, mng.timers`item
    {
      forall u :: u in mng.timers && u != t ==> u.item.armed
    }

    // The timer is freed and so is its slot.
    method Discard(i: nat, t: Node<Timer>)
      requires mng.Valid() && Bound() && OthersArmed(t) && t in mng.timers && t.item.slot == i
      modifies mng, mng.list, mng.list.nodes`next, mng.list.nodes`prev, t`item, slots
      ensures mng.Valid() && Bound() && OthersArmed(t)
      ensures mng.timers == old(mng.timers) - {t} && mng.list.nodes == Removed(old(mng.list.nodes), t)
      ensures i < MAX_TIMER_COUNT && slots[..] == old(slots[..])[i := FREE]
    {
      hide Removed, Manager.Valid;
      mng.Delete(t);
      var _ := ResetTimer(i);
      assert slots[i] == FREE && forall k :: 0 <= k < MAX_TIMER_COUNT && k != i ==> slots[k] == old(slots[k]);
    }

    method CancelTimerCallback(cb: Callback) returns (ret: int, ghost idx: int)
      requires Valid()
      modifies this, mng, mng.list, mng.list.nodes, slots
      ensures Valid()
      ensures added == old(added) && fired == old(fired)
      ensures ret == -1 <==> forall k :: 0 <= k < MAX_TIMER_COUNT ==> !(old(slots[k].used) && old(slots[k].cb) == cb)
      ensures ret == -1 ==>
                cancelled == old(cancelled) && slots[..] == old(slots[..]) && mng.list.nodes == old(mng.list.nodes)
      ensures ret != -1 ==>
                && ret == 0 && 0 <= idx < MAX_TIMER_COUNT && old(slots[idx].used) && old(slots[idx].cb) == cb
                && (forall k :: 0 <= k < idx ==> !(old(slots[k].used) && old(slots[k].cb) == cb))
                && slots[..] == old(slots[..])[idx := FREE]
                && old(slots[idx].timer) != null
                && var t: Node<Timer> := old(slots[idx].timer);
                && mng.list.nodes == Removed(old(mng.list.nodes), t) && cancelled == old(cancelled) + {t}
    {
      hide Removed, Manager.Valid, BoundBut;
      BoundFacts();
      var i := FindTimer(cb);
      idx := i;
      if i < 0 || i >= MAX_TIMER_COUNT {
        return -1, i;
      }
      var t: Node<Timer> := slots[i].timer;
      StopAndDiscard(i, t);
      cancelled := cancelled + {t};
      return 0, i;
    }

    method StopAndDiscard(i: nat, t: Node<Timer>)
      requires mng.Valid() && Bound() && OthersArmed(t) && t in mng.timers && t.item.armed && t.item.slot == i
      modifies mng, mng.list, mng.list.nodes, slots
      ensures mng.Valid() && Bound() && OthersArmed(t)
      ensures mng.timers == old(mng.timers) - {t} && mng.list.nodes == Removed(old(mng.list.nodes), t)
      ensures i < MAX_TIMER_COUNT && slots[..] == old(slots[..])[i := FREE]
    {
      hide Removed, Manager.Valid;
      ManagerFacts(mng, t);
      mng.Stop(t);
      ghost var s := mng.list.nodes;
      assert forall k :: 0 <= k < |s| ==> s[k] in old(mng.list.nodes);
      Discard(i, t);
    }

    lemma {:induction false} BoundFacts()
      requires Bound()
      ensures slots.Length == MAX_TIMER_COUNT
      ensures forall i :: 0 <= i < MAX_TIMER_COUNT && slots[i].used ==>
                slots[i].timer != null && slots[i].timer in mng.timers && slots[i].timer.item.slot == i
    {
    }

    lemma {:induction false} TimerSlot(t: Node<Timer>)
      requires Bound() && t in mng.timers
      ensures slots.Length == MAX_TIMER_COUNT > t.item.slot && slots[t.item.slot].timer == t
    {
    }

    // What the timer thread does on waking: if the head is due, run its callback, once, and
    // give up its slot.
    method ServeExpired(now: Wall) returns (served: bool, ran: Callback)
      requires Valid()
      modifies this, mng, mng.list, mng.list.nodes, slots
      ensures Valid()
      ensures added == old(added) && cancelled == old(cancelled)
      ensures served <==> old(mng.list.nodes) != [] && Due(old(mng.list.nodes[0].item.expire), now)
      ensures !served ==> fired == old(fired) && slots[..] == old(slots[..]) && mng.list.nodes == old(mng.list.nodes)
      ensures served ==>
                var s := old(mng.list.nodes);
                var i := old(s[0].item.slot);
                && fired == old(fired) + {s[0]} && mng.list.nodes == s[1..]
                && i < MAX_TIMER_COUNT && ran == old(slots[i].cb) && slots[..] == old(slots[..])[i := FREE]
    {
      hide Removed, Manager.Valid, Due;
      served, ran := false, 0;
      HeadFacts(mng);
      var t := mng.GetExpired(now);
      if t != null {
        served := true;
        ran := TimerHandler(t, t.item.slot);
      }
    }

    method TimerHandler(t: Node<Timer>, data: nat) returns (ran: Callback)
      requires mng.Valid() && Bound() && OthersArmed(t) && t in mng.timers && t.item.slot == data && Conserved()
      requires t !in mng.list.nodes
      modifies this, mng, mng.list, mng.list.nodes`next, mng.list.nodes`prev, t`item, slots
      ensures Valid()
      ensures added == old(added) && cancelled == old(cancelled) && fired == old(fired) + {t}
      ensures mng.list.nodes == old(mng.list.nodes)
      ensures data < MAX_TIMER_COUNT && ran == old(slots[data].cb) && slots[..] == old(slots[..])[data := FREE]
    {
      hide Manager.Valid, Removed, BoundBut;
      TimerSlot(t);
      if slots[data].timer != t {
        assert false;
      }
      ran := slots[data].cb;
      Discard(data, t);
      fired := fired + {t};
    }
  }

  lemma {:induction false} HeadFacts(m: Manager)
    requires m.Valid()
    ensures m.list.nodes != [] ==> m.list.nodes[0] in m.timers && m.list.nodes[0] !in m.list.nodes[1..]
  {
    ListFacts(m.list);
  }

  lemma {:induction false} ManagerFacts(m: Manager, t: Node<Timer>)
    requires m.Valid() && t in m.timers && t.item.armed
    ensures t in m.list.nodes
    ensures t !in Removed(m.list.nodes, t) && Removed(Removed(m.list.nodes, t), t) == Removed(m.list.nodes, t)
  {
    ListFacts(m.list);
    var i :| 0 <= i < |m.list.nodes| && m.list.nodes[i] == t;
    RemovedAt(m.list.nodes, i);
  }
}
