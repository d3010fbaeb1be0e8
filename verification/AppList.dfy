/** The application list: app-state events edit the resumed activities, re-select the
    configured scenarios, and take or give back performance locks to match. */
module AppList {
  import opened AppListSpec

  const STATUS_MAX: nat := 1024

  // What changes of a configured scenario: the lock it holds and the process last seen.
  datatype Lock = Lock(handle: int, pid: int)

  function One(handle: int): multiset<int> {
    if handle > 0 then multiset{handle} else multiset{}
  }

  // What remains of an entry whose lock is given back.
  function Off(l: Lock): Lock {
    Lock(if l.handle > 0 then 0 else l.handle, 0)
  }

  function HeldIn(s: seq<Lock>): multiset<int> {
    if s == [] then multiset{} else HeldIn(s[..|s| - 1]) + One(s[|s| - 1].handle)
  }

  lemma {:induction false} HeldUpdate(s: seq<Lock>, i: nat, l: Lock)
    requires i < |s|
    ensures HeldIn(s[i := l]) + One(s[i].handle) == HeldIn(s) + One(l.handle)
  {
    hide One;
    var n := |s| - 1;
    if i == n {
      assert s[i := l][..n] == s[..n];
    } else {
      assert s[i := l][..n] == s[..n][i := l];
      HeldUpdate(s[..n], i, l);
      Exchange(HeldIn(s[..n][i := l]), One(s[i].handle), HeldIn(s[..n]), One(l.handle), One(s[n].handle));
    }
  }

  lemma {:induction false} Exchange(a: multiset<int>, b: multiset<int>, c: multiset<int>, d: multiset<int>,
                                    x: multiset<int>)
    requires a + b == c + d
    ensures (a + x) + b == (c + x) + d
  {
    assert (a + x) + b == (a + b) + x;
  }

  // A lock given back (o) moves from one side of the account to the other, one taken (n) adds to both.
  lemma {:induction false} Balance(a: multiset<int>, h: multiset<int>, r: multiset<int>, h': multiset<int>,
                                   o: multiset<int>, n: multiset<int>)
    requires a == h + r && h' + o == h + n
    ensures a + n == h' + (r + o)
    ensures o == n ==> h' == h
    ensures o == multiset{} ==> r + o == r
    ensures n == multiset{} ==> a + n == a
  {
    assert a + n == (h + n) + r == (h' + o) + r;
    if o == n {
      forall x ensures h'[x] == h[x] {
        assert (h' + o)[x] == (h + n)[x];
      }
    }
  }

  lemma {:induction false} HeldNothing(s: seq<Lock>)
    requires forall i :: 0 <= i < |s| ==> s[i].handle <= 0
    ensures HeldIn(s) == multiset{}
  {
    if s != [] {
      HeldNothing(s[..|s| - 1]);
    }
  }

  function Holders(s: seq<Lock>, h: int): set<int> {
    set i | 0 <= i < |s| && s[i].handle == h
  }

  lemma {:induction false} HoldersStep(s: seq<Lock>, l: Lock, h: int)
    ensures Holders([], h) == {}
    ensures Holders(s + [l], h) == Holders(s, h) + if l.handle == h then {|s|} else {}
    ensures |s| !in Holders(s, h)
  {
  }

  // How often a handle is held is how many entries hold it.
  lemma {:induction false} HolderCount(s: seq<Lock>, h: int)
    requires h > 0
    ensures HeldIn(s)[h] == |Holders(s, h)|
  {
    hide Holders;
    HoldersStep(s, Lock(0, 0), h);
    if s != [] {
      var n := |s| - 1;
      HolderCount(s[..n], h);
      HoldersStep(s[..n], s[n], h);
      assert s == s[..n] + [s[n]];
    }
  }

  // The locks granted by the first n requests.
  function Granted(acq: nat -> int, n: nat): multiset<int> {
    if n == 0 then multiset{} else Granted(acq, n - 1) + One(acq(n - 1))
  }

  lemma {:induction false} GrantedNext(acq: nat -> int, n: nat)
    ensures Granted(acq, n + 1) == Granted(acq, n) + One(acq(n))
  {
  }

  // No handle is granted twice.
  ghost predicate NeverRepeats(acq: nat -> int, n: nat) {
    forall j: nat, k: nat :: j < k < n && acq(j) > 0 ==> acq(j) != acq(k)
  }

  lemma {:induction false} GrantedOnce(acq: nat -> int, n: nat, h: int)
    requires NeverRepeats(acq, n) && h > 0
    ensures Granted(acq, n)[h] == if exists k: nat :: k < n && acq(k) == h then 1 else 0
  {
    if n > 0 {
      GrantedOnce(acq, n - 1, h);
      assert acq(n - 1) == h || (exists k: nat :: k < n && acq(k) == h) == (exists k: nat :: k < n - 1 && acq(k) == h);
    }
  }

  // Every granted lock has exactly one holder, or was given back exactly once, and never both.
  lemma {:induction false} ExactlyOnce(acq: nat -> int, n: nat, s: seq<Lock>, released: multiset<int>, k: nat)
    requires Granted(acq, n) == HeldIn(s) + released && NeverRepeats(acq, n)
    requires k < n && acq(k) > 0
    ensures var h := acq(k);
            (|Holders(s, h)| == 1 && released[h] == 0) || (Holders(s, h) == {} && released[h] == 1)
  {
    GrantedOnce(acq, n, acq(k));
    HolderCount(s, acq(k));
  }

  // How many of the first k entries ask for a lock.
  function Asking(asks: seq<bool>, k: nat): nat
    requires k <= |asks|
  {
    if k == 0 then 0 else Asking(asks, k - 1) + if asks[k - 1] then 1 else 0
  }

  lemma {:induction false} SameAsking(asks: seq<bool>, asks': seq<bool>, k: nat)
    requires k <= |asks| && k <= |asks'| && forall j :: 0 <= j < k ==> asks[j] == asks'[j]
    ensures Asking(asks, k) == Asking(asks', k)
  {
    if k > 0 {
      SameAsking(asks, asks', k - 1);
    }
  }

  // The first n entries that ask hold what request after request granted; the others are as before.
  predicate Took(before: seq<Lock>, after: seq<Lock>, asks: seq<bool>, acq: nat -> int, calls: nat, n: nat) {
    && n <= |before| == |after| && |before| <= |asks|
    && (forall k :: 0 <= k < n ==>
          after[k] == if asks[k] then before[k].(handle := acq(calls + Asking(asks, k))) else before[k])
    && (forall k :: n <= k < |before| ==> after[k] == before[k])
  }

  lemma {:induction false} TookStep(before: seq<Lock>, after: seq<Lock>, asks: seq<bool>, acq: nat -> int,
                                    calls: nat, n: nat)
    requires Took(before, after, asks, acq, calls, n) && n < |before|
    ensures Asking(asks, n + 1) == Asking(asks, n) + if asks[n] then 1 else 0
    ensures after[n] == before[n]
    ensures asks[n] ==>
              var l := before[n].(handle := acq(calls + Asking(asks, n)));
              Took(before, after[n := l], asks, acq, calls, n + 1)
    ensures !asks[n] ==> Took(before, after, asks, acq, calls, n + 1)
  {
    hide Asking;
    AskingNext(asks, n);
  }

  lemma {:induction false} AskingNext(asks: seq<bool>, n: nat)
    requires n < |asks|
    ensures Asking(asks, 0) == 0 && Asking(asks, n + 1) == Asking(asks, n) + if asks[n] then 1 else 0
  {
  }

  lemma {:induction false} TookNone(before: seq<Lock>, asks: seq<bool>, acq: nat -> int, calls: nat)
    requires |before| <= |asks|
    ensures Took(before, before, asks, acq, calls, 0) && Asking(asks, 0) == 0
  {
  }

  // The entries an event makes active.
  function Newly(status: seq<bool>, chosen: seq<int>): (asks: seq<bool>)
    ensures |asks| == |status| && forall k :: 0 <= k < |asks| ==> asks[k] == (!status[k] && k in chosen)
  {
    seq(|status|, k requires 0 <= k < |status| => !status[k] && k in chosen)
  }

  // What re-selection does to the entries: one that is no longer chosen gives back its lock, one
  // that is newly chosen holds what its request was granted, and every other is left alone.
  predicate Settled(before: seq<Lock>, after: seq<Lock>, was: seq<bool>, chosen: seq<int>, acq: nat -> int,
                    calls: nat) {
    && |before| == |after| && |before| <= |was|
    && var asks := Newly(was, chosen);
       forall k :: 0 <= k < |before| ==>
         after[k] == if was[k] && k !in chosen then Off(before[k])
                     else if asks[k] then before[k].(handle := acq(calls + Asking(asks, k)))
                     else before[k]
  }

  predicate OfProcess(l: Lock, pid: int) {
    pid == l.pid && pid != 0
  }

  // What the event itself does to an entry, before re-selection.
  function Touched(l: Lock, cfg: Config, e: Event): Lock {
    match e.state
    case Dead => if OfProcess(l, e.pid) then Off(l) else l
    case Paused => l
    case ModeUpdated => l
    case _ => if cfg.pack == e.pack then l.(pid := e.pid) else l
  }

  function TouchedAll(locks: seq<Lock>, cfgs: seq<Config>, e: Event): (r: seq<Lock>)
    requires |locks| == |cfgs|
    ensures |r| == |locks| && forall k :: 0 <= k < |r| ==> r[k] == Touched(locks[k], cfgs[k], e)
  {
    seq(|locks|, k requires 0 <= k < |locks| => Touched(locks[k], cfgs[k], e))
  }

  // Every active entry holds a lock.
  predicate Covers(locks: seq<Lock>, status: seq<bool>) {
    |locks| <= |status| && forall k :: 0 <= k < |locks| && status[k] ==> locks[k].handle > 0
  }

  // Every request from number `from` up to number `to` is granted.
  ghost predicate AllGranted(acq: nat -> int, from: nat, to: nat) {
    forall j: nat :: from <= j < to ==> acq(j) > 0
  }

  // Each request is some entry's.
  lemma {:induction false} AskedBy(asks: seq<bool>, n: nat, j: nat) returns (k: nat)
    requires n <= |asks| && j < Asking(asks, n)
    ensures k < n && asks[k] && Asking(asks, k) == j
  {
    if asks[n - 1] && Asking(asks, n - 1) == j {
      k := n - 1;
    } else {
      k := AskedBy(asks, n - 1, j);
    }
  }

  lemma {:induction false} AskingGrows(asks: seq<bool>, k: nat, n: nat)
    requires k < n <= |asks| && asks[k]
    ensures Asking(asks, k) < Asking(asks, n)
  {
    AskingNext(asks, n - 1);
    if k < n - 1 {
      AskingGrows(asks, k, n - 1);
    }
  }

  // All that ask are granted a lock exactly when all their requests succeed.
  lemma {:induction false} GrantsReachAll(asks: seq<bool>, acq: nat -> int, calls: nat, n: nat)
    requires n <= |asks|
    ensures AllGranted(acq, calls, calls + Asking(asks, n))
            <==> forall k :: 0 <= k < n && asks[k] ==> acq(calls + Asking(asks, k)) > 0
  {
    hide Asking;
    if AllGranted(acq, calls, calls + Asking(asks, n)) {
      forall k | 0 <= k < n && asks[k] ensures acq(calls + Asking(asks, k)) > 0 {
        AskingGrows(asks, k, n);
      }
    }
    if forall k :: 0 <= k < n && asks[k] ==> acq(calls + Asking(asks, k)) > 0 {
      forall j: nat | calls <= j < calls + Asking(asks, n) ensures acq(j) > 0 {
        var k := AskedBy(asks, n, j - calls);
      }
    }
  }

  // Exactly when an event leaves every active entry with a lock: all requests it makes are
  // granted, and it is not the death of a process whose scenario stays chosen.
  lemma {:induction false} EventCoversExact(before: seq<Lock>, cfgs: seq<Config>, e: Event, after: seq<Lock>,
                                            was: seq<bool>, now: seq<bool>, chosen: seq<int>, acq: nat -> int,
                                            calls: nat)
    requires |before| == |cfgs| && |was| == |now| && Covers(before, was)
    requires Settled(TouchedAll(before, cfgs, e), after, was, chosen, acq, calls)
    requires forall k :: 0 <= k < |cfgs| ==> (now[k] <==> k in chosen)
    ensures Covers(after, now) <==>
            && AllGranted(acq, calls, calls + Asking(Newly(was, chosen), |cfgs|))
            && !(e.state.Dead? && exists k :: 0 <= k < |cfgs| && was[k] && OfProcess(before[k], e.pid) && k in chosen)
  {
    hide Asking;
    GrantsReachAll(Newly(was, chosen), acq, calls, |cfgs|);
  }

  // After a reload every active entry holds a lock exactly when every one of them asked for one
  // and all requests were granted.
  lemma {:induction false} ReloadCoversExact(locks: seq<Lock>, status: seq<bool>, asks: seq<bool>, acq: nat -> int,
                                             calls: nat)
    requires |locks| == |asks| <= |status| && forall k :: 0 <= k < |asks| && asks[k] ==> status[k]
    requires forall k :: 0 <= k < |locks| ==>
               locks[k] == Lock(if asks[k] then acq(calls + Asking(asks, k)) else 0, 0)
    ensures Covers(locks, status) <==>
            && AllGranted(acq, calls, calls + Asking(asks, |asks|))
            && forall k :: 0 <= k < |asks| && status[k] ==> asks[k]
  {
    hide Asking;
    GrantsReachAll(asks, acq, calls, |asks|);
  }

  // A death reaches the entries of a package last seen in that process, and no others; no other
  // event takes a lock away.
  lemma {:induction false} DeathReachesItsPackage(l: Lock, cfg: Config, seen: Event, e: Event)
    requires seen.state.Resumed? || seen.state.FpsUpdated? || seen.state.MultiWindow?
    ensures !e.state.Dead? ==> Touched(l, cfg, e).handle == l.handle
    ensures e.state.Dead? && cfg.pack == seen.pack && seen.pid == e.pid != 0 ==>
              Touched(Touched(l, cfg, seen), cfg, e).handle <= 0
    ensures e.state.Dead? && cfg.pack == seen.pack && seen.pid != e.pid ==>
              Touched(Touched(l, cfg, seen), cfg, e).handle == l.handle
    ensures e.state.Dead? && cfg.pack != seen.pack ==> Touched(Touched(l, cfg, seen), cfg, e) == Touched(l, cfg, e)
  {
  }

  // The entries among these whose package has a resumed process.
  function Backed(asks: seq<bool>, list: seq<Activity>, cfgs: seq<Config>): (r: seq<bool>)
    requires |cfgs| <= |asks|
    ensures |r| == |cfgs| && forall k :: 0 <= k < |r| ==> r[k] == (asks[k] && PidOf(list, cfgs[k].pack) > 0)
  {
    seq(|cfgs|, k requires 0 <= k < |cfgs| => asks[k] && PidOf(list, cfgs[k].pack) > 0)
  }

  class Service {
    const same: Pattern
    // the result of the k-th lock request; positive on success
    const acq: nat -> int
    var calls: nat
    ghost var acquired: multiset<int>
    ghost var released: multiset<int>

    const info: array<Activity>
    var count: int
    var fps: int
    var mode: string
    var multi: bool

    var cfgs: seq<Config>
    var locks: array<Lock>
    const status: array<bool>
    var chosen: seq<int>

    ghost predicate Sized()
      reads this`count, this`cfgs, this`locks
    {
      && info.Length == MULTI_WIN_SIZE_MAX && 0 <= count <= MULTI_WIN_SIZE_MAX
      && status.Length == STATUS_MAX && locks.Length == |cfgs| <= STATUS_MAX
    }

    // Every lock ever taken is held by an entry or was given back.
    ghost predicate Accounted()
      reads this`acquired, this`released, this`calls, this`locks, locks
    {
      acquired == HeldIn(locks[..]) + released && acquired == Granted(acq, calls)
    }

    // Only active scenarios hold a lock.
    ghost predicate Valid()
      reads this`count, this`cfgs, this`locks, this`acquired, this`released, this`calls, locks, status
    {
      && Sized() && Accounted()
      && (forall i :: 0 <= i < locks.Length && locks[i].handle > 0 ==> status[i])
      && (forall i :: locks.Length <= i < STATUS_MAX ==> !status[i])
    }

    ghost function List(): seq<Activity>
      requires Sized()
      reads this`count, this`cfgs, this`locks, info
    {
      info[..count]
    }

    ghost predicate Covered()
      requires Sized()
      reads this`count, this`cfgs, this`locks, locks, status
    {
      Covers(locks[..], status[..])
    }

    // The event is the death of a process that an active scenario was last seen in, and the
    // activities left resumed still select that scenario.
    ghost predicate Orphans(e: Event)
      requires Sized()
      reads this`count, this`cfgs, this`locks, this`fps, this`multi, this`mode, info, locks, status
    {
      var list := Edit(List(), e, fps, multi);
      && e.state.Dead?
      && exists i :: 0 <= i < |cfgs| && status[i] && OfProcess(locks[i], e.pid)
                     && Selected(same, cfgs, list, ForegroundCount(list) > 1, mode, i)
    }

    constructor (same: Pattern, acq: nat -> int)
      ensures Valid() && List() == [] && cfgs == [] && acquired == multiset{} && calls == 0
      ensures this.same == same && this.acq == acq && fresh(info) && fresh(locks) && fresh(status)
      ensures fps == -1 && mode == "LOOM" && !multi
    {
      this.same, this.acq, calls := same, acq, 0;
      acquired, released := multiset{}, multiset{};
      info := new Activity[MULTI_WIN_SIZE_MAX](_ => Activity("", "", 0, 0, 0, 0, false));
      count, fps, mode, multi := 0, -1, "LOOM", false;
      cfgs, locks := [], new Lock[0];
      status := new bool[STATUS_MAX](_ => false);
      chosen := [];
    }

    // ---------- editing the resumed list ----------

    method FindKnown(e: Event) returns (found: bool)
      requires Sized()
      ensures found == Known(List(), e)
    {
      for i := 0 to count
        invariant forall k :: 0 <= k < i ==> !Names(info[k], e)
      {
        if Names(info[i], e) {
          assert Names(List()[i], e);
          return true;
        }
      }
      return false;
    }

    method AddOrUpdate(e: Event)
      requires Sized()
      modifies this`count, info
      ensures Sized() && List() == Resume(old(List()), e, fps, multi)
    {
      var found := FindKnown(e);
      if !found {
        if count < MULTI_WIN_SIZE_MAX {
          info[count] := Entry(e, fps, multi);
          count := count + 1;
          assert List() == old(List()) + [Entry(e, fps, multi)];
        }
      } else {
        for i := 0 to count
          invariant count == old(count)
          invariant forall k :: 0 <= k < i ==> info[k] == Refresh(old(info[k]), e, fps, multi)
          invariant forall k :: i <= k < count ==> info[k] == old(info[k])
        {
          if Names(info[i], e) {
            info[i] := info[i].(fps := fps, multi := multi);
          }
        }
      }
    }

    // Close the gap at position i.
    method CloseGap(i: nat)
      requires Sized() && i < count
      modifies this`count, info
      ensures Sized() && List() == old(List())[..i] + old(List())[i + 1..]
    {
      for j := i to count - 1
        invariant count == old(count)
        invariant forall k :: 0 <= k < i || j <= k < count ==> info[k] == old(info[k])
        invariant forall k :: i <= k < j ==> info[k] == old(info[k + 1])
      {
        info[j] := info[j + 1];
      }
      count := count - 1;
      ghost var list := old(List());
      assert forall k :: 0 <= k < count ==> List()[k] == (list[..i] + list[i + 1..])[k];
    }

    method RemovePaused(e: Event)
      requires Sized()
      modifies this`count, info
      ensures Sized() && List() == Pause(old(List()), e)
    {
      if count == 1 && Names(info[0], e) && info[0].pid == e.pid {
        info[0] := Activity("", "", -1, -1, -1, -1, true);
        count := count - 1;
        return;
      }
      ghost var list := List();
      assert list[0..] == list;
      for i := 0 to count
        invariant count == old(count) && List() == list
        invariant Pause(list, e) == list[..i] + Pause(list[i..], e)
      {
        assert list[i..][1..] == list[i + 1..] && list[i] == list[i..][0];
        if Names(info[i], e) && info[i].pid == e.pid {
          CloseGap(i);
          return;
        }
        Appended(list, i, Pause(list[i + 1..], e));
      }
      assert list[count..] == [];
    }

    method RemoveDead(pid: int)
      requires Sized()
      modifies this`count, info
      ensures Sized() && List() == Bury(old(List()), pid)
    {
      hide Bury;
      BuryShort(List(), pid);
      if count == 1 && info[0].pid == pid {
        info[0] := Activity("", "", -1, -1, -1, -1, true);
        count := count - 1;
        return;
      }
      ghost var all := Bury(List(), pid);
      var i := 0;
      assert List()[0..] == List();
      while i < count
        invariant Sized() && 0 <= i <= count
        invariant all == List()[..i] + Bury(List()[i..], pid)
        decreases count - i
      {
        ghost var list := List();
        BuryAt(list, i, pid);
        Appended(list, i, Bury(list[i + 1..], pid));
        if info[i].pid == pid {
          CloseGap(i);
          GapClosed(list, List(), i);
        } else {
          i := i + 1;
        }
      }
      assert List()[i..] == [] && List()[..i] == List();
      BuryShort([], pid);
    }

    method EditList(e: Event)
      requires Sized()
      modifies this`count, info
      ensures Sized() && List() == Edit(old(List()), e, fps, multi)
    {
      if e.state == Resumed || e.state == FpsUpdated || e.state == MultiWindow {
        AddOrUpdate(e);
      } else if e.state == Paused {
        RemovePaused(e);
      } else if e.state == Dead {
        RemoveDead(e.pid);
      }
    }

    method GetForegroundAPPCount() returns (n: nat)
      requires Sized()
      ensures n == ForegroundCount(List())
    {
      ghost var list := List();
      n := 1;
      var i := 1;
      while i < count
        invariant 1 <= i && (i <= count || (i == 1 && count == 0))
        invariant n == 1 + NovelCount(list, if i <= count then i else count)
      {
        var j := 0;
        while j < i && !(info[j].pack <= info[i].pack)
          invariant 0 <= j <= i
          invariant forall k :: 0 <= k < j ==> !(list[k].pack <= list[i].pack)
        {
          j := j + 1;
        }
        assert Novel(list, i) <==> j == i by {
          assert j < i ==> list[j].pack <= list[i].pack;
        }
        if i == j {
          n := n + 1;
        }
        i := i + 1;
      }
    }

    // ---------- selecting scenarios ----------

    // Record scenario i under every class it falls in.
    method Classify(c: Config, q: Query, i: int, best0: seq<int>) returns (best: seq<int>)
      requires |best0| == 8
      ensures |best| == 8
      ensures forall k :: 0 <= k < 8 ==> best[k] == if InClass(same, c, q, Classes()[k]) then i else best0[k]
    {
      best := best0;
      if same(c.pack, q.pack) {
        var windowFits := (c.window == Single && !q.multi) || (c.window == Multi && q.multi);
        if same(c.act, q.act) {
          if c.mode == q.mode || c.mode == "" {
            if c.fps == q.fps {
              if c.window == AnyWindow { best := best[3 := i]; }
              if windowFits { best := best[7 := i]; }
            }
            if c.anyFps {
              if c.window == AnyWindow { best := best[2 := i]; }
              if windowFits { best := best[6 := i]; }
            }
          }
        } else if c.anyAct {
          if c.mode == q.mode || c.mode == "" {
            if c.fps == q.fps {
              if c.window == AnyWindow { best := best[1 := i]; }
              if windowFits { best := best[5 := i]; }
            }
            if c.anyFps {
              if c.window == AnyWindow { best := best[0 := i]; }
              if windowFits { best := best[4 := i]; }
            }
          }
        }
      }
    }

    method FindAppScenarioIndex(q: Query)
      modifies this`chosen
      ensures forall i :: i in chosen <==> i in old(chosen) || Chosen(same, cfgs, q, i)
    {
      hide InClass, Chosen, LastSoFar;
      var best := seq(8, _ => -1);
      NoneSoFar(q);
      for i := 0 to |cfgs|
        invariant chosen == old(chosen)
        invariant |best| == 8 && forall k :: 0 <= k < 8 ==> LastSoFar(same, cfgs, q, Classes()[k], i, best[k])
      {
        forall k | 0 <= k < 8 {
          LastSoFarStep(same, cfgs, q, Classes()[k], i, best[k]);
        }
        best := Classify(cfgs[i], q, i, best);
      }
      forall i {
        RecordsAreChosen(same, cfgs, q, best, i);
      }
      for k := 0 to 8
        invariant forall i :: i in chosen <==> i in old(chosen) || (i != -1 && i in best[..k])
      {
        assert best[..k + 1] == best[..k] + [best[k]];
        if best[k] != -1 {
          chosen := chosen + [best[k]];
        }
      }
      assert best[..8] == best;
    }

    lemma {:induction false} NoneSoFar(q: Query)
      ensures forall k :: LastSoFar(same, cfgs, q, k, 0, -1)
    {
    }

    ghost predicate Wanted(i: int)
      requires Sized()
      reads this`count, this`cfgs, this`locks, this`multi, this`mode, info
    {
      Selected(same, cfgs, List(), multi, mode, i)
    }

    method SelectScenarios()
      requires Sized()
      modifies this`chosen
      ensures forall i :: i in chosen <==> Wanted(i)
    {
      hide Chosen;
      chosen := [];
      ghost var list := List();
      assert list[..0] == [];
      for k := 0 to count
        invariant forall i :: i in chosen <==> Selected(same, cfgs, list[..k], multi, mode, i)
      {
        var q := Query(info[k].pack, info[k].act, info[k].fps, multi, mode);
        FindAppScenarioIndex(q);
        forall i {
          SelectedStep(list, k, multi, mode, i);
        }
      }
      assert list[..count] == list;
    }

    lemma {:induction false} SelectedStep(list: seq<Activity>, k: nat, multi: bool, mode: string, i: int)
      requires k < |list|
      ensures Selected(same, cfgs, list[..k + 1], multi, mode, i) <==>
              Selected(same, cfgs, list[..k], multi, mode, i)
              || Chosen(same, cfgs, Query(list[k].pack, list[k].act, list[k].fps, multi, mode), i)
    {
      hide Chosen;
      assert forall j :: 0 <= j < k ==> list[..k + 1][j] == list[..k][j];
      assert list[..k + 1][k] == list[k];
    }

    // ---------- taking and giving back locks ----------

    method Disable(i: nat)
      requires i < locks.Length && Accounted()
      modifies this`released, locks
      ensures Accounted() && locks[..] == old(locks[..])[i := Off(old(locks[i]))]
    {
      hide HeldIn;
      var hdl := locks[i].handle;
      HeldUpdate(locks[..], i, Off(locks[i]));
      Balance(acquired, HeldIn(locks[..]), released, HeldIn(locks[..][i := Off(locks[i])]), One(hdl), multiset{});
      locks[i] := locks[i].(pid := 0);
      if hdl > 0 {
        released := released + multiset{hdl};
        locks[i] := locks[i].(handle := 0);
      }
      assert locks[..] == old(locks[..])[i := Off(old(locks[i]))];
    }

    // Never called while the entry still holds a lock.
    method Enable(i: nat)
      requires i < locks.Length && Accounted() && locks[i].handle <= 0
      modifies this`calls, this`acquired, locks
      ensures Accounted() && calls == old(calls) + 1
      ensures locks[..] == old(locks[..])[i := Lock(acq(old(calls)), old(locks[i].pid))]
    {
      hide HeldIn, Granted;
      GrantedNext(acq, calls);
      var hdl := acq(calls);
      calls := calls + 1;
      ghost var s := locks[..];
      HeldUpdate(s, i, s[i].(handle := hdl));
      Balance(acquired, HeldIn(s), released, HeldIn(s[i := s[i].(handle := hdl)]), multiset{}, One(hdl));
      acquired := acquired + One(hdl);
      locks[i] := locks[i].(handle := hdl);
      assert locks[..] == old(locks[..])[i := Lock(hdl, old(locks[i].pid))];
    }

    method NotePid(e: Event)
      requires Valid()
      modifies locks
      ensures Valid()
      ensures forall i :: 0 <= i < locks.Length ==>
                locks[i] == if cfgs[i].pack == e.pack then old(locks[i]).(pid := e.pid) else old(locks[i])
    {
      hide HeldIn;
      for i := 0 to |cfgs|
        invariant Accounted()
        invariant forall k :: 0 <= k < locks.Length ==>
                    locks[k] == if k < i && cfgs[k].pack == e.pack then old(locks[k]).(pid := e.pid) else old(locks[k])
      {
        if cfgs[i].pack == e.pack {
          ghost var s := locks[..];
          ghost var one, l := One(s[i].handle), s[i].(pid := e.pid);
          HeldUpdate(s, i, l);
          Balance(acquired, HeldIn(s), released, HeldIn(s[i := l]), one, one);
          locks[i] := locks[i].(pid := e.pid);
          assert locks[..] == s[i := locks[i]];
        }
      }
    }

    method DisableDead(pid: int)
      requires Valid()
      modifies this`released, locks
      ensures Valid()
      ensures forall k :: 0 <= k < locks.Length ==>
                locks[k] == if OfProcess(old(locks[k]), pid) then Off(old(locks[k])) else old(locks[k])
    {
      hide Accounted;
      for i := 0 to |cfgs|
        invariant Accounted()
        invariant forall k :: 0 <= k < i ==>
                    locks[k] == if OfProcess(old(locks[k]), pid) then Off(old(locks[k])) else old(locks[k])
        invariant forall k :: i <= k < locks.Length ==> locks[k] == old(locks[k])
      {
        if pid == locks[i].pid && pid != 0 {
          ghost var s := locks[..];
          Disable(i);
          assert locks[i] == locks[..][i] && forall k :: 0 <= k < locks.Length && k != i ==> locks[..][k] == s[k];
        }
      }
    }

    method Listed(i: int) returns (enabled: bool)
      ensures enabled == (i in chosen)
    {
      enabled := false;
      for j := 0 to |chosen|
        invariant enabled == (i in chosen[..j])
      {
        if i == chosen[j] {
          enabled := true;
        }
      }
      assert chosen[..|chosen|] == chosen;
    }

    method DisableUnselected()
      requires Valid()
      modifies this`released, locks, status
      ensures Valid()
      ensures forall k :: 0 <= k < locks.Length ==>
                && status[k] == (old(status[k]) && k in chosen)
                && locks[k] == if old(status[k]) && k !in chosen then Off(old(locks[k])) else old(locks[k])
    {
      hide Accounted;
      for i := 0 to |cfgs|
        invariant Valid()
        invariant forall k :: 0 <= k < i ==>
                    && status[k] == (old(status[k]) && k in chosen)
                    && locks[k] == if old(status[k]) && k !in chosen then Off(old(locks[k])) else old(locks[k])
        invariant forall k :: i <= k < locks.Length ==> status[k] == old(status[k]) && locks[k] == old(locks[k])
      {
        var enabled := Listed(i);
        if !enabled && status[i] {
          ghost var s := locks[..];
          Disable(i);
          assert locks[i] == locks[..][i];
          assert forall k :: 0 <= k < locks.Length && k != i ==> locks[k] == locks[..][k] == s[k];
          status[i] := false;
        }
      }
    }

    method EnableSelected()
      requires Valid()
      modifies this`calls, this`acquired, locks, status
      ensures Valid()
      ensures forall k :: 0 <= k < locks.Length ==> status[k] == (old(status[k]) || k in chosen)
      ensures var asks := Newly(old(status[..]), chosen);
              && calls == old(calls) + Asking(asks, |cfgs|)
              && Took(old(locks[..]), locks[..], asks, acq, old(calls), |cfgs|)
    {
      hide Accounted, Asking, Took;
      ghost var asks, before := Newly(status[..], chosen), locks[..];
      TookNone(before, asks, acq, calls);
      for i := 0 to |cfgs|
        invariant Valid() && calls == old(calls) + Asking(asks, i)
        invariant forall k :: 0 <= k < i ==> status[k] == (old(status[k]) || k in chosen)
        invariant forall k :: i <= k < locks.Length ==> status[k] == old(status[k])
        invariant Took(before, locks[..], asks, acq, old(calls), i)
      {
        TookStep(before, locks[..], asks, acq, old(calls), i);
        var enabled := Listed(i);
        if enabled && !status[i] {
          Enable(i);
          status[i] := true;
        }
      }
    }

    // ---------- the entry points ----------

    // After an event exactly the selected scenarios are active, and one that stays active
    // keeps the lock it has, unless the event was the death of its process.
    method NotifyAppState(e: Event)
      requires Valid()
      modifies this`count, this`multi, this`chosen, this`calls, this`acquired, this`released, info, locks, status
      ensures Valid()
      ensures List() == Edit(old(List()), e, fps, old(multi))
      ensures multi == (ForegroundCount(List()) > 1)
      ensures forall i :: 0 <= i < |cfgs| ==> (status[i] <==> Wanted(i))
      ensures forall i :: i in chosen <==> Wanted(i)
      ensures calls == old(calls) + Asking(Newly(old(status[..]), chosen), |cfgs|)
      ensures Settled(TouchedAll(old(locks[..]), cfgs, e), locks[..], old(status[..]), chosen, acq, old(calls))
      ensures old(Covered()) ==> (Covered() <==> AllGranted(acq, old(calls), calls) && !old(Orphans(e)))
    {
      hide Accounted, Selected, Edit, ForegroundCount, Asking, Settled, Covers, AllGranted, Newly, TouchedAll;
      HandleEvent(e);
      if old(Covered()) {
        EventCoversExact(old(locks[..]), cfgs, e, locks[..], old(status[..]), status[..], chosen, acq, old(calls));
      }
    }

    method HandleEvent(e: Event)
      requires Valid()
      modifies this`count, this`multi, this`chosen, this`calls, this`acquired, this`released, info, locks, status
      ensures Valid()
      ensures List() == Edit(old(List()), e, fps, old(multi))
      ensures multi == (ForegroundCount(List()) > 1)
      ensures forall i :: 0 <= i < |cfgs| ==> (status[i] <==> Wanted(i))
      ensures forall i :: i in chosen <==> Wanted(i)
      ensures calls == old(calls) + Asking(Newly(old(status[..]), chosen), |cfgs|)
      ensures Settled(TouchedAll(old(locks[..]), cfgs, e), locks[..], old(status[..]), chosen, acq, old(calls))
    {
      hide Accounted, Selected, Edit, ForegroundCount, Asking, Settled;
      if e.state == Resumed || e.state == FpsUpdated || e.state == MultiWindow {
        NotePid(e);
      }
      UpdateForeground(e);
      if e.state == Dead {
        DisableDead(e.pid);
      }
      assert locks[..] == TouchedAll(old(locks[..]), cfgs, e);
      MatchScenarios();
    }

    method UpdateForeground(e: Event)
      requires Sized()
      modifies this`count, this`multi, info
      ensures Sized() && List() == Edit(old(List()), e, fps, old(multi))
      ensures multi == (ForegroundCount(List()) > 1)
    {
      hide Edit, ForegroundCount;
      EditList(e);
      var foreground := GetForegroundAPPCount();
      if foreground > 1 && !multi {
        multi := true;
      } else if foreground <= 1 && multi {
        multi := false;
      }
    }

    method MatchScenarios()
      requires Valid()
      modifies this`chosen, this`calls, this`acquired, this`released, locks, status
      ensures Valid() && forall i :: 0 <= i < |cfgs| ==> (status[i] <==> Wanted(i))
      ensures forall i :: i in chosen <==> Wanted(i)
      ensures calls == old(calls) + Asking(Newly(old(status[..]), chosen), |cfgs|)
      ensures Settled(old(locks[..]), locks[..], old(status[..]), chosen, acq, old(calls))
    {
      hide Accounted, Selected, Asking;
      SelectScenarios();
      ghost var was := status[..];
      DisableUnselected();
      ghost var now := status[..];
      forall k | 0 <= k <= |cfgs| {
        SameAsking(Newly(was, chosen), Newly(now, chosen), k);
      }
      EnableSelected();
    }

    // A new configuration: every lock is given back first, then the selected scenarios of
    // the new one become active; a lock is taken only for a process that is resumed.
    method Reload(newCfgs: seq<Config>)
      requires Valid() && |newCfgs| <= STATUS_MAX
      modifies this`cfgs, this`locks, this`chosen, this`calls, this`acquired, this`released, locks, status
      ensures Valid() && cfgs == newCfgs && old(acquired) <= released && fresh(locks)
      ensures forall i :: 0 <= i < |cfgs| ==> (status[i] <==> Wanted(i))
      ensures var asks := Backed(status[..], List(), cfgs);
              && calls == old(calls) + Asking(asks, |cfgs|)
              && forall i :: 0 <= i < |cfgs| ==>
                   locks[i] == Lock(if asks[i] then acq(old(calls) + Asking(asks, i)) else 0, 0)
      ensures Covered() <==>
              && AllGranted(acq, old(calls), calls)
              && forall i :: 0 <= i < |cfgs| && Wanted(i) ==> PidOf(List(), cfgs[i].pack) > 0
    {
      hide Accounted, Selected, Asking, PidOf, Covers, AllGranted;
      LoadConfig(newCfgs);
      ReloadCoversExact(locks[..], status[..], Backed(status[..], List(), cfgs), acq, old(calls));
    }

    method LoadConfig(newCfgs: seq<Config>)
      requires Valid() && |newCfgs| <= STATUS_MAX
      modifies this`cfgs, this`locks, this`chosen, this`calls, this`acquired, this`released, locks, status
      ensures Valid() && cfgs == newCfgs && old(acquired) <= released && fresh(locks)
      ensures forall i :: 0 <= i < |cfgs| ==> (status[i] <==> Wanted(i))
      ensures var asks := Backed(status[..], List(), cfgs);
              && calls == old(calls) + Asking(asks, |cfgs|)
              && forall i :: 0 <= i < |cfgs| ==>
                   locks[i] == Lock(if asks[i] then acq(old(calls) + Asking(asks, i)) else 0, 0)
    {
      hide Accounted, Selected, Asking, PidOf;
      Replace(newCfgs);
      SelectScenarios();
      ghost var was := Backed(Newly(status[..], chosen), List(), cfgs);
      EnableResumed();
      ghost var asks := Backed(status[..], List(), cfgs);
      assert was == asks;
    }

    // Everything is given back before the old entries go.
    method Replace(newCfgs: seq<Config>)
      requires Valid() && |newCfgs| <= STATUS_MAX
      modifies this`cfgs, this`locks, this`released, locks, status
      ensures Valid() && cfgs == newCfgs && released == acquired && fresh(locks)
      ensures forall k :: 0 <= k < STATUS_MAX ==> !status[k]
      ensures forall k :: 0 <= k < locks.Length ==> locks[k] == Lock(0, 0)
    {
      hide HeldIn, Granted;
      DisableAll();
      HeldNothing(locks[..]);
      locks := new Lock[|newCfgs|](_ => Lock(0, 0));
      cfgs := newCfgs;
      HeldNothing(locks[..]);
    }

    method DisableAll()
      requires Valid()
      modifies this`released, locks, status
      ensures Valid()
      ensures forall k :: 0 <= k < STATUS_MAX ==> !status[k]
    {
      hide Accounted;
      for i := 0 to |cfgs|
        invariant Valid()
        invariant forall k :: 0 <= k < i ==> !status[k]
      {
        if status[i] {
          ghost var s := locks[..];
          Disable(i);
          assert locks[i] == locks[..][i];
          assert forall k :: 0 <= k < locks.Length && k != i ==> locks[k] == locks[..][k] == s[k];
          status[i] := false;
        }
      }
    }

    method ResumedPid(pack: string) returns (pid: int)
      requires Sized()
      ensures pid == PidOf(List(), pack)
    {
      ghost var list := List();
      assert list[0..] == list;
      for k := 0 to count
        invariant PidOf(list, pack) == PidOf(list[k..], pack)
      {
        assert list[k..][1..] == list[k + 1..];
        if info[k].pack == pack {
          return info[k].pid;
        }
      }
      return 0;
    }

    method EnableResumed()
      requires Valid()
      modifies this`calls, this`acquired, locks, status
      ensures Valid()
      ensures forall k :: 0 <= k < locks.Length ==> status[k] == (old(status[k]) || k in chosen)
      ensures var asks := Backed(Newly(old(status[..]), chosen), List(), cfgs);
              && calls == old(calls) + Asking(asks, |cfgs|)
              && Took(old(locks[..]), locks[..], asks, acq, old(calls), |cfgs|)
    {
      hide Accounted, Asking, Took, PidOf;
      ghost var asks, before := Backed(Newly(status[..], chosen), List(), cfgs), locks[..];
      TookNone(before, asks, acq, calls);
      for i := 0 to |cfgs|
        invariant Valid() && calls == old(calls) + Asking(asks, i)
        invariant forall k :: 0 <= k < i ==> status[k] == (old(status[k]) || k in chosen)
        invariant forall k :: i <= k < locks.Length ==> status[k] == old(status[k])
        invariant Took(before, locks[..], asks, acq, old(calls), i)
      {
        TookStep(before, locks[..], asks, acq, old(calls), i);
        var enabled := Listed(i);
        if enabled && !status[i] {
          ActivateResumed(i);
        }
      }
    }

    method ActivateResumed(i: nat)
      requires Valid() && i < |cfgs| && !status[i]
      modifies this`calls, this`acquired, locks, status
      ensures Valid() && status[..] == old(status[..])[i := true]
      ensures if PidOf(List(), cfgs[i].pack) > 0 then
                calls == old(calls) + 1 && locks[..] == old(locks[..])[i := old(locks[i]).(handle := acq(old(calls)))]
              else calls == old(calls) && locks[..] == old(locks[..])
    {
      hide Accounted, PidOf;
      var pid := ResumedPid(cfgs[i].pack);
      ghost var s := locks[..];
      if pid > 0 {
        Enable(i);
      }
      assert forall k :: 0 <= k < locks.Length && k != i ==> locks[k] == locks[..][k] == s[k];
      status[i] := true;
    }
  }

  // A configuration of one scenario is selected by any resumed activity it names.
  lemma {:induction false} LoneScenario(same: Pattern, cfg: Config, list: seq<Activity>, multi: bool, mode: string)
    requires cfg.mode == "" && cfg.anyFps && cfg.window == AnyWindow
    requires forall k :: 0 <= k < |list| ==> same(cfg.pack, list[k].pack) && same(cfg.act, list[k].act)
    ensures Selected(same, [cfg], list, multi, mode, 0) <==> list != []
  {
    if list != [] {
      var q := Query(list[0].pack, list[0].act, list[0].fps, multi, mode);
      assert InClass(same, cfg, q, Class(true, false, false));
      assert LastOf(same, [cfg], q, Class(true, false, false), 0);
    }
  }

  const SAME: Pattern := (pattern, name) => pattern == name
  const FROM_ONE: nat -> int := k => k + 1
  const APP := Config("com.a", "A", false, "", 0, true, AnyWindow)

  function AppEvent(pid: int, activityId: int, state: State): Event {
    Event("com.a", "A", pid, activityId, 0, state)
  }

  lemma {:induction false} TwoProcesses(fps: int, m: bool, m': bool, m'': bool)
    ensures var one := Edit([], AppEvent(10, 1, Resumed), fps, m);
            var two := Edit(one, AppEvent(20, 2, Resumed), fps, m');
            var left := Edit(two, AppEvent(20, 2, Dead), fps, m'');
            && one == left == [Activity("com.a", "A", 1, 10, 0, fps, m)]
            && two == one + [Activity("com.a", "A", 2, 20, 0, fps, m')]
  {
    var a, b := Activity("com.a", "A", 1, 10, 0, fps, m), Activity("com.a", "A", 2, 20, 0, fps, m');
    assert !Known([], AppEvent(10, 1, Resumed)) && !Known([a], AppEvent(20, 2, Resumed));
    assert [] + [a] == [a] && [a, b][1..] == [b] && [b][1..] == [];
    assert Bury([a, b], 20) == [a];
  }

  // One event when the only scenario is already in the given state.
  method OneEvent(svc: Service, e: Event, ghost list: seq<Activity>)
    requires svc.Valid() && svc.cfgs == [APP] && svc.same == SAME && svc.acq == FROM_ONE
    requires list == Edit(svc.List(), e, svc.fps, svc.multi) && list != []
    requires forall k :: 0 <= k < |list| ==> list[k].pack == "com.a" && list[k].act == "A"
    modifies svc`count, svc`multi, svc`chosen, svc`calls, svc`acquired, svc`released, svc.info, svc.locks, svc.status
    ensures svc.Valid() && svc.List() == list && svc.status[0] && svc.Wanted(0)
    ensures svc.calls == old(svc.calls) + if old(svc.status[0]) then 0 else 1
    ensures svc.locks[0] == var l := Touched(old(svc.locks[0]), APP, e);
                            if old(svc.status[0]) then l else l.(handle := FROM_ONE(old(svc.calls)))
  {
    hide Edit, ForegroundCount, Selected, HeldIn, Granted;
    ghost var was := svc.status[..];
    svc.NotifyAppState(e);
    LoneScenario(SAME, APP, list, svc.multi, svc.mode);
    AskingNext(Newly(was, svc.chosen), 0);
  }

  method OneScenario() returns (svc: Service)
    ensures fresh(svc) && fresh(svc.info) && fresh(svc.locks) && fresh(svc.status)
    ensures svc.Valid() && svc.cfgs == [APP] && svc.same == SAME && svc.acq == FROM_ONE
    ensures svc.List() == [] && svc.fps == -1 && svc.calls == 0 && !svc.status[0] && svc.locks[0] == Lock(0, 0)
  {
    hide Selected, HeldIn, Granted, Asking;
    svc := new Service(SAME, FROM_ONE);
    svc.Reload([APP]);
    LoneScenario(SAME, APP, [], svc.multi, svc.mode);
    AskingNext(Backed(svc.status[..], [], [APP]), 0);
  }

  lemma {:induction false} AllGivenBack(svc: Service)
    requires svc.Valid() && svc.acq == FROM_ONE && svc.calls == 1
    requires svc.locks.Length == 1 && svc.locks[0].handle <= 0
    ensures svc.released == multiset{1}
  {
    HeldNothing(svc.locks[..]);
    GrantedNext(FROM_ONE, 0);
    assert Granted(FROM_ONE, 0) == multiset{} && One(FROM_ONE(0)) == multiset{1};
    assert svc.acquired == multiset{1};
  }

  // A run in which a death leaves a scenario active without a lock: two activities of one
  // package in two processes are resumed, and the process resumed last dies.
  method DeathLeavesNoLock() returns (svc: Service)
    ensures fresh(svc) && svc.Valid() && svc.cfgs == [APP]
    ensures svc.status[0] && svc.Wanted(0) && svc.locks[0] == Lock(0, 0) && svc.released == multiset{1}
  {
    hide Edit, Selected, HeldIn, Granted, One, Service.Accounted, LastOf, InClass;
    svc := OneScenario();
    ghost var m := svc.multi;
    TwoProcesses(-1, m, m, m);
    OneEvent(svc, AppEvent(10, 1, Resumed), Edit([], AppEvent(10, 1, Resumed), -1, m));
    ghost var one, m' := svc.List(), svc.multi;
    TwoProcesses(-1, m, m', m');
    OneEvent(svc, AppEvent(20, 2, Resumed), Edit(one, AppEvent(20, 2, Resumed), -1, m'));
    TwoProcesses(-1, m, m', svc.multi);
    OneEvent(svc, AppEvent(20, 2, Dead), one);
    AllGivenBack(svc);
  }

  // A pattern that fits every name.
  const WITH_STAR: Pattern := (pattern, name) => pattern == "*" || pattern == name
  const ANY_APP := Config("*", "A", false, "", 0, true, AnyWindow)

  // One resumed activity when a configuration by pattern is loaded.
  method LoadedByPattern() returns (svc: Service, ghost m: bool)
    ensures fresh(svc) && fresh(svc.info) && fresh(svc.locks) && fresh(svc.status)
    ensures svc.Valid() && svc.cfgs == [ANY_APP] && svc.same == WITH_STAR && svc.fps == -1
    ensures svc.List() == [Activity("com.a", "A", 1, 10, 0, -1, m)]
    ensures svc.status[0] && svc.locks[0] == Lock(0, 0) && svc.calls == 0
  {
    hide Edit, Selected, HeldIn, Granted, One, Service.Accounted, LastOf, InClass, ForegroundCount, Settled, Covers;
    svc := new Service(WITH_STAR, FROM_ONE);
    m := svc.multi;
    ghost var one := [Activity("com.a", "A", 1, 10, 0, -1, m)];
    TwoProcesses(-1, m, m, m);
    svc.HandleEvent(AppEvent(10, 1, Resumed));
    assert svc.List() == one;
    svc.LoadConfig([ANY_APP]);
    LoneScenario(WITH_STAR, ANY_APP, one, svc.multi, svc.mode);
    NotByName(one);
    AskingNext(Backed(svc.status[..], one, [ANY_APP]), 0);
  }

  // A run in which a reload leaves a scenario active without a lock, and no later event of the
  // package takes one: its package is configured by a pattern, and the process is looked up by name.
  method WildcardNeverLocked() returns (svc: Service)
    ensures fresh(svc) && svc.Valid() && svc.cfgs == [ANY_APP]
    ensures svc.status[0] && svc.Wanted(0) && svc.locks[0] == Lock(0, 0) && svc.calls == 0
  {
    hide Edit, Selected, HeldIn, Granted, One, Service.Accounted, LastOf, InClass, ForegroundCount, Covers;
    ghost var m;
    svc, m := LoadedByPattern();
    ghost var was, again := svc.status[..], Edit(svc.List(), AppEvent(10, 1, FpsUpdated), -1, svc.multi);
    SeenAgain(m, svc.multi);
    svc.NotifyAppState(AppEvent(10, 1, FpsUpdated));
    LoneScenario(WITH_STAR, ANY_APP, again, svc.multi, svc.mode);
    AskingNext(Newly(was, svc.chosen), 0);
  }

  lemma {:induction false} NotByName(list: seq<Activity>)
    requires forall k :: 0 <= k < |list| ==> list[k].pack == "com.a"
    ensures PidOf(list, "*") == 0
  {
    if list != [] {
      NotByName(list[1..]);
    }
  }

  lemma {:induction false} SeenAgain(m: bool, m': bool)
    ensures Edit([Activity("com.a", "A", 1, 10, 0, -1, m)], AppEvent(10, 1, FpsUpdated), -1, m')
            == [Activity("com.a", "A", 1, 10, 0, -1, m')]
  {
    var list := [Activity("com.a", "A", 1, 10, 0, -1, m)];
    assert Names(list[0], AppEvent(10, 1, FpsUpdated));
  }

  lemma {:induction false} BuryAt(list: seq<Activity>, i: nat, pid: int)
    requires i < |list|
    ensures Bury(list[i..], pid) == (if list[i].pid == pid then [] else [list[i]]) + Bury(list[i + 1..], pid)
  {
    assert list[i..][1..] == list[i + 1..] && list[i] == list[i..][0];
  }

  lemma {:induction false} BuryShort(list: seq<Activity>, pid: int)
    ensures list == [] || (|list| == 1 && list[0].pid == pid) ==> Bury(list, pid) == []
  {
    if |list| == 1 {
      assert list[1..] == [] && Bury(list[1..], pid) == [];
    }
  }

  lemma {:induction false} GapClosed<T>(s: seq<T>, t: seq<T>, i: nat)
    requires i < |s| && t == s[..i] + s[i + 1..]
    ensures t[..i] == s[..i] && t[i..] == s[i + 1..]
  {
  }

  lemma {:induction false} Appended<T>(s: seq<T>, i: nat, t: seq<T>)
    requires i < |s|
    ensures s[..i] + ([s[i]] + t) == s[..i + 1] + t && s[..i] + ([] + t) == s[..i] + t
  {
  }
}
