/** Expiry times and how long to wait for them, in the wrapping arithmetic of `unsigned long`,
    and the order the timer list is kept in. */
module TimerClock {
  import opened Bounds
  import opened OrderedInsert

  const ULONG: nat := 0x1_0000_0000_0000_0000

  // A reading of the wall clock.
  datatype Wall = Wall(sec: nat, nsec: nat)

  datatype Expiry = Expiry(sec: nat, usec: nat)

  predicate Clock(now: Wall) {
    now.sec < ULONG && now.nsec < 1_000_000_000
  }

  predicate Normal(e: Expiry) {
    e.sec < ULONG && e.usec < 1_000_000
  }

  function Nanos(now: Wall): nat {
    now.sec * 1_000_000_000 + now.nsec
  }

  function Micros(now: Wall): nat {
    now.sec * 1_000_000 + now.nsec / 1000
  }

  function ExpiryMicros(e: Expiry): nat {
    e.sec * 1_000_000 + e.usec
  }

  // ---------- starting ----------

  function ExpiryAt(now: Wall, ms: nat): Expiry {
    var sec := (now.sec + ms / 1000) % ULONG;
    var usec := now.nsec / 1000 + ms % 1000 * 1000;
    if usec / 1_000_000 >= 1 then Expiry((sec + 1) % ULONG, usec % 1_000_000) else Expiry(sec, usec)
  }

  // The expiry is `ms` after now to the microsecond, in normal form, whatever fits the counter.
  lemma {:induction false} ExpiryExact(now: Wall, ms: nat)
    requires Clock(now) && ms < ULONG
    ensures Normal(ExpiryAt(now, ms))
    ensures ExpiryMicros(ExpiryAt(now, ms)) == Micros(now) + 1000 * ms
            <==> Micros(now) + 1000 * ms < ULONG * 1_000_000
  {
    var us := now.nsec / 1000 + ms % 1000 * 1000;
    var carry := if us >= 1_000_000 then 1 else 0;
    var sec := now.sec + ms / 1000 + carry;
    Split(ms);
    Carried(us);
    WrapSucc(now.sec + ms / 1000);
    assert ExpiryAt(now, ms) == Expiry(sec % ULONG, us - carry * 1_000_000);
    assert Micros(now) + 1000 * ms == sec * 1_000_000 + (us - carry * 1_000_000);
  }

  lemma {:induction false} Split(ms: nat)
    ensures ms == ms / 1000 * 1000 + ms % 1000 && ms % 1000 < 1000
  {
  }

  lemma {:induction false} Carried(us: nat)
    requires us < 2_000_000
    ensures us / 1_000_000 >= 1 <==> us >= 1_000_000
    ensures us >= 1_000_000 ==> us % 1_000_000 == us - 1_000_000
  {
  }

  lemma {:induction false} WrapSucc(x: nat)
    requires x < 2 * ULONG
    ensures (x % ULONG + 1) % ULONG == (x + 1) % ULONG
  {
  }

  // ---------- waiting ----------

  predicate Passed(e: Expiry, now: Wall) {
    now.sec > e.sec || (now.sec == e.sec && now.nsec / 1000 > e.usec)
  }

  function Wrap(x: int): nat {
    x % ULONG
  }

  // Milliseconds until the expiry, each step wrapping.
  function Duration(e: Expiry, now: Wall): nat {
    if Passed(e, now) then 0
    else Wrap(Wrap(Wrap(e.sec - now.sec) * 1000) + Wrap(e.usec / 1000 - now.nsec / 1_000_000))
  }

  function ExpiryMillis(e: Expiry): nat {
    e.sec * 1000 + e.usec / 1000
  }

  function Millis(now: Wall): nat {
    now.sec * 1000 + now.nsec / 1_000_000
  }

  lemma {:induction false} WrapSum(x: int, y: int)
    ensures Wrap(Wrap(x) + Wrap(y)) == Wrap(x + y)
  {
    var a, b := x / ULONG, y / ULONG;
    assert x == a * ULONG + Wrap(x) && y == b * ULONG + Wrap(y);
    WrapShift(Wrap(x) + Wrap(y), a + b);
  }

  lemma {:induction false} WrapShift(x: int, k: int)
    ensures Wrap(x + k * ULONG) == Wrap(x)
    decreases if k < 0 then -k else k
  {
    if k > 0 {
      WrapShift(x, k - 1);
      WrapOnce(x + (k - 1) * ULONG);
    } else if k < 0 {
      WrapShift(x, k + 1);
      WrapOnce(x + k * ULONG);
    }
  }

  lemma WrapOnce(x: int)
    ensures Wrap(x + ULONG) == Wrap(x)
  {
  }

  // The difference of the millisecond parts may wrap below zero; the sum never shows it: the
  // result is the true distance in whole milliseconds whenever that is a representable number.
  lemma {:induction false} DurationExact(e: Expiry, now: Wall)
    requires Clock(now) && Normal(e) && !Passed(e, now)
    ensures ExpiryMillis(e) >= Millis(now)
    ensures Duration(e, now) == ExpiryMillis(e) - Millis(now) <==> ExpiryMillis(e) - Millis(now) < ULONG
  {
    var ds, dm := e.sec - now.sec, e.usec / 1000 - now.nsec / 1_000_000;
    assert Wrap(ds) == ds;
    WrapSum(ds * 1000, dm);
    assert ds * 1000 + dm == ExpiryMillis(e) - Millis(now);
    assert Duration(e, now) == Wrap(ds * 1000 + dm);
  }

  // The wait in full: the distance in whole milliseconds, and none once the time has passed.
  lemma {:induction false} DurationIs(e: Expiry, now: Wall)
    requires Clock(now) && Normal(e)
    ensures Duration(e, now) == Max(0, ExpiryMillis(e) - Millis(now)) <==> ExpiryMillis(e) - Millis(now) < ULONG
    ensures ExpiryMicros(e) < Micros(now) ==> Duration(e, now) == 0
  {
    if Passed(e, now) {
      assert ExpiryMillis(e) <= Millis(now);
    } else {
      DurationExact(e, now);
    }
  }

  // ---------- expiring ----------

  predicate Due(e: Expiry, now: Wall) {
    || now.sec > e.sec
    || (now.sec == e.sec && (now.nsec / 1000 > e.usec || Wrap(e.usec - now.nsec / 1000) < 1000))
  }

  // Never a millisecond early, and never held back once the time has come.
  lemma {:induction false} DueWindow(e: Expiry, now: Wall)
    requires Clock(now) && Normal(e)
    ensures Due(e, now) ==> ExpiryMicros(e) < Micros(now) + 1000
    ensures ExpiryMicros(e) <= Micros(now) ==> Due(e, now)
    ensures Due(e, now) <==> ExpiryMicros(e) < Micros(now) + (if now.sec == e.sec then 1000 else 1)
  {
  }

  // Sleeping at least the returned duration is enough, second boundaries included.
  lemma {:induction false} WaitedIsDue(e: Expiry, now: Wall, later: Wall)
    requires Clock(now) && Clock(later) && Normal(e)
    requires ExpiryMillis(e) - Millis(now) < ULONG
    requires Nanos(later) >= Nanos(now) + Duration(e, now) * 1_000_000
    ensures Due(e, later)
  {
    hide Passed, Due, Duration, Nanos, Millis, ExpiryMillis;
    if Passed(e, now) {
      PassedStays(e, now, later);
    } else {
      DurationExact(e, now);
      MillisAfter(now, later, Duration(e, now));
    }
    DueByMillis(e, later);
  }

  lemma {:induction false} DueByMillis(e: Expiry, now: Wall)
    requires Clock(now) && Normal(e)
    ensures Passed(e, now) || Millis(now) >= ExpiryMillis(e) ==> Due(e, now)
  {
  }

  lemma {:induction false} PassedStays(e: Expiry, now: Wall, later: Wall)
    requires Clock(now) && Clock(later) && Normal(e) && Passed(e, now) && Nanos(later) >= Nanos(now)
    ensures Passed(e, later)
  {
  }

  lemma {:induction false} MillisAfter(now: Wall, later: Wall, d: nat)
    requires Clock(now) && Clock(later) && Nanos(later) >= Nanos(now) + d * 1_000_000
    ensures Millis(later) >= Millis(now) + d
  {
    assert Nanos(now) == Millis(now) * 1_000_000 + now.nsec % 1_000_000;
    assert Nanos(later) == Millis(later) * 1_000_000 + later.nsec % 1_000_000;
  }

  // ---------- the order of the list ----------

  datatype Timer = Timer(armed: bool, slot: nat, expire: Expiry)

  // Within one second "strictly earlier" is reported as "equal".
  function Compare(target: Timer, exist: Timer): int {
    if target.expire.sec > exist.expire.sec then -1
    else if target.expire.sec < exist.expire.sec then 1
    else if target.expire.usec > exist.expire.usec then -1
    else 0
  }

  predicate SecondsLe(a: Timer, b: Timer) {
    a.expire.sec <= b.expire.sec
  }

  predicate ExpiryLe(a: Timer, b: Timer) {
    ExpiryMicros(a.expire) <= ExpiryMicros(b.expire)
  }

  lemma {:induction false} TimerInsertKeepsSeconds(timers: seq<Timer>, t: Timer)
    requires Sorted(SecondsLe, timers)
    ensures Sorted(SecondsLe, InsertAt(timers, InsertPos(Compare, timers, t), t))
  {
    InsertKeepsSorted(Compare, SecondsLe, timers, t);
  }

  // The finer order is not kept: a timer can land behind later ones of its second.
  lemma {:induction false} FinerOrderIsLost()
    ensures exists timers: seq<Timer>, t: Timer ::
              && Sorted(ExpiryLe, timers)
              && !Sorted(ExpiryLe, InsertAt(timers, InsertPos(Compare, timers, t), t))
  {
    var at := (us: nat) => Timer(true, 0, Expiry(0, us));
    var timers, t := [at(10), at(20), at(30), at(40), at(50)], at(15);
    var keys := InsertAt(timers, InsertPos(Compare, timers, t), t);
    assert SearchPos(Compare, timers, t, 0, 4) == 2;
    assert !ExpiryLe(keys[1], keys[2]);
  }

  // How many timers at the front are strictly earlier than t, how many are not later, and how
  // many expire in its second or before: what a list in order is to t.
  function Earlier(timers: seq<Timer>, t: Timer): (n: nat)
    ensures n <= |timers|
  {
    if timers == [] || ExpiryLe(t, timers[0]) then 0 else 1 + Earlier(timers[1..], t)
  }

  function NotLater(timers: seq<Timer>, t: Timer): (n: nat)
    ensures n <= |timers|
  {
    if timers == [] || !ExpiryLe(timers[0], t) then 0 else 1 + NotLater(timers[1..], t)
  }

  function BySecond(timers: seq<Timer>, t: Timer): (n: nat)
    ensures n <= |timers|
  {
    if timers == [] || !SecondsLe(timers[0], t) then 0 else 1 + BySecond(timers[1..], t)
  }

  // Where the bisection of a list of n timers stops, in numbers alone: q are earlier, r expire in
  // the second or before.
  function BisectIn(lo: nat, hi: nat, q: nat, r: nat): (p: nat)
    requires lo < q <= hi
    ensures q <= p <= hi
    decreases hi - lo
  {
    var mid := (lo + 1 + hi) / 2;
    if q <= mid < r then mid
    else if mid < q then
      if mid + 1 == hi then mid + 1 else BisectIn(mid, hi, q, r)
    else
      if mid - 1 == lo then mid else BisectIn(lo, mid, q, r)
  }

  function Bisect(n: nat, q: nat, r: nat): (p: nat)
    requires q <= n
    ensures q <= p <= n
  {
    if n == 0 || q == 0 then 0 else if n == 1 || q == n then n else BisectIn(0, n - 1, q, r)
  }

  predicate AllNormal(timers: seq<Timer>) {
    forall i :: 0 <= i < |timers| ==> Normal(timers[i].expire)
  }

  lemma {:induction false} OrderCounts(timers: seq<Timer>, t: Timer, m: nat)
    requires Sorted(ExpiryLe, timers) && AllNormal(timers) && Normal(t.expire) && m < |timers|
    ensures m < Earlier(timers, t) <==> ExpiryMicros(timers[m].expire) < ExpiryMicros(t.expire)
    ensures m < NotLater(timers, t) <==> ExpiryLe(timers[m], t)
    ensures m < BySecond(timers, t) <==> SecondsLe(timers[m], t)
    decreases |timers|
  {
    var rest := timers[1..];
    if m > 0 {
      assert rest[m - 1] == timers[m] && ExpiryLe(timers[0], timers[m]);
      assert AllNormal(rest);
      OrderCounts(rest, t, m - 1);
    }
  }

  // The comparator's verdicts are read off the counts.
  lemma {:induction false} CompareCounts(timers: seq<Timer>, t: Timer, m: nat)
    requires Sorted(ExpiryLe, timers) && AllNormal(timers) && Normal(t.expire) && m < |timers|
    ensures var c, q, r := Compare(t, timers[m]), Earlier(timers, t), BySecond(timers, t);
            (c < 0 <==> m < q) && (c == 0 <==> q <= m < r) && (c > 0 <==> q <= m && r <= m)
  {
    OrderCounts(timers, t, m);
  }

  lemma {:induction false} SearchIsBisect(timers: seq<Timer>, t: Timer, lo: nat, hi: nat)
    requires Sorted(ExpiryLe, timers) && AllNormal(timers) && Normal(t.expire)
    requires lo < hi < |timers| && Compare(t, timers[lo]) < 0 && Compare(t, timers[hi]) >= 0
    ensures lo < Earlier(timers, t) <= hi
    ensures SearchPos(Compare, timers, t, lo, hi) == BisectIn(lo, hi, Earlier(timers, t), BySecond(timers, t))
    decreases hi - lo
  {
    hide Sorted, Compare, Earlier, BySecond;
    CompareCounts(timers, t, lo);
    CompareCounts(timers, t, hi);
    SearchRound(Compare, timers, t, lo, hi);
    var mid := (lo + 1 + hi) / 2;
    CompareCounts(timers, t, mid);
    var c := Compare(t, timers[mid]);
    if c < 0 && mid + 1 != hi {
      SearchIsBisect(timers, t, mid, hi);
    } else if c > 0 && mid - 1 != lo {
      SearchIsBisect(timers, t, lo, mid);
    }
  }

  lemma {:induction false} InsertIsBisect(timers: seq<Timer>, t: Timer)
    requires Sorted(ExpiryLe, timers) && AllNormal(timers) && Normal(t.expire)
    ensures InsertPos(Compare, timers, t) == Bisect(|timers|, Earlier(timers, t), BySecond(timers, t))
  {
    hide Sorted, Compare, SearchPos, BisectIn, Earlier, BySecond;
    InsertPosCases(Compare, timers, t);
    var n := |timers|;
    if n > 0 {
      CompareCounts(timers, t, 0);
      CompareCounts(timers, t, n - 1);
      if n > 1 && Compare(t, timers[0]) < 0 && Compare(t, timers[n - 1]) >= 0 {
        SearchIsBisect(timers, t, 0, n - 1);
      }
    }
  }

  // Whether the finer order survives a start can be told beforehand from four counts: it does
  // if and only if the bisection, which only they decide, stops no later than the timers that
  // are not later than the new one.
  lemma {:induction false} FinerOrderExact(timers: seq<Timer>, t: Timer)
    requires Sorted(ExpiryLe, timers) && AllNormal(timers) && Normal(t.expire)
    ensures Sorted(ExpiryLe, InsertAt(timers, InsertPos(Compare, timers, t), t)) <==>
            Bisect(|timers|, Earlier(timers, t), BySecond(timers, t)) <= NotLater(timers, t)
  {
    hide Earlier, BySecond, NotLater, BisectIn;
    InsertIsBisect(timers, t);
    var p := InsertPos(Compare, timers, t);
    if p < |timers| {
      OrderCounts(timers, t, p);
    }
    if p > 0 {
      OrderCounts(timers, t, p - 1);
      var r := InsertAt(timers, p, t);
      assert r[p - 1] == timers[p - 1] && r[p] == t;
    }
    if p == 0 || ExpiryLe(timers[p - 1], t) {
      SortedAround(ExpiryLe, timers, p, t);
    }
  }

  // What the weaker order is worth: the head is less than a second behind the earliest timer.
  lemma {:induction false} HeadWithinASecond(timers: seq<Timer>, i: nat)
    requires Sorted(SecondsLe, timers) && i < |timers|
    requires forall x :: x in timers ==> Normal(x.expire)
    ensures ExpiryMicros(timers[0].expire) < ExpiryMicros(timers[i].expire) + 1_000_000
  {
    assert timers[0] in timers && timers[i] in timers;
    assert i > 0 ==> SecondsLe(timers[0], timers[i]);
  }

  // A start makes the new timer the head if it is not later than the old one.
  lemma {:induction false} HeadAfterInsert(timers: seq<Timer>, t: Timer)
    requires Normal(t.expire) && forall x :: x in timers ==> Normal(x.expire)
    ensures var r := InsertAt(timers, InsertPos(Compare, timers, t), t);
            r[0] == if timers == [] || ExpiryLe(t, timers[0]) then t else timers[0]
  {
    if timers != [] {
      assert timers[0] in timers;
      assert Compare(t, timers[0]) >= 0 <==> ExpiryLe(t, timers[0]);
      InsertPosCases(Compare, timers, t);
    }
  }
}
