/** What app-state events do to the list of resumed activities, and which configured
    scenarios that list selects. */
module AppListSpec {

  const MULTI_WIN_SIZE_MAX: nat := 30
  const NAME_MAX: nat := 128

  datatype Activity = Activity(pack: string, act: string, activityId: int, pid: int, uid: int, fps: int, multi: bool)

  datatype State = Paused | Resumed | Dead | FpsUpdated | ModeUpdated | MultiWindow

  datatype Event = Event(pack: string, act: string, pid: int, activityId: int, uid: int, state: State)

  // ---------- the list of resumed activities ----------

  predicate SameKey(a: Activity, b: Activity) {
    a.pack == b.pack && a.act == b.act && a.activityId == b.activityId
  }

  predicate Names(a: Activity, e: Event) {
    a.pack == e.pack && a.act == e.act && a.activityId == e.activityId
  }

  predicate Known(list: seq<Activity>, e: Event) {
    exists i :: 0 <= i < |list| && Names(list[i], e)
  }

  // A name is stored cut to its buffer.
  function Stored(s: string): string {
    if |s| < NAME_MAX then s else s[..NAME_MAX - 1]
  }

  function Entry(e: Event, fps: int, multi: bool): Activity {
    Activity(Stored(e.pack), Stored(e.act), e.activityId, e.pid, e.uid, fps, multi)
  }

  function Refresh(a: Activity, e: Event, fps: int, multi: bool): Activity {
    if Names(a, e) then a.(fps := fps, multi := multi) else a
  }

  function Resume(list: seq<Activity>, e: Event, fps: int, multi: bool): seq<Activity> {
    if Known(list, e) then seq(|list|, i requires 0 <= i < |list| => Refresh(list[i], e, fps, multi))
    else if |list| < MULTI_WIN_SIZE_MAX then list + [Entry(e, fps, multi)]
    else list
  }

  // Paused: the first entry of that name and process goes.
  function Pause(list: seq<Activity>, e: Event): (r: seq<Activity>)
    ensures |list| - 1 <= |r| <= |list|
  {
    if list == [] then []
    else if Names(list[0], e) && list[0].pid == e.pid then list[1..]
    else [list[0]] + Pause(list[1..], e)
  }

  // Dead: every entry of the process goes.
  function Bury(list: seq<Activity>, pid: int): (r: seq<Activity>)
    ensures |r| <= |list| && forall a :: a in r <==> a in list && a.pid != pid
  {
    if list == [] then []
    else (if list[0].pid == pid then [] else [list[0]]) + Bury(list[1..], pid)
  }

  function Edit(list: seq<Activity>, e: Event, fps: int, multi: bool): seq<Activity> {
    match e.state
    case Resumed => Resume(list, e, fps, multi)
    case FpsUpdated => Resume(list, e, fps, multi)
    case MultiWindow => Resume(list, e, fps, multi)
    case Paused => Pause(list, e)
    case Dead => Bury(list, e.pid)
    case ModeUpdated => list
  }

  predicate DistinctKeys(list: seq<Activity>) {
    forall i, j :: 0 <= i < j < |list| ==> !SameKey(list[i], list[j])
  }

  predicate Fits(e: Event) {
    |e.pack| < NAME_MAX && |e.act| < NAME_MAX
  }

  // A new entry clashes exactly when cutting its name makes it one already there.
  lemma {:induction false} ResumeDistinctExact(list: seq<Activity>, e: Event, fps: int, multi: bool)
    requires DistinctKeys(list)
    ensures DistinctKeys(Resume(list, e, fps, multi)) <==>
            Known(list, e) || |list| >= MULTI_WIN_SIZE_MAX
            || !Known(list, e.(pack := Stored(e.pack), act := Stored(e.act)))
  {
    var r := Resume(list, e, fps, multi);
    if Known(list, e) {
      assert forall i, j :: 0 <= i < j < |list| ==> SameKey(r[i], r[j]) == SameKey(list[i], list[j]);
    } else if |list| < MULTI_WIN_SIZE_MAX {
      var n := Entry(e, fps, multi);
      assert r == list + [n];
      var stored := e.(pack := Stored(e.pack), act := Stored(e.act));
      assert forall i :: 0 <= i < |list| ==> r[i] == list[i] && (SameKey(list[i], n) <==> Names(list[i], stored));
      assert r[|list|] == n;
    }
  }

  lemma {:induction false} ResumeKeepsDistinct(list: seq<Activity>, e: Event, fps: int, multi: bool)
    requires DistinctKeys(list) && Fits(e)
    ensures DistinctKeys(Resume(list, e, fps, multi))
  {
    ResumeDistinctExact(list, e, fps, multi);
  }

  // A name too long for its buffer is never recognised again.
  lemma {:induction false} LongNameListedTwice(list: seq<Activity>, e: Event, fps: int, multi: bool)
    requires !Fits(e) && |list| + 2 <= MULTI_WIN_SIZE_MAX
    requires forall a :: a in list ==> |a.pack| < NAME_MAX && |a.act| < NAME_MAX
    ensures var n := Entry(e, fps, multi);
            Resume(Resume(list, e, fps, multi), e, fps, multi) == list + [n] + [n]
  {
    var n := Entry(e, fps, multi);
    assert forall i :: 0 <= i < |list| ==> list[i] in list;
    assert !Known(list, e);
    assert !Known(list + [n], e);
  }

  lemma {:induction false} DistinctCons(a: Activity, r: seq<Activity>)
    ensures DistinctKeys([a] + r) <==> DistinctKeys(r) && forall x :: x in r ==> !SameKey(a, x)
  {
    var s := [a] + r;
    assert forall i :: 0 <= i < |r| ==> s[i + 1] == r[i] && r[i] in r;
    assert s[0] == a;
    if DistinctKeys(s) {
      forall i, j | 0 <= i < j < |r| ensures !SameKey(r[i], r[j]) {
        assert !SameKey(s[i + 1], s[j + 1]);
      }
    }
  }

  lemma {:induction false} PauseMembers(list: seq<Activity>, e: Event)
    requires DistinctKeys(list)
    ensures DistinctKeys(Pause(list, e))
    ensures forall a :: a in Pause(list, e) <==> a in list && !(Names(a, e) && a.pid == e.pid)
  {
    hide DistinctKeys;
    if list != [] {
      var rest := list[1..];
      assert list == [list[0]] + rest;
      DistinctCons(list[0], rest);
      if !(Names(list[0], e) && list[0].pid == e.pid) {
        PauseMembers(rest, e);
        DistinctCons(list[0], Pause(rest, e));
      }
    }
  }

  lemma {:induction false} BuryKeepsDistinct(list: seq<Activity>, pid: int)
    requires DistinctKeys(list)
    ensures DistinctKeys(Bury(list, pid))
  {
    hide DistinctKeys;
    if list != [] {
      var rest := list[1..];
      assert list == [list[0]] + rest;
      DistinctCons(list[0], rest);
      BuryKeepsDistinct(rest, pid);
      DistinctCons(list[0], Bury(rest, pid));
      assert [] + Bury(rest, pid) == Bury(rest, pid);
    }
  }

  predicate Ahead(s: seq<Activity>, x: Activity, y: Activity) {
    exists p, q :: 0 <= p < q < |s| && s[p] == x && s[q] == y
  }

  // Entries of r stand in s in the same order.
  predicate InOrderOf(r: seq<Activity>, s: seq<Activity>) {
    forall i, j :: 0 <= i < j < |r| ==> Ahead(s, r[i], r[j])
  }

  lemma {:induction false} AheadBehind(s: seq<Activity>, a: Activity, x: Activity, y: Activity)
    ensures Ahead(s, x, y) ==> Ahead([a] + s, x, y)
    ensures y in s ==> Ahead([a] + s, a, y)
  {
    var u := [a] + s;
    if p, q :| 0 <= p < q < |s| && s[p] == x && s[q] == y {
      assert u[p + 1] == x && u[q + 1] == y;
    }
    if q :| 0 <= q < |s| && s[q] == y {
      assert u[0] == a && u[q + 1] == y;
    }
  }

  lemma {:induction false} OrderCons(r: seq<Activity>, s: seq<Activity>, a: Activity)
    requires InOrderOf(r, s) && forall x :: x in r ==> x in s
    ensures InOrderOf(r, [a] + s) && InOrderOf([a] + r, [a] + s)
  {
    hide Ahead;
    forall x, y {
      AheadBehind(s, a, x, y);
    }
    var t := [a] + r;
    assert t[0] == a && forall i :: 0 < i < |t| ==> t[i] == r[i - 1] && r[i - 1] in r;
  }

  lemma {:induction false} BuryInOrder(list: seq<Activity>, pid: int)
    ensures InOrderOf(Bury(list, pid), list)
  {
    hide InOrderOf;
    if list == [] {
      NothingInOrder();
    } else {
      BuryInOrder(list[1..], pid);
      OrderCons(Bury(list[1..], pid), list[1..], list[0]);
      assert list == [list[0]] + list[1..] && [] + Bury(list[1..], pid) == Bury(list[1..], pid);
    }
  }

  lemma {:induction false} NothingInOrder()
    ensures InOrderOf([], [])
  {
  }

  lemma {:induction false} BuryCounts(list: seq<Activity>, pid: int, a: Activity)
    requires a.pid != pid
    ensures multiset(Bury(list, pid))[a] == multiset(list)[a]
  {
    if list != [] {
      BuryCounts(list[1..], pid, a);
      assert list == [list[0]] + list[1..];
    }
  }

  // Pausing takes away exactly the named entry of the process.
  lemma {:induction false} PausedMeans(list: seq<Activity>, e: Event, fps: int, multi: bool)
    requires DistinctKeys(list) && e.state.Paused?
    ensures var r := Edit(list, e, fps, multi);
            && |list| - 1 <= |r| <= |list|
            && forall a :: a in r <==>
                 a in list && (a.pack != e.pack || a.act != e.act || a.activityId != e.activityId || a.pid != e.pid)
  {
    PauseMembers(list, e);
  }

  // A death takes away all entries of the process and leaves the others in their order.
  lemma {:induction false} DeadMeans(list: seq<Activity>, e: Event, fps: int, multi: bool)
    requires e.state.Dead?
    ensures var r := Edit(list, e, fps, multi);
            && InOrderOf(r, list) && (forall a :: a in r <==> a in list && a.pid != e.pid)
            && forall a: Activity :: a.pid != e.pid ==> multiset(r)[a] == multiset(list)[a]
  {
    BuryInOrder(list, e.pid);
    forall a: Activity | a.pid != e.pid {
      BuryCounts(list, e.pid, a);
    }
  }

  // Coming to the foreground, or a new frame rate or window mode, leaves the named entry in the
  // list with the current ones, unless the list is full, and touches no other entry.
  lemma {:induction false} ForegroundMeans(list: seq<Activity>, e: Event, fps: int, multi: bool)
    requires DistinctKeys(list) && Fits(e)
    requires e.state.Resumed? || e.state.FpsUpdated? || e.state.MultiWindow?
    ensures var r := Edit(list, e, fps, multi);
            && (forall a :: a in list && !Names(a, e) ==> a in r)
            && (forall a :: a in r && !Names(a, e) ==> a in list)
            && (forall a :: a in r && Names(a, e) ==> a.fps == fps && a.multi == multi)
            && ((exists a :: a in r && Names(a, e)) <==> Known(list, e) || |list| < MULTI_WIN_SIZE_MAX)
            && (!Known(list, e) && |list| < MULTI_WIN_SIZE_MAX ==>
                  r == list + [Activity(e.pack, e.act, e.activityId, e.pid, e.uid, fps, multi)])
            && (Known(list, e) ==> |r| == |list| && forall i :: 0 <= i < |r| ==>
                  r[i] == if Names(list[i], e) then list[i].(fps := fps, multi := multi) else list[i])
  {
    if Known(list, e) {
      KnownMeans(list, e, fps, multi);
    } else if |list| < MULTI_WIN_SIZE_MAX {
      var r, n := Edit(list, e, fps, multi), Entry(e, fps, multi);
      assert r == list + [n] && r[|list|] == n && Names(n, e);
    }
  }

  lemma {:induction false} KnownMeans(list: seq<Activity>, e: Event, fps: int, multi: bool)
    requires Known(list, e)
    ensures var r := Resume(list, e, fps, multi);
            && (forall a :: a in list && !Names(a, e) ==> a in r) && (exists a :: a in r && Names(a, e))
            && (forall a :: a in r ==> if Names(a, e) then a.fps == fps && a.multi == multi else a in list)
  {
    var r := Resume(list, e, fps, multi);
    var k :| 0 <= k < |list| && Names(list[k], e);
    assert r[k] in r && Names(r[k], e);
    forall a | a in list && !Names(a, e) ensures a in r {
      var i :| 0 <= i < |list| && list[i] == a;
      assert r[i] == a;
    }
    forall a | a in r ensures if Names(a, e) then a.fps == fps && a.multi == multi else a in list {
      var i :| 0 <= i < |r| && r[i] == a;
      assert list[i] in list;
    }
  }

  lemma {:induction false} ModeMeans(list: seq<Activity>, e: Event, fps: int, multi: bool)
    requires e.state.ModeUpdated?
    ensures Edit(list, e, fps, multi) == list
  {
  }

  // What an environment supplies with each event: the frame rate and window mode then current.
  datatype Stimulus = Stimulus(e: Event, fps: int, multi: bool)

  function Edits(list: seq<Activity>, run: seq<Stimulus>): seq<Activity> {
    if run == [] then list
    else var s := run[|run| - 1]; Edit(Edits(list, run[..|run| - 1]), s.e, s.fps, s.multi)
  }

  lemma {:induction false} EditKeeps(list: seq<Activity>, e: Event, fps: int, multi: bool)
    requires DistinctKeys(list) && |list| <= MULTI_WIN_SIZE_MAX && Fits(e)
    ensures DistinctKeys(Edit(list, e, fps, multi)) && |Edit(list, e, fps, multi)| <= MULTI_WIN_SIZE_MAX
  {
    hide DistinctKeys;
    ResumeKeepsDistinct(list, e, fps, multi);
    PauseMembers(list, e);
    BuryKeepsDistinct(list, e.pid);
  }

  lemma {:induction false} EveryRunDistinct(run: seq<Stimulus>)
    requires forall s :: s in run ==> Fits(s.e)
    ensures DistinctKeys(Edits([], run)) && |Edits([], run)| <= MULTI_WIN_SIZE_MAX
  {
    hide Edit;
    if run != [] {
      var s := run[|run| - 1];
      EveryRunDistinct(run[..|run| - 1]);
      EditKeeps(Edits([], run[..|run| - 1]), s.e, s.fps, s.multi);
    }
  }

  // ---------- multi-window detection ----------

  // No earlier entry's package is a prefix of this one's.
  predicate Novel(list: seq<Activity>, i: nat)
    requires i < |list|
  {
    forall j :: 0 <= j < i ==> !(list[j].pack <= list[i].pack)
  }

  function NovelCount(list: seq<Activity>, n: nat): nat
    requires n <= |list|
  {
    if n <= 1 then 0 else NovelCount(list, n - 1) + if Novel(list, n - 1) then 1 else 0
  }

  function ForegroundCount(list: seq<Activity>): nat {
    1 + NovelCount(list, |list|)
  }

  function Packs(list: seq<Activity>, n: nat): set<string>
    requires n <= |list|
  {
    set i | 0 <= i < n :: list[i].pack
  }

  lemma {:induction false} PacksStep(list: seq<Activity>, n: nat)
    requires n < |list|
    ensures Packs(list, n + 1) == Packs(list, n) + {list[n].pack} && Packs(list, 0) == {}
  {
  }

  // An entry whose package has not occurred before.
  predicate FirstOfPackage(list: seq<Activity>, i: nat)
    requires i < |list|
  {
    list[i].pack !in Packs(list, i)
  }

  lemma {:induction false} NovelIsFirst(list: seq<Activity>, i: nat)
    requires i < |list| && Novel(list, i)
    ensures FirstOfPackage(list, i)
  {
  }

  // It counts at most the packages, and all of them exactly when no package is first met behind
  // one whose name it extends.
  lemma {:induction false} CountExact(list: seq<Activity>, n: nat)
    requires 1 <= n <= |list|
    ensures 1 + NovelCount(list, n) <= |Packs(list, n)|
    ensures 1 + NovelCount(list, n) == |Packs(list, n)|
            <==> forall i :: 0 <= i < n && FirstOfPackage(list, i) ==> Novel(list, i)
  {
    hide Packs;
    PacksStep(list, n - 1);
    if n == 1 {
      assert Novel(list, 0);
    } else {
      CountExact(list, n - 1);
      if Novel(list, n - 1) {
        NovelIsFirst(list, n - 1);
      }
      var before, p := Packs(list, n - 1), list[n - 1].pack;
      assert p in before ==> before + {p} == before;
    }
  }

  // The foreground count is the number of packages, for a list that is not empty, if and only if
  // every package first met is no extension of an earlier one.  Nothing resumed counts as one.
  lemma {:induction false} ForegroundCountExact(list: seq<Activity>)
    ensures list != [] ==>
              (ForegroundCount(list) == |Packs(list, |list|)|
               <==> forall i :: 0 <= i < |list| && FirstOfPackage(list, i) ==> Novel(list, i))
    ensures list == [] ==> ForegroundCount(list) == 1 && Packs(list, 0) == {}
  {
    if list != [] {
      CountExact(list, |list|);
    }
  }

  // Two packages counted as one, or as two when the longer name comes first.
  lemma {:induction false} PrefixMiscounts()
    ensures var at := (p: string) => Activity(p, "", 0, 0, 0, 0, false);
            var list, swapped := [at("com.a"), at("com.ab")], [at("com.ab"), at("com.a")];
            && ForegroundCount(list) == 1 && |Packs(list, 2)| == 2
            && ForegroundCount(swapped) == 2 && |Packs(swapped, 2)| == 2
  {
    var at := (p: string) => Activity(p, "", 0, 0, 0, 0, false);
    var list, swapped := [at("com.a"), at("com.ab")], [at("com.ab"), at("com.a")];
    assert list[0].pack <= list[1].pack && !Novel(list, 1);
    assert |swapped[0].pack| > |swapped[1].pack| && Novel(swapped, 1);
    assert NovelCount(list, 1) == 0 && NovelCount(swapped, 1) == 0;
    assert list[0].pack != list[1].pack;
    assert Packs(list, 2) == {list[0].pack, list[1].pack} && Packs(swapped, 2) == {list[0].pack, list[1].pack};
  }

  // Exactly: more than one is counted iff some package does not start with the first one's name.
  lemma {:induction false} MultiWindowExact(list: seq<Activity>, n: nat)
    requires n <= |list|
    ensures NovelCount(list, n) == 0 <==> forall i :: 0 <= i < n ==> list[0].pack <= list[i].pack
  {
    if n >= 2 {
      MultiWindowExact(list, n - 1);
      if NovelCount(list, n - 1) == 0 {
        if !Novel(list, n - 1) {
          var j :| 0 <= j < n - 1 && list[j].pack <= list[n - 1].pack;
          assert list[0].pack <= list[j].pack;
        }
      }
    }
  }

  // ---------- which scenarios a resumed activity selects ----------

  datatype Window = AnyWindow | Single | Multi | OtherWindow

  // A configured scenario: the patterns it names, and what it asks of frame rate and window.
  datatype Config = Config(pack: string, act: string, anyAct: bool, mode: string, fps: int, anyFps: bool,
                           window: Window)

  datatype Query = Query(pack: string, act: string, fps: int, multi: bool, mode: string)

  // How specifically a scenario fits: named or any activity, frame rate, window.
  datatype Class = Class(act: bool, fps: bool, window: bool)

  // In the order the selected indices are recorded.
  function Classes(): seq<Class> {
    [Class(false, false, false), Class(false, true, false), Class(true, false, false), Class(true, true, false),
     Class(false, false, true), Class(false, true, true), Class(true, false, true), Class(true, true, true)]
  }

  type Pattern = (string, string) -> bool

  predicate InClass(same: Pattern, c: Config, q: Query, k: Class) {
    && same(c.pack, q.pack)
    && (if k.act then same(c.act, q.act) else !same(c.act, q.act) && c.anyAct)
    && (c.mode == q.mode || c.mode == "")
    && (if k.fps then c.fps == q.fps else c.anyFps)
    && (if k.window then (c.window == Single && !q.multi) || (c.window == Multi && q.multi) else c.window == AnyWindow)
  }

  // Of each class, the last scenario configured.
  ghost predicate Chosen(same: Pattern, cfg: seq<Config>, q: Query, i: int) {
    0 <= i < |cfg| && exists k :: InClass(same, cfg[i], q, k) && LastOf(same, cfg, q, k, i)
  }

  predicate LastOf(same: Pattern, cfg: seq<Config>, q: Query, k: Class, i: int) {
    forall j :: i < j < |cfg| && 0 <= j ==> !InClass(same, cfg[j], q, k)
  }

  ghost predicate Selected(same: Pattern, cfg: seq<Config>, list: seq<Activity>, multi: bool, mode: string, i: int) {
    exists k :: 0 <= k < |list| && Chosen(same, cfg, Query(list[k].pack, list[k].act, list[k].fps, multi, mode), i)
  }

  // A scenario that suits an activity at all: its patterns fit, and what it fixes is so.
  predicate Suits(same: Pattern, c: Config, q: Query) {
    && same(c.pack, q.pack) && (same(c.act, q.act) || c.anyAct)
    && (c.mode == "" || c.mode == q.mode) && (c.anyFps || c.fps == q.fps)
    && c.window != OtherWindow && (c.window == Single ==> !q.multi) && (c.window == Multi ==> q.multi)
  }

  lemma {:induction false} SuitsIsSomeClass(same: Pattern, c: Config, q: Query)
    ensures Suits(same, c, q) <==> exists k :: InClass(same, c, q, k)
  {
    if Suits(same, c, q) {
      assert InClass(same, c, q, Class(same(c.act, q.act), !c.anyFps, c.window != AnyWindow));
    }
  }

  // Only scenarios that suit are chosen, and for each that suits one as specific is, itself or one
  // configured later.
  lemma {:induction false} ChosenSuits(same: Pattern, cfg: seq<Config>, q: Query, i: int)
    requires 0 <= i < |cfg|
    ensures Chosen(same, cfg, q, i) ==> Suits(same, cfg[i], q)
    ensures Suits(same, cfg[i], q) ==> exists j :: i <= j < |cfg| && Chosen(same, cfg, q, j)
  {
    hide InClass, Suits;
    SuitsIsSomeClass(same, cfg[i], q);
    if Suits(same, cfg[i], q) {
      var k :| InClass(same, cfg[i], q, k);
      var j := LastInClass(same, cfg, q, k, i);
      assert Chosen(same, cfg, q, j);
    }
  }

  // A scenario is selected only if it suits some resumed activity at its own frame rate, in the
  // window mode and mode of the moment; and if it is the only one, if it does.
  lemma {:induction false} SelectedSuits(same: Pattern, cfg: seq<Config>, list: seq<Activity>, multi: bool,
                                         mode: string, i: int)
    requires 0 <= i < |cfg|
    ensures Selected(same, cfg, list, multi, mode, i) ==> ActivitySuits(same, cfg[i], list, multi, mode)
    ensures |cfg| == 1 && ActivitySuits(same, cfg[i], list, multi, mode) ==> Selected(same, cfg, list, multi, mode, i)
  {
    hide Suits, Chosen;
    if k :| 0 <= k < |list| && Chosen(same, cfg, Query(list[k].pack, list[k].act, list[k].fps, multi, mode), i) {
      ChosenSuits(same, cfg, Query(list[k].pack, list[k].act, list[k].fps, multi, mode), i);
      SuitsMeans(same, cfg[i], list[k], multi, mode);
    }
    if k :| 0 <= k < |list| && FitsActivity(same, cfg[i], list[k], multi, mode) {
      ChosenSuits(same, cfg, Query(list[k].pack, list[k].act, list[k].fps, multi, mode), i);
      SuitsMeans(same, cfg[i], list[k], multi, mode);
    }
  }

  predicate FitsActivity(same: Pattern, c: Config, a: Activity, multi: bool, mode: string) {
    && same(c.pack, a.pack) && (same(c.act, a.act) || c.anyAct)
    && (c.mode == "" || c.mode == mode) && (c.anyFps || c.fps == a.fps)
    && (c.window == AnyWindow || c.window == if multi then Multi else Single)
  }

  predicate ActivitySuits(same: Pattern, c: Config, list: seq<Activity>, multi: bool, mode: string) {
    exists k :: 0 <= k < |list| && FitsActivity(same, c, list[k], multi, mode)
  }

  lemma {:induction false} SuitsMeans(same: Pattern, c: Config, a: Activity, multi: bool, mode: string)
    ensures Suits(same, c, Query(a.pack, a.act, a.fps, multi, mode)) <==> FitsActivity(same, c, a, multi, mode)
  {
  }

  lemma {:induction false} LastInClass(same: Pattern, cfg: seq<Config>, q: Query, k: Class, i: nat) returns (j: nat)
    requires i < |cfg| && InClass(same, cfg[i], q, k)
    ensures i <= j < |cfg| && InClass(same, cfg[j], q, k) && LastOf(same, cfg, q, k, j)
    decreases |cfg| - i
  {
    hide InClass;
    if LastOf(same, cfg, q, k, i) {
      j := i;
    } else {
      var m :| i < m < |cfg| && InClass(same, cfg[m], q, k);
      j := LastInClass(same, cfg, q, k, m);
    }
  }

  // `b` is the last of the first n scenarios in the class, or -1.
  predicate LastSoFar(same: Pattern, cfg: seq<Config>, q: Query, k: Class, n: nat, b: int)
    requires n <= |cfg|
  {
    && -1 <= b < n
    && (b >= 0 ==> InClass(same, cfg[b], q, k))
    && forall j :: b < j < n ==> !InClass(same, cfg[j], q, k)
  }

  lemma {:induction false} LastSoFarStep(same: Pattern, cfg: seq<Config>, q: Query, k: Class, n: nat, b: int)
    requires n < |cfg| && LastSoFar(same, cfg, q, k, n, b)
    ensures LastSoFar(same, cfg, q, k, n + 1, if InClass(same, cfg[n], q, k) then n else b)
  {
  }

  // The eight records taken together name exactly the chosen scenarios.
  lemma {:induction false} RecordsAreChosen(same: Pattern, cfg: seq<Config>, q: Query, best: seq<int>, i: int)
    requires |best| == 8 && forall k :: 0 <= k < 8 ==> LastSoFar(same, cfg, q, Classes()[k], |cfg|, best[k])
    ensures Chosen(same, cfg, q, i) <==> i != -1 && i in best
  {
    hide InClass;
    if i != -1 && i in best {
      var k :| 0 <= k < 8 && best[k] == i;
      assert InClass(same, cfg[i], q, Classes()[k]) && LastOf(same, cfg, q, Classes()[k], i);
    }
    if Chosen(same, cfg, q, i) {
      var c: Class :| InClass(same, cfg[i], q, c) && LastOf(same, cfg, q, c, i);
      var k := (if c.act then 2 else 0) + (if c.fps then 1 else 0) + (if c.window then 4 else 0);
      assert Classes()[k] == c;
      assert LastSoFar(same, cfg, q, Classes()[k], |cfg|, best[k]);
      assert best[k] == i;
    }
  }

  // The process of the first resumed activity of a package, or 0.
  function PidOf(list: seq<Activity>, pack: string): int {
    if list == [] then 0 else if list[0].pack == pack then list[0].pid else PidOf(list[1..], pack)
  }

  lemma {:induction false} PidOfMeans(list: seq<Activity>, pack: string)
    ensures (forall i :: 0 <= i < |list| ==> list[i].pack != pack) ==> PidOf(list, pack) == 0
    ensures forall i :: 0 <= i < |list| && list[i].pack == pack && (forall j :: 0 <= j < i ==> list[j].pack != pack) ==>
              PidOf(list, pack) == list[i].pid
  {
    if list != [] {
      PidOfMeans(list[1..], pack);
      assert forall i :: 0 <= i < |list| - 1 ==> list[1..][i] == list[i + 1];
      forall i | 0 <= i < |list| && list[i].pack == pack && (forall j :: 0 <= j < i ==> list[j].pack != pack)
        ensures PidOf(list, pack) == list[i].pid
      {
        if i > 0 {
          assert list[1..][i - 1] == list[i] && list[0].pack != pack;
        }
      }
    }
  }
}
