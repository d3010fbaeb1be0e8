/** What every run of the performance service keeps.

    With `full` the invariant speaks of whole entries: value, priority, setter and what was
    pushed to the hardware.  Without, of value and priority alone, which more runs keep. */
module PerfServiceProofs {
  import opened Arbitration
  import opened PerfServiceSpec

  // ---------- the invariant ----------

  predicate ScnLegal(c: Cfgs, s: Scn) {
    && ScnShape(c, s)
    && (forall k :: 0 <= k < |c.rsc| ==> c.rsc[k].Legal(s.rsc[k]))
    && (forall k :: 0 <= k < |c.con| ==> c.con[k].Legal(s.param[k]))
  }

  ghost predicate RscGood(c: Cfgs, y: Sys, k: nat, full: bool)
    requires Shape(c, y) && k < |c.rsc|
  {
    y.rsc[k].isValid ==> Good(c.rsc[k], RscBids(c, y.scns, k), y.rsc[k], full)
  }

  ghost predicate ConGood(c: Cfgs, y: Sys, k: nat)
    requires Shape(c, y) && k < |c.con|
  {
    y.con[k].isValid ==> Good(c.con[k], ConBids(c, y.scns, k), Whole(y.con[k]), false)
  }

  ghost predicate TablesGood(c: Cfgs, y: Sys, full: bool)
    requires Shape(c, y)
  {
    && (forall k :: 0 <= k < |c.rsc| ==> RscGood(c, y, k, full))
    && (forall k :: 0 <= k < |c.con| ==> ConGood(c, y, k))
  }

  predicate SlotOk(c: Cfgs, y: Sys, s: Scn) {
    if s.kind.FREE? then s == FreeSlot(c)
    else 1 <= s.born <= y.allocs && s.handle == HandleAt(s.born)
  }

  ghost predicate HandlesOk(c: Cfgs, y: Sys) {
    && y.now == HandleAt(y.allocs)
    && (forall i :: 0 <= i < |y.scns| ==> SlotOk(c, y, y.scns[i]))
    && (forall i, j :: 0 <= i < j < |y.scns| && !y.scns[i].kind.FREE? && !y.scns[j].kind.FREE? ==>
          y.scns[i].born != y.scns[j].born)
  }

  ghost predicate Lawful(c: Cfgs, y: Sys) {
    SaneCfgs(c) && Shape(c, y) && forall i :: 0 <= i < |y.scns| ==> ScnLegal(c, y.scns[i])
  }

  ghost predicate Inv(c: Cfgs, y: Sys, full: bool) {
    Lawful(c, y) && TablesGood(c, y, full) && HandlesOk(c, y)
  }

  // ---------- switching one scenario ----------

  lemma BidsUpdate(c: Cfgs, scns: seq<Scn>, i: nat, s: Scn)
    requires ScnsShape(c, scns) && i < |scns| && ScnShape(c, s)
    ensures ScnsShape(c, scns[i := s])
    ensures forall k :: 0 <= k < |c.rsc| ==>
              RscBids(c, scns[i := s], k) == RscBids(c, scns, k)[i := RscBid(s, k)]
    ensures forall k :: 0 <= k < |c.con| ==>
              ConBids(c, scns[i := s], k) == ConBids(c, scns, k)[i := ConBid(s, k)]
  {
  }

  lemma BidsLegal(c: Cfgs, scns: seq<Scn>)
    requires SaneCfgs(c) && forall i :: 0 <= i < |scns| ==> ScnLegal(c, scns[i])
    ensures ScnsShape(c, scns)
    ensures forall k :: 0 <= k < |c.rsc| ==> AllLegal(c.rsc[k], RscBids(c, scns, k))
    ensures forall k :: 0 <= k < |c.con| ==> AllLegal(c.con[k], ConBids(c, scns, k))
  {
  }

  // A slot that is off may be replaced by any other that is off.
  lemma {:induction false} SilentSlot(c: Cfgs, y: Sys, i: nat, s: Scn, full: bool)
    requires Lawful(c, y) && i < |y.scns| && ScnShape(c, s) && TablesGood(c, y, full)
    requires !y.scns[i].state.ON? && !s.state.ON?
    ensures var z := y.(scns := y.scns[i := s]); Shape(c, z) && TablesGood(c, z, full)
  {
    var z := y.(scns := y.scns[i := s]);
    BidsLegal(c, y.scns);
    BidsUpdate(c, y.scns, i, s);
    forall k | 0 <= k < |c.rsc| ensures RscGood(c, z, k, full) {
      if y.rsc[k].isValid {
        assert RscGood(c, y, k, full);
        KeptExact(c.rsc[k], y.rsc[k], RscBids(c, y.scns, k), i, RscBid(s, k), full);
      }
    }
    forall k | 0 <= k < |c.con| ensures ConGood(c, z, k) {
      if y.con[k].isValid {
        assert ConGood(c, y, k);
        KeptExact(c.con[k], Whole(y.con[k]), ConBids(c, y.scns, k), i, ConBid(s, k), false);
      }
    }
  }

  lemma {:induction false} DisableScnKeeps(c: Cfgs, y: Sys, i: nat, full: bool)
    requires Lawful(c, y) && i < |y.scns| && TablesGood(c, y, full)
    ensures Lawful(c, DisableScn(c, y, i)) && TablesGood(c, DisableScn(c, y, i), full)
  {
    if !y.scns[i].state.OFF? {
      var s := y.scns[i].(state := OFF);
      var z := DisableScn(c, y, i);
      BidsLegal(c, y.scns);
      BidsUpdate(c, y.scns, i, s);
      BidsLegal(c, z.scns);
      forall k | 0 <= k < |c.rsc| ensures RscGood(c, z, k, full) {
        assert RscGood(c, y, k, full);
        StepsKeepValidity(c.rsc[k], y.rsc[k], RscBid(s, k), RscBids(c, z.scns, k), false);
        if y.rsc[k].isValid {
          DisableKeepsCorrect(c.rsc[k], y.rsc[k], RscBids(c, y.scns, k), i, RscBid(s, k), full);
        }
      }
      forall k | 0 <= k < |c.con| ensures ConGood(c, z, k) {
        assert ConGood(c, y, k);
        var e, after := Whole(y.con[k]), ConBids(c, z.scns, k);
        StepsKeepValidity(c.con[k], e, ConBid(s, k), after, false);
        ConValues(c.con[k], y.con[k], ConBid(s, k), after, false);
        if y.con[k].isValid {
          DisableKeepsCorrect(c.con[k], e, ConBids(c, y.scns, k), i, ConBid(s, k), false);
        }
      }
    }
  }

  // ---------- a scenario takes new settings ----------

  // What an acquire does once slot i has become s: a forced update, or an enable.
  function ChangeScn(c: Cfgs, y: Sys, i: nat, s: Scn, force: bool): (r: Sys)
    requires Shape(c, y) && i < |y.scns| && ScnShape(c, s) && s.state.ON?
    ensures Shape(c, r)
  {
    var z := y.(scns := y.scns[i := s]);
    if force then ForceUpdateScn(c, z, i) else EnableScn(c, z, i)
  }

  ghost predicate RscHurt(c: Cfgs, y: Sys, i: nat, s: Scn, force: bool, full: bool, k: nat)
    requires Shape(c, y) && i < |y.scns| && ScnShape(c, s) && k < |c.rsc|
  {
    && y.rsc[k].isValid && PassedOver(c.rsc[k], y.rsc[k], RscBid(s, k), force)
    && Sole(c.rsc[k], RscBids(c, y.scns, k), i, y.rsc[k], full)
  }

  ghost predicate ConHurt(c: Cfgs, y: Sys, i: nat, s: Scn, force: bool, k: nat)
    requires Shape(c, y) && i < |y.scns| && ScnShape(c, s) && k < |c.con|
  {
    && y.con[k].isValid && PassedOver(c.con[k], Whole(y.con[k]), ConBid(s, k), force)
    && Sole(c.con[k], ConBids(c, y.scns, k), i, Whole(y.con[k]), false)
  }

  // Some resource that slot i alone holds up is passed over.
  ghost predicate Strands(c: Cfgs, y: Sys, i: nat, s: Scn, force: bool, full: bool)
    requires Shape(c, y) && i < |y.scns| && ScnShape(c, s)
  {
    || (exists k :: 0 <= k < |c.rsc| && RscHurt(c, y, i, s, force, full, k))
    || (exists k :: 0 <= k < |c.con| && ConHurt(c, y, i, s, force, k))
  }

  // Exactly when both tables survive new settings of a scenario.
  lemma {:induction false} ChangeScnExact(c: Cfgs, y: Sys, i: nat, s: Scn, force: bool, full: bool)
    requires Lawful(c, y) && TablesGood(c, y, full) && i < |y.scns|
    requires ScnLegal(c, s) && s.state.ON? && s.pid == y.scns[i].pid && s.hint == y.scns[i].hint
    ensures TablesGood(c, ChangeScn(c, y, i, s, force), full) <==> !Strands(c, y, i, s, force, full)
  {
    var z := ChangeScn(c, y, i, s, force);
    assert y.scns[i := s][i := s] == y.scns[i := s];
    assert s.(state := ON) == s;
    BidsLegal(c, y.scns);
    BidsUpdate(c, y.scns, i, s);
    BidsLegal(c, z.scns);
    forall k | 0 <= k < |c.rsc| ensures RscGood(c, z, k, full) <==> !RscHurt(c, y, i, s, force, full, k) {
      assert RscGood(c, y, k, full);
      StepsKeepValidity(c.rsc[k], y.rsc[k], RscBid(s, k), RscBids(c, z.scns, k), force);
      if y.rsc[k].isValid {
        ChangeExact(c.rsc[k], y.rsc[k], RscBids(c, y.scns, k), i, RscBid(s, k), force, full);
      }
    }
    forall k | 0 <= k < |c.con| ensures ConGood(c, z, k) <==> !ConHurt(c, y, i, s, force, k) {
      assert ConGood(c, y, k);
      var e, after := Whole(y.con[k]), ConBids(c, z.scns, k);
      StepsKeepValidity(c.con[k], e, ConBid(s, k), after, force);
      ConValues(c.con[k], y.con[k], ConBid(s, k), after, force);
      if y.con[k].isValid {
        ChangeExact(c.con[k], e, ConBids(c, y.scns, k), i, ConBid(s, k), force, false);
      }
    }
  }

  // A scenario that was off cannot strand anything.
  lemma {:induction false} EnableScnKeeps(c: Cfgs, y: Sys, i: nat, s: Scn, full: bool)
    requires Lawful(c, y) && TablesGood(c, y, full) && i < |y.scns| && !y.scns[i].state.ON?
    requires ScnLegal(c, s) && s.state.ON? && s.pid == y.scns[i].pid && s.hint == y.scns[i].hint
    ensures TablesGood(c, ChangeScn(c, y, i, s, false), full)
  {
    ChangeScnExact(c, y, i, s, false, full);
  }

  // Neither can one whose forced update keeps or raises its priority.
  lemma {:induction false} NoDemotionIsSafe(c: Cfgs, y: Sys, i: nat, s: Scn, full: bool)
    requires Shape(c, y) && i < |y.scns| && ScnShape(c, s) && s.priority <= y.scns[i].priority
    ensures !Strands(c, y, i, s, true, full)
  {
  }

  // Nor one that is enabled again with the settings it has.
  lemma {:induction false} UnchangedIsSafe(c: Cfgs, y: Sys, i: nat, s: Scn, full: bool)
    requires Shape(c, y) && i < |y.scns| && ScnShape(c, s)
    requires s.rsc == y.scns[i].rsc && s.param == y.scns[i].param
    requires s.priority == y.scns[i].priority && s.state == y.scns[i].state
    ensures !Strands(c, y, i, s, false, full)
  {
  }

  // Enabling a scenario that is on is the identity.
  lemma {:induction false} EnableOnIsIdle(c: Cfgs, y: Sys, i: nat)
    requires Lawful(c, y) && TablesGood(c, y, false) && i < |y.scns| && y.scns[i].state.ON?
    ensures EnableScn(c, y, i) == y
  {
    var z := EnableScn(c, y, i);
    BidsLegal(c, y.scns);
    assert z.scns == y.scns;
    forall k | 0 <= k < |c.rsc| ensures z.rsc[k] == y.rsc[k] {
      assert RscGood(c, y, k, false);
      if y.rsc[k].isValid {
        EnableIdempotent(c.rsc[k], y.rsc[k], RscBids(c, y.scns, k), i);
      }
    }
    forall k | 0 <= k < |c.con| ensures z.con[k] == y.con[k] {
      assert ConGood(c, y, k);
      if y.con[k].isValid {
        ConStepsAgree(c.con[k], Whole(y.con[k]), ConBid(y.scns[i], k), ConBids(c, y.scns, k));
        EnableIdempotent(c.con[k], Whole(y.con[k]), ConBids(c, y.scns, k), i);
      }
    }
    assert z.rsc == y.rsc && z.con == y.con;
  }

  // ---------- handles ----------

  lemma HandleCycle(n: nat)
    ensures NextHandle(HandleAt(n)) == HandleAt(n + 1)
    ensures 1 <= HandleAt(n + 1) < HANDLE_RAND_MAX
    ensures n > 0 ==> HandleAt(n + (HANDLE_RAND_MAX - 1)) == HandleAt(n)
  {
    if n > 0 {
      var m := HANDLE_RAND_MAX - 1;
      assert (n - 1 + m) % m == (n - 1) % m;
    }
  }

  // Fewer than one period apart, two allocations never share a handle.
  lemma HandlesDiffer(m: nat, n: nat)
    requires 1 <= m < n < m + (HANDLE_RAND_MAX - 1)
    ensures HandleAt(m) != HandleAt(n)
  {
    var p := HANDLE_RAND_MAX - 1;
    var a, b := m - 1, n - 1;
    assert a == a / p * p + a % p && b == b / p * p + b % p;
    var q := b / p - a / p;
    if q >= 1 {
      assert q * p >= p;
      assert b % p < a % p;
    }
  }

  // Every slot in use got its handle within the last period of the generator.
  ghost predicate AllRecent(y: Sys) {
    forall i :: 0 <= i < |y.scns| && !y.scns[i].kind.FREE? ==>
      y.allocs < y.scns[i].born + (HANDLE_RAND_MAX - 1)
  }

  lemma LookupUnique(c: Cfgs, y: Sys, i: nat, full: bool)
    requires Inv(c, y, full) && AllRecent(y) && i < |y.scns| && !y.scns[i].kind.FREE?
    ensures Find(y.scns, y.scns[i].handle) == i
  {
    HandleCycle(y.scns[i].born - 1);
    var j := Find(y.scns, y.scns[i].handle);
    assert Owns(y.scns[i], y.scns[i].handle);
    if j != i {
      var a, b := y.scns[i].born, y.scns[j].born;
      assert a != b;
      if a < b { HandlesDiffer(a, b); } else { HandlesDiffer(b, a); }
    }
  }

  lemma FreeKeepsHandles(c: Cfgs, y: Sys, z: Sys, i: nat)
    requires HandlesOk(c, y) && i < |y.scns| && z.scns == y.scns[i := FreeSlot(c)]
    requires z.now == y.now && z.allocs == y.allocs
    ensures HandlesOk(c, z)
  {
  }

  // The tables' health depends on nothing but slots and tables.
  lemma {:induction false} SameTables(c: Cfgs, y: Sys, z: Sys, full: bool)
    requires Shape(c, y) && Shape(c, z) && z.scns == y.scns && z.rsc == y.rsc && z.con == y.con
    requires TablesGood(c, y, full)
    ensures TablesGood(c, z, full)
  {
    assert forall k :: 0 <= k < |c.rsc| ==> RscGood(c, z, k, full) == RscGood(c, y, k, full);
    assert forall k :: 0 <= k < |c.con| ==> ConGood(c, z, k) == ConGood(c, y, k);
  }

  lemma RegisterKeeps(c: Cfgs, y: Sys, i: nat, hint: int, pid: int, duration: int, full: bool)
    requires Inv(c, y, full) && i < |y.scns| && y.scns[i].kind.FREE?
    ensures Inv(c, Register(c, y, i, hint, pid, duration), full)
  {
    var z := Register(c, y, i, hint, pid, duration);
    HandleCycle(y.allocs);
    SilentSlot(c, y, i, z.scns[i], full);
    SameTables(c, y.(scns := z.scns), z, full);
    assert forall j :: 0 <= j < |z.scns| && j != i ==> z.scns[j] == y.scns[j];
  }

  // ---------- releasing and reaping ----------

  lemma DisableKeepsInv(c: Cfgs, y: Sys, i: nat, full: bool)
    requires Inv(c, y, full) && i < |y.scns| && !y.scns[i].kind.FREE?
    ensures Inv(c, DisableScn(c, y, i), full)
  {
    DisableScnKeeps(c, y, i, full);
  }

  lemma ReleaseKeeps(c: Cfgs, y: Sys, i: nat, full: bool)
    requires Inv(c, y, full) && i < |y.scns|
    ensures Inv(c, Release(c, y, i), full)
    ensures Release(c, y, i).scns == y.scns[i := FreeSlot(c)]
  {
    var d := DisableScn(c, y, i);
    DisableScnKeeps(c, y, i, full);
    SilentSlot(c, d, i, FreeSlot(c), full);
    assert d.scns[i := FreeSlot(c)] == y.scns[i := FreeSlot(c)];
    FreeKeepsHandles(c, y, Release(c, y, i), i);
  }

  // Reaping frees exactly the reapable slots from `i` on and leaves the others alone.
  lemma {:induction false} ReapKeeps(c: Cfgs, y: Sys, alive: set<int>, i: nat, full: bool)
    requires Inv(c, y, full) && i <= |y.scns|
    ensures var z := ReapFrom(c, y, alive, i);
            && Inv(c, z, full) && z.now == y.now && z.allocs == y.allocs
            && forall j :: 0 <= j < |y.scns| ==>
                 z.scns[j] == if j >= i && Reapable(y.scns[j], alive) then FreeSlot(c) else y.scns[j]
    decreases |y.scns| - i
  {
    if i < |y.scns| {
      if Reapable(y.scns[i], alive) {
        ReleaseKeeps(c, y, i, full);
        ReapKeeps(c, Release(c, y, i), alive, i + 1, full);
      } else {
        ReapKeeps(c, y, alive, i + 1, full);
      }
    }
  }

  // What switching the screen off makes of a slot whose process lives.
  function Quieted(s: Scn): Scn {
    if s.state.ON? && s.screenOff != SCREEN_OFF_ENABLE then
      s.(state := if s.screenOff == SCREEN_OFF_WAIT_RESTORE then WAIT_RESTORE else OFF)
    else s
  }

  function AfterScreenOff(c: Cfgs, s: Scn, alive: set<int>): Scn {
    if s.kind.FREE? || s.screenOff == SCREEN_OFF_ALWAYS_VALID then s
    else if (s.kind.USER_HINT? || s.kind.PERF_LOCK_HINT?) && s.pid !in alive then FreeSlot(c)
    else Quieted(s)
  }

  lemma QuietKeeps(c: Cfgs, y: Sys, i: nat, full: bool)
    requires Inv(c, y, full) && i < |y.scns| && !y.scns[i].kind.FREE?
    ensures var d := Quiet(c, y, i);
            Inv(c, d, full) && d.now == y.now && d.allocs == y.allocs && d.scns == y.scns[i := Quieted(y.scns[i])]
  {
    var s := y.scns[i];
    if s.state.ON? && s.screenOff != SCREEN_OFF_ENABLE {
      DisableKeepsInv(c, y, i, full);
      var d := DisableScn(c, y, i);
      if s.screenOff == SCREEN_OFF_WAIT_RESTORE {
        SilentSlot(c, d, i, d.scns[i].(state := WAIT_RESTORE), full);
      }
    }
  }

  lemma ScreenOffSlotKeeps(c: Cfgs, y: Sys, alive: set<int>, i: nat, full: bool)
    requires Inv(c, y, full) && i < |y.scns|
    ensures var z := ScreenOffSlot(c, y, alive, i);
            && Inv(c, z, full) && z.now == y.now && z.allocs == y.allocs
            && z.scns == y.scns[i := AfterScreenOff(c, y.scns[i], alive)]
  {
    hide Inv, Quiet, Quieted;
    InvShape(c, y, full);
    if !y.scns[i].kind.FREE? {
      QuietKeeps(c, y, i, full);
      InvShape(c, Quiet(c, y, i), full);
      ReleaseKeeps(c, Quiet(c, y, i), i, full);
    }
  }

  lemma {:induction false} ScreenOffKeeps(c: Cfgs, y: Sys, alive: set<int>, i: nat, full: bool)
    requires Inv(c, y, full) && i <= |y.scns|
    ensures var z := ScreenOffFrom(c, y, alive, i);
            && Inv(c, z, full) && z.now == y.now && z.allocs == y.allocs
            && forall j :: 0 <= j < |y.scns| ==>
                 z.scns[j] == if j >= i then AfterScreenOff(c, y.scns[j], alive) else y.scns[j]
    decreases |y.scns| - i
  {
    hide ScreenOffSlot, Inv, AfterScreenOff;
    InvShape(c, y, full);
    if i < |y.scns| {
      ScreenOffSlotKeeps(c, y, alive, i, full);
      InvShape(c, ScreenOffSlot(c, y, alive, i), full);
      ScreenOffKeeps(c, ScreenOffSlot(c, y, alive, i), alive, i + 1, full);
    }
  }

  lemma InvShape(c: Cfgs, y: Sys, full: bool)
    requires Inv(c, y, full)
    ensures SaneCfgs(c) && Shape(c, y)
  {
  }

  // ---------- the API calls ----------

  lemma CheckHdlKeeps(c: Cfgs, y: Sys, alive: set<int>, handle: int, hint: int, size: int, pid: int, duration: int,
                      full: bool)
    requires Inv(c, y, full)
    ensures Inv(c, CheckHdl(c, y, alive, handle, hint, size, pid, duration).0, full)
  {
    var i := FirstFree(y.scns, 0);
    if i != -1 {
      RegisterKeeps(c, y, i, hint, pid, duration, full);
    } else {
      ReapKeeps(c, y, alive, 0, full);
      var z := ReapFrom(c, y, alive, 0);
      var j := FirstFree(z.scns, 0);
      if j != -1 {
        RegisterKeeps(c, z, j, hint, pid, duration, full);
      }
    }
  }

  // A refusal for lack of slots means all are taken and none could be reaped.
  lemma ExhaustionIsReal(c: Cfgs, y: Sys, alive: set<int>, handle: int, hint: int, size: int, pid: int,
                         duration: int, full: bool)
    requires Inv(c, y, full)
    requires size != 0 && size <= MAX_ARGS_PER_REQUEST
    requires pid in alive || (duration != 0 && duration <= USER_DURATION_MAX)
    requires handle <= 0 || Find(y.scns, handle) == -1
    ensures CheckHdl(c, y, alive, handle, hint, size, pid, duration).1 == 0
            <==> forall j :: 0 <= j < |y.scns| ==> !y.scns[j].kind.FREE? && !Reapable(y.scns[j], alive)
  {
    HandleCycle(y.allocs);
    ReapKeeps(c, y, alive, 0, full);
    var z := ReapFrom(c, y, alive, 0);
    HandleCycle(z.allocs);
  }

  // A freshly registered handle is found in its slot, switched off, and asks for nothing.
  lemma CheckHdlRegisters(c: Cfgs, y: Sys, alive: set<int>, handle: int, hint: int, size: int, pid: int,
                          duration: int, full: bool)
    requires Inv(c, y, full)
    requires var r := CheckHdl(c, y, alive, handle, hint, size, pid, duration);
             r.1 != 0 && Find(y.scns, handle) == -1 && AllRecent(r.0)
    ensures var r := CheckHdl(c, y, alive, handle, hint, size, pid, duration);
            var i := Find(r.0.scns, r.1);
            && 0 <= i < |r.0.scns|
            && r.0.scns[i].state.OFF? && r.0.scns[i].pid == pid && r.0.scns[i].duration == duration
            && r.0.scns[i].rsc == Resets(c.rsc) && r.0.scns[i].param == Resets(c.con)
  {
    CheckHdlKeeps(c, y, alive, handle, hint, size, pid, duration, full);
    var r := CheckHdl(c, y, alive, handle, hint, size, pid, duration);
    var z := if FirstFree(y.scns, 0) != -1 then y else ReapFrom(c, y, alive, 0);
    LookupUnique(c, r.0, FirstFree(z.scns, 0), full);
  }

  lemma {:induction false} RequestLegal(c: Cfgs, s: Scn, list: Request)
    requires SaneCfgs(c) && ScnLegal(c, s)
    ensures var t := ApplyRequest(c, s, list);
            ScnLegal(c, t) && t.state == s.state && t.kind == s.kind && t.handle == s.handle
            && t.born == s.born && t.pid == s.pid && t.hint == s.hint
            && t.duration == s.duration && t.listSize == s.listSize
  {
    if list != [] {
      RequestLegal(c, s, list[..|list| - 1]);
    }
  }

  predicate IsSetting(cmd: int) {
    cmd >= 0 && cmd !in OTHER_COMMANDS && cmd != CMD_SCREEN_OFF_STATE && cmd != CMD_PRIORITY
  }

  // The value the last occurrence of a command asks for.
  function LastAsked(list: Request, cmd: int, otherwise: int): int {
    if list == [] then otherwise
    else if list[|list| - 1].0 == cmd then list[|list| - 1].1
    else LastAsked(list[..|list| - 1], cmd, otherwise)
  }

  predicate Asks(list: Request, cmd: int) {
    exists j :: 0 <= j < |list| && list[j].0 == cmd
  }

  // For every resource the last setting in the list wins, clamped; a resource the list does not
  // name, or whose id is a control command, is left alone.
  lemma {:induction false} RequestMeaning(c: Cfgs, s: Scn, list: Request)
    requires SaneCfgs(c) && ScnShape(c, s)
    ensures var t := ApplyRequest(c, s, list);
            && (forall k :: 0 <= k < |c.rsc| ==>
                  var id := c.rsc[k].cmdId;
                  t.rsc[k] == if IsSetting(id) && Asks(list, id) then Clamp(c.rsc[k], LastAsked(list, id, 0))
                              else s.rsc[k])
            && (forall k :: 0 <= k < |c.con| ==>
                  var id := c.con[k].cmdId;
                  t.param[k] == if IsSetting(id) && Asks(list, id) then Clamp(c.con[k], LastAsked(list, id, 0))
                                else s.param[k])
            && t.priority == LastAsked(list, CMD_PRIORITY, s.priority)
            && t.screenOff == LastAsked(list, CMD_SCREEN_OFF_STATE, s.screenOff)
  {
    if list != [] {
      var n := |list| - 1;
      RequestMeaning(c, s, list[..n]);
      forall id ensures Asks(list, id) <==> Asks(list[..n], id) || list[n].0 == id {
        assert forall j :: 0 <= j < n ==> list[..n][j] == list[j];
      }
    }
  }

  // ---------- acquiring ----------

  // The slot as an acquire leaves it.
  function Acquired(c: Cfgs, s: Scn, list: Request, duration: int): (r: Scn)
    requires SaneCfgs(c)
    ensures ScnShape(c, r)
  {
    Requested(c, s, list, duration).(state := ON)
  }

  lemma {:induction false} AcquiredLegal(c: Cfgs, s: Scn, list: Request, duration: int)
    requires SaneCfgs(c) && ScnLegal(c, s)
    ensures var t := Acquired(c, s, list, duration);
            && ScnLegal(c, t) && t.kind == s.kind && t.handle == s.handle && t.born == s.born
            && t.pid == s.pid && t.hint == s.hint && Requested(c, s, list, duration).state == s.state
            && t.duration == duration && t.listSize == 2 * |list|
  {
    RequestLegal(c, ClearRequests(c, s).(duration := duration, listSize := 2 * |list|), list);
  }

  predicate Valid(list: Request) {
    0 < |list| && 2 * |list| <= MAX_ARGS_PER_REQUEST
  }

  lemma {:induction false} AcquireIsChange(c: Cfgs, y: Sys, handle: int, list: Request, duration: int,
                                           bufferEqual: bool)
    requires Lawful(c, y) && Valid(list) && Find(y.scns, handle) != -1
    ensures var i := Find(y.scns, handle);
            var s := y.scns[i];
            Acquire(c, y, handle, list, duration, bufferEqual).0
            == ChangeScn(c, y, i, Acquired(c, s, list, duration), TakesForceUpdate(s, list, bufferEqual))
  {
    var i := Find(y.scns, handle);
    var s0, s := Requested(c, y.scns[i], list, duration), Acquired(c, y.scns[i], list, duration);
    AcquiredLegal(c, y.scns[i], list, duration);
    assert s.(state := ON) == s && y.scns[i := s0][i := s] == y.scns[i := s][i := s];
    if TakesForceUpdate(y.scns[i], list, bufferEqual) {
      assert s0 == s;
    }
  }

  // A call that does not strand anything.
  ghost predicate Fair(c: Cfgs, y: Sys, op: Op, full: bool)
    requires SaneCfgs(c) && Shape(c, y)
  {
    match op
    case OpAcquire(handle, list, duration, bufferEqual) =>
      var i := Find(y.scns, handle);
      Valid(list) && i != -1 ==>
        var s := y.scns[i];
        !Strands(c, y, i, Acquired(c, s, list, duration), TakesForceUpdate(s, list, bufferEqual), full)
    case _ => true
  }

  lemma SlotUpdateKeepsHandles(c: Cfgs, y: Sys, i: nat, s: Scn)
    requires HandlesOk(c, y) && i < |y.scns| && !s.kind.FREE? && !y.scns[i].kind.FREE?
    requires s.born == y.scns[i].born && s.handle == y.scns[i].handle
    ensures HandlesOk(c, y.(scns := y.scns[i := s]))
  {
  }

  lemma {:induction false} ChangeKeepsRest(c: Cfgs, y: Sys, i: nat, s: Scn, force: bool, full: bool)
    requires Inv(c, y, full) && i < |y.scns| && !y.scns[i].kind.FREE? && !s.kind.FREE?
    requires ScnLegal(c, s) && s.state.ON? && s.born == y.scns[i].born && s.handle == y.scns[i].handle
    ensures var z := ChangeScn(c, y, i, s, force); Lawful(c, z) && HandlesOk(c, z) && z.scns == y.scns[i := s]
  {
    var z := ChangeScn(c, y, i, s, force);
    assert s.(state := ON) == s && y.scns[i := s][i := s] == y.scns[i := s];
    SlotUpdateKeepsHandles(c, y, i, s);
  }

  // An acquire keeps the invariant if and only if it is fair.
  lemma {:induction false} AcquireExact(c: Cfgs, y: Sys, handle: int, list: Request, duration: int,
                                        bufferEqual: bool, full: bool)
    requires Inv(c, y, full)
    ensures Inv(c, Acquire(c, y, handle, list, duration, bufferEqual).0, full)
            <==> Fair(c, y, OpAcquire(handle, list, duration, bufferEqual), full)
  {
    hide TablesGood, Strands, ChangeScn;
    var i := Find(y.scns, handle);
    if Valid(list) && i != -1 {
      var s := Acquired(c, y.scns[i], list, duration);
      var force := TakesForceUpdate(y.scns[i], list, bufferEqual);
      AcquiredLegal(c, y.scns[i], list, duration);
      AcquireIsChange(c, y, handle, list, duration, bufferEqual);
      ChangeScnExact(c, y, i, s, force, full);
      ChangeKeepsRest(c, y, i, s, force, full);
    }
  }

  lemma RelKeeps(c: Cfgs, y: Sys, handle: int, full: bool)
    requires Inv(c, y, full)
    ensures Inv(c, Rel(c, y, handle).0, full)
  {
    var i := Find(y.scns, handle);
    if i != -1 {
      ReleaseKeeps(c, y, i, full);
    }
  }

  // A handle can be released once.
  lemma SecondReleaseFails(c: Cfgs, y: Sys, handle: int, full: bool)
    requires Inv(c, y, full) && AllRecent(y)
    ensures var (z, _) := Rel(c, y, handle); Rel(c, z, handle) == (z, -1)
  {
    var i := Find(y.scns, handle);
    if i != -1 {
      ReleaseKeeps(c, y, i, full);
      var z := Release(c, y, i);
      var j := Find(z.scns, handle);
      if j != -1 {
        assert y.scns[j] == z.scns[j] && j != i;
        LookupUnique(c, y, i, full);
        LookupUnique(c, y, j, full);
      }
    }
  }

  // ---------- whole runs ----------

  // Every call keeps the invariant if and only if it is fair; only an acquire can be unfair.
  lemma {:induction false} StepExact(c: Cfgs, y: Sys, op: Op, full: bool)
    requires Inv(c, y, full)
    ensures Inv(c, Step(c, y, op), full) <==> Fair(c, y, op, full)
  {
    match op
    case OpCheckHdl(alive, handle, hint, size, pid, duration) =>
      CheckHdlKeeps(c, y, alive, handle, hint, size, pid, duration, full);
    case OpAcquire(handle, list, duration, bufferEqual) =>
      AcquireExact(c, y, handle, list, duration, bufferEqual, full);
    case OpRel(handle) => RelKeeps(c, y, handle, full);
    case OpScreenOff(alive) => ScreenOffKeeps(c, y, alive, 0, full);
    case OpCheckAll(alive) => ReapKeeps(c, y, alive, 0, full);
  }

  ghost predicate FairRun(c: Cfgs, y: Sys, ops: seq<Op>, full: bool)
    requires SaneCfgs(c) && Shape(c, y)
    decreases |ops|
  {
    ops == [] || (Fair(c, y, ops[0], full) && FairRun(c, Step(c, y, ops[0]), ops[1..], full))
  }

  // The invariant holds at every point of the run.
  ghost predicate AllAlong(c: Cfgs, y: Sys, ops: seq<Op>, full: bool)
    requires SaneCfgs(c) && Shape(c, y)
    decreases |ops|
  {
    Inv(c, y, full) && (ops == [] || AllAlong(c, Step(c, y, ops[0]), ops[1..], full))
  }

  lemma BootInv(c: Cfgs, rscValid: seq<bool>, conValid: seq<bool>, full: bool)
    requires SaneCfgs(c) && |rscValid| == |c.rsc| && |conValid| == |c.con|
    ensures Inv(c, Boot(c, rscValid, conValid), full)
  {
    var y := Boot(c, rscValid, conValid);
    forall k | 0 <= k < |c.rsc| ensures RscGood(c, y, k, full) {
      InitialCorrect(c.rsc[k], rscValid[k], RscBids(c, y.scns, k));
    }
    forall k | 0 <= k < |c.con| ensures ConGood(c, y, k) {
      InitialCorrect(c.con[k], conValid[k], ConBids(c, y.scns, k));
    }
  }

  lemma {:induction false} RunExact(c: Cfgs, y: Sys, ops: seq<Op>, full: bool)
    requires Inv(c, y, full)
    ensures AllAlong(c, y, ops, full) <==> FairRun(c, y, ops, full)
    ensures FairRun(c, y, ops, full) ==> Inv(c, Run(c, y, ops), full)
    decreases |ops|
  {
    hide Inv, Fair;
    InvShape(c, y, full);
    if ops != [] {
      StepExact(c, y, ops[0], full);
      if Fair(c, y, ops[0], full) {
        RunExact(c, Step(c, y, ops[0]), ops[1..], full);
      }
    }
  }

  // From boot, whatever the calls: the kept values (with `full`: the whole entries) are the
  // from-scratch optimum at every point of the run if and only if no call strands a resource.
  lemma {:induction false} EveryRunOptimal(c: Cfgs, rscValid: seq<bool>, conValid: seq<bool>, ops: seq<Op>, full: bool)
    requires SaneCfgs(c) && |rscValid| == |c.rsc| && |conValid| == |c.con|
    ensures var boot := Boot(c, rscValid, conValid);
            && (AllAlong(c, boot, ops, full) <==> FairRun(c, boot, ops, full))
            && (FairRun(c, boot, ops, full) ==> Inv(c, Run(c, boot, ops), full))
  {
    BootInv(c, rscValid, conValid, full);
    RunExact(c, Boot(c, rscValid, conValid), ops, full);
  }

  // ---------- the comparison that was meant ----------

  // Applying `list` again would change none of the slot's settings.
  predicate Settled(c: Cfgs, s: Scn, list: Request)
    requires SaneCfgs(c)
  {
    var t := Requested(c, s, list, 0);
    t.rsc == s.rsc && t.param == s.param && t.priority == s.priority
  }

  lemma {:induction false} LastAskedTwice(list: Request, cmd: int, x: int)
    ensures LastAsked(list, cmd, LastAsked(list, cmd, x)) == LastAsked(list, cmd, x)
  {
    if list != [] && list[|list| - 1].0 != cmd {
      LastAskedTwice(list[..|list| - 1], cmd, x);
    }
  }

  // What a list makes of resources and controls does not depend on what was there before.
  lemma {:induction false} RequestedSettings(c: Cfgs, s: Scn, t: Scn, list: Request, d: int, d': int)
    requires SaneCfgs(c)
    ensures var r, r' := Requested(c, s, list, d), Requested(c, t, list, d');
            r.rsc == r'.rsc && r.param == r'.param && r.priority == LastAsked(list, CMD_PRIORITY, s.priority)
  {
    RequestMeaning(c, ClearRequests(c, s).(duration := d, listSize := 2 * |list|), list);
    RequestMeaning(c, ClearRequests(c, t).(duration := d', listSize := 2 * |list|), list);
  }

  // The list last applied is settled.
  lemma {:induction false} AcquiredIsSettled(c: Cfgs, s: Scn, list: Request, duration: int)
    requires SaneCfgs(c)
    ensures Settled(c, Acquired(c, s, list, duration), list)
  {
    var t := Acquired(c, s, list, duration);
    RequestedSettings(c, s, t, list, duration, 0);
    RequestedSettings(c, t, s, list, 0, duration);
    LastAskedTwice(list, CMD_PRIORITY, s.priority);
  }

  // The list last applied to each slot.
  type Lists = map<int, Request>

  ghost predicate Recorded(c: Cfgs, y: Sys, lists: Lists)
    requires SaneCfgs(c)
  {
    forall i :: 0 <= i < |y.scns| && y.scns[i].state.ON? ==> i in lists && Settled(c, y.scns[i], lists[i])
  }

  function Record(y: Sys, lists: Lists, op: Op): Lists {
    match op
    case OpAcquire(handle, list, _, _) =>
      var i := Find(y.scns, handle);
      if Valid(list) && i != -1 then lists[i := list] else lists
    case _ => lists
  }

  // The comparison says whether the list is the one last applied, and no live scenario is
  // given a lower priority.
  ghost predicate AsMeant(c: Cfgs, y: Sys, lists: Lists, op: Op)
    requires SaneCfgs(c) && Shape(c, y)
  {
    match op
    case OpAcquire(handle, list, duration, bufferEqual) =>
      var i := Find(y.scns, handle);
      i != -1 && y.scns[i].state.ON? ==>
        && (bufferEqual <==> i in lists && lists[i] == list)
        && Acquired(c, y.scns[i], list, duration).priority <= y.scns[i].priority
    case _ => true
  }

  lemma {:induction false} AsMeantIsFair(c: Cfgs, y: Sys, lists: Lists, op: Op, full: bool)
    requires Inv(c, y, full) && Recorded(c, y, lists) && AsMeant(c, y, lists, op)
    ensures Fair(c, y, op, full)
  {
    hide Strands, TablesGood;
    match op
    case OpAcquire(handle, list, duration, bufferEqual) =>
      var i := Find(y.scns, handle);
      if Valid(list) && i != -1 {
        var s, t := y.scns[i], Acquired(c, y.scns[i], list, duration);
        AcquiredLegal(c, s, list, duration);
        if TakesForceUpdate(s, list, bufferEqual) {
          NoDemotionIsSafe(c, y, i, t, full);
        } else if s.state.ON? {
          RequestedSettings(c, s, s, list, duration, 0);
          RequestedSettings(c, s, s, list, 0, duration);
          UnchangedIsSafe(c, y, i, t, full);
        } else {
          OffIsSafe(c, y, i, t, full);
        }
      }
    case _ =>
  }

  lemma {:induction false} OffIsSafe(c: Cfgs, y: Sys, i: nat, s: Scn, full: bool)
    requires Shape(c, y) && i < |y.scns| && ScnShape(c, s) && !y.scns[i].state.ON?
    ensures !Strands(c, y, i, s, false, full)
  {
  }

  // Apart from an acquire no call switches a scenario on or touches the settings of one that is.
  lemma {:induction false} OnSlotsKept(c: Cfgs, y: Sys, op: Op, full: bool)
    requires Inv(c, y, full) && !op.OpAcquire?
    ensures var z := Step(c, y, op); forall i :: 0 <= i < |z.scns| && z.scns[i].state.ON? ==> z.scns[i] == y.scns[i]
  {
    hide TablesGood, HandlesOk, ReapFrom, ScreenOffFrom;
    match op
    case OpCheckHdl(alive, handle, hint, size, pid, duration) => ReapKeeps(c, y, alive, 0, full);
    case OpRel(handle) =>
      if Find(y.scns, handle) != -1 {
        ReleaseKeeps(c, y, Find(y.scns, handle), full);
      }
    case OpScreenOff(alive) => ScreenOffKeeps(c, y, alive, 0, full);
    case OpCheckAll(alive) => ReapKeeps(c, y, alive, 0, full);
  }

  lemma {:induction false} RecordedKept(c: Cfgs, y: Sys, lists: Lists, op: Op, full: bool)
    requires Inv(c, y, full) && Recorded(c, y, lists)
    ensures Recorded(c, Step(c, y, op), Record(y, lists, op))
  {
    hide Settled, TablesGood, HandlesOk;
    match op
    case OpAcquire(handle, list, duration, bufferEqual) =>
      var i := Find(y.scns, handle);
      if Valid(list) && i != -1 {
        var t := Acquired(c, y.scns[i], list, duration);
        AcquireIsChange(c, y, handle, list, duration, bufferEqual);
        AcquiredIsSettled(c, y.scns[i], list, duration);
        assert t.(state := ON) == t && y.scns[i := t][i := t] == y.scns[i := t];
      }
    case _ => OnSlotsKept(c, y, op, full);
  }

  ghost predicate RunAsMeant(c: Cfgs, y: Sys, lists: Lists, ops: seq<Op>)
    requires SaneCfgs(c) && Shape(c, y)
    decreases |ops|
  {
    ops == [] || (AsMeant(c, y, lists, ops[0]) && RunAsMeant(c, Step(c, y, ops[0]), Record(y, lists, ops[0]), ops[1..]))
  }

  lemma {:induction false} RunAsMeantIsFair(c: Cfgs, y: Sys, lists: Lists, ops: seq<Op>, full: bool)
    requires Inv(c, y, full) && Recorded(c, y, lists) && RunAsMeant(c, y, lists, ops)
    ensures FairRun(c, y, ops, full)
    decreases |ops|
  {
    hide Inv, Fair, AsMeant, Recorded;
    InvShape(c, y, full);
    if ops != [] {
      AsMeantIsFair(c, y, lists, ops[0], full);
      StepExact(c, y, ops[0], full);
      RecordedKept(c, y, lists, ops[0], full);
      RunAsMeantIsFair(c, Step(c, y, ops[0]), Record(y, lists, ops[0]), ops[1..], full);
    }
  }

  // Were the comparison made with the list last applied, every run from boot in which no live
  // scenario is demoted would keep everything right, setters and hardware included.
  lemma {:induction false} MeantRunsOptimal(c: Cfgs, rscValid: seq<bool>, conValid: seq<bool>, ops: seq<Op>)
    requires SaneCfgs(c) && |rscValid| == |c.rsc| && |conValid| == |c.con|
    requires RunAsMeant(c, Boot(c, rscValid, conValid), map[], ops)
    ensures AllAlong(c, Boot(c, rscValid, conValid), ops, true)
  {
    BootInv(c, rscValid, conValid, true);
    RunAsMeantIsFair(c, Boot(c, rscValid, conValid), map[], ops, true);
    RunExact(c, Boot(c, rscValid, conValid), ops, true);
  }

  // ---------- history does not matter ----------

  // The same requests in force for every resource, in whatever slots.
  ghost predicate SameOffers(c: Cfgs, y: Sys, z: Sys)
    requires Shape(c, y) && Shape(c, z)
  {
    && (forall k :: 0 <= k < |c.rsc| ==>
        Offers(c.rsc[k], RscBids(c, y.scns, k)) == Offers(c.rsc[k], RscBids(c, z.scns, k)))
    && (forall k :: 0 <= k < |c.con| ==>
        Offers(c.con[k], ConBids(c, y.scns, k)) == Offers(c.con[k], ConBids(c, z.scns, k)))
  }

  ghost predicate SameValues(c: Cfgs, y: Sys, z: Sys)
    requires Shape(c, y) && Shape(c, z)
  {
    && (forall k :: 0 <= k < |c.rsc| && y.rsc[k].isValid && z.rsc[k].isValid ==>
          y.rsc[k].curVal == z.rsc[k].curVal && y.rsc[k].priority == z.rsc[k].priority)
    && (forall k :: 0 <= k < |c.con| && y.con[k].isValid && z.con[k].isValid ==>
          y.con[k].curVal == z.con[k].curVal && y.con[k].priority == z.con[k].priority)
  }

  lemma {:induction false} StatesConfluent(c: Cfgs, y: Sys, z: Sys)
    requires Inv(c, y, false) && Inv(c, z, false) && SameOffers(c, y, z)
    ensures SameValues(c, y, z)
  {
    forall k | 0 <= k < |c.rsc| && y.rsc[k].isValid && z.rsc[k].isValid
      ensures y.rsc[k].curVal == z.rsc[k].curVal && y.rsc[k].priority == z.rsc[k].priority
    {
      assert RscGood(c, y, k, false) && RscGood(c, z, k, false);
      Confluence(c.rsc[k], RscBids(c, y.scns, k), y.rsc[k], RscBids(c, z.scns, k), z.rsc[k]);
    }
    forall k | 0 <= k < |c.con| && y.con[k].isValid && z.con[k].isValid
      ensures y.con[k].curVal == z.con[k].curVal && y.con[k].priority == z.con[k].priority
    {
      assert ConGood(c, y, k) && ConGood(c, z, k);
      Confluence(c.con[k], ConBids(c, y.scns, k), Whole(y.con[k]), ConBids(c, z.scns, k), Whole(z.con[k]));
    }
  }

  // Two runs that end with the same requests in force end with the same effective values,
  // whatever calls led there, in whatever order, through whatever slots.
  lemma {:induction false} RunsConfluent(c: Cfgs, rscValid: seq<bool>, conValid: seq<bool>, ops: seq<Op>, ops': seq<Op>)
    requires SaneCfgs(c) && |rscValid| == |c.rsc| && |conValid| == |c.con|
    requires var boot := Boot(c, rscValid, conValid);
             && FairRun(c, boot, ops, false) && FairRun(c, boot, ops', false)
             && SameOffers(c, Run(c, boot, ops), Run(c, boot, ops'))
    ensures var boot := Boot(c, rscValid, conValid); SameValues(c, Run(c, boot, ops), Run(c, boot, ops'))
  {
    var boot := Boot(c, rscValid, conValid);
    EveryRunOptimal(c, rscValid, conValid, ops, false);
    EveryRunOptimal(c, rscValid, conValid, ops', false);
    StatesConfluent(c, Run(c, boot, ops), Run(c, boot, ops'));
  }

  // Enabling a scenario that is off and disabling it again restores every effective value.
  lemma {:induction false} EnableDisableRestores(c: Cfgs, y: Sys, i: nat)
    requires Inv(c, y, false) && i < |y.scns| && y.scns[i].state.OFF? && !y.scns[i].kind.FREE?
    ensures var z := DisableScn(c, EnableScn(c, y, i), i);
            && z.scns == y.scns && SameValues(c, y, z)
            && (forall k :: 0 <= k < |c.rsc| ==> z.rsc[k].isValid == y.rsc[k].isValid)
            && (forall k :: 0 <= k < |c.con| ==> z.con[k].isValid == y.con[k].isValid)
  {
    var s := y.scns[i].(state := ON);
    var on := ChangeScn(c, y, i, s, false);
    assert y.scns[i := s][i := s] == y.scns[i := s];
    assert on == EnableScn(c, y, i);
    EnableScnKeeps(c, y, i, s, false);
    ChangeKeepsRest(c, y, i, s, false, false);
    DisableKeepsInv(c, on, i, false);
    var z := DisableScn(c, on, i);
    assert z.scns == y.scns;
    StatesConfluent(c, y, z);
    BidsLegal(c, z.scns);
    forall k | 0 <= k < |c.con| ensures z.con[k].isValid == y.con[k].isValid {
      ConValues(c.con[k], on.con[k], ConBid(z.scns[i], k), ConBids(c, z.scns, k), false);
    }
  }
}
