/** What each call of the service means to its callers, without a word about how it is done. */
module PerfServiceLaws {
  import opened Arbitration
  import opened PerfServiceSpec
  import opened PerfServiceProofs

  predicate Live(y: Sys, handle: int) {
    handle > 0 && exists i :: 0 <= i < |y.scns| && !y.scns[i].kind.FREE? && y.scns[i].handle == handle
  }

  lemma {:induction false} LiveIsFound(y: Sys, handle: int)
    ensures Live(y, handle) <==> Find(y.scns, handle) != -1
    ensures Live(y, handle) ==> var i := Find(y.scns, handle); 0 <= i < |y.scns| && y.scns[i].handle == handle
  {
    if handle > 0 && FindFrom(y.scns, handle, 0) == -1 && Live(y, handle) {
      var i :| 0 <= i < |y.scns| && !y.scns[i].kind.FREE? && y.scns[i].handle == handle;
      assert Owns(y.scns[i], handle);
    }
  }

  // ---------- checking a handle ----------

  // A request may be empty no more than it may be too long, and a dead caller must set a bound.
  predicate MayCheck(alive: set<int>, size: int, pid: int, duration: int) {
    size != 0 && size <= 600 && (pid in alive || (duration != 0 && duration <= 30000))
  }

  // A live handle is returned unchanged, and a call that is refused returns 0; neither changes
  // anything.
  lemma {:induction false} CheckHdlAnswers(c: Cfgs, y: Sys, alive: set<int>, handle: int, hint: int, size: int,
                                           pid: int, duration: int)
    requires Shape(c, y)
    ensures var r := CheckHdl(c, y, alive, handle, hint, size, pid, duration);
            && (!MayCheck(alive, size, pid, duration) ==> r == (y, 0))
            && (MayCheck(alive, size, pid, duration) && Live(y, handle) ==> r == (y, handle))
            && (MayCheck(alive, size, pid, duration) && !Live(y, handle) && r.1 != 0 ==> r.1 == NextHandle(y.now))
  {
    LiveIsFound(y, handle);
    ReapLeavesCounter(c, y, alive, 0);
  }

  lemma {:induction false} ReapLeavesCounter(c: Cfgs, y: Sys, alive: set<int>, i: nat)
    requires Shape(c, y) && i <= |y.scns|
    ensures ReapFrom(c, y, alive, i).now == y.now
    decreases |y.scns| - i
  {
    if i < |y.scns| {
      ReapLeavesCounter(c, if Reapable(y.scns[i], alive) then Release(c, y, i) else y, alive, i + 1);
    }
  }

  // A new handle comes with a slot that is the caller's, off, and at normal priority.
  lemma {:induction false} CheckHdlSlot(c: Cfgs, y: Sys, alive: set<int>, handle: int, hint: int, size: int,
                                        pid: int, duration: int, full: bool)
    requires Inv(c, y, full) && MayCheck(alive, size, pid, duration) && !Live(y, handle)
    ensures var r := CheckHdl(c, y, alive, handle, hint, size, pid, duration);
            r.1 != 0 ==>
              exists i :: 0 <= i < |r.0.scns| && var s := r.0.scns[i];
                && s.handle == r.1 && s.pid == pid && s.duration == duration && s.hint == hint
                && (s.kind.CUS_POWER_HINT? <==> hint != -1) && (s.kind.PERF_LOCK_HINT? <==> hint == -1)
                && s.state.OFF? && s.priority == 3 && s.screenOff == SCREEN_OFF_DISABLE
  {
    LiveIsFound(y, handle);
    ReapKeeps(c, y, alive, 0, full);
    var z := if FirstFree(y.scns, 0) != -1 then y else ReapFrom(c, y, alive, 0);
    var i := FirstFree(z.scns, 0);
    if i != -1 {
      var w := Register(c, z, i, hint, pid, duration);
      assert w.scns[i].handle == NextHandle(z.now);
    }
  }

  // ---------- the sweeps ----------

  // Whether a slot may outlive its process.
  predicate Protected(s: Scn) {
    s.screenOff == SCREEN_OFF_ALWAYS_VALID || 1 <= s.duration <= 30000
  }

  // The living keep their slots; what is still in use is alive or protected; what was freed was
  // neither.
  lemma {:induction false} SweepFreesTheDead(c: Cfgs, y: Sys, alive: set<int>, full: bool)
    requires Inv(c, y, full)
    ensures var z := Step(c, y, OpCheckAll(alive));
            forall i :: 0 <= i < |y.scns| ==>
              var s, t := y.scns[i], z.scns[i];
              && (s.pid in alive || Protected(s) ==> t == s)
              && (!t.kind.FREE? ==> t == s && (t.pid in alive || Protected(t)))
              && (!s.kind.FREE? && t.kind.FREE? ==> s.pid !in alive && !Protected(s))
  {
    ReapKeeps(c, y, alive, 0, full);
  }

  // With the screen off nothing runs but what asked to; the dead holders of plain locks are gone;
  // nobody else loses a slot or a setting.
  lemma {:induction false} ScreenOffQuietens(c: Cfgs, y: Sys, alive: set<int>, full: bool)
    requires Inv(c, y, full)
    ensures var z := Step(c, y, OpScreenOff(alive));
            forall i :: 0 <= i < |y.scns| ==>
              var s, t := y.scns[i], z.scns[i];
              && (s.screenOff == SCREEN_OFF_ALWAYS_VALID ==> t == s)
              && (t.state.ON? ==> s.state.ON? && t.screenOff in {SCREEN_OFF_ENABLE, SCREEN_OFF_ALWAYS_VALID})
              && (s.state.ON? && s.screenOff == SCREEN_OFF_ENABLE && s.pid in alive ==> t == s)
              && (s.state.ON? && t.state.WAIT_RESTORE? ==> s.screenOff == SCREEN_OFF_WAIT_RESTORE)
              && (s.state.ON? && s.screenOff == SCREEN_OFF_WAIT_RESTORE && s.pid in alive ==> t.state.WAIT_RESTORE?)
              && (s.pid in alive || s.kind.CUS_POWER_HINT? ==> t == s.(state := t.state))
              && (s.pid !in alive && (s.kind.USER_HINT? || s.kind.PERF_LOCK_HINT?) ==>
                    t.kind.FREE? || s.screenOff == SCREEN_OFF_ALWAYS_VALID)
  {
    ScreenOffKeeps(c, y, alive, 0, full);
  }

  // ---------- acquiring and releasing ----------

  // An acquire answers with its handle iff the list is valid and the handle live, and then the
  // slot is on with exactly the settings the list asks for; otherwise it answers 0 and changes
  // nothing.  No other slot is touched.
  lemma {:induction false} AcquireAnswers(c: Cfgs, y: Sys, handle: int, list: Request, duration: int,
                                          bufferEqual: bool, full: bool)
    requires Inv(c, y, full)
    ensures var (z, r) := Acquire(c, y, handle, list, duration, bufferEqual);
            if 0 < |list| <= 300 && Live(y, handle) then
              && r == handle
              && var i := Find(y.scns, handle);
                 var s, t := y.scns[i], z.scns[i];
                 && (forall j :: 0 <= j < |y.scns| && j != i ==> z.scns[j] == y.scns[j])
                 && t.state.ON? && t.duration == duration && t.listSize == 2 * |list|
                 && t.handle == handle && t.kind == s.kind && t.pid == s.pid && t.hint == s.hint
                 && t.priority == LastAsked(list, CMD_PRIORITY, s.priority)
                 && t.screenOff == LastAsked(list, CMD_SCREEN_OFF_STATE, SCREEN_OFF_DISABLE)
                 && (forall k :: 0 <= k < |c.rsc| ==>
                       var id := c.rsc[k].cmdId;
                       t.rsc[k] == if IsSetting(id) && Asks(list, id) then Clamp(c.rsc[k], LastAsked(list, id, 0))
                                   else c.rsc[k].ResetVal())
                 && (forall k :: 0 <= k < |c.con| ==>
                       var id := c.con[k].cmdId;
                       t.param[k] == if IsSetting(id) && Asks(list, id) then Clamp(c.con[k], LastAsked(list, id, 0))
                                     else c.con[k].ResetVal())
            else z == y && r == 0
  {
    hide TablesGood, HandlesOk;
    LiveIsFound(y, handle);
    var i := Find(y.scns, handle);
    if Valid(list) && i != -1 {
      var s := y.scns[i];
      var cleared := ClearRequests(c, s).(duration := duration, listSize := 2 * |list|);
      AcquiredLegal(c, s, list, duration);
      AcquireIsChange(c, y, handle, list, duration, bufferEqual);
      RequestMeaning(c, cleared, list);
      var t := Acquired(c, s, list, duration);
      assert t.(state := ON) == t && y.scns[i := t][i := t] == y.scns[i := t];
    }
  }

  // A live scenario that acquires what it already has, and is recognised, disturbs no resource.
  lemma {:induction false} ReacquireIsIdle(c: Cfgs, y: Sys, handle: int, list: Request, duration: int)
    requires Inv(c, y, false) && Valid(list) && Live(y, handle)
    requires var s := y.scns[Find(y.scns, handle)];
             s.state.ON? && s.listSize == 2 * |list| && PerfServiceProofs.Settled(c, s, list)
    ensures var z := Acquire(c, y, handle, list, duration, true).0; z.rsc == y.rsc && z.con == y.con
  {
    LiveIsFound(y, handle);
    var i := Find(y.scns, handle);
    var s := y.scns[i];
    var r := Requested(c, s, list, duration);
    AcquiredLegal(c, s, list, duration);
    RequestedSettings(c, s, s, list, duration, 0);
    RequestedSettings(c, s, s, list, 0, duration);
    var x := y.(scns := y.scns[i := r]);
    SameBids(c, y, i, r);
    EnableOnIsIdle(c, x, i);
  }

  // Only what a bid shows matters to the tables.
  lemma {:induction false} SameBids(c: Cfgs, y: Sys, i: nat, s: Scn)
    requires Lawful(c, y) && i < |y.scns| && ScnLegal(c, s) && TablesGood(c, y, false)
    requires s.rsc == y.scns[i].rsc && s.param == y.scns[i].param && s.priority == y.scns[i].priority
    requires s.state == y.scns[i].state && s.pid == y.scns[i].pid && s.hint == y.scns[i].hint
    ensures var z := y.(scns := y.scns[i := s]); Lawful(c, z) && TablesGood(c, z, false)
  {
    var z := y.(scns := y.scns[i := s]);
    BidsUpdate(c, y.scns, i, s);
    forall k | 0 <= k < |c.rsc| ensures RscGood(c, z, k, false) {
      assert RscGood(c, y, k, false);
      assert RscBids(c, z.scns, k) == RscBids(c, y.scns, k);
    }
    forall k | 0 <= k < |c.con| ensures ConGood(c, z, k) {
      assert ConGood(c, y, k);
      assert ConBids(c, z.scns, k) == ConBids(c, y.scns, k);
    }
  }

  // A release answers 0 iff the handle is live, and then its slot is free and no other is touched;
  // otherwise it answers -1 and changes nothing.
  lemma {:induction false} RelAnswers(c: Cfgs, y: Sys, handle: int, full: bool)
    requires Inv(c, y, full)
    ensures var (z, r) := Rel(c, y, handle);
            if Live(y, handle) then
              && r == 0
              && var i := Find(y.scns, handle);
                 z.scns[i].kind.FREE? && z.scns[i].state.OFF? && z.scns[i].handle == -1
                 && forall j :: 0 <= j < |y.scns| && j != i ==> z.scns[j] == y.scns[j]
            else r == -1 && z == y
  {
    LiveIsFound(y, handle);
    if Find(y.scns, handle) != -1 {
      ReleaseKeeps(c, y, Find(y.scns, handle), full);
    }
  }
}
