/** The performance service in place: the arrays of scenario slots and resource entries,
    updated by loops.  Every method is specified by the step of `PerfServiceSpec` it performs. */
module PerfService {
  import opened Arbitration
  import opened PerfServiceSpec

  class Service {
    const c: Cfgs
    const scns: array<Scn>
    const rsc: array<Entry>
    const con: array<ConEntry>
    var now: int
    var allocs: nat  // how many handles were ever handed out; only the proofs look at it

    ghost predicate Valid()
      reads this, scns, rsc, con
    {
      SaneCfgs(c) && scns.Length == REG_SCN_MAX && rsc.Length == |c.rsc| && con.Length == |c.con|
      && ScnsShape(c, scns[..]) && 0 <= now < HANDLE_RAND_MAX
    }

    ghost function Abs(): (y: Sys)
      requires Valid()
      reads this, scns, rsc, con
      ensures Shape(c, y)
    {
      Sys(scns[..], rsc[..], con[..], now, allocs)
    }

    constructor (cfgs: Cfgs, rscValid: seq<bool>, conValid: seq<bool>)
      requires SaneCfgs(cfgs) && |rscValid| == |cfgs.rsc| && |conValid| == |cfgs.con|
      ensures Valid() && c == cfgs && fresh(scns) && fresh(rsc) && fresh(con)
      ensures Abs() == Boot(cfgs, rscValid, conValid)
    {
      c := cfgs;
      now, allocs := 0, 0;
      scns := new Scn[REG_SCN_MAX](_ => FreeSlot(cfgs));
      rsc := new Entry[|cfgs.rsc|](k requires 0 <= k < |cfgs.rsc| && |rscValid| == |cfgs.rsc| =>
                                     InitialEntry(cfgs.rsc[k], rscValid[k]));
      con := new ConEntry[|cfgs.con|](k requires 0 <= k < |cfgs.con| && |conValid| == |cfgs.con| =>
                                        ConEntry(cfgs.con[k].ResetVal(), PRIORITY_LOWEST, conValid[k]));
      new;
      var y := Boot(cfgs, rscValid, conValid);
      assert scns[..] == y.scns;
      assert rsc[..] == y.rsc;
      assert con[..] == y.con;
    }

    method PerfScnEnable(i: nat)
      requires Valid() && i < REG_SCN_MAX
      modifies scns, rsc, con
      ensures Valid() && Abs() == EnableScn(c, old(Abs()), i)
    {
      ghost var y := EnableScn(c, Abs(), i);
      scns[i] := scns[i].(state := ON);
      assert scns[..] == y.scns;
      var s := scns[i];
      for k := 0 to con.Length
        modifies con
        invariant forall m :: 0 <= m < con.Length ==> con[m] == if m < k then y.con[m] else old(con[m])
      {
        if con[k].isValid && s.priority <= con[k].priority {
          var v, cfg := s.param[k], c.con[k];
          if cfg.comp.SMALLEST? {
            if (v < con[k].curVal && s.priority == con[k].priority)
               || (s.priority < con[k].priority && v != cfg.ResetVal()) {
              con[k] := con[k].(curVal := v, priority := s.priority);
            }
          } else {
            if (v > con[k].curVal && s.priority == con[k].priority)
               || (s.priority < con[k].priority && v != cfg.ResetVal()) {
              con[k] := con[k].(curVal := v, priority := s.priority);
            }
          }
        }
      }
      for k := 0 to rsc.Length
        modifies rsc
        invariant forall m :: 0 <= m < rsc.Length ==> rsc[m] == if m < k then y.rsc[m] else old(rsc[m])
      {
        if rsc[k].isValid && s.priority <= rsc[k].priority {
          var v, cfg := s.rsc[k], c.rsc[k];
          if cfg.comp.SMALLEST? {
            if (v < rsc[k].curVal && s.priority == rsc[k].priority)
               || (s.priority < rsc[k].priority && v != cfg.ResetVal()) {
              rsc[k] := rsc[k].(curVal := v, curSetter := s.pid, curSetterHint := s.hint,
                                priority := s.priority, pushed := Set(v));
            }
          } else {
            if (v > rsc[k].curVal && s.priority == rsc[k].priority)
               || (s.priority < rsc[k].priority && v != cfg.ResetVal()) {
              rsc[k] := rsc[k].(curVal := v, curSetter := s.pid, curSetterHint := s.hint,
                                priority := s.priority, pushed := Set(v));
            }
          }
        }
      }
      assert con[..] == y.con && rsc[..] == y.rsc;
    }

    // A scenario that is on and stronger than what was found so far becomes the setter.
    method Weigh(k: nat, s: Scn, numToSet0: int, priority0: int) returns (numToSet: int, priority: int)
      requires k < rsc.Length == |c.rsc| && ScnShape(c, s)
      modifies rsc
      ensures var e := old(rsc[k]);
              var best := Consider(c.rsc[k], Best(numToSet0, priority0, e.curSetter, e.curSetterHint), RscBid(s, k));
              && numToSet == best.val && priority == best.priority
              && rsc[k] == e.(curSetter := best.setter, curSetterHint := best.hint)
      ensures forall m :: 0 <= m < rsc.Length && m != k ==> rsc[m] == old(rsc[m])
    {
      var cfg, v := c.rsc[k], s.rsc[k];
      numToSet, priority := numToSet0, priority0;
      if cfg.comp.SMALLEST? {
        if s.state.ON? && v < cfg.ResetVal() {
          if (s.priority == priority && v < numToSet) || s.priority < priority {
            numToSet, priority := v, s.priority;
            rsc[k] := rsc[k].(curSetter := s.pid, curSetterHint := s.hint);
          }
        }
      } else {
        if s.state.ON? && v > cfg.ResetVal() {
          if (s.priority == priority && v > numToSet) || s.priority < priority {
            numToSet, priority := v, s.priority;
            rsc[k] := rsc[k].(curSetter := s.pid, curSetterHint := s.hint);
          }
        }
      }
    }

    // One resource: look for the strongest request among the scenarios that are on.
    method RescanResource(k: nat)
      requires Valid() && k < rsc.Length
      modifies rsc
      ensures Valid()
      ensures rsc[k] == Rescan(c.rsc[k], old(rsc[k]), RscBids(c, scns[..], k))
      ensures forall m :: 0 <= m < rsc.Length && m != k ==> rsc[m] == old(rsc[m])
    {
      var cfg, numofCurr := c.rsc[k], rsc[k].curVal;
      var numToSet, priority := cfg.ResetVal(), PRIORITY_LOWEST;
      ghost var bids := RscBids(c, scns[..], k);
      for i := 0 to scns.Length
        invariant var best := Scan(cfg, bids[..i]);
                  && numToSet == best.val && priority == best.priority
                  && (numToSet != cfg.ResetVal() ==>
                      rsc[k].curSetter == best.setter && rsc[k].curSetterHint == best.hint)
                  && (numToSet == cfg.ResetVal() ==> best.setter == -1 && best.hint == -1)
                  && rsc[k] == old(rsc[k]).(curSetter := rsc[k].curSetter, curSetterHint := rsc[k].curSetterHint)
        invariant forall m :: 0 <= m < rsc.Length && m != k ==> rsc[m] == old(rsc[m])
      {
        assert bids[..i + 1][..i] == bids[..i] && bids[..i + 1][i] == RscBid(scns[i], k);
        numToSet, priority := Weigh(k, scns[i], numToSet, priority);
      }
      assert bids[..scns.Length] == bids;
      if numToSet == cfg.ResetVal() {
        rsc[k] := rsc[k].(curSetter := -1, curSetterHint := -1);
      }
      rsc[k] := rsc[k].(curVal := numToSet, priority := priority);
      if numToSet != numofCurr {
        if numToSet == cfg.ResetVal() {
          rsc[k] := rsc[k].(pushed := Unset(cfg.defaultVal));
        } else {
          rsc[k] := rsc[k].(pushed := Set(numToSet));
        }
      }
    }

    method RescanControl(k: nat)
      requires Valid() && k < con.Length
      modifies con
      ensures Valid()
      ensures con[k] == ConScan(c.con[k], old(con[k].isValid), ConBids(c, scns[..], k))
      ensures forall m :: 0 <= m < con.Length && m != k ==> con[m] == old(con[m])
    {
      var cfg := c.con[k];
      var numToSet, priority := cfg.ResetVal(), PRIORITY_LOWEST;
      ghost var bids, valid := ConBids(c, scns[..], k), con[k].isValid;
      for i := 0 to scns.Length
        invariant ConEntry(numToSet, priority, valid) == ConScan(cfg, valid, bids[..i])
      {
        assert bids[..i + 1][..i] == bids[..i] && bids[..i + 1][i] == ConBid(scns[i], k);
        var s := scns[i];
        var v := s.param[k];
        if s.state.ON? && v != cfg.ResetVal() {
          if s.priority == priority {
            if cfg.comp.SMALLEST? {
              numToSet := if v < numToSet then v else numToSet;
            } else {
              numToSet := if v > numToSet then v else numToSet;
            }
          } else if s.priority < priority {
            numToSet, priority := v, s.priority;
          }
        }
      }
      assert bids[..scns.Length] == bids;
      con[k] := con[k].(curVal := numToSet, priority := priority);
    }

    // force == false switches the scenario off; force == true re-evaluates its changed requests.
    method PerfScnUpdate(i: nat, force: bool)
      requires Valid() && i < REG_SCN_MAX
      modifies scns, rsc, con
      ensures Valid()
      ensures Abs() == if force then ForceUpdateScn(c, old(Abs()), i) else DisableScn(c, old(Abs()), i)
    {
      hide ForceUpdate, Disable, ConForceUpdate, ConDisable;
      if scns[i].state.OFF? {
        return;
      }
      ghost var y := if force then ForceUpdateScn(c, Abs(), i) else DisableScn(c, Abs(), i);
      if !force {
        scns[i] := scns[i].(state := OFF);
      }
      assert scns[..] == y.scns;
      var s := scns[i];
      for k := 0 to con.Length
        modifies con
        invariant scns[..] == y.scns && s == y.scns[i]
        invariant forall m :: 0 <= m < con.Length ==> con[m] == if m < k then y.con[m] else old(con[m])
      {
        UpdateControl(i, k, force);
      }
      for k := 0 to rsc.Length
        modifies rsc
        invariant scns[..] == y.scns && s == y.scns[i]
        invariant forall m :: 0 <= m < rsc.Length ==> rsc[m] == if m < k then y.rsc[m] else old(rsc[m])
      {
        UpdateResource(i, k, force);
      }
      assert con[..] == y.con && rsc[..] == y.rsc;
    }

    method UpdateControl(i: nat, k: nat, force: bool)
      requires Valid() && i < REG_SCN_MAX && k < con.Length
      modifies con
      ensures Valid()
      ensures var e, b, bids := old(con[k]), ConBid(scns[i], k), ConBids(c, scns[..], k);
              con[k] == if force then ConForceUpdate(c.con[k], e, b, bids) else ConDisable(c.con[k], e, b, bids)
      ensures forall m :: 0 <= m < con.Length && m != k ==> con[m] == old(con[m])
    {
      if con[k].isValid && scns[i].priority <= con[k].priority {
        var v, cfg := scns[i].param[k], c.con[k];
        if force
           || (cfg.comp.SMALLEST? && v < cfg.ResetVal() && v <= con[k].curVal)
           || (cfg.comp.BIGGEST? && v > cfg.ResetVal() && v >= con[k].curVal) {
          RescanControl(k);
        }
      }
    }

    method UpdateResource(i: nat, k: nat, force: bool)
      requires Valid() && i < REG_SCN_MAX && k < rsc.Length
      modifies rsc
      ensures Valid()
      ensures var e, b, bids := old(rsc[k]), RscBid(scns[i], k), RscBids(c, scns[..], k);
              rsc[k] == if force then ForceUpdate(c.rsc[k], e, b, bids) else Disable(c.rsc[k], e, b, bids)
      ensures forall m :: 0 <= m < rsc.Length && m != k ==> rsc[m] == old(rsc[m])
    {
      if rsc[k].isValid && scns[i].priority <= rsc[k].priority {
        var v, cfg := scns[i].rsc[k], c.rsc[k];
        if force
           || (cfg.comp.SMALLEST? && v < cfg.ResetVal() && v <= rsc[k].curVal)
           || (cfg.comp.BIGGEST? && v > cfg.ResetVal() && v >= rsc[k].curVal) {
          RescanResource(k);
        }
      }
    }

    method ResetScenario(i: nat, resetAll: bool)
      requires Valid() && i < REG_SCN_MAX
      modifies scns
      ensures Valid()
      ensures scns[..] == old(scns[..])[i := if resetAll then FreeSlot(c) else ClearRequests(c, old(scns[i]))]
    {
      var s := scns[i];
      if resetAll {
        s := s.(handle := -1, kind := FREE, state := OFF, pid := -1, listSize := 0, duration := 0,
                hint := -1, priority := NORMAL_PRIORITY, born := 0);
      }
      s := s.(screenOff := SCREEN_OFF_DISABLE);
      for k := 0 to |c.con|
        invariant |s.param| == |c.con| && s == (if resetAll then FreeSlot(c) else ClearRequests(c, old(scns[i])))
                                                .(rsc := s.rsc, param := s.param)
        invariant s.rsc == old(scns[i]).rsc
        invariant forall m :: 0 <= m < k ==> s.param[m] == c.con[m].ResetVal()
      {
        s := s.(param := s.param[k := c.con[k].ResetVal()]);
      }
      assert s.param == Resets(c.con);
      for k := 0 to |c.rsc|
        invariant |s.rsc| == |c.rsc|
            && s == (if resetAll then FreeSlot(c) else ClearRequests(c, old(scns[i]))).(rsc := s.rsc)
        invariant forall m :: 0 <= m < k ==> s.rsc[m] == c.rsc[m].ResetVal()
      {
        s := s.(rsc := s.rsc[k := c.rsc[k].ResetVal()]);
      }
      assert s.rsc == Resets(c.rsc);
      scns[i] := s;
    }

    method CmdSetting(i: nat, cmd: int, param: int)
      requires Valid() && i < REG_SCN_MAX
      modifies scns
      ensures Valid()
      ensures scns[..] == old(scns[..])[i := ApplyCommand(c, old(scns[i]), cmd, param)]
    {
      if cmd < 0 || cmd in OTHER_COMMANDS {
        return;
      }
      if cmd == CMD_SCREEN_OFF_STATE {
        scns[i] := scns[i].(screenOff := param);
        return;
      }
      if cmd == CMD_PRIORITY {
        scns[i] := scns[i].(priority := param);
        return;
      }
      var s := scns[i];
      ghost var t := ApplyCommand(c, s, cmd, param);
      for k := 0 to |c.con|
        invariant ScnShape(c, s) && s == old(scns[i]).(param := s.param)
        invariant forall m :: 0 <= m < |c.con| ==> s.param[m] == if m < k then t.param[m] else old(scns[i]).param[m]
      {
        if c.con[k].cmdId == cmd {
          var v := if c.con[k].minVal <= param <= c.con[k].maxVal then param
                   else if param < c.con[k].minVal then c.con[k].minVal else c.con[k].maxVal;
          s := s.(param := s.param[k := v]);
        }
      }
      assert s.param == t.param;
      for k := 0 to |c.rsc|
        invariant ScnShape(c, s) && s == old(scns[i]).(param := t.param, rsc := s.rsc)
        invariant forall m :: 0 <= m < |c.rsc| ==> s.rsc[m] == if m < k then t.rsc[m] else old(scns[i]).rsc[m]
      {
        if c.rsc[k].cmdId == cmd {
          var v := if c.rsc[k].minVal <= param <= c.rsc[k].maxVal then param
                   else if param < c.rsc[k].minVal then c.rsc[k].minVal else c.rsc[k].maxVal;
          s := s.(rsc := s.rsc[k := v]);
        }
      }
      assert s.rsc == t.rsc;
      scns[i] := s;
    }

    method AllocNewHandleNum() returns (h: int)
      requires 0 <= now < HANDLE_RAND_MAX
      modifies this
      ensures h == now == NextHandle(old(now)) && 0 < now < HANDLE_RAND_MAX
      ensures allocs == old(allocs) + 1
    {
      now := (now + 1) % HANDLE_RAND_MAX;
      if now == 0 {
        now := now + 1;
      }
      allocs := allocs + 1;
      h := now;
    }

    method FindHandleToIndex(handle: int) returns (idx: int)
      requires Valid()
      ensures idx == Find(scns[..], handle)
    {
      if handle <= 0 {
        return -1;
      }
      idx := -1;
      var i := 0;
      while i < scns.Length
        invariant 0 <= i <= scns.Length
        invariant FindFrom(scns[..], handle, 0) == FindFrom(scns[..], handle, i)
      {
        if !scns[i].kind.FREE? && handle == scns[i].handle {
          return i;
        }
        i := i + 1;
      }
    }

    method RegisterSlot(i: nat, hint: int, pid: int, duration: int) returns (handle: int)
      requires Valid() && i < REG_SCN_MAX
      modifies this, scns
      ensures Valid() && Abs() == Register(c, old(Abs()), i, hint, pid, duration)
      ensures handle == NextHandle(old(now))
    {
      handle := AllocNewHandleNum();
      ResetScenario(i, true);
      if hint != -1 {
        scns[i] := scns[i].(kind := CUS_POWER_HINT, hint := hint);
      } else {
        scns[i] := scns[i].(kind := PERF_LOCK_HINT);
      }
      scns[i] := scns[i].(handle := handle, duration := duration, pid := pid, state := OFF, born := allocs);
      assert scns[..] == Register(c, old(Abs()), i, hint, pid, duration).scns;
    }

    method FindFreeSlot() returns (idx: int)
      requires Valid()
      ensures idx == FirstFree(scns[..], 0)
    {
      var i := 0;
      while i < scns.Length
        invariant 0 <= i <= scns.Length && FirstFree(scns[..], 0) == FirstFree(scns[..], i)
      {
        if scns[i].kind.FREE? {
          return i;
        }
        i := i + 1;
      }
      return -1;
    }

    method ReleaseSlot(i: nat)
      requires Valid() && i < REG_SCN_MAX
      modifies scns, rsc, con
      ensures Valid() && Abs() == Release(c, old(Abs()), i)
    {
      PerfScnUpdate(i, false);
      ResetScenario(i, true);
    }

    method PerfUserScnCheckAll(alive: set<int>)
      requires Valid()
      modifies scns, rsc, con
      ensures Valid() && Abs() == ReapFrom(c, old(Abs()), alive, 0)
    {
      for i := 0 to scns.Length
        invariant Valid() && ReapFrom(c, Abs(), alive, i) == ReapFrom(c, old(Abs()), alive, 0)
      {
        var s := scns[i];
        if !s.kind.FREE? && s.screenOff != SCREEN_OFF_ALWAYS_VALID {
          var setDuration := s.duration > 0 && s.duration <= USER_DURATION_MAX;
          if s.pid !in alive && !setDuration {
            ReleaseSlot(i);
          }
        }
      }
    }

    method PerfUserScnDisableAll(alive: set<int>)
      requires Valid()
      modifies scns, rsc, con
      ensures Valid() && Abs() == ScreenOffFrom(c, old(Abs()), alive, 0)
    {
      for i := 0 to scns.Length
        invariant Valid() && ScreenOffFrom(c, Abs(), alive, i) == ScreenOffFrom(c, old(Abs()), alive, 0)
      {
        ScreenOffOne(i, alive);
      }
    }

    method ScreenOffOne(i: nat, alive: set<int>)
      requires Valid() && i < REG_SCN_MAX
      modifies scns, rsc, con
      ensures Valid() && Abs() == ScreenOffSlot(c, old(Abs()), alive, i)
    {
      var s := scns[i];
      if s.kind.FREE? || s.screenOff == SCREEN_OFF_ALWAYS_VALID {
        return;
      }
      if s.state.ON? && s.screenOff != SCREEN_OFF_ENABLE {
        PerfScnUpdate(i, false);
        if scns[i].screenOff == SCREEN_OFF_WAIT_RESTORE {
          scns[i] := scns[i].(state := WAIT_RESTORE);
        }
      }
      if (s.kind.USER_HINT? || s.kind.PERF_LOCK_HINT?) && s.pid !in alive {
        ReleaseSlot(i);
      }
    }

    method PerfLockCheckHdl(alive: set<int>, handle: int, hint: int, size: int, pid: int, duration: int)
      returns (ret: int)
      requires Valid()
      modifies this, scns, rsc, con
      ensures Valid()
      ensures (Abs(), ret) == CheckHdl(c, old(Abs()), alive, handle, hint, size, pid, duration)
    {
      if size > MAX_ARGS_PER_REQUEST || size == 0 {
        return 0;
      }
      if pid !in alive && (duration == 0 || duration > USER_DURATION_MAX) {
        return 0;
      }
      var idx := FindHandleToIndex(handle);
      if idx != -1 {
        return handle;
      }
      idx := FindFreeSlot();
      if idx == -1 {
        PerfUserScnCheckAll(alive);
        idx := FindFreeSlot();
      }
      if idx == -1 {
        return 0;
      }
      ret := RegisterSlot(idx, hint, pid, duration);
    }

    method PerfLockAcq(list: Request, handle: int, duration: int, bufferEqual: bool) returns (ret: int)
      requires Valid()
      modifies scns, rsc, con
      ensures Valid()
      ensures (Abs(), ret) == Acquire(c, old(Abs()), handle, list, duration, bufferEqual)
    {
      var size := 2 * |list|;
      if size > MAX_ARGS_PER_REQUEST || size == 0 {
        return 0;
      }
      var idx := FindHandleToIndex(handle);
      if idx == -1 {
        return 0;
      }
      ResetScenario(idx, false);
      scns[idx] := scns[idx].(duration := duration);
      var hdlEnabled := scns[idx].state.ON?;
      var rscModified := false;
      if hdlEnabled {
        if scns[idx].listSize != size || !bufferEqual {
          rscModified := true;
          scns[idx] := scns[idx].(listSize := size);
        }
      } else {
        scns[idx] := scns[idx].(listSize := size);
      }
      ghost var cleared := ClearRequests(c, old(scns[idx])).(duration := duration, listSize := size);
      assert scns[..] == old(scns[..])[idx := cleared];
      ApplyList(idx, list);
      assert scns[..] == old(scns[..])[idx := Requested(c, old(scns[idx]), list, duration)];
      assert Abs() == old(Abs()).(scns := scns[..]);
      if hdlEnabled && rscModified {
        PerfScnUpdate(idx, true);
      } else {
        PerfScnEnable(idx);
      }
      ret := handle;
    }

    method ApplyList(idx: nat, list: Request)
      requires Valid() && idx < REG_SCN_MAX
      modifies scns
      ensures Valid() && scns[..] == old(scns[..])[idx := ApplyRequest(c, old(scns[idx]), list)]
    {
      for i := 0 to |list|
        invariant Valid() && scns[..] == old(scns[..])[idx := ApplyRequest(c, old(scns[idx]), list[..i])]
      {
        assert list[..i + 1][..i] == list[..i];
        CmdSetting(idx, list[i].0, list[i].1);
      }
      assert list[..|list|] == list;
    }

    method PerfLockRel(handle: int) returns (ret: int)
      requires Valid()
      modifies scns, rsc, con
      ensures Valid()
      ensures (Abs(), ret) == Rel(c, old(Abs()), handle)
    {
      var idx := FindHandleToIndex(handle);
      if idx < 0 || idx >= REG_SCN_MAX {
        return -1;
      }
      PerfScnUpdate(idx, false);
      if scns[idx].state.ON? {
        return -1;
      }
      ResetScenario(idx, true);
      ret := 0;
    }
  }
}
