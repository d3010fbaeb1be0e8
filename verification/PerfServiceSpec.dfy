/** The performance service as a state machine: scenario slots, the two resource tables
    and the handle counter.  Each locked API call is one step.  `PerfServiceProofs` says what
    every run keeps; the class in `PerfService` carries the steps out in place. */
module PerfServiceSpec {
  import opened Arbitration

  const REG_SCN_MAX: int := 256
  const HANDLE_RAND_MAX: int := 2147483645
  const USER_DURATION_MAX: int := 30000
  const MAX_ARGS_PER_REQUEST: int := 600
  const NORMAL_PRIORITY: int := 3

  const SCREEN_OFF_DISABLE: int := 0
  const SCREEN_OFF_ENABLE: int := 1
  const SCREEN_OFF_WAIT_RESTORE: int := 2
  const SCREEN_OFF_ALWAYS_VALID: int := 3

  const CMD_SCREEN_OFF_STATE: int := 0x03400000
  const CMD_PRIORITY: int := 0x0341c000
  // Commands that only touch fields outside this model (render pid, launch times, hints, one-shot).
  const OTHER_COMMANDS: set<int> :=
    {0x02000500, 0x0340c000, 0x0340c100, 0x0340c200, 0x03410000, 0x03410100,
     0x03410200, 0x03410400, 0x03410500, 0x03424000}

  datatype Kind = FREE | USER_HINT | CUS_POWER_HINT | PERF_LOCK_HINT

  datatype State = OFF | ON | WAIT_RESTORE

  /** A scenario slot.  `born` is the number of the allocation that produced its handle. */
  datatype Scn = Scn(handle: int, kind: Kind, state: State, pid: int, hint: int, duration: int,
                     screenOff: int, listSize: int, priority: int, born: nat,
                     rsc: seq<int>, param: seq<int>)

  datatype Cfgs = Cfgs(rsc: seq<Cfg>, con: seq<Cfg>)

  datatype Sys = Sys(scns: seq<Scn>, rsc: seq<Entry>, con: seq<ConEntry>, now: int, allocs: nat)

  type Request = seq<(int, int)>

  // ---------- shape ----------

  predicate ScnShape(c: Cfgs, s: Scn) {
    |s.rsc| == |c.rsc| && |s.param| == |c.con|
  }

  predicate ScnsShape(c: Cfgs, scns: seq<Scn>) {
    forall i :: 0 <= i < |scns| ==> ScnShape(c, scns[i])
  }

  predicate Shape(c: Cfgs, y: Sys) {
    |y.scns| == REG_SCN_MAX && |y.rsc| == |c.rsc| && |y.con| == |c.con| && ScnsShape(c, y.scns)
  }

  predicate SaneCfgs(c: Cfgs) {
    && (forall k :: 0 <= k < |c.rsc| ==> c.rsc[k].minVal <= c.rsc[k].maxVal)
    && (forall k :: 0 <= k < |c.con| ==> c.con[k].minVal <= c.con[k].maxVal)
  }

  function RscBid(s: Scn, k: nat): Bid
    requires k < |s.rsc|
  {
    Bid(s.state.ON?, s.priority, s.rsc[k], s.pid, s.hint)
  }

  function ConBid(s: Scn, k: nat): Bid
    requires k < |s.param|
  {
    Bid(s.state.ON?, s.priority, s.param[k], s.pid, s.hint)
  }

  function RscBids(c: Cfgs, scns: seq<Scn>, k: nat): (r: seq<Bid>)
    requires ScnsShape(c, scns) && k < |c.rsc|
    ensures |r| == |scns| && forall i :: 0 <= i < |r| ==> r[i] == RscBid(scns[i], k)
  {
    seq(|scns|, i requires 0 <= i < |scns| => RscBid(scns[i], k))
  }

  function ConBids(c: Cfgs, scns: seq<Scn>, k: nat): (r: seq<Bid>)
    requires ScnsShape(c, scns) && k < |c.con|
    ensures |r| == |scns| && forall i :: 0 <= i < |r| ==> r[i] == ConBid(scns[i], k)
  {
    seq(|scns|, i requires 0 <= i < |scns| => ConBid(scns[i], k))
  }

  // ---------- settings of one slot ----------

  function Resets(cfgs: seq<Cfg>): (r: seq<int>)
    ensures |r| == |cfgs| && forall k :: 0 <= k < |r| ==> r[k] == cfgs[k].ResetVal()
  {
    seq(|cfgs|, k requires 0 <= k < |cfgs| => cfgs[k].ResetVal())
  }

  function ClearRequests(c: Cfgs, s: Scn): Scn {
    s.(screenOff := SCREEN_OFF_DISABLE, rsc := Resets(c.rsc), param := Resets(c.con))
  }

  function FreeSlot(c: Cfgs): Scn {
    Scn(-1, FREE, OFF, -1, -1, 0, SCREEN_OFF_DISABLE, 0, NORMAL_PRIORITY, 0, Resets(c.rsc), Resets(c.con))
  }

  function SetMatching(cfgs: seq<Cfg>, vals: seq<int>, cmd: int, v: int): (r: seq<int>)
    requires |vals| == |cfgs| && forall k :: 0 <= k < |cfgs| ==> cfgs[k].minVal <= cfgs[k].maxVal
    ensures |r| == |cfgs|
    ensures forall k :: 0 <= k < |r| ==> r[k] == if cfgs[k].cmdId == cmd then Clamp(cfgs[k], v) else vals[k]
  {
    seq(|cfgs|, k requires 0 <= k < |cfgs| => if cfgs[k].cmdId == cmd then Clamp(cfgs[k], v) else vals[k])
  }

  function ApplyCommand(c: Cfgs, s: Scn, cmd: int, v: int): (r: Scn)
    requires SaneCfgs(c) && ScnShape(c, s)
    ensures ScnShape(c, r)
  {
    if cmd < 0 || cmd in OTHER_COMMANDS then s
    else if cmd == CMD_SCREEN_OFF_STATE then s.(screenOff := v)
    else if cmd == CMD_PRIORITY then s.(priority := v)
    else s.(rsc := SetMatching(c.rsc, s.rsc, cmd, v), param := SetMatching(c.con, s.param, cmd, v))
  }

  function ApplyRequest(c: Cfgs, s: Scn, list: Request): (r: Scn)
    requires SaneCfgs(c) && ScnShape(c, s)
    ensures ScnShape(c, r)
  {
    if list == [] then s
    else ApplyCommand(c, ApplyRequest(c, s, list[..|list| - 1]), list[|list| - 1].0, list[|list| - 1].1)
  }

  // ---------- switching scenarios ----------

  function EnableScn(c: Cfgs, y: Sys, i: nat): (r: Sys)
    requires Shape(c, y) && i < |y.scns|
    ensures Shape(c, r)
  {
    var s := y.scns[i].(state := ON);
    y.(scns := y.scns[i := s],
       rsc := seq(|y.rsc|, k requires 0 <= k < |y.rsc| => Enable(c.rsc[k], y.rsc[k], RscBid(s, k))),
       con := seq(|y.con|, k requires 0 <= k < |y.con| => ConEnable(c.con[k], y.con[k], ConBid(s, k))))
  }

  function DisableScn(c: Cfgs, y: Sys, i: nat): (r: Sys)
    requires Shape(c, y) && i < |y.scns|
    ensures Shape(c, r)
  {
    if y.scns[i].state.OFF? then y
    else
      var s := y.scns[i].(state := OFF);
      var scns := y.scns[i := s];
      y.(scns := scns,
         rsc := seq(|y.rsc|, k requires 0 <= k < |y.rsc| =>
                  Disable(c.rsc[k], y.rsc[k], RscBid(s, k), RscBids(c, scns, k))),
         con := seq(|y.con|, k requires 0 <= k < |y.con| =>
                  ConDisable(c.con[k], y.con[k], ConBid(s, k), ConBids(c, scns, k))))
  }

  function ForceUpdateScn(c: Cfgs, y: Sys, i: nat): (r: Sys)
    requires Shape(c, y) && i < |y.scns|
    ensures Shape(c, r)
  {
    if y.scns[i].state.OFF? then y
    else
      y.(rsc := seq(|y.rsc|, k requires 0 <= k < |y.rsc| =>
                  ForceUpdate(c.rsc[k], y.rsc[k], RscBid(y.scns[i], k), RscBids(c, y.scns, k))),
         con := seq(|y.con|, k requires 0 <= k < |y.con| =>
                  ConForceUpdate(c.con[k], y.con[k], ConBid(y.scns[i], k), ConBids(c, y.scns, k))))
  }

  function Release(c: Cfgs, y: Sys, i: nat): (r: Sys)
    requires Shape(c, y) && i < |y.scns|
    ensures Shape(c, r)
  {
    var d := DisableScn(c, y, i);
    d.(scns := d.scns[i := FreeSlot(c)])
  }

  // ---------- handles ----------

  function NextHandle(now: int): int {
    var n := (now + 1) % HANDLE_RAND_MAX;
    if n == 0 then 1 else n
  }

  // The n-th handle ever handed out, in closed form.
  function HandleAt(n: nat): int {
    if n == 0 then 0 else 1 + (n - 1) % (HANDLE_RAND_MAX - 1)
  }

  predicate Owns(s: Scn, handle: int) {
    !s.kind.FREE? && s.handle == handle
  }

  function FindFrom(scns: seq<Scn>, handle: int, i: nat): (r: int)
    requires i <= |scns|
    ensures r == -1 || (i <= r < |scns| && Owns(scns[r], handle))
    ensures r == -1 ==> forall j :: i <= j < |scns| ==> !Owns(scns[j], handle)
    ensures r != -1 ==> forall j :: i <= j < r ==> !Owns(scns[j], handle)
    decreases |scns| - i
  {
    if i == |scns| then -1 else if Owns(scns[i], handle) then i else FindFrom(scns, handle, i + 1)
  }

  function Find(scns: seq<Scn>, handle: int): int {
    if handle <= 0 then -1 else FindFrom(scns, handle, 0)
  }

  function FirstFree(scns: seq<Scn>, i: nat): (r: int)
    requires i <= |scns|
    ensures r == -1 || (i <= r < |scns| && scns[r].kind.FREE?)
    ensures r == -1 ==> forall j :: i <= j < |scns| ==> !scns[j].kind.FREE?
    ensures r != -1 ==> forall j :: i <= j < r ==> !scns[j].kind.FREE?
    decreases |scns| - i
  {
    if i == |scns| then -1 else if scns[i].kind.FREE? then i else FirstFree(scns, i + 1)
  }

  function Register(c: Cfgs, y: Sys, i: nat, hint: int, pid: int, duration: int): (r: Sys)
    requires Shape(c, y) && i < |y.scns|
    ensures Shape(c, r)
  {
    var h := NextHandle(y.now);
    var s := FreeSlot(c).(handle := h, kind := if hint != -1 then CUS_POWER_HINT else PERF_LOCK_HINT,
                          hint := hint, pid := pid, duration := duration, born := y.allocs + 1);
    y.(scns := y.scns[i := s], now := h, allocs := y.allocs + 1)
  }

  // ---------- reaping ----------

  // `alive` answers whether /proc/<pid> exists.
  predicate Reapable(s: Scn, alive: set<int>) {
    && !s.kind.FREE? && s.screenOff != SCREEN_OFF_ALWAYS_VALID && s.pid !in alive
    && !(0 < s.duration <= USER_DURATION_MAX)
  }

  function ReapFrom(c: Cfgs, y: Sys, alive: set<int>, i: nat): (r: Sys)
    requires Shape(c, y) && i <= |y.scns|
    ensures Shape(c, r)
    decreases |y.scns| - i
  {
    if i == |y.scns| then y
    else ReapFrom(c, if Reapable(y.scns[i], alive) then Release(c, y, i) else y, alive, i + 1)
  }

  function Quiet(c: Cfgs, y: Sys, i: nat): (r: Sys)
    requires Shape(c, y) && i < |y.scns|
    ensures Shape(c, r)
  {
    var s := y.scns[i];
    if s.state.ON? && s.screenOff != SCREEN_OFF_ENABLE then
      var d := DisableScn(c, y, i);
      if s.screenOff == SCREEN_OFF_WAIT_RESTORE
      then d.(scns := d.scns[i := d.scns[i].(state := WAIT_RESTORE)]) else d
    else y
  }

  function ScreenOffSlot(c: Cfgs, y: Sys, alive: set<int>, i: nat): (r: Sys)
    requires Shape(c, y) && i < |y.scns|
    ensures Shape(c, r)
  {
    var s := y.scns[i];
    if s.kind.FREE? || s.screenOff == SCREEN_OFF_ALWAYS_VALID then y
    else
      var d := Quiet(c, y, i);
      if (s.kind.USER_HINT? || s.kind.PERF_LOCK_HINT?) && s.pid !in alive then Release(c, d, i) else d
  }

  function ScreenOffFrom(c: Cfgs, y: Sys, alive: set<int>, i: nat): (r: Sys)
    requires Shape(c, y) && i <= |y.scns|
    ensures Shape(c, r)
    decreases |y.scns| - i
  {
    if i == |y.scns| then y else ScreenOffFrom(c, ScreenOffSlot(c, y, alive, i), alive, i + 1)
  }

  // ---------- the API calls ----------

  function CheckHdl(c: Cfgs, y: Sys, alive: set<int>, handle: int, hint: int, size: int,
                    pid: int, duration: int): (r: (Sys, int))
    requires Shape(c, y)
    ensures Shape(c, r.0)
  {
    if size > MAX_ARGS_PER_REQUEST || size == 0 then (y, 0)
    else if pid !in alive && (duration == 0 || duration > USER_DURATION_MAX) then (y, 0)
    else if Find(y.scns, handle) != -1 then (y, handle)
    else
      var i := FirstFree(y.scns, 0);
      if i != -1 then (Register(c, y, i, hint, pid, duration), NextHandle(y.now))
      else
        var z := ReapFrom(c, y, alive, 0);
        var j := FirstFree(z.scns, 0);
        if j != -1 then (Register(c, z, j, hint, pid, duration), NextHandle(z.now)) else (z, 0)
  }

  // The slot's settings once `list` has been applied, before any resource is touched.
  function Requested(c: Cfgs, s: Scn, list: Request, duration: int): (r: Scn)
    requires SaneCfgs(c)
    ensures ScnShape(c, r)
  {
    ApplyRequest(c, ClearRequests(c, s).(duration := duration, listSize := 2 * |list|), list)
  }

  // Whether the call takes the forced-update path.  `bufferEqual` is the verdict of comparing
  // the request with a buffer that was allocated just before and never filled.
  predicate TakesForceUpdate(s: Scn, list: Request, bufferEqual: bool) {
    s.state.ON? && (s.listSize != 2 * |list| || !bufferEqual)
  }

  function Acquire(c: Cfgs, y: Sys, handle: int, list: Request, duration: int, bufferEqual: bool): (r: (Sys, int))
    requires SaneCfgs(c) && Shape(c, y)
    ensures Shape(c, r.0)
  {
    if 2 * |list| > MAX_ARGS_PER_REQUEST || |list| == 0 then (y, 0)
    else
      var i := Find(y.scns, handle);
      if i == -1 then (y, 0)
      else
        var z := y.(scns := y.scns[i := Requested(c, y.scns[i], list, duration)]);
        (if TakesForceUpdate(y.scns[i], list, bufferEqual) then ForceUpdateScn(c, z, i) else EnableScn(c, z, i),
         handle)
  }

  function Rel(c: Cfgs, y: Sys, handle: int): (r: (Sys, int))
    requires Shape(c, y)
    ensures Shape(c, r.0)
  {
    var i := Find(y.scns, handle);
    if i == -1 then (y, -1) else (Release(c, y, i), 0)
  }

  datatype Op =
    | OpCheckHdl(alive: set<int>, handle: int, hint: int, size: int, pid: int, duration: int)
    | OpAcquire(handle: int, list: Request, duration: int, bufferEqual: bool)
    | OpRel(handle: int)
    | OpScreenOff(alive: set<int>)
    | OpCheckAll(alive: set<int>)

  function Step(c: Cfgs, y: Sys, op: Op): (r: Sys)
    requires SaneCfgs(c) && Shape(c, y)
    ensures Shape(c, r)
  {
    match op
    case OpCheckHdl(alive, handle, hint, size, pid, duration) =>
      CheckHdl(c, y, alive, handle, hint, size, pid, duration).0
    case OpAcquire(handle, list, duration, bufferEqual) => Acquire(c, y, handle, list, duration, bufferEqual).0
    case OpRel(handle) => Rel(c, y, handle).0
    case OpScreenOff(alive) => ScreenOffFrom(c, y, alive, 0)
    case OpCheckAll(alive) => ReapFrom(c, y, alive, 0)
  }

  function Run(c: Cfgs, y: Sys, ops: seq<Op>): (r: Sys)
    requires SaneCfgs(c) && Shape(c, y)
    ensures Shape(c, r)
    decreases |ops|
  {
    if ops == [] then y else Run(c, Step(c, y, ops[0]), ops[1..])
  }

  function Boot(c: Cfgs, rscValid: seq<bool>, conValid: seq<bool>): (r: Sys)
    requires |rscValid| == |c.rsc| && |conValid| == |c.con|
    ensures Shape(c, r)
  {
    Sys(seq(REG_SCN_MAX, i => FreeSlot(c)),
        seq(|c.rsc|, k requires 0 <= k < |c.rsc| => InitialEntry(c.rsc[k], rscValid[k])),
        seq(|c.con|, k requires 0 <= k < |c.con| => ConEntry(c.con[k].ResetVal(), PRIORITY_LOWEST, conValid[k])),
        0, 0)
  }
}
