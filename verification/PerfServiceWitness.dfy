/** A run of the service, from boot, whose last call strands a resource. */
module PerfServiceWitness {
  import opened Arbitration
  import opened PerfServiceSpec
  import opened PerfServiceProofs

  // One resource, of which the biggest request wins.
  const ONE_RESOURCE := Cfgs([Cfg(1, BIGGEST, 0, 10, 0)], [])
  const ALIVE: set<int> := {100, 200}

  // Two processes register and acquire: the first for 5 at priority 1, the second for 7 at
  // priority 3.  Then the first acquires again, at priority 4.
  const DEMOTION: seq<Op> :=
    [OpCheckHdl(ALIVE, 0, -1, 2, 100, 0), OpCheckHdl(ALIVE, 0, -1, 2, 200, 0),
     OpAcquire(1, [(CMD_PRIORITY, 1), (1, 5)], 0, false), OpAcquire(2, [(CMD_PRIORITY, 3), (1, 7)], 0, false),
     OpAcquire(1, [(CMD_PRIORITY, 4), (1, 5)], 0, false)]

  function Registered(handle: nat, pid: int): Scn {
    FreeSlot(ONE_RESOURCE).(handle := handle, kind := PERF_LOCK_HINT, pid := pid, born := handle)
  }

  function Holding(handle: nat, pid: int, priority: int, val: int): Scn {
    Registered(handle, pid).(state := ON, listSize := 4, priority := priority, rsc := [val])
  }

  // The first two slots are these and the others are free.
  predicate Slots(scns: seq<Scn>, a: Scn, b: Scn) {
    && |scns| == REG_SCN_MAX && scns[0] == a && scns[1] == b
    && forall i :: 2 <= i < |scns| ==> scns[i] == FreeSlot(ONE_RESOURCE)
  }

  predicate Looks(y: Sys, a: Scn, b: Scn, e: Entry, n: nat) {
    Slots(y.scns, a, b) && y.rsc == [e] && y.con == [] && y.now == n && y.allocs == n
  }

  const IDLE := InitialEntry(ONE_RESOURCE.rsc[0], true)
  const FIVE := Entry(5, 100, -1, 1, true, Set(5))

  lemma {:induction false} Booted()
    ensures var free := FreeSlot(ONE_RESOURCE); Looks(Boot(ONE_RESOURCE, [true], []), free, free, IDLE, 0)
  {
  }

  lemma {:induction false} FirstRegisters(y: Sys)
    requires var free := FreeSlot(ONE_RESOURCE); Looks(y, free, free, IDLE, 0)
    ensures Shape(ONE_RESOURCE, y)
    ensures Looks(Step(ONE_RESOURCE, y, DEMOTION[0]), Registered(1, 100), FreeSlot(ONE_RESOURCE), IDLE, 1)
  {
  }

  lemma {:induction false} SecondRegisters(y: Sys)
    requires Looks(y, Registered(1, 100), FreeSlot(ONE_RESOURCE), IDLE, 1)
    ensures Shape(ONE_RESOURCE, y)
    ensures Looks(Step(ONE_RESOURCE, y, DEMOTION[1]), Registered(1, 100), Registered(2, 200), IDLE, 2)
  {
    assert FirstFree(y.scns, 1) == 1;
  }

  // What the three lists ask for.
  lemma {:induction false} Applied(s: Scn, priority: int, val: int)
    requires ScnShape(ONE_RESOURCE, s) && 0 <= val <= 10
    ensures Requested(ONE_RESOURCE, s, [(CMD_PRIORITY, priority), (1, val)], 0)
            == ClearRequests(ONE_RESOURCE, s).(duration := 0, listSize := 4, priority := priority, rsc := [val])
  {
    var list := [(CMD_PRIORITY, priority), (1, val)];
    var cleared := ClearRequests(ONE_RESOURCE, s).(duration := 0, listSize := 4);
    assert list[..1] == [(CMD_PRIORITY, priority)] && list[..1][..0] == [];
    assert ApplyRequest(ONE_RESOURCE, cleared, list[..1]) == cleared.(priority := priority);
    var r := SetMatching(ONE_RESOURCE.rsc, cleared.rsc, 1, val);
    assert r == [val];
    assert SetMatching(ONE_RESOURCE.con, cleared.param, 1, val) == cleared.param;
  }

  lemma {:induction false} FirstAcquires(y: Sys)
    requires Looks(y, Registered(1, 100), Registered(2, 200), IDLE, 2)
    ensures Shape(ONE_RESOURCE, y)
    ensures Looks(Step(ONE_RESOURCE, y, DEMOTION[2]), Holding(1, 100, 1, 5), Registered(2, 200), FIVE, 2)
  {
    Applied(y.scns[0], 1, 5);
    assert Find(y.scns, 1) == 0;
  }

  lemma {:induction false} SecondAcquires(y: Sys)
    requires Looks(y, Holding(1, 100, 1, 5), Registered(2, 200), FIVE, 2)
    ensures Shape(ONE_RESOURCE, y)
    ensures Looks(Step(ONE_RESOURCE, y, DEMOTION[3]), Holding(1, 100, 1, 5), Holding(2, 200, 3, 7), FIVE, 2)
  {
    Applied(y.scns[1], 3, 7);
    assert FindFrom(y.scns, 2, 1) == 1;
  }

  // The entry is passed over: priority 4 is behind the kept priority 1.
  lemma {:induction false} FirstIsDemoted(y: Sys)
    requires Looks(y, Holding(1, 100, 1, 5), Holding(2, 200, 3, 7), FIVE, 2)
    ensures Shape(ONE_RESOURCE, y)
    ensures Looks(Step(ONE_RESOURCE, y, DEMOTION[4]), Holding(1, 100, 4, 5), Holding(2, 200, 3, 7), FIVE, 2)
  {
    Applied(y.scns[0], 4, 5);
    assert Find(y.scns, 1) == 0;
  }

  // Nobody asks for 5 at priority 1 any more.
  lemma {:induction false} Stale(y: Sys)
    requires Looks(y, Holding(1, 100, 4, 5), Holding(2, 200, 3, 7), FIVE, 2)
    ensures !Inv(ONE_RESOURCE, y, false)
  {
    if Inv(ONE_RESOURCE, y, false) {
      var cfg, bids := ONE_RESOURCE.rsc[0], RscBids(ONE_RESOURCE, y.scns, 0);
      assert RscGood(ONE_RESOURCE, y, 0, false);
      forall i | 0 <= i < |bids| ensures !Supports(cfg, bids[i], 1, 5) {
        assert bids[i] == RscBid(y.scns[i], 0);
      }
    }
  }

  // So the equivalence of `EveryRunOptimal` has a run on its other side: after these calls the
  // kept value is not the optimum, and the run is unfair.
  lemma {:induction false} DemotionRunGoesStale()
    ensures var boot := Boot(ONE_RESOURCE, [true], []);
            && Looks(Run(ONE_RESOURCE, boot, DEMOTION), Holding(1, 100, 4, 5), Holding(2, 200, 3, 7), FIVE, 2)
            && !Inv(ONE_RESOURCE, Run(ONE_RESOURCE, boot, DEMOTION), false)
            && !AllAlong(ONE_RESOURCE, boot, DEMOTION, false) && !FairRun(ONE_RESOURCE, boot, DEMOTION, false)
  {
    hide Looks, Step, Inv, Fair;
    var c, y0 := ONE_RESOURCE, Boot(ONE_RESOURCE, [true], []);
    Booted();
    FirstRegisters(y0);
    var y1 := Step(c, y0, DEMOTION[0]);
    SecondRegisters(y1);
    var y2 := Step(c, y1, DEMOTION[1]);
    FirstAcquires(y2);
    var y3 := Step(c, y2, DEMOTION[2]);
    SecondAcquires(y3);
    var y4 := Step(c, y3, DEMOTION[3]);
    FirstIsDemoted(y4);
    var y5 := Step(c, y4, DEMOTION[4]);
    Stale(y5);
    RunOfFive(y0);
    EveryRunOptimal(c, [true], [], DEMOTION, false);
  }

  // A run behind its first call.
  lemma {:induction false} OneStep(c: Cfgs, y: Sys, op: Op, rest: seq<Op>)
    requires SaneCfgs(c) && Shape(c, y)
    ensures Run(c, y, [op] + rest) == Run(c, Step(c, y, op), rest) && Run(c, y, []) == y
  {
    hide Step;
    var ops := [op] + rest;
    assert ops[0] == op && ops[1..] == rest;
  }

  lemma {:induction false} RunOfFive(y: Sys)
    requires Shape(ONE_RESOURCE, y)
    ensures var c := ONE_RESOURCE;
            var y3 := Step(c, Step(c, Step(c, y, DEMOTION[0]), DEMOTION[1]), DEMOTION[2]);
            Run(c, y, DEMOTION) == Step(c, Step(c, y3, DEMOTION[3]), DEMOTION[4])
  {
    hide Step, Run;
    var c, ops := ONE_RESOURCE, DEMOTION;
    var y1 := Step(c, y, ops[0]);
    var y2 := Step(c, y1, ops[1]);
    var y3 := Step(c, y2, ops[2]);
    var y4 := Step(c, y3, ops[3]);
    OneStep(c, y, ops[0], ops[1..]);
    OneStep(c, y1, ops[1], ops[2..]);
    OneStep(c, y2, ops[2], ops[3..]);
    OneStep(c, y3, ops[3], ops[4..]);
    OneStep(c, y4, ops[4], []);
    OneStep(c, Step(c, y4, ops[4]), ops[4], []);
    assert ops == [ops[0]] + ops[1..] && ops[1..] == [ops[1]] + ops[2..] && ops[2..] == [ops[2]] + ops[3..];
    assert ops[3..] == [ops[3]] + ops[4..] && ops[4..] == [ops[4]] + [];
  }
}
