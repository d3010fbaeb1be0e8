/** How one resource chooses between the requests ("bids") of the scenarios.

    A resource keeps the winning value incrementally: switching a scenario on compares
    one bid with the kept value, switching one off rescans only when a guard says the
    departing bid may have been the winner.  `IsOptimum` is the reference: the
    lexicographic optimum over all bids, with no history at all. */
module Arbitration {

  const PRIORITY_LOWEST: int := 6

  datatype Comp = SMALLEST | BIGGEST

  datatype Cfg = Cfg(cmdId: int, comp: Comp, minVal: int, maxVal: int, defaultVal: int) {
    // The sentinel for "no request" lies just outside the legal range, on the losing side.
    function ResetVal(): int {
      if comp.SMALLEST? then maxVal + 1 else minVal - 1
    }

    predicate Legal(v: int) {
      v == ResetVal() || minVal <= v <= maxVal
    }

    predicate Better(a: int, b: int) {
      if comp.SMALLEST? then a < b else a > b
    }
  }

  // What the resource's set_func or unset_func was last called with.
  datatype Pushed = Never | Set(v: int) | Unset(v: int)

  datatype Entry = Entry(curVal: int, curSetter: int, curSetterHint: int,
                         priority: int, isValid: bool, pushed: Pushed)

  // One scenario's stake in one resource.
  datatype Bid = Bid(on: bool, priority: int, val: int, pid: int, hint: int)

  datatype Best = Best(val: int, priority: int, setter: int, hint: int)

  function InitialEntry(cfg: Cfg, isValid: bool): Entry {
    Entry(cfg.ResetVal(), -1, -1, PRIORITY_LOWEST, isValid, Never)
  }

  function Clamp(cfg: Cfg, v: int): (r: int)
    requires cfg.minVal <= cfg.maxVal
    ensures cfg.Legal(r) && r != cfg.ResetVal()
    ensures cfg.minVal <= v <= cfg.maxVal ==> r == v
  {
    if v < cfg.minVal then cfg.minVal else if v > cfg.maxVal then cfg.maxVal else v
  }

  // ---------- the code's incremental steps ----------

  function Enable(cfg: Cfg, e: Entry, b: Bid): Entry {
    if !e.isValid || b.priority > e.priority then e
    else if (cfg.Better(b.val, e.curVal) && b.priority == e.priority)
         || (b.priority < e.priority && b.val != cfg.ResetVal()) then
      e.(curVal := b.val, curSetter := b.pid, curSetterHint := b.hint,
         priority := b.priority, pushed := Set(b.val))
    else e
  }

  // The rescan's loop body.
  function Consider(cfg: Cfg, best: Best, b: Bid): Best {
    if b.on && cfg.Better(b.val, cfg.ResetVal())
       && ((b.priority == best.priority && cfg.Better(b.val, best.val)) || b.priority < best.priority)
    then Best(b.val, b.priority, b.pid, b.hint)
    else best
  }

  function Scan(cfg: Cfg, bids: seq<Bid>): Best {
    if bids == [] then Best(cfg.ResetVal(), PRIORITY_LOWEST, -1, -1)
    else Consider(cfg, Scan(cfg, bids[..|bids| - 1]), bids[|bids| - 1])
  }

  function Rescan(cfg: Cfg, e: Entry, bids: seq<Bid>): Entry {
    var best := Scan(cfg, bids);
    Entry(best.val, best.setter, best.hint, best.priority, e.isValid,
          if best.val == e.curVal then e.pushed
          else if best.val == cfg.ResetVal() then Unset(cfg.defaultVal)
          else Set(best.val))
  }

  // `b` is the departing bid; `bids` are the bids without it.
  function Disable(cfg: Cfg, e: Entry, b: Bid, bids: seq<Bid>): Entry {
    if !e.isValid || b.priority > e.priority then e
    else if cfg.Better(b.val, cfg.ResetVal()) && !cfg.Better(e.curVal, b.val) then Rescan(cfg, e, bids)
    else e
  }

  // `b` is the changed bid; `bids` already contain it.
  function ForceUpdate(cfg: Cfg, e: Entry, b: Bid, bids: seq<Bid>): Entry {
    if !e.isValid || b.priority > e.priority then e else Rescan(cfg, e, bids)
  }

  // ---------- the reference ----------

  predicate Counts(cfg: Cfg, b: Bid) {
    b.on && b.priority <= PRIORITY_LOWEST && b.val != cfg.ResetVal()
  }

  // (p, v) is at least as strong as the bid `b`.
  predicate Dominates(cfg: Cfg, p: int, v: int, b: Bid) {
    p < b.priority || (p == b.priority && !cfg.Better(b.val, v))
  }

  predicate Supports(cfg: Cfg, b: Bid, p: int, v: int) {
    Counts(cfg, b) && b.priority == p && b.val == v
  }

  ghost predicate IsOptimum(cfg: Cfg, bids: seq<Bid>, p: int, v: int) {
    && (forall j :: 0 <= j < |bids| && Counts(cfg, bids[j]) ==> Dominates(cfg, p, v, bids[j]))
    && ((exists i :: 0 <= i < |bids| && Supports(cfg, bids[i], p, v))
        || (p == PRIORITY_LOWEST && v == cfg.ResetVal()
            && forall j :: 0 <= j < |bids| ==> !Counts(cfg, bids[j])))
  }

  // Stands behind the kept value under the recorded setter's name.
  predicate Stands(cfg: Cfg, b: Bid, e: Entry) {
    Supports(cfg, b, e.priority, e.curVal) && b.pid == e.curSetter && b.hint == e.curSetterHint
  }

  // The recorded setter is a scenario that really stands behind the winning value.
  ghost predicate SetterOk(cfg: Cfg, bids: seq<Bid>, e: Entry) {
    if e.curVal == cfg.ResetVal() then e.curSetter == -1 && e.curSetterHint == -1
    else exists i :: 0 <= i < |bids| && Stands(cfg, bids[i], e)
  }

  // The hardware holds the kept value, or the default once nobody asks any more.
  predicate PushedOk(cfg: Cfg, e: Entry) {
    if e.curVal == cfg.ResetVal() then e.pushed.Never? || e.pushed == Unset(cfg.defaultVal)
    else e.pushed == Set(e.curVal)
  }

  ghost predicate Correct(cfg: Cfg, bids: seq<Bid>, e: Entry) {
    IsOptimum(cfg, bids, e.priority, e.curVal) && SetterOk(cfg, bids, e) && PushedOk(cfg, e)
  }

  predicate AllLegal(cfg: Cfg, bids: seq<Bid>) {
    cfg.minVal <= cfg.maxVal && forall j :: 0 <= j < |bids| ==> cfg.Legal(bids[j].val)
  }

  lemma OptimumUnique(cfg: Cfg, bids: seq<Bid>, p: int, v: int, p': int, v': int)
    requires IsOptimum(cfg, bids, p, v) && IsOptimum(cfg, bids, p', v')
    ensures p == p' && v == v'
  {
    if i :| 0 <= i < |bids| && Supports(cfg, bids[i], p, v) {
      assert Dominates(cfg, p', v', bids[i]);
    }
    if i :| 0 <= i < |bids| && Supports(cfg, bids[i], p', v') {
      assert Dominates(cfg, p, v, bids[i]);
    }
  }

  // What winning means: no request in force is in a more urgent class, and within the class the
  // value is the least or the greatest asked for.
  lemma {:induction false} OptimumIsExtreme(cfg: Cfg, bids: seq<Bid>, p: int, v: int)
    requires cfg.minVal <= cfg.maxVal && IsOptimum(cfg, bids, p, v)
    ensures forall j :: 0 <= j < |bids| && Counts(cfg, bids[j]) ==>
              && p <= bids[j].priority
              && (bids[j].priority == p ==> if cfg.comp.SMALLEST? then v <= bids[j].val else v >= bids[j].val)
    ensures (exists j :: 0 <= j < |bids| && Counts(cfg, bids[j])) ==>
              exists j :: 0 <= j < |bids| && Counts(cfg, bids[j]) && bids[j].priority == p && bids[j].val == v
    ensures (forall j :: 0 <= j < |bids| ==> !Counts(cfg, bids[j])) ==> p == PRIORITY_LOWEST && v == cfg.ResetVal()
  {
    forall j | 0 <= j < |bids| && Counts(cfg, bids[j])
      ensures p <= bids[j].priority
      ensures bids[j].priority == p ==> if cfg.comp.SMALLEST? then v <= bids[j].val else v >= bids[j].val
    {
      assert Dominates(cfg, p, v, bids[j]);
    }
    if i :| 0 <= i < |bids| && Supports(cfg, bids[i], p, v) {
      assert Counts(cfg, bids[i]);
    }
  }

  // The sentinel is no value a request can have, next to the worst of them, and loses to all.
  lemma {:induction false} SentinelLoses(cfg: Cfg, v: int)
    requires cfg.minVal <= v <= cfg.maxVal
    ensures cfg.ResetVal() == (if cfg.comp.SMALLEST? then cfg.maxVal + 1 else cfg.minVal - 1)
    ensures v != cfg.ResetVal() && cfg.Better(v, cfg.ResetVal())
    ensures if cfg.comp.SMALLEST? then v < cfg.ResetVal() else v > cfg.ResetVal()
  {
  }

  lemma {:induction false} ScanIsOptimum(cfg: Cfg, bids: seq<Bid>)
    requires AllLegal(cfg, bids)
    ensures var best := Scan(cfg, bids);
            && IsOptimum(cfg, bids, best.priority, best.val)
            && best.priority <= PRIORITY_LOWEST
            && (best.val == cfg.ResetVal() ==> best.setter == -1 && best.hint == -1)
            && (best.val != cfg.ResetVal() ==>
                  exists i :: 0 <= i < |bids| && Supports(cfg, bids[i], best.priority, best.val)
                              && bids[i].pid == best.setter && bids[i].hint == best.hint)
  {
    if bids != [] {
      var n := |bids| - 1;
      ScanIsOptimum(cfg, bids[..n]);
      var old_ := Scan(cfg, bids[..n]);
      var best := Scan(cfg, bids);
      assert forall j :: 0 <= j < n ==> bids[..n][j] == bids[j];
      if best == old_ {
        if old_.val != cfg.ResetVal() {
          var i :| 0 <= i < n && Supports(cfg, bids[..n][i], old_.priority, old_.val)
                   && bids[..n][i].pid == old_.setter && bids[..n][i].hint == old_.hint;
          assert Supports(cfg, bids[i], best.priority, best.val);
        }
      } else {
        assert Supports(cfg, bids[n], best.priority, best.val);
      }
    }
  }

  lemma RescanCorrect(cfg: Cfg, e: Entry, bids: seq<Bid>)
    requires AllLegal(cfg, bids) && PushedOk(cfg, e)
    ensures Correct(cfg, bids, Rescan(cfg, e, bids))
  {
    ScanIsOptimum(cfg, bids);
  }

  lemma InitialCorrect(cfg: Cfg, isValid: bool, bids: seq<Bid>)
    requires forall j :: 0 <= j < |bids| ==> !Counts(cfg, bids[j])
    ensures Correct(cfg, bids, InitialEntry(cfg, isValid))
  {
  }

  // ---------- what each step keeps ----------

  // Either the whole entry is right, or (not `full`) its value and priority are.
  ghost predicate Good(cfg: Cfg, bids: seq<Bid>, e: Entry, full: bool) {
    if full then Correct(cfg, bids, e) else IsOptimum(cfg, bids, e.priority, e.curVal)
  }

  ghost predicate SoleSupport(cfg: Cfg, bids: seq<Bid>, i: nat, p: int, v: int) {
    && i < |bids| && Supports(cfg, bids[i], p, v)
    && forall j :: 0 <= j < |bids| && j != i ==> !Supports(cfg, bids[j], p, v)
  }

  ghost predicate SoleSetter(cfg: Cfg, bids: seq<Bid>, i: nat, e: Entry) {
    && i < |bids| && Stands(cfg, bids[i], e)
    && forall j :: 0 <= j < |bids| && j != i ==> !Stands(cfg, bids[j], e)
  }

  ghost predicate Sole(cfg: Cfg, bids: seq<Bid>, i: nat, e: Entry, full: bool) {
    if full then SoleSetter(cfg, bids, i, e) else SoleSupport(cfg, bids, i, e.priority, e.curVal)
  }

  // The bid no longer reaches the kept value.
  predicate Weaker(cfg: Cfg, e: Entry, b: Bid) {
    || !b.on || b.val == cfg.ResetVal() || b.priority > e.priority
    || (b.priority == e.priority && cfg.Better(e.curVal, b.val))
  }

  // Leaving the entry alone while one bid weakens is right exactly when that bid was not the
  // only one holding it up.
  lemma {:induction false} KeptExact(cfg: Cfg, e: Entry, bids: seq<Bid>, i: nat, b: Bid, full: bool)
    requires AllLegal(cfg, bids) && i < |bids| && (!b.on || cfg.Legal(b.val))
    requires Good(cfg, bids, e, full) && Weaker(cfg, e, b)
    ensures Good(cfg, bids[i := b], e, full) <==> !Sole(cfg, bids, i, e, full)
  {
    hide IsOptimum, SoleSupport, SoleSetter, SetterOk;
    ValueExact(cfg, e, bids, i, b);
    if full {
      SetterExact(cfg, e, bids, i, b);
    }
  }

  lemma {:induction false} ValueExact(cfg: Cfg, e: Entry, bids: seq<Bid>, i: nat, b: Bid)
    requires AllLegal(cfg, bids) && i < |bids| && (!b.on || cfg.Legal(b.val))
    requires IsOptimum(cfg, bids, e.priority, e.curVal) && Weaker(cfg, e, b)
    ensures IsOptimum(cfg, bids[i := b], e.priority, e.curVal) <==> !SoleSupport(cfg, bids, i, e.priority, e.curVal)
  {
    var after := bids[i := b];
    assert forall j :: 0 <= j < |bids| && j != i ==> after[j] == bids[j];
    assert !Supports(cfg, after[i], e.priority, e.curVal);
    if k :| 0 <= k < |bids| && k != i && Supports(cfg, bids[k], e.priority, e.curVal) {
      assert Supports(cfg, after[k], e.priority, e.curVal);
    }
  }

  lemma {:induction false} SetterExact(cfg: Cfg, e: Entry, bids: seq<Bid>, i: nat, b: Bid)
    requires i < |bids| && SetterOk(cfg, bids, e) && !Supports(cfg, b, e.priority, e.curVal)
    ensures SetterOk(cfg, bids[i := b], e) <==> !SoleSetter(cfg, bids, i, e)
    ensures SetterOk(cfg, bids[i := b], e) ==> !SoleSupport(cfg, bids, i, e.priority, e.curVal)
  {
    var after := bids[i := b];
    if e.curVal == cfg.ResetVal() {
    } else if SoleSetter(cfg, bids, i, e) {
      forall j | 0 <= j < |after| ensures !Stands(cfg, after[j], e) {
        assert j != i ==> after[j] == bids[j];
      }
    } else {
      var k :| 0 <= k < |bids| && Stands(cfg, bids[k], e);
      var j :| 0 <= j < |bids| && j != i && Stands(cfg, bids[j], e);
      assert Stands(cfg, after[j], e);
    }
  }

  // What a call does to the entry when bid i becomes b: a forced update, or an enable.
  function Change(cfg: Cfg, e: Entry, b: Bid, bids: seq<Bid>, force: bool): Entry {
    if force then ForceUpdate(cfg, e, b, bids) else Enable(cfg, e, b)
  }

  // When that call passes the entry over although the bid may have weakened.
  predicate PassedOver(cfg: Cfg, e: Entry, b: Bid, force: bool) {
    if force then b.priority > e.priority else Weaker(cfg, e, b)
  }

  // The exact condition, for values alone and for whole entries: the call is right unless it
  // passes over an entry that only the changed bid was holding up.
  lemma {:induction false} ChangeExact(cfg: Cfg, e: Entry, bids: seq<Bid>, i: nat, b: Bid, force: bool, full: bool)
    requires AllLegal(cfg, bids) && cfg.Legal(b.val) && i < |bids|
    requires b.on && b.pid == bids[i].pid && b.hint == bids[i].hint
    requires e.isValid && Good(cfg, bids, e, full)
    ensures Good(cfg, bids[i := b], Change(cfg, e, b, bids[i := b], force), full)
            <==> !(PassedOver(cfg, e, b, force) && Sole(cfg, bids, i, e, full))
  {
    var after := bids[i := b];
    if PassedOver(cfg, e, b, force) {
      KeptExact(cfg, e, bids, i, b, full);
    } else if force {
      RescanGood(cfg, e, after, full);
    } else {
      StrongerWins(cfg, e, bids, i, b, full);
    }
  }

  lemma {:induction false} RescanGood(cfg: Cfg, e: Entry, bids: seq<Bid>, full: bool)
    requires AllLegal(cfg, bids) && (full ==> PushedOk(cfg, e))
    ensures Good(cfg, bids, Rescan(cfg, e, bids), full)
  {
    ScanIsOptimum(cfg, bids);
  }

  lemma {:induction false} StrongerWins(cfg: Cfg, e: Entry, bids: seq<Bid>, i: nat, b: Bid, full: bool)
    requires AllLegal(cfg, bids) && cfg.Legal(b.val) && i < |bids|
    requires b.on && b.pid == bids[i].pid && b.hint == bids[i].hint
    requires e.isValid && Good(cfg, bids, e, full) && !Weaker(cfg, e, b)
    ensures Good(cfg, bids[i := b], Enable(cfg, e, b), full)
  {
    var after, e' := bids[i := b], Enable(cfg, e, b);
    assert forall j :: 0 <= j < |bids| && j != i ==> after[j] == bids[j];
    assert Supports(cfg, after[i], e'.priority, e'.curVal);
    if full && e' == e {
      var k :| 0 <= k < |bids| && Stands(cfg, bids[k], e);
      assert Stands(cfg, after[k], e);
    }
  }

  // Switching a scenario on: the one comparison is always enough.
  lemma {:induction false} EnableKeepsCorrect(cfg: Cfg, e: Entry, bids: seq<Bid>, i: nat, b: Bid, full: bool)
    requires AllLegal(cfg, bids) && cfg.Legal(b.val)
    requires i < |bids| && !bids[i].on && b.on && b.pid == bids[i].pid && b.hint == bids[i].hint
    requires e.isValid && Good(cfg, bids, e, full)
    ensures Good(cfg, bids[i := b], Enable(cfg, e, b), full)
  {
    ChangeExact(cfg, e, bids, i, b, false, full);
  }

  // Enabling a scenario that is already on, with nothing changed, changes nothing.
  lemma EnableIdempotent(cfg: Cfg, e: Entry, bids: seq<Bid>, i: nat)
    requires AllLegal(cfg, bids) && i < |bids| && bids[i].on
    requires IsOptimum(cfg, bids, e.priority, e.curVal)
    ensures Enable(cfg, e, bids[i]) == e
  {
    assert Counts(cfg, bids[i]) ==> Dominates(cfg, e.priority, e.curVal, bids[i]);
    if k :| 0 <= k < |bids| && Supports(cfg, bids[k], e.priority, e.curVal) {
      assert e.priority <= PRIORITY_LOWEST;
    }
  }

  // Switching a scenario off: the guard never skips a rescan that was needed.
  lemma {:induction false} DisableKeepsCorrect(cfg: Cfg, e: Entry, bids: seq<Bid>, i: nat, off: Bid, full: bool)
    requires AllLegal(cfg, bids) && i < |bids|
    requires !off.on && off.val == bids[i].val
    requires e.isValid && Good(cfg, bids, e, full)
    ensures Good(cfg, bids[i := off], Disable(cfg, e, bids[i], bids[i := off]), full)
  {
    var after := bids[i := off];
    if bids[i].priority <= e.priority && cfg.Better(bids[i].val, cfg.ResetVal()) && !cfg.Better(e.curVal, bids[i].val) {
      assert forall j :: 0 <= j < |after| && j != i ==> after[j] == bids[j];
      RescanGood(cfg, e, after, full);
    } else {
      KeptExact(cfg, e, bids, i, off, full);
    }
  }

  // And it never rescans for a departure that could not have mattered: the entry, setter and
  // hardware included, is left as it is.
  lemma {:induction false} DisableLeavesOthers(cfg: Cfg, e: Entry, bids: seq<Bid>, i: nat, off: Bid)
    requires AllLegal(cfg, bids) && i < |bids| && bids[i].on && bids[i].priority <= PRIORITY_LOWEST
    requires IsOptimum(cfg, bids, e.priority, e.curVal) && !Supports(cfg, bids[i], e.priority, e.curVal)
    ensures Disable(cfg, e, bids[i], bids[i := off]) == e
  {
    assert Counts(cfg, bids[i]) ==> Dominates(cfg, e.priority, e.curVal, bids[i]);
  }

  // A concrete re-acquire that the comparison waves through: one scenario at priority 1 asks for
  // 5 and then for 3, another at the same priority asks for 4; enabling keeps 5.
  lemma WeakenedGoesStale()
    ensures var cfg := Cfg(0, BIGGEST, 0, 10, 0);
            var bids := [Bid(true, 1, 5, 100, -1), Bid(true, 1, 4, 200, -1)];
            var e := Entry(5, 100, -1, 1, true, Set(5));
            var b := Bid(true, 1, 3, 100, -1);
            var e' := Enable(cfg, e, b);
            && Correct(cfg, bids, e) && e'.curVal == 5
            && IsOptimum(cfg, bids[0 := b], 1, 4)
            && !IsOptimum(cfg, bids[0 := b], e'.priority, e'.curVal)
  {
    var cfg := Cfg(0, BIGGEST, 0, 10, 0);
    var bids := [Bid(true, 1, 5, 100, -1), Bid(true, 1, 4, 200, -1)];
    var b := Bid(true, 1, 3, 100, -1);
    assert Supports(cfg, bids[0], 1, 5);
    assert Supports(cfg, bids[0 := b][1], 1, 4);
  }

  // ---------- history does not matter ----------

  // The requests in force, whoever makes them and in whichever slot.
  function Offers(cfg: Cfg, bids: seq<Bid>): set<(int, int)> {
    set i | 0 <= i < |bids| && Counts(cfg, bids[i]) :: (bids[i].priority, bids[i].val)
  }

  // Two optimal entries whose requests in force are the same keep the same value.
  lemma Confluence(cfg: Cfg, bids: seq<Bid>, e: Entry, bids': seq<Bid>, e': Entry)
    requires IsOptimum(cfg, bids, e.priority, e.curVal) && IsOptimum(cfg, bids', e'.priority, e'.curVal)
    requires Offers(cfg, bids) == Offers(cfg, bids')
    ensures e.curVal == e'.curVal && e.priority == e'.priority
  {
    OffersDecide(cfg, bids, bids', e.priority, e.curVal);
    OptimumUnique(cfg, bids', e.priority, e.curVal, e'.priority, e'.curVal);
  }

  lemma {:induction false} OffersDecide(cfg: Cfg, bids: seq<Bid>, bids': seq<Bid>, p: int, v: int)
    requires IsOptimum(cfg, bids, p, v) && Offers(cfg, bids) == Offers(cfg, bids')
    ensures IsOptimum(cfg, bids', p, v)
  {
    forall j | 0 <= j < |bids'| && Counts(cfg, bids'[j])
      ensures Dominates(cfg, p, v, bids'[j]) && Offers(cfg, bids) != {}
    {
      assert (bids'[j].priority, bids'[j].val) in Offers(cfg, bids');
      var i :| 0 <= i < |bids| && Counts(cfg, bids[i])
          && (bids[i].priority, bids[i].val) == (bids'[j].priority, bids'[j].val);
      assert Dominates(cfg, p, v, bids[i]);
    }
    if i :| 0 <= i < |bids| && Supports(cfg, bids[i], p, v) {
      assert (p, v) in Offers(cfg, bids);
      var j :| 0 <= j < |bids'| && Counts(cfg, bids'[j]) && (bids'[j].priority, bids'[j].val) == (p, v);
      assert Supports(cfg, bids'[j], p, v);
    }
  }

  // Switching a scenario on and off again restores the winning value and priority.
  lemma EnableDisableUndo(cfg: Cfg, e: Entry, bids: seq<Bid>, i: nat, b: Bid)
    requires AllLegal(cfg, bids) && cfg.Legal(b.val) && i < |bids|
    requires !bids[i].on && b == bids[i].(on := true)
    requires e.isValid && Correct(cfg, bids, e)
    ensures var e' := Disable(cfg, Enable(cfg, e, b), b, bids);
            e'.curVal == e.curVal && e'.priority == e.priority && Correct(cfg, bids, e')
  {
    var on := bids[i := b];
    EnableKeepsCorrect(cfg, e, bids, i, b, true);
    assert on[i := bids[i]] == bids;
    DisableKeepsCorrect(cfg, Enable(cfg, e, b), on, i, bids[i], true);
    Confluence(cfg, bids, e, bids, Disable(cfg, Enable(cfg, e, b), b, bids));
  }

  // A concrete demotion that leaves a stale value: one scenario at priority 1 asks for 5,
  // another at priority 3 asks for 7; the first then drops to priority 4.
  lemma DemotionGoesStale()
    ensures var cfg := Cfg(0, BIGGEST, 0, 10, 0);
            var bids := [Bid(true, 1, 5, 100, -1), Bid(true, 3, 7, 200, -1)];
            var e := Entry(5, 100, -1, 1, true, Set(5));
            var b := Bid(true, 4, 5, 100, -1);
            var e' := ForceUpdate(cfg, e, b, bids[0 := b]);
            && Correct(cfg, bids, e)
            && e'.curVal == 5
            && IsOptimum(cfg, bids[0 := b], 3, 7)
            && !IsOptimum(cfg, bids[0 := b], e'.priority, e'.curVal)
  {
    var cfg := Cfg(0, BIGGEST, 0, 10, 0);
    var bids := [Bid(true, 1, 5, 100, -1), Bid(true, 3, 7, 200, -1)];
    var b := Bid(true, 4, 5, 100, -1);
    assert Supports(cfg, bids[0], 1, 5);
    assert Supports(cfg, bids[0 := b][1], 3, 7);
  }

  // ---------- the less/more control table ----------

  // Its entries have no setter, its loops test differently, and yet it keeps the same values.
  datatype ConEntry = ConEntry(curVal: int, priority: int, isValid: bool)

  function Face(e: Entry): ConEntry {
    ConEntry(e.curVal, e.priority, e.isValid)
  }

  function ConEnable(cfg: Cfg, c: ConEntry, b: Bid): ConEntry {
    if !c.isValid || b.priority > c.priority then c
    else if (cfg.Better(b.val, c.curVal) && b.priority == c.priority)
         || (b.priority < c.priority && b.val != cfg.ResetVal()) then
      ConEntry(b.val, b.priority, c.isValid)
    else c
  }

  function ConConsider(cfg: Cfg, c: ConEntry, b: Bid): ConEntry {
    if !b.on || b.val == cfg.ResetVal() then c
    else if b.priority == c.priority then c.(curVal := if cfg.Better(b.val, c.curVal) then b.val else c.curVal)
    else if b.priority < c.priority then ConEntry(b.val, b.priority, c.isValid)
    else c
  }

  function ConScan(cfg: Cfg, isValid: bool, bids: seq<Bid>): ConEntry {
    if bids == [] then ConEntry(cfg.ResetVal(), PRIORITY_LOWEST, isValid)
    else ConConsider(cfg, ConScan(cfg, isValid, bids[..|bids| - 1]), bids[|bids| - 1])
  }

  function ConDisable(cfg: Cfg, c: ConEntry, b: Bid, bids: seq<Bid>): ConEntry {
    if !c.isValid || b.priority > c.priority then c
    else if cfg.Better(b.val, cfg.ResetVal()) && !cfg.Better(c.curVal, b.val) then ConScan(cfg, c.isValid, bids)
    else c
  }

  function ConForceUpdate(cfg: Cfg, c: ConEntry, b: Bid, bids: seq<Bid>): ConEntry {
    if !c.isValid || b.priority > c.priority then c else ConScan(cfg, c.isValid, bids)
  }

  lemma {:induction false} ConScanAgrees(cfg: Cfg, isValid: bool, bids: seq<Bid>)
    requires AllLegal(cfg, bids)
    ensures var best := Scan(cfg, bids);
            ConScan(cfg, isValid, bids) == ConEntry(best.val, best.priority, isValid)
  {
    if bids != [] {
      ConScanAgrees(cfg, isValid, bids[..|bids| - 1]);
    }
  }

  // Whatever a control-table step does, the resource-table step does to the shared fields.
  lemma ConStepsAgree(cfg: Cfg, e: Entry, b: Bid, bids: seq<Bid>)
    requires AllLegal(cfg, bids)
    ensures ConEnable(cfg, Face(e), b) == Face(Enable(cfg, e, b))
    ensures ConDisable(cfg, Face(e), b, bids) == Face(Disable(cfg, e, b, bids))
    ensures ConForceUpdate(cfg, Face(e), b, bids) == Face(ForceUpdate(cfg, e, b, bids))
  {
    ConScanAgrees(cfg, e.isValid, bids);
  }

  // A control entry as a resource entry whose setter nobody looks at.
  function Whole(c: ConEntry): Entry {
    Entry(c.curVal, -1, -1, c.priority, c.isValid, Never)
  }

  function ConChange(cfg: Cfg, c: ConEntry, b: Bid, bids: seq<Bid>, force: bool): ConEntry {
    if force then ConForceUpdate(cfg, c, b, bids) else ConEnable(cfg, c, b)
  }

  // So what holds of the values of resource entries holds of control entries.
  lemma ConValues(cfg: Cfg, c: ConEntry, b: Bid, bids: seq<Bid>, force: bool)
    requires AllLegal(cfg, bids)
    ensures ConDisable(cfg, c, b, bids) == Face(Disable(cfg, Whole(c), b, bids))
    ensures ConChange(cfg, c, b, bids, force) == Face(Change(cfg, Whole(c), b, bids, force))
  {
    ConStepsAgree(cfg, Whole(c), b, bids);
  }

  // A resource that is not valid is never touched.
  lemma {:induction false} InvalidStays(cfg: Cfg, e: Entry, c: ConEntry, b: Bid, bids: seq<Bid>, force: bool)
    requires !e.isValid && !c.isValid
    ensures Disable(cfg, e, b, bids) == e == Change(cfg, e, b, bids, force)
    ensures ConDisable(cfg, c, b, bids) == c == ConChange(cfg, c, b, bids, force)
  {
  }

  lemma StepsKeepValidity(cfg: Cfg, e: Entry, b: Bid, bids: seq<Bid>, force: bool)
    ensures Disable(cfg, e, b, bids).isValid == e.isValid && Change(cfg, e, b, bids, force).isValid == e.isValid
  {
  }
}
