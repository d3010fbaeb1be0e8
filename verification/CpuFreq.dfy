/** CPU frequency limits: the floor and ceiling written for a core, resolved from the requests
    for the core, its cluster, and the cluster's hard window. */
module CpuFreq {
  import opened Bounds

  const CLUSTER_MAX: nat := 8
  const CPU_CORE_MAX: nat := 8

  // Who asked, by process and hint.
  datatype Setter = Setter(pid: int, hint: int)

  datatype Limit = Limit(min: int, max: int, minSetter: Setter, maxSetter: Setter)

  datatype Cluster = Cluster(freqMin: int, freqMax: int, cpuNum: int, first: int)

  // What was written to the driver for a core.
  datatype Written = Written(cpu: int, floor: int, ceiling: int, floorSetter: Setter, ceilingSetter: Setter)

  function Clamp(k: Cluster, x: int): int {
    if x <= k.freqMin then k.freqMin else if x >= k.freqMax then k.freqMax else x
  }

  // A ceiling that is not positive is no ceiling.
  function Ceil(k: Cluster, x: int): int {
    if x <= 0 then k.freqMax else Clamp(k, x)
  }

  function Cap(k: Cluster, x: int): int {
    if x >= k.freqMax then k.freqMax else x
  }

  // A ceiling below the floor follows the floor.
  function Align(l: Limit): (r: Limit)
    ensures r.min == l.min && r.minSetter == l.minSetter && r.min <= r.max
    ensures (r.max, r.maxSetter) in {(l.max, l.maxSetter), (l.min, l.minSetter)} && l.max <= r.max
    ensures l.min <= l.max ==> r == l
  {
    if l.max < l.min then l.(max := l.min, maxSetter := l.minSetter) else l
  }

  // A request made into a limit: capped at the cluster's top, the ceiling not below the floor.
  function ClusterLimit(k: Cluster, request: Limit): Limit {
    Align(request.(min := Cap(k, request.min), max := Cap(k, request.max)))
  }

  // A core's floor is not capped here.
  function CoreLimit(k: Cluster, request: Limit): Limit {
    Align(request.(max := Cap(k, request.max)))
  }

  // Into a window, where the window wins.
  function Within(lo: int, hi: int, x: int): int {
    Min(Max(x, lo), hi)
  }

  predicate SaneCluster(k: Cluster) {
    0 <= k.freqMin <= k.freqMax
  }

  // The floor wins over the ceiling and the hard window over both, each with its setter.
  function Combine(cpu: int, hard: Limit, f: int, fs: Setter, g: int, gs: Setter): (w: Written)
    requires hard.min <= hard.max
    ensures hard.min <= w.floor <= w.ceiling <= hard.max
    ensures hard.min <= f <= g <= hard.max ==> w == Written(cpu, f, g, fs, gs)
    ensures (w.floor, w.floorSetter) in {(f, fs), (hard.min, hard.minSetter), (hard.max, hard.maxSetter)}
    ensures (w.ceiling, w.ceilingSetter) in
              {(f, fs), (g, gs), (hard.min, hard.minSetter), (hard.max, hard.maxSetter)}
  {
    var top := Max(f, g);
    Written(cpu, Within(hard.min, hard.max, f), Within(hard.min, hard.max, top),
            if f < hard.min then hard.minSetter else if f > hard.max then hard.maxSetter else fs,
            if top > hard.max then hard.maxSetter else if top < hard.min then hard.minSetter
            else if g < f then fs else gs)
  }

  // Nobody asks: no floor, and the cluster's top as ceiling.
  function Unasked(k: Cluster): Limit {
    Limit(0, k.freqMax, Setter(-1, -1), Setter(-1, -1))
  }

  // A request for a floor or ceiling; -1 withdraws it.
  function Floored(l: Limit, freq: int, who: Setter): Limit {
    l.(min := if freq == -1 then 0 else freq, minSetter := who)
  }

  function Ceiled(k: Cluster, l: Limit, freq: int, who: Setter): Limit {
    l.(max := if freq == -1 then k.freqMax else freq, maxSetter := who)
  }

  lemma {:induction false} UnaskedIsItsLimit(k: Cluster)
    requires SaneCluster(k)
    ensures ClusterLimit(k, Unasked(k)) == Unasked(k) == CoreLimit(k, Unasked(k))
  {
  }

  predicate Spans(k: Cluster, c: int) {
    k.first <= c < k.first + k.cpuNum
  }

  // Clusters are disjoint stretches of the cores, and all cores of one are driven alike.
  ghost predicate Layout(clusters: seq<Cluster>, nClusterNum: nat, nCpuNum: nat, clusterOf: seq<nat>,
                         byCore: seq<bool>) {
    && nClusterNum <= CLUSTER_MAX == |clusters| && nCpuNum <= CPU_CORE_MAX == |clusterOf| == |byCore|
    && (forall i :: 0 <= i < nClusterNum ==>
          0 <= clusters[i].first && 0 <= clusters[i].cpuNum && clusters[i].first + clusters[i].cpuNum <= nCpuNum)
    && (forall c :: 0 <= c < nCpuNum ==> clusterOf[c] < nClusterNum && Spans(clusters[clusterOf[c]], c))
    && (forall i, c :: 0 <= i < nClusterNum && Spans(clusters[i], c) ==> clusterOf[c] == i)
    && (forall c, d :: 0 <= c < nCpuNum && 0 <= d < nCpuNum && clusterOf[c] == clusterOf[d] ==> byCore[c] == byCore[d])
  }

  // The same limits, whoever asked for them.
  predicate Alike(l: Limit, m: Limit) {
    l.min == m.min && l.max == m.max
  }

  method ArrayOf(s: seq<Limit>) returns (a: array<Limit>)
    ensures fresh(a) && a.Length == |s| && forall i :: 0 <= i < |s| ==> a[i] == s[i]
  {
    a := new Limit[|s|](i requires 0 <= i < |s| => s[i]);
  }

  class Resolver {
    // the cores' layout: clusters of consecutive cores, each driven core by core or as a whole
    const clusters: seq<Cluster>
    const nClusterNum: nat
    const nCpuNum: nat
    const clusterOf: seq<nat>
    const byCore: seq<bool>
    // whether the hard window has a driver of its own, and whether requests are listened to
    const hardUserLimit: bool
    const ready: bool
    // the requests in force; whoever made one may change without a call
    var clusterRequest: seq<Limit>
    var hardRequest: seq<Limit>
    var coreRequest: seq<Limit>
    // the limits derived from them
    const soft: array<Limit>
    const hard: array<Limit>
    const core: array<Limit>
    ghost var log: seq<Written>

    ghost predicate Shaped()
      reads this`clusterRequest, this`hardRequest, this`coreRequest, hard
    {
      && nClusterNum <= CLUSTER_MAX && nCpuNum <= CPU_CORE_MAX
      && |clusters| == |clusterRequest| == |hardRequest| == CLUSTER_MAX
      && |byCore| == |clusterOf| == |coreRequest| == CPU_CORE_MAX
      && soft.Length == hard.Length == CLUSTER_MAX && core.Length == CPU_CORE_MAX
      && soft != hard && soft != core && hard != core
      && (forall i :: 0 <= i < CLUSTER_MAX ==>
            SaneCluster(clusters[i]) && hard[i].min <= hard[i].max <= clusters[i].freqMax)
    }

    constructor (clusters: seq<Cluster>, nClusterNum: nat, nCpuNum: nat, clusterOf: seq<nat>, byCore: seq<bool>,
                 hardUserLimit: bool, ready: bool)
      requires Layout(clusters, nClusterNum, nCpuNum, clusterOf, byCore)
      requires forall i :: 0 <= i < CLUSTER_MAX ==> SaneCluster(clusters[i])
      requires forall c :: nCpuNum <= c < CPU_CORE_MAX ==> clusterOf[c] < CLUSTER_MAX
      ensures Valid() && log == [] && fresh(soft) && fresh(hard) && fresh(core)
      ensures this.clusters == clusters && this.nClusterNum == nClusterNum && this.nCpuNum == nCpuNum
      ensures this.clusterOf == clusterOf && this.byCore == byCore && this.hardUserLimit == hardUserLimit
      ensures this.ready == ready
      ensures forall i :: 0 <= i < CLUSTER_MAX ==> clusterRequest[i] == hardRequest[i] == Unasked(clusters[i])
      ensures forall c :: 0 <= c < CPU_CORE_MAX ==> coreRequest[c] == Unasked(clusters[clusterOf[c]])
    {
      hide ClusterLimit, CoreLimit;
      this.clusters, this.nClusterNum, this.nCpuNum := clusters, nClusterNum, nCpuNum;
      this.clusterOf, this.byCore, this.hardUserLimit := clusterOf, byCore, hardUserLimit;
      this.ready := ready;
      var perCluster := seq(CLUSTER_MAX, i requires 0 <= i < CLUSTER_MAX => Unasked(clusters[i]));
      var perCore := seq(CPU_CORE_MAX, c requires 0 <= c < CPU_CORE_MAX => Unasked(clusters[clusterOf[c]]));
      clusterRequest, hardRequest, coreRequest := perCluster, perCluster, perCore;
      var s := ArrayOf(perCluster);
      var h := ArrayOf(perCluster);
      var d := ArrayOf(perCore);
      soft, hard, core := s, h, d;
      log := [];
      new;
      forall k | SaneCluster(k) {
        UnaskedIsItsLimit(k);
      }
    }

    method UpdateCPUFreqInfo(cluster: int, cpu: int)
      requires Shaped()
      modifies core
      ensures Shaped()
      ensures if 0 <= cluster < CLUSTER_MAX && 0 <= cpu < CPU_CORE_MAX then
                core[..] == old(core[..])[cpu := CoreLimit(clusters[cluster], coreRequest[cpu])]
              else core[..] == old(core[..])
    {
      if cluster < 0 || cpu < 0 || cluster >= CLUSTER_MAX || cpu >= CPU_CORE_MAX {
        return;
      }
      core[cpu] := coreRequest[cpu];
      core[cpu] := core[cpu].(max := Cap(clusters[cluster], coreRequest[cpu].max));
      if core[cpu].max < core[cpu].min {
        core[cpu] := core[cpu].(maxSetter := core[cpu].minSetter, max := core[cpu].min);
      }
    }

    method UpdateClusterFreqInfo(cluster: int)
      requires Shaped()
      modifies soft, hard
      ensures Shaped()
      ensures if 0 <= cluster < CLUSTER_MAX then
                && soft[..] == old(soft[..])[cluster := ClusterLimit(clusters[cluster], clusterRequest[cluster])]
                && hard[..] == old(hard[..])[cluster := ClusterLimit(clusters[cluster], hardRequest[cluster])]
              else soft[..] == old(soft[..]) && hard[..] == old(hard[..])
    {
      if cluster < 0 || cluster >= CLUSTER_MAX {
        return;
      }
      var k := clusters[cluster];
      soft[cluster] := clusterRequest[cluster];
      soft[cluster] := soft[cluster].(min := Cap(k, soft[cluster].min), max := Cap(k, soft[cluster].max));
      if soft[cluster].max < soft[cluster].min {
        soft[cluster] := soft[cluster].(maxSetter := soft[cluster].minSetter, max := soft[cluster].min);
      }
      var h := hardRequest[cluster];
      h := h.(min := Cap(k, h.min), max := Cap(k, h.max));
      if h.max < h.min {
        h := h.(maxSetter := h.minSetter, max := h.min);
      }
      hard[cluster] := h;
    }

    // The cores whose limits count for `cpu`: itself, and when it is driven by cluster all of them.
    predicate Counts(cluster: nat, cpu: nat, c: int)
      requires cluster < |clusters| && cpu < |byCore|
    {
      var k := clusters[cluster];
      0 <= c < CPU_CORE_MAX && (c == cpu || (!byCore[cpu] && 0 <= k.first <= c < k.first + k.cpuNum))
    }

    // The highest floor asked for, and one who asked for it.
    ghost predicate IsFloor(cluster: nat, cpu: nat, f: int, who: Setter)
      requires Shaped() && cluster < CLUSTER_MAX && cpu < CPU_CORE_MAX
      reads this`clusterRequest, this`hardRequest, this`coreRequest, hard, soft, core
    {
      var k := clusters[cluster];
      && Clamp(k, soft[cluster].min) <= f
      && (forall c :: Counts(cluster, cpu, c) ==> Clamp(k, core[c].min) <= f)
      && ((f == Clamp(k, soft[cluster].min) && who == soft[cluster].minSetter)
          || exists c :: Counts(cluster, cpu, c) && f == Clamp(k, core[c].min) && who == core[c].minSetter)
    }

    // What core c contributes to the ceiling.  Only the core itself may have none.
    ghost function CoreCeiling(cluster: nat, cpu: nat, c: int): int
      requires Shaped() && cluster < CLUSTER_MAX && cpu < CPU_CORE_MAX && Counts(cluster, cpu, c)
      reads this`clusterRequest, this`hardRequest, this`coreRequest, hard, core
    {
      var k := clusters[cluster];
      if byCore[cpu] || !(0 <= k.first <= c < k.first + k.cpuNum) then Ceil(k, core[c].max) else Clamp(k, core[c].max)
    }

    ghost predicate IsCeiling(cluster: nat, cpu: nat, g: int, who: Setter)
      requires Shaped() && cluster < CLUSTER_MAX && cpu < CPU_CORE_MAX
      reads this`clusterRequest, this`hardRequest, this`coreRequest, hard, soft, core
    {
      var k := clusters[cluster];
      && g <= Ceil(k, soft[cluster].max)
      && (forall c :: Counts(cluster, cpu, c) ==> g <= CoreCeiling(cluster, cpu, c))
      && ((g == Ceil(k, soft[cluster].max) && who == soft[cluster].maxSetter)
          || exists c :: Counts(cluster, cpu, c) && g == CoreCeiling(cluster, cpu, c) && who == core[c].maxSetter)
    }

    method FindFloor(cluster: nat, cpu: nat) returns (f: int, who: Setter)
      requires Shaped() && cluster < CLUSTER_MAX && cpu < CPU_CORE_MAX
      ensures IsFloor(cluster, cpu, f, who)
    {
      var k := clusters[cluster];
      var cpuFreq := Clamp(k, core[cpu].min);
      var clusterFreq := Clamp(k, soft[cluster].min);
      who := core[cpu].minSetter;
      ghost var at := cpu;
      if !byCore[cpu] {
        var i := 0;
        while i < k.cpuNum
          invariant 0 <= i && (i == 0 || (0 <= k.first && k.first + i <= CPU_CORE_MAX && i <= k.cpuNum))
          invariant Counts(cluster, cpu, at) && cpuFreq == Clamp(k, core[at].min) && who == core[at].minSetter
          invariant Clamp(k, core[cpu].min) <= cpuFreq
          invariant forall c :: k.first <= c < k.first + i && 0 <= c < CPU_CORE_MAX ==> Clamp(k, core[c].min) <= cpuFreq
        {
          var c := k.first + i;
          if c < 0 || c >= CPU_CORE_MAX {
            break;
          }
          var freq := Clamp(k, core[c].min);
          if freq < 0 {
            break;
          }
          if freq > cpuFreq {
            cpuFreq := freq;
            who := core[c].minSetter;
            at := c;
          }
          i := i + 1;
        }
      }
      f := if cpuFreq > clusterFreq then cpuFreq else clusterFreq;
      who := if cpuFreq > clusterFreq then who else soft[cluster].minSetter;
    }

    method FindCeiling(cluster: nat, cpu: nat) returns (g: int, who: Setter)
      requires Shaped() && cluster < CLUSTER_MAX && cpu < CPU_CORE_MAX
      ensures IsCeiling(cluster, cpu, g, who)
    {
      var k := clusters[cluster];
      var maxCPUFreq := if core[cpu].max <= 0 then k.freqMax else Clamp(k, core[cpu].max);
      var maxClusterFreq := if soft[cluster].max <= 0 then k.freqMax else Clamp(k, soft[cluster].max);
      who := core[cpu].maxSetter;
      ghost var at := cpu;
      if !byCore[cpu] {
        var i := 0;
        while i < k.cpuNum
          invariant 0 <= i && (i == 0 || (0 <= k.first && k.first + i <= CPU_CORE_MAX && i <= k.cpuNum))
          invariant Counts(cluster, cpu, at) && who == core[at].maxSetter && maxCPUFreq <= Ceil(k, core[cpu].max)
          invariant (at == cpu && maxCPUFreq == Ceil(k, core[cpu].max))
                    || (0 <= k.first <= at < k.first + i && maxCPUFreq == Clamp(k, core[at].max))
          invariant forall c :: k.first <= c < k.first + i && 0 <= c < CPU_CORE_MAX ==>
              maxCPUFreq <= Clamp(k, core[c].max)
        {
          var c := k.first + i;
          if c < 0 || c >= CPU_CORE_MAX {
            break;
          }
          var freq := Clamp(k, core[c].max);
          if freq < 0 {
            break;
          }
          if freq < maxCPUFreq {
            maxCPUFreq := freq;
            who := core[c].maxSetter;
            at := c;
          }
          i := i + 1;
        }
      }
      g := if maxCPUFreq < maxClusterFreq then maxCPUFreq else maxClusterFreq;
      who := if maxCPUFreq < maxClusterFreq then who else soft[cluster].maxSetter;
    }

    // What is written for `cpu`: the highest floor and the lowest ceiling, combined under the
    // cluster's hard window.
    ghost predicate Resolved(cluster: nat, cpu: nat, w: Written)
      requires Shaped() && cluster < CLUSTER_MAX && cpu < CPU_CORE_MAX
      reads this`clusterRequest, this`hardRequest, this`coreRequest, hard, soft, core
    {
      exists f, fs, g, gs ::
        && IsFloor(cluster, cpu, f, fs) && IsCeiling(cluster, cpu, g, gs)
        && w == Combine(if byCore[cpu] then cpu else clusters[cluster].first, hard[cluster], f, fs, g, gs)
    }

    method Resolve(cluster: nat, cpu: nat) returns (w: Written)
      requires Shaped() && cluster < CLUSTER_MAX && cpu < CPU_CORE_MAX
      ensures Resolved(cluster, cpu, w)
    {
      hide IsFloor, IsCeiling;
      var h := hard[cluster];
      var f, fs := FindFloor(cluster, cpu);
      var g, gs := FindCeiling(cluster, cpu);
      var freqToSet, minSetter, maxToSet, maxSetter := f, fs, g, gs;
      if maxToSet < freqToSet {
        maxToSet, maxSetter := freqToSet, minSetter;
      }
      if freqToSet < h.min {
        freqToSet, minSetter := h.min, h.minSetter;
      }
      if freqToSet > h.max {
        freqToSet, minSetter := h.max, h.maxSetter;
      }
      if maxToSet > h.max {
        maxToSet, maxSetter := h.max, h.maxSetter;
      }
      if maxToSet < h.min {
        maxToSet, maxSetter := h.min, h.minSetter;
      }
      var target := if byCore[cpu] then cpu else clusters[cluster].first;
      w := Written(target, freqToSet, maxToSet, minSetter, maxSetter);
    }

    method SetCPUFreq(cluster: int, cpu: int)
      requires Shaped()
      modifies core, this`log
      ensures Shaped()
      ensures if 0 <= cluster < CLUSTER_MAX && 0 <= cpu < CPU_CORE_MAX then
                |log| == |old(log)| + 1 && log[..|old(log)|] == old(log) && Resolved(cluster, cpu, log[|old(log)|])
              else log == old(log)
      ensures forall c :: 0 <= c < CPU_CORE_MAX ==>
                core[c] == if c == cpu && byCore[c] && 0 <= cluster < CLUSTER_MAX
                           then CoreLimit(clusters[cluster], coreRequest[c]) else old(core[c])
    {
      hide Resolved, CoreLimit;
      if cluster < 0 || cpu < 0 || cluster >= CLUSTER_MAX || cpu >= CPU_CORE_MAX {
        return;
      }
      if byCore[cpu] {
        UpdateCPUFreqInfo(cluster, cpu);
        assert core[cpu] == core[..][cpu];
        assert forall c :: 0 <= c < CPU_CORE_MAX && c != cpu ==> core[..][c] == old(core[..])[c];
      }
      var w := Resolve(cluster, cpu);
      log := log + [w];
    }

    // A core driven on its own does not feel the others.
    twostate lemma FloorAlone(cluster: nat, new cpu: nat, new f: int, new who: Setter)
      requires old(Shaped()) && Shaped() && cluster < CLUSTER_MAX && cpu < CPU_CORE_MAX && byCore[cpu]
      requires soft[cluster] == old(soft[cluster]) && core[cpu] == old(core[cpu])
      requires old(IsFloor(cluster, cpu, f, who))
      ensures IsFloor(cluster, cpu, f, who)
    {
      assert forall c :: Counts(cluster, cpu, c) <==> c == cpu;
    }

    twostate lemma CeilingAlone(cluster: nat, new cpu: nat, new g: int, new who: Setter)
      requires old(Shaped()) && Shaped() && cluster < CLUSTER_MAX && cpu < CPU_CORE_MAX && byCore[cpu]
      requires soft[cluster] == old(soft[cluster]) && core[cpu] == old(core[cpu])
      requires old(IsCeiling(cluster, cpu, g, who))
      ensures IsCeiling(cluster, cpu, g, who)
    {
      assert forall c :: Counts(cluster, cpu, c) <==> c == cpu;
    }

    twostate lemma ResolvedAlone(cluster: nat, new cpu: nat, new w: Written)
      requires old(Shaped()) && Shaped() && cluster < CLUSTER_MAX && cpu < CPU_CORE_MAX && byCore[cpu]
      requires soft[cluster] == old(soft[cluster]) && hard[cluster] == old(hard[cluster]) && core[cpu] == old(core[cpu])
      requires old(Resolved(cluster, cpu, w))
      ensures Resolved(cluster, cpu, w)
    {
      hide IsFloor, IsCeiling, Combine;
      var f, fs, g, gs :|
        && old(IsFloor(cluster, cpu, f, fs)) && old(IsCeiling(cluster, cpu, g, gs))
        && w == Combine(cpu, hard[cluster], f, fs, g, gs);
      FloorAlone(cluster, cpu, f, fs);
      CeilingAlone(cluster, cpu, g, gs);
    }

    // The entry of a log that was written for core c.
    ghost predicate Logged(cluster: nat, c: nat, entries: seq<Written>, start: int)
      requires Shaped() && cluster < CLUSTER_MAX && c < CPU_CORE_MAX
      reads this`clusterRequest, this`hardRequest, this`coreRequest, hard, soft, core
    {
      var at := start + c - clusters[cluster].first;
      0 <= at < |entries| && Resolved(cluster, c, entries[at])
    }

    // One write per core, in order; the first core that is driven by cluster ends it.
    method SetClusterFreq(cluster: nat)
      requires Shaped()
      requires cluster < nClusterNum ==>
                 var k := clusters[cluster]; 0 <= k.first && 0 <= k.cpuNum && k.first + k.cpuNum <= CPU_CORE_MAX
      modifies soft, hard, core, this`log
      ensures Shaped() && old(log) <= log
      ensures cluster >= nClusterNum ==> log == old(log)
      ensures cluster < nClusterNum ==>
                var k, end := clusters[cluster], clusters[cluster].first + |log| - |old(log)|;
                && end <= k.first + k.cpuNum && (forall c :: k.first <= c < end - 1 ==> byCore[c])
                && (end < k.first + k.cpuNum ==> end > k.first && !byCore[end - 1])
                && (forall c :: k.first <= c < end ==> Logged(cluster, c, log, |old(log)|))
                && soft[..] == old(soft[..])[cluster := ClusterLimit(k, clusterRequest[cluster])]
                && hard[..] == old(hard[..])[cluster := ClusterLimit(k, hardRequest[cluster])]
                && forall c :: 0 <= c < CPU_CORE_MAX ==>
                     core[c] == if k.first <= c < end && byCore[c] then CoreLimit(k, coreRequest[c]) else old(core[c])
    {
      hide Resolved, CoreLimit, ClusterLimit;
      if cluster >= nClusterNum {
        return;
      }
      UpdateClusterFreqInfo(cluster);
      var k := clusters[cluster];
      var i := k.first;
      ghost var start := |log|;
      while i < k.first + k.cpuNum
        invariant k.first <= i <= k.first + k.cpuNum && Shaped() && old(log) <= log && |log| == start + (i - k.first)
        invariant soft[..] == old(soft[..])[cluster := ClusterLimit(k, clusterRequest[cluster])]
        invariant hard[..] == old(hard[..])[cluster := ClusterLimit(k, hardRequest[cluster])]
        invariant forall c :: k.first <= c < i ==> byCore[c] && Logged(cluster, c, log, start)
        invariant forall c :: 0 <= c < CPU_CORE_MAX ==>
                    core[c] == if k.first <= c < i then CoreLimit(k, coreRequest[c]) else old(core[c])
      {
        label Before:
        ghost var was := log;
        SetCPUFreq(cluster, i);
        forall c | k.first <= c < i ensures Logged(cluster, c, log, start) {
          assert old@Before(Logged(cluster, c, was, start));
          ResolvedAlone@Before(cluster, c, log[start + c - k.first]);
        }
        if !byCore[i] {
          break;
        }
        i := i + 1;
      }
    }

    lemma {:induction false} FloorUnique(cluster: nat, cpu: nat, f: int, who: Setter, f': int, who': Setter)
      requires Shaped() && cluster < CLUSTER_MAX && cpu < CPU_CORE_MAX
      requires IsFloor(cluster, cpu, f, who) && IsFloor(cluster, cpu, f', who')
      ensures f == f'
    {
    }

    lemma {:induction false} CeilingUnique(cluster: nat, cpu: nat, g: int, who: Setter, g': int, who': Setter)
      requires Shaped() && cluster < CLUSTER_MAX && cpu < CPU_CORE_MAX
      requires IsCeiling(cluster, cpu, g, who) && IsCeiling(cluster, cpu, g', who')
      ensures g == g'
    {
    }

    // The values written are functions of the limits.
    lemma {:induction false} ResolutionUnique(cluster: nat, cpu: nat, w: Written, w': Written)
      requires Shaped() && cluster < CLUSTER_MAX && cpu < CPU_CORE_MAX
      requires Resolved(cluster, cpu, w) && Resolved(cluster, cpu, w')
      ensures w.floor == w'.floor && w.ceiling == w'.ceiling
    {
      hide IsFloor, IsCeiling;
      var f, fs, g, gs :| IsFloor(cluster, cpu, f, fs) && IsCeiling(cluster, cpu, g, gs)
                          && w == Combine(w.cpu, hard[cluster], f, fs, g, gs);
      var f', fs', g', gs' :| IsFloor(cluster, cpu, f', fs') && IsCeiling(cluster, cpu, g', gs')
                              && w' == Combine(w'.cpu, hard[cluster], f', fs', g', gs');
      FloorUnique(cluster, cpu, f, fs, f', fs');
      CeilingUnique(cluster, cpu, g, gs, g', gs');
    }

    // ---------- requests and what is written for them ----------

    // The limits are those of the requests.  A cluster driven as a whole never looks at its
    // cores' requests: their limits stay as they were.
    ghost predicate InForce()
      requires Shaped() && Layout(clusters, nClusterNum, nCpuNum, clusterOf, byCore)
      reads this`clusterRequest, this`hardRequest, this`coreRequest, hard, soft, core
    {
      && (forall i :: 0 <= i < nClusterNum ==> Alike(soft[i], ClusterLimit(clusters[i], clusterRequest[i])))
      && (!hardUserLimit ==>
            forall i :: 0 <= i < nClusterNum ==> Alike(hard[i], ClusterLimit(clusters[i], hardRequest[i])))
      && (forall c :: 0 <= c < nCpuNum ==> Alike(core[c], CoreLimit(clusters[clusterOf[c]], Own(c))))
    }

    ghost predicate Valid()
      reads this`clusterRequest, this`hardRequest, this`coreRequest, hard, soft, core
    {
      Shaped() && Layout(clusters, nClusterNum, nCpuNum, clusterOf, byCore) && InForce()
    }

    // What a core asks for itself.
    ghost function Own(c: nat): Limit
      requires Shaped() && Layout(clusters, nClusterNum, nCpuNum, clusterOf, byCore) && c < nCpuNum
      reads this`clusterRequest, this`hardRequest, this`coreRequest, hard
    {
      if byCore[c] then coreRequest[c] else Unasked(clusters[clusterOf[c]])
    }

    // What the cores that count for `cpu` ask is what it asks itself.
    lemma {:induction false} CoreValues(cluster: nat, cpu: nat, c: int)
      requires Valid() && cpu < nCpuNum && clusterOf[cpu] == cluster && Counts(cluster, cpu, c)
      ensures Clamp(clusters[cluster], core[c].min) == Clamp(clusters[cluster], Own(cpu).min)
      ensures CoreCeiling(cluster, cpu, c) == Top(clusters[cluster], Own(cpu))
    {
      var k := clusters[cluster];
      assert Spans(k, cpu);
      if c != cpu {
        assert Spans(k, c) && clusterOf[c] == cluster && byCore[c] == byCore[cpu];
      }
      assert Alike(core[c], CoreLimit(k, Own(c)));
      LimitValues(k, Own(c), core[c]);
    }

    // In every reachable state the pair resolved for a core is the closed form of the requests
    // in force: its own only when it is driven on its own, its cluster's, and the hard window.
    lemma {:induction false} ResolvedIsPair(cluster: nat, cpu: nat, w: Written)
      requires Valid() && cpu < nCpuNum && clusterOf[cpu] == cluster && Resolved(cluster, cpu, w)
      ensures (w.floor, w.ceiling) == Pair(clusters[cluster], Own(cpu), clusterRequest[cluster], hard[cluster])
      ensures w.cpu == if byCore[cpu] then cpu else clusters[cluster].first
    {
      hide Pair, Clamp, Top, CoreCeiling, InForce;
      var k := clusters[cluster];
      var target := if byCore[cpu] then cpu else k.first;
      var f, fs, g, gs :|
        && IsFloor(cluster, cpu, f, fs) && IsCeiling(cluster, cpu, g, gs)
        && w == Combine(target, hard[cluster], f, fs, g, gs);
      FloorValue(cluster, cpu, f, fs);
      CeilingValue(cluster, cpu, g, gs);
      PairMeans(k, Own(cpu), clusterRequest[cluster], hard[cluster]);
    }

    lemma {:induction false} FloorValue(cluster: nat, cpu: nat, f: int, who: Setter)
      requires Valid() && cpu < nCpuNum && clusterOf[cpu] == cluster && IsFloor(cluster, cpu, f, who)
      ensures f == Max(Clamp(clusters[cluster], Own(cpu).min), Clamp(clusters[cluster], clusterRequest[cluster].min))
    {
      hide Clamp;
      var k := clusters[cluster];
      assert Alike(soft[cluster], ClusterLimit(k, clusterRequest[cluster]));
      LimitValues(k, clusterRequest[cluster], soft[cluster]);
      assert Counts(cluster, cpu, cpu);
      forall c | Counts(cluster, cpu, c) ensures Clamp(k, core[c].min) == Clamp(k, Own(cpu).min) {
        CoreValues(cluster, cpu, c);
      }
    }

    lemma {:induction false} CeilingValue(cluster: nat, cpu: nat, g: int, who: Setter)
      requires Valid() && cpu < nCpuNum && clusterOf[cpu] == cluster && IsCeiling(cluster, cpu, g, who)
      ensures g == Min(Top(clusters[cluster], Own(cpu)), Top(clusters[cluster], clusterRequest[cluster]))
    {
      hide Clamp, Top, CoreCeiling;
      var k := clusters[cluster];
      assert Alike(soft[cluster], ClusterLimit(k, clusterRequest[cluster]));
      LimitValues(k, clusterRequest[cluster], soft[cluster]);
      assert Counts(cluster, cpu, cpu);
      forall c | Counts(cluster, cpu, c) ensures CoreCeiling(cluster, cpu, c) == Top(k, Own(cpu)) {
        CoreValues(cluster, cpu, c);
      }
    }

    // What is now written for core c.
    ghost function Now(c: nat): (int, int)
      requires Valid() && c < nCpuNum
      reads this`clusterRequest, this`hardRequest, this`coreRequest, hard, soft, core
    {
      var i := clusterOf[c];
      Pair(clusters[i], Own(c), clusterRequest[i], hard[i])
    }

    // Nothing is ever written above the cluster's top, or a floor above its ceiling.
    lemma {:induction false} NowIsARange(c: nat)
      requires Valid() && c < nCpuNum
      ensures var (floor, ceiling) := Now(c);
              hard[clusterOf[c]].min <= floor <= ceiling <= clusters[clusterOf[c]].freqMax
    {
    }

    // So a hard ceiling request of 0 stops the cluster, in every reachable state.
    lemma {:induction false} HardZeroStopsCluster(c: nat)
      requires Valid() && c < nCpuNum && !hardUserLimit
      requires hardRequest[clusterOf[c]].min == 0 && hardRequest[clusterOf[c]].max <= 0
      ensures Now(c) == (0, 0)
    {
      var i := clusterOf[c];
      assert Alike(hard[i], ClusterLimit(clusters[i], hardRequest[i]));
      HardCeilingOfZeroPins(clusters[i], Own(c), clusterRequest[i], hardRequest[i]);
    }

    // The log from `start` on: the cores of the cluster in order, up to the first that is driven
    // by cluster, each with the pair its requests amount to.
    ghost predicate Announced(cluster: nat, start: nat)
      requires Valid() && cluster < nClusterNum && start <= |log|
      reads this, hard, soft, core
    {
      var k, end := clusters[cluster], clusters[cluster].first + |log| - start;
      && end <= k.first + k.cpuNum && (end < k.first + k.cpuNum ==> end > k.first && !byCore[end - 1])
      && forall c :: k.first <= c < end ==>
           var w := log[start + c - k.first];
           w.cpu == (if byCore[c] then c else k.first) && (w.floor, w.ceiling) == Now(c)
    }

    // Refreshing a cluster brings its limits in line with its requests.
    method Refresh(cluster: nat, ghost start: nat)
      requires Shaped() && Layout(clusters, nClusterNum, nCpuNum, clusterOf, byCore) && cluster < nClusterNum
      requires start == |log|
      requires forall i :: 0 <= i < nClusterNum && i != cluster ==>
                 && Alike(soft[i], ClusterLimit(clusters[i], clusterRequest[i]))
                 && (!hardUserLimit ==> Alike(hard[i], ClusterLimit(clusters[i], hardRequest[i])))
      requires forall c :: 0 <= c < nCpuNum ==> Alike(core[c], CoreLimit(clusters[clusterOf[c]], Own(c)))
      modifies soft, hard, core, this`log
      ensures Valid() && old(log) <= log && Announced(cluster, start)
      ensures Alike(hard[cluster], ClusterLimit(clusters[cluster], hardRequest[cluster]))
    {
      hide Resolved, CoreLimit, ClusterLimit, Pair;
      SetClusterFreq(cluster);
      ghost var k := clusters[cluster];
      assert forall i :: 0 <= i < CLUSTER_MAX ==> soft[i] == soft[..][i] && hard[i] == hard[..][i];
      forall c | 0 <= c < nCpuNum ensures Alike(core[c], CoreLimit(clusters[clusterOf[c]], Own(c))) {
        assert Spans(k, c) ==> clusterOf[c] == cluster;
      }
      assert InForce();
      forall c | k.first <= c < k.first + |log| - start
        ensures var w := log[start + c - k.first];
                w.cpu == (if byCore[c] then c else k.first) && (w.floor, w.ceiling) == Now(c)
      {
        assert Spans(k, c) && Logged(cluster, c, log, start);
        ResolvedIsPair(cluster, c, log[start + c - k.first]);
      }
    }

    method SetClusterMin(cluster: nat, freq: int, who: Setter)
      requires Valid()
      modifies this`clusterRequest, soft, hard, core, this`log
      ensures Valid() && old(log) <= log
      ensures if ready && cluster < nClusterNum then
                && clusterRequest == old(clusterRequest)[cluster := Floored(old(clusterRequest)[cluster], freq, who)]
                && Announced(cluster, |old(log)|)
              else clusterRequest == old(clusterRequest) && log == old(log)
    {
      hide CoreLimit, ClusterLimit, Announced;
      if ready && cluster < nClusterNum {
        clusterRequest := clusterRequest[cluster := Floored(clusterRequest[cluster], freq, who)];
        Refresh(cluster, |log|);
      }
    }

    method SetClusterMax(cluster: nat, freq: int, who: Setter)
      requires Valid()
      modifies this`clusterRequest, soft, hard, core, this`log
      ensures Valid() && old(log) <= log
      ensures if ready && cluster < nClusterNum then
                && clusterRequest == old(clusterRequest)[cluster :=
                     Ceiled(clusters[cluster], old(clusterRequest)[cluster], freq, who)]
                && Announced(cluster, |old(log)|)
              else clusterRequest == old(clusterRequest) && log == old(log)
    {
      hide CoreLimit, ClusterLimit, Announced;
      if ready && cluster < nClusterNum {
        clusterRequest := clusterRequest[cluster := Ceiled(clusters[cluster], clusterRequest[cluster], freq, who)];
        Refresh(cluster, |log|);
      }
    }

    // With a driver of its own the hard window is refreshed only along with the cluster.
    method SetHardMin(cluster: nat, freq: int, who: Setter)
      requires Valid()
      modifies this`hardRequest, soft, hard, core, this`log
      ensures Valid() && old(log) <= log
      ensures if ready && cluster < nClusterNum then
                && hardRequest == old(hardRequest)[cluster := Floored(old(hardRequest)[cluster], freq, who)]
                && if hardUserLimit then log == old(log) else Announced(cluster, |old(log)|)
              else hardRequest == old(hardRequest) && log == old(log)
    {
      hide CoreLimit, ClusterLimit, Announced;
      if ready && cluster < nClusterNum {
        hardRequest := hardRequest[cluster := Floored(hardRequest[cluster], freq, who)];
        if !hardUserLimit {
          Refresh(cluster, |log|);
        }
      }
    }

    method SetHardMax(cluster: nat, freq: int, who: Setter)
      requires Valid()
      modifies this`hardRequest, soft, hard, core, this`log
      ensures Valid() && old(log) <= log
      ensures if ready && cluster < nClusterNum then
                && hardRequest == old(hardRequest)[cluster :=
                     Ceiled(clusters[cluster], old(hardRequest)[cluster], freq, who)]
                && if hardUserLimit then log == old(log) else Announced(cluster, |old(log)|)
              else hardRequest == old(hardRequest) && log == old(log)
    {
      hide CoreLimit, ClusterLimit, Announced;
      if ready && cluster < nClusterNum {
        hardRequest := hardRequest[cluster := Ceiled(clusters[cluster], hardRequest[cluster], freq, who)];
        if !hardUserLimit {
          Refresh(cluster, |log|);
        }
      }
    }

    // One write, with the pair the requests now amount to; in a cluster driven as a whole a
    // core's request does not change that pair.
    ghost predicate AnnouncedCore(c: nat, start: nat)
      requires Valid() && c < nCpuNum
      reads this, hard, soft, core
    {
      && |log| == start + 1
      && log[start].cpu == (if byCore[c] then c else clusters[clusterOf[c]].first)
      && (log[start].floor, log[start].ceiling) == Now(c)
    }

    method SetCoreMin(c: nat, freq: int, who: Setter)
      requires Valid()
      modifies this`coreRequest, core, this`log
      ensures Valid() && old(log) <= log
      ensures if ready && c < nCpuNum then
                && coreRequest == old(coreRequest)[c := Floored(old(coreRequest)[c], freq, who)]
                && AnnouncedCore(c, |old(log)|) && (!byCore[c] ==> Now(c) == old(Now(c)))
              else coreRequest == old(coreRequest) && log == old(log)
    {
      hide CoreLimit, ClusterLimit, Pair, AnnouncedCore;
      if ready && c < nCpuNum {
        coreRequest := coreRequest[c := Floored(coreRequest[c], freq, who)];
        RefreshCore(c, |log|);
      }
    }

    method SetCoreMax(c: nat, freq: int, who: Setter)
      requires Valid()
      modifies this`coreRequest, core, this`log
      ensures Valid() && old(log) <= log
      ensures if ready && c < nCpuNum then
                && coreRequest == old(coreRequest)[c := Ceiled(clusters[clusterOf[c]], old(coreRequest)[c], freq, who)]
                && AnnouncedCore(c, |old(log)|) && (!byCore[c] ==> Now(c) == old(Now(c)))
              else coreRequest == old(coreRequest) && log == old(log)
    {
      hide CoreLimit, ClusterLimit, Pair, AnnouncedCore;
      if ready && c < nCpuNum {
        coreRequest := coreRequest[c := Ceiled(clusters[clusterOf[c]], coreRequest[c], freq, who)];
        RefreshCore(c, |log|);
      }
    }

    method RefreshCore(c: nat, ghost start: nat)
      requires Shaped() && Layout(clusters, nClusterNum, nCpuNum, clusterOf, byCore) && c < nCpuNum && start == |log|
      requires forall i :: 0 <= i < nClusterNum ==>
                 && Alike(soft[i], ClusterLimit(clusters[i], clusterRequest[i]))
                 && (!hardUserLimit ==> Alike(hard[i], ClusterLimit(clusters[i], hardRequest[i])))
      requires forall d :: 0 <= d < nCpuNum && (d != c || !byCore[c]) ==>
                 Alike(core[d], CoreLimit(clusters[clusterOf[d]], Own(d)))
      modifies core, this`log
      ensures Valid() && old(log) <= log && AnnouncedCore(c, start)
    {
      hide CoreLimit, ClusterLimit, Pair, Resolved;
      SetCPUFreq(clusterOf[c], c);
      assert InForce();
      ResolvedIsPair(clusterOf[c], c, log[start]);
    }
  }

  lemma {:induction false} PairMeans(k: Cluster, own: Limit, cluster: Limit, hard: Limit)
    ensures var f := Max(Clamp(k, own.min), Clamp(k, cluster.min));
            var g := Min(Top(k, own), Top(k, cluster));
            Pair(k, own, cluster, hard) == (Within(hard.min, hard.max, f), Within(hard.min, hard.max, Max(f, g)))
  {
  }

  // ---------- the closed form ----------

  // The ceiling a request amounts to.
  function Top(k: Cluster, l: Limit): int {
    if l.min <= 0 && l.max <= 0 then k.freqMax else Max(Clamp(k, l.min), Clamp(k, l.max))
  }

  // Floor and ceiling from the core's own request, the cluster's, and the hard window.
  function Pair(k: Cluster, own: Limit, cluster: Limit, hard: Limit): (int, int) {
    var f := Max(Clamp(k, own.min), Clamp(k, cluster.min));
    var g := Min(Top(k, own), Top(k, cluster));
    (Within(hard.min, hard.max, f), Within(hard.min, hard.max, Max(f, g)))
  }

  // Clamping gives the nearest frequency the cluster has.
  lemma {:induction false} ClampIsNearest(k: Cluster, x: int, y: int)
    requires SaneCluster(k) && k.freqMin <= y <= k.freqMax
    ensures var r := Clamp(k, x);
            && k.freqMin <= r <= k.freqMax
            && (if x <= r then r - x else x - r) <= (if x <= y then y - x else x - y)
  {
  }

  // While nobody asks for anything the whole range of the cluster is written.
  lemma {:induction false} NobodyAsks(k: Cluster)
    requires SaneCluster(k)
    ensures Pair(k, Unasked(k), Unasked(k), ClusterLimit(k, Unasked(k))) == (k.freqMin, k.freqMax)
  {
  }

  // A floor asked for is the least that is written, as far as the cluster and the hard window
  // go; a ceiling is passed only by the floor.
  lemma {:induction false} RequestsShow(k: Cluster, own: Limit, cluster: Limit, hard: Limit, freq: int, who: Setter)
    requires SaneCluster(k) && hard.min <= hard.max && freq > 0
    ensures var (floor, _) := Pair(k, own, Floored(cluster, freq, who), hard);
            floor >= Within(hard.min, hard.max, Clamp(k, freq))
    ensures var (floor, _) := Pair(k, Floored(own, freq, who), cluster, hard);
            floor >= Within(hard.min, hard.max, Clamp(k, freq))
    ensures var (floor, ceiling) := Pair(k, own, Ceiled(k, cluster, freq, who), hard);
            ceiling <= Max(floor, Within(hard.min, hard.max, Clamp(k, freq)))
    ensures var (floor, ceiling) := Pair(k, Ceiled(k, own, freq, who), cluster, hard);
            ceiling <= Max(floor, Within(hard.min, hard.max, Clamp(k, freq)))
    ensures Floored(cluster, freq, who).minSetter == who == Ceiled(k, cluster, freq, who).maxSetter
  {
  }

  // A request alone is written as it is asked, where the cluster has that frequency.
  lemma {:induction false} LoneRequestShows(k: Cluster, freq: int, who: Setter)
    requires SaneCluster(k) && k.freqMin <= freq <= k.freqMax && freq > 0
    ensures var none, window := Unasked(k), ClusterLimit(k, Unasked(k));
            && Pair(k, none, Floored(none, freq, who), window) == (freq, k.freqMax)
            && Pair(k, none, Ceiled(k, none, freq, who), window) == (k.freqMin, freq)
            && Pair(k, none, none, ClusterLimit(k, Floored(none, freq, who))) == (freq, k.freqMax)
            && Pair(k, none, none, ClusterLimit(k, Ceiled(k, none, freq, who))) == (k.freqMin, freq)
  {
  }

  // -1 undoes a request, whatever it was, and leaves the other half alone.
  lemma {:induction false} Withdrawn(k: Cluster, l: Limit, freq: int, who: Setter, who': Setter)
    ensures Floored(Floored(l, freq, who), -1, who').min == Unasked(k).min
    ensures Ceiled(k, Ceiled(k, l, freq, who), -1, who').max == Unasked(k).max
    ensures Floored(l, freq, who).max == l.max && Ceiled(k, l, freq, who).min == l.min
  {
  }

  // When no core of its own is asked for, the cluster's request decides alone.
  lemma {:induction false} PairOfCluster(k: Cluster, cluster: Limit, hard: Limit)
    requires SaneCluster(k)
    ensures Pair(k, Unasked(k), cluster, hard)
            == (Within(hard.min, hard.max, Clamp(k, cluster.min)), Within(hard.min, hard.max, Top(k, cluster)))
  {
  }

  lemma {:induction false} LimitValues(k: Cluster, request: Limit, l: Limit)
    requires SaneCluster(k) && (Alike(l, CoreLimit(k, request)) || Alike(l, ClusterLimit(k, request)))
    ensures Clamp(k, l.min) == Clamp(k, request.min) && Ceil(k, l.max) == Top(k, request)
  {
  }

  // A core's or cluster's ceiling that is not positive means none, if and only if it comes without
  // a floor that holds the ceiling down.
  lemma {:induction false} NoCeilingExact(k: Cluster, request: Limit)
    requires SaneCluster(k) && request.max <= 0
    ensures Top(k, request) == k.freqMax <==> request.min <= 0 || Clamp(k, request.min) == k.freqMax
  {
  }

  lemma {:induction false} CeilingOfZeroPins()
    ensures var k, who := Cluster(500, 2000, 4, 0), Setter(-1, -1);
            Top(k, Limit(0, 0, who, who)) == 2000 && Top(k, Limit(1000, 0, who, who)) == 1000
  {
  }

  // The ceiling core and cluster ask for, before the hard window.
  function SoftCeiling(k: Cluster, own: Limit, cluster: Limit): int {
    Max(Max(Clamp(k, own.min), Clamp(k, cluster.min)), Min(Top(k, own), Top(k, cluster)))
  }

  // A hard ceiling that is not positive is taken literally.  It leaves the pair what it would be
  // without that ceiling if and only if the ceiling asked for does not pass the hard floor anyway,
  // or is itself 0.
  lemma {:induction false} NoHardCeilingExact(k: Cluster, own: Limit, cluster: Limit, request: Limit)
    requires SaneCluster(k) && request.max <= 0
    ensures Pair(k, own, cluster, ClusterLimit(k, request))
            == Pair(k, own, cluster, ClusterLimit(k, request.(max := k.freqMax)))
            <==> var top := SoftCeiling(k, own, cluster);
                 top <= Cap(k, request.min) || (top == 0 && request.max == 0)
  {
  }

  // Without a hard floor it switches everything to 0, whatever cores and clusters ask.
  lemma {:induction false} HardCeilingOfZeroPins(k: Cluster, own: Limit, cluster: Limit, request: Limit)
    requires SaneCluster(k) && request.min == 0 && request.max <= 0
    ensures Pair(k, own, cluster, ClusterLimit(k, request)) == (0, 0)
  {
  }
}
