/** Bottom-up merge sort on sequences: what the linked-list sort computes, and why the
    result is sorted, stable and a permutation. */
module MergeSort {
  import opened Bounds

  ghost predicate TotalPreorder<K(!new)>(le: (K, K) -> bool) {
    && (forall a, b :: le(a, b) || le(b, a))
    && (forall a, b, c :: le(a, b) && le(b, c) ==> le(a, c))
  }

  ghost function Merge<E, K>(le: (K, K) -> bool, key: E -> K, a: seq<E>, b: seq<E>): (r: seq<E>)
    ensures |r| == |a| + |b|
    ensures multiset(r) == multiset(a) + multiset(b)
    decreases |a| + |b|
  {
    if a == [] then b
    else if b == [] then a
    else if le(key(a[0]), key(b[0])) then
      assert a == [a[0]] + a[1..];
      [a[0]] + Merge(le, key, a[1..], b)
    else
      assert b == [b[0]] + b[1..];
      [b[0]] + Merge(le, key, a, b[1..])
  }

  // One pass: merge the runs of length k two by two.
  ghost function Pass<E, K>(le: (K, K) -> bool, key: E -> K, s: seq<E>, k: nat): (r: seq<E>)
    requires k > 0
    ensures |r| == |s| && multiset(r) == multiset(s)
    decreases |s|
  {
    if s == [] then []
    else
      var m := Min(k, |s|);
      var n := Min(2 * k, |s|);
      assert s == s[..m] + s[m..n] + s[n..];
      Merge(le, key, s[..m], s[m..n]) + Pass(le, key, s[n..], k)
  }

  // Passes with doubling run length until one pass merges everything.
  ghost function Sort<E, K>(le: (K, K) -> bool, key: E -> K, s: seq<E>, k: nat): (r: seq<E>)
    requires k > 0
    ensures |r| == |s| && multiset(r) == multiset(s)
    decreases |s| - k
  {
    var t := Pass(le, key, s, k);
    if |s| <= 2 * k then t else Sort(le, key, t, 2 * k)
  }

  // ---------- order ----------

  // In order by `le`, and by original position among equals.
  predicate Before<E, K>(le: (K, K) -> bool, key: E -> K, rank: E -> int, x: E, y: E) {
    le(key(x), key(y)) && (le(key(y), key(x)) ==> rank(x) < rank(y))
  }

  ghost predicate InOrder<E, K>(le: (K, K) -> bool, key: E -> K, rank: E -> int, s: seq<E>) {
    forall i, j :: 0 <= i < j < |s| ==> Before(le, key, rank, s[i], s[j])
  }

  ghost predicate Earlier<E>(rank: E -> int, a: seq<E>, b: seq<E>) {
    forall i, j :: 0 <= i < |a| && 0 <= j < |b| ==> rank(a[i]) < rank(b[j])
  }

  lemma MergeMembers<E, K>(le: (K, K) -> bool, key: E -> K, a: seq<E>, b: seq<E>, i: nat)
    requires i < |a| + |b|
    ensures Merge(le, key, a, b)[i] in a || Merge(le, key, a, b)[i] in b
  {
    var r := Merge(le, key, a, b);
    assert r[i] in multiset(r);
  }

  lemma {:induction false} HeadBefore<E, K>(le: (K, K) -> bool, key: E -> K, rank: E -> int, x: E, r: seq<E>)
    requires InOrder(le, key, rank, r) && forall i :: 0 <= i < |r| ==> Before(le, key, rank, x, r[i])
    ensures InOrder(le, key, rank, [x] + r)
  {
  }

  // The element the merge picks comes before every element that is left.
  lemma {:induction false} PickBefore<E, K(!new)>(le: (K, K) -> bool, key: E -> K, rank: E -> int,
                                                  a: seq<E>, b: seq<E>, y: E)
    requires TotalPreorder(le) && a != [] && b != []
    requires InOrder(le, key, rank, a) && InOrder(le, key, rank, b) && Earlier(rank, a, b)
    ensures le(key(a[0]), key(b[0])) && (y in a[1..] || y in b) ==> Before(le, key, rank, a[0], y)
    ensures !le(key(a[0]), key(b[0])) && (y in a || y in b[1..]) ==> Before(le, key, rank, b[0], y)
  {
    assert y in a ==> le(key(a[0]), key(y));
    assert y in b ==> le(key(b[0]), key(y));
  }

  lemma {:induction false} MergeInOrder<E, K(!new)>(le: (K, K) -> bool, key: E -> K, rank: E -> int, a: seq<E>,
                                                    b: seq<E>)
    requires TotalPreorder(le)
    requires InOrder(le, key, rank, a) && InOrder(le, key, rank, b) && Earlier(rank, a, b)
    ensures InOrder(le, key, rank, Merge(le, key, a, b))
    decreases |a| + |b|
  {
    if a != [] && b != [] {
      var fromA := le(key(a[0]), key(b[0]));
      var x := if fromA then a[0] else b[0];
      var a', b' := if fromA then a[1..] else a, if fromA then b else b[1..];
      MergeInOrder(le, key, rank, a', b');
      var r := Merge(le, key, a', b');
      forall i | 0 <= i < |r| ensures Before(le, key, rank, x, r[i]) {
        MergeMembers(le, key, a', b', i);
        PickBefore(le, key, rank, a, b, r[i]);
      }
      HeadBefore(le, key, rank, x, r);
    }
  }

  // Consecutive runs of length k, each in order, each wholly earlier than what follows it.
  ghost predicate Runs<E, K>(le: (K, K) -> bool, key: E -> K, rank: E -> int, s: seq<E>, k: nat)
    requires k > 0
    decreases |s|
  {
    s == [] ||
    var m := Min(k, |s|);
    InOrder(le, key, rank, s[..m]) && Earlier(rank, s[..m], s[m..]) && Runs(le, key, rank, s[m..], k)
  }

  lemma {:induction false} EarlierMerged<E, K>(le: (K, K) -> bool, key: E -> K, rank: E -> int, a: seq<E>, b: seq<E>,
                                               c: seq<E>, k: nat)
    requires k > 0 && Earlier(rank, a, c) && Earlier(rank, b, c)
    ensures Earlier(rank, Merge(le, key, a, b), Pass(le, key, c, k))
  {
    var r, t := Merge(le, key, a, b), Pass(le, key, c, k);
    forall i, j | 0 <= i < |r| && 0 <= j < |t| ensures rank(r[i]) < rank(t[j]) {
      MergeMembers(le, key, a, b, i);
      assert t[j] in multiset(t);
      assert t[j] in c;
    }
  }

  // The first run, the second run (possibly empty) and the rest.
  lemma {:induction false} SplitRuns<E, K>(le: (K, K) -> bool, key: E -> K, rank: E -> int, s: seq<E>, k: nat)
    requires k > 0 && s != [] && Runs(le, key, rank, s, k)
    ensures var m, n := Min(k, |s|), Min(2 * k, |s|);
            && InOrder(le, key, rank, s[..m]) && InOrder(le, key, rank, s[m..n])
            && Earlier(rank, s[..m], s[m..n]) && Earlier(rank, s[..m], s[n..]) && Earlier(rank, s[m..n], s[n..])
            && Runs(le, key, rank, s[n..], k)
  {
    hide InOrder, Earlier;
    var m, n := Min(k, |s|), Min(2 * k, |s|);
    var rest := s[m..];
    var m2 := Min(k, |rest|);
    assert rest[..m2] == s[m..n] && rest[m2..] == s[n..];
    SecondRun(le, key, rank, s, k);
    SecondRun(le, key, rank, rest, k);
    EarlierParts(rank, s[..m], rest, m2);
  }

  lemma {:induction false} EarlierParts<E>(rank: E -> int, a: seq<E>, s: seq<E>, m: nat)
    requires m <= |s| && Earlier(rank, a, s)
    ensures Earlier(rank, a, s[..m]) && Earlier(rank, a, s[m..])
  {
  }

  lemma {:induction false} PassDoublesRuns<E, K(!new)>(le: (K, K) -> bool, key: E -> K, rank: E -> int, s: seq<E>,
                                                       k: nat)
    requires TotalPreorder(le) && k > 0 && Runs(le, key, rank, s, k)
    ensures Runs(le, key, rank, Pass(le, key, s, k), 2 * k)
    decreases |s|
  {
    hide Runs, InOrder, Earlier;
    if s == [] {
      NoRuns(le, key, rank, 2 * k);
    } else {
      var m, n := Min(k, |s|), Min(2 * k, |s|);
      var a, b, c := s[..m], s[m..n], s[n..];
      SplitRuns(le, key, rank, s, k);
      MergeInOrder(le, key, rank, a, b);
      EarlierMerged(le, key, rank, a, b, c, k);
      PassDoublesRuns(le, key, rank, c, k);
      RunsCons(le, key, rank, Merge(le, key, a, b), Pass(le, key, c, k), 2 * k);
    }
  }

  lemma NoRuns<E, K>(le: (K, K) -> bool, key: E -> K, rank: E -> int, k: nat)
    requires k > 0
    ensures Runs(le, key, rank, [], k)
  {
  }

  lemma {:induction false} SecondRun<E, K>(le: (K, K) -> bool, key: E -> K, rank: E -> int, s: seq<E>, k: nat)
    requires k > 0 && Runs(le, key, rank, s, k)
    ensures var m := Min(k, |s|);
            InOrder(le, key, rank, s[..m]) && Earlier(rank, s[..m], s[m..]) && Runs(le, key, rank, s[m..], k)
  {
    if s == [] {
      assert s[..0] == [] && s[0..] == [];
    }
  }

  lemma {:induction false} RunsCons<E, K>(le: (K, K) -> bool, key: E -> K, rank: E -> int, a: seq<E>, t: seq<E>, k: nat)
    requires k > 0 && InOrder(le, key, rank, a) && Earlier(rank, a, t) && Runs(le, key, rank, t, k)
    requires |a| == k || (|a| < k && t == [])
    ensures Runs(le, key, rank, a + t, k)
  {
    var s := a + t;
    if s != [] {
      var m := Min(k, |s|);
      assert s[..m] == a && s[m..] == t;
    }
  }

  lemma {:induction false} SortInOrder<E, K(!new)>(le: (K, K) -> bool, key: E -> K, rank: E -> int, s: seq<E>, k: nat)
    requires TotalPreorder(le) && k > 0 && Runs(le, key, rank, s, k)
    ensures InOrder(le, key, rank, Sort(le, key, s, k))
    decreases |s| - k
  {
    PassDoublesRuns(le, key, rank, s, k);
    var t := Pass(le, key, s, k);
    if |s| <= 2 * k {
      if t != [] {
        assert t[..|t|] == t;
      }
    } else {
      SortInOrder(le, key, rank, t, 2 * k);
    }
  }

  lemma {:induction false} SingletonRuns<E, K>(le: (K, K) -> bool, key: E -> K, rank: E -> int, s: seq<E>)
    requires forall i, j :: 0 <= i < j < |s| ==> rank(s[i]) < rank(s[j])
    ensures Runs(le, key, rank, s, 1)
    decreases |s|
  {
    if s != [] {
      SingletonRuns(le, key, rank, s[1..]);
    }
  }

  // Starting from single elements: sorted, equals in their original order, nothing lost.
  lemma {:induction false} SortCorrect<E, K(!new)>(le: (K, K) -> bool, key: E -> K, rank: E -> int, s: seq<E>)
    requires TotalPreorder(le)
    requires forall i, j :: 0 <= i < j < |s| ==> rank(s[i]) < rank(s[j])
    ensures var r := Sort(le, key, s, 1);
            && multiset(r) == multiset(s)
            && (forall i, j :: 0 <= i < j < |r| ==> le(key(r[i]), key(r[j])))
            && (forall i, j :: 0 <= i < j < |r| && le(key(r[j]), key(r[i])) ==> rank(r[i]) < rank(r[j]))
  {
    SingletonRuns(le, key, rank, s);
    SortInOrder(le, key, rank, s, 1);
    var r := Sort(le, key, s, 1);
    assert forall i, j :: 0 <= i < j < |r| ==> Before(le, key, rank, r[i], r[j]);
  }
}
