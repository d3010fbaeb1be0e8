/** The linked list's in-place bottom-up merge sort. */
module ListSort {
  import opened Bounds
  import opened DoublyLinkedList
  import MergeSort

  function Le<T>(cmp: (T, T) -> int): (T, T) -> bool {
    (a, b) => cmp(a, b) <= 0
  }

  // ---------- pieces of list in transit ----------

  // Joined by `next` only; the `prev` links and the last `next` are stale.
  ghost predicate Chain<T>(s: seq<Node<T>>)
    reads s`next
  {
    forall i, k :: 0 <= i && k == i + 1 && k < |s| ==> s[i].next == s[k]
  }

  ghost predicate Ended<T>(s: seq<Node<T>>)
    reads s`next
  {
    Chain(s) && (s != [] ==> s[|s| - 1].next == null)
  }

  // Joined both ways; only the last `next` is stale.
  ghost predicate Built<T>(s: seq<Node<T>>)
    reads s`next, s`prev
  {
    && (forall i, k :: 0 <= i && k == i + 1 && k < |s| ==> s[i].next == s[k] && s[k].prev == s[i])
    && (s != [] ==> s[0].prev == null)
  }

  ghost function FirstOf<T>(s: seq<Node<T>>): Node?<T> {
    if s == [] then null else s[0]
  }

  ghost function LastOf<T>(s: seq<Node<T>>): Node?<T> {
    if s == [] then null else s[|s| - 1]
  }

  ghost predicate Apart<T>(o: seq<Node<T>>, a: seq<Node<T>>, b: seq<Node<T>>) {
    && Distinct(o) && Distinct(a) && Distinct(b)
    && (forall x :: x in o ==> x !in a && x !in b)
    && (forall x :: x in a ==> x !in b)
  }

  lemma {:induction false} ChainRest<T>(s: seq<Node<T>>)
    requires Chain(s) && s != []
    ensures Chain(s[1..])
    ensures |s| > 1 ==> s[0].next == s[1]
  {
    assert forall i :: 0 <= i < |s| - 1 ==> s[1..][i] == s[i + 1];
  }

  lemma {:induction false} EndedRest<T>(s: seq<Node<T>>)
    requires Ended(s) && s != []
    ensures Ended(s[1..]) && s[0].next == FirstOf(s[1..])
  {
    ChainRest(s);
  }

  lemma {:induction false} TakeFromA<T>(o: seq<Node<T>>, a: seq<Node<T>>, b: seq<Node<T>>)
    requires Apart(o, a, b) && a != []
    ensures Apart(o + [a[0]], a[1..], b) && a[0] !in o && Distinct(o)
    ensures forall x :: x in o ==> x !in a && x !in b
  {
    assert a[0] in a;
    assert forall x :: x in a[1..] ==> x in a && x != a[0];
  }

  lemma {:induction false} TakeFromB<T>(o: seq<Node<T>>, a: seq<Node<T>>, b: seq<Node<T>>)
    requires Apart(o, a, b) && b != []
    ensures Apart(o + [b[0]], a, b[1..]) && b[0] !in o && Distinct(o)
    ensures forall x :: x in o ==> x !in a && x !in b
  {
    assert b[0] in b;
    assert forall x :: x in b[1..] ==> x in b && x != b[0];
  }

  // ---------- emitting one node ----------

  method Emit<T>(e: Node<T>, head: Node?<T>, tail: Node?<T>, ghost o: seq<Node<T>>)
    returns (head': Node?<T>)
    requires Built(o) && Distinct(o) && e !in o && head == FirstOf(o) && tail == LastOf(o)
    modifies o`next, e`prev
    ensures Built(o + [e]) && head' == FirstOf(o + [e])
  {
    head' := head;
    if tail != null {
      tail.next := e;
    } else {
      head' := e;
    }
    e.prev := tail;
    ghost var s := o + [e];
    forall i, k | 0 <= i && k == i + 1 && k < |s| ensures s[i].next == s[k] && s[k].prev == s[i] {
      if k < |o| {
        assert s[i] == o[i] && s[k] == o[k];
        assert o[k] in o;
      }
    }
  }

  // ---------- merging two runs ----------

  // The output once the rest of the two runs has been merged behind `o`.
  ghost function Output<E, K>(le: (K, K) -> bool, key: E -> K, o: seq<E>, a: seq<E>, b: seq<E>): seq<E> {
    o + MergeSort.Merge(le, key, a, b)
  }

  lemma {:induction false} Shift<E>(o: seq<E>, x: E, r: seq<E>)
    ensures o + ([x] + r) == (o + [x]) + r
  {
  }

  lemma {:induction false} MergeTakesA<E, K>(le: (K, K) -> bool, key: E -> K, o: seq<E>, a: seq<E>, b: seq<E>)
    requires a != [] && (b == [] || le(key(a[0]), key(b[0])))
    ensures Output(le, key, o, a, b) == Output(le, key, o + [a[0]], a[1..], b)
  {
    var r := MergeSort.Merge(le, key, a[1..], b);
    assert MergeSort.Merge(le, key, a, b) == [a[0]] + r by {
      if b == [] {
        assert a == [a[0]] + a[1..];
      }
    }
    Shift(o, a[0], r);
  }

  lemma {:induction false} MergeTakesB<E, K>(le: (K, K) -> bool, key: E -> K, o: seq<E>, a: seq<E>, b: seq<E>)
    requires b != [] && (a == [] || !le(key(a[0]), key(b[0])))
    ensures Output(le, key, o, a, b) == Output(le, key, o + [b[0]], a, b[1..])
  {
    var r := MergeSort.Merge(le, key, a, b[1..]);
    assert MergeSort.Merge(le, key, a, b) == [b[0]] + r by {
      if a == [] {
        assert b == [b[0]] + b[1..];
      }
    }
    Shift(o, b[0], r);
  }

  lemma {:induction false} SplitHead<E>(b: seq<E>, c: seq<E>)
    requires b != []
    ensures (b + c)[0] == b[0] && (b + c)[1..] == b[1..] + c
  {
  }

  lemma {:induction false} MergeNothing<E, K>(le: (K, K) -> bool, key: E -> K, o: seq<E>)
    ensures Output(le, key, o, [], []) == o
  {
  }

  // The state of a merge: `o` is finished output, `a` the rest of the first run, `b` the
  // second run and everything after it.
  ghost predicate InFlight<T>(all: set<Node<T>>, o: seq<Node<T>>, a: seq<Node<T>>, b: seq<Node<T>>,
                              q: Node?<T>, head: Node?<T>, tail: Node?<T>)
    reads all`next, all`prev
  {
    && (forall x :: x in o ==> x in all) && (forall x :: x in a ==> x in all) && (forall x :: x in b ==> x in all)
    && Apart(o, a, b) && Built(o) && Chain(a) && Ended(b)
    && q == FirstOf(b) && head == FirstOf(o) && tail == LastOf(o)
  }

  method TakeP<T>(p: Node<T>, q: Node?<T>, head: Node?<T>, tail: Node?<T>, ghost all: set<Node<T>>,
                  ghost o: seq<Node<T>>, ghost a: seq<Node<T>>, ghost b: seq<Node<T>>)
    returns (p': Node?<T>, head': Node?<T>)
    requires InFlight(all, o, a, b, q, head, tail) && a != [] && p == a[0]
    modifies all`next, all`prev
    ensures InFlight(all, o + [p], a[1..], b, q, head', p) && (|a| > 1 ==> p' == a[1])
  {
    hide Built, Apart;
    TakeFromA(o, a, b);
    ChainRest(a);
    assert forall i :: 0 <= i < |a| ==> a[i] in a;
    assert forall i :: 0 <= i < |b| ==> b[i] in b;
    p' := p.next;
    head' := Emit(p, head, tail, o);
    assert forall i :: 0 <= i < |a| ==> a[i].next == old(a[i].next);
    assert forall i :: 0 <= i < |b| ==> b[i].next == old(b[i].next);
  }

  method TakeQ<T>(q: Node<T>, head: Node?<T>, tail: Node?<T>, ghost all: set<Node<T>>,
                  ghost o: seq<Node<T>>, ghost a: seq<Node<T>>, ghost b: seq<Node<T>>)
    returns (q': Node?<T>, head': Node?<T>)
    requires InFlight(all, o, a, b, q, head, tail)
    modifies all`next, all`prev
    ensures b != [] && InFlight(all, o + [q], a, b[1..], q', head', q)
  {
    hide Built, Apart;
    TakeFromB(o, a, b);
    EndedRest(b);
    assert forall i :: 0 <= i < |a| ==> a[i] in a;
    assert forall i :: 0 <= i < |b| ==> b[i] in b;
    q' := q.next;
    head' := Emit(q, head, tail, o);
    assert forall i :: 0 <= i < |a| ==> a[i].next == old(a[i].next);
    assert forall i :: 0 <= i < |b| ==> b[i].next == old(b[i].next);
  }

  method MergeRuns<T>(cmp: (T, T) -> int, p0: Node?<T>, psize0: nat, q0: Node?<T>, insize: nat,
                      head0: Node?<T>, tail0: Node?<T>,
                      ghost key: Node<T> -> T, ghost all: set<Node<T>>,
                      ghost o0: seq<Node<T>>, ghost a0: seq<Node<T>>, ghost b0: seq<Node<T>>)
    returns (q: Node?<T>, head: Node?<T>, tail: Node?<T>)
    requires |a0| == psize0 && p0 == FirstOf(a0) && InFlight(all, o0, a0, b0, q0, head0, tail0)
    requires forall x :: x in all ==> key(x) == x.item
    modifies all`next, all`prev
    ensures var m := Min(insize, |b0|);
            InFlight(all, Output(Le(cmp), key, o0, a0, b0[..m]), [], b0[m..], q, head, tail)
  {
    hide InFlight, Output;
    var p, psize, qsize := p0, psize0, insize;
    q, head, tail := q0, head0, tail0;
    ghost var m0 := Min(insize, |b0|);
    ghost var o: seq<Node<T>>, a: seq<Node<T>>, b: seq<Node<T>> := o0, a0, b0[..m0];
    ghost var c, le := b0[m0..], Le(cmp);
    ghost var target := Output(le, key, o0, a0, b0[..m0]);
    assert b + c == b0;
    while psize > 0 || (qsize > 0 && q != null)
      invariant |a| == psize && (a != [] ==> p == a[0]) && InFlight(all, o, a, b + c, q, head, tail)
      invariant |b| <= qsize && (|b| < qsize ==> c == [])
      invariant Output(le, key, o, a, b) == target
      decreases psize + qsize
    {
      Heads(all, o, a, b + c, q, head, tail);
      if psize > 0 && (qsize == 0 || q == null || cmp(p.item, q.item) <= 0) {
        MergeTakesA(le, key, o, a, b);
        var e: Node<T> := p;
        p, head := TakeP(e, q, head, tail, all, o, a, b + c);
        o, a, psize, tail := o + [e], a[1..], psize - 1, e;
      } else {
        SplitHead(b, c);
        MergeTakesB(le, key, o, a, b);
        var e: Node<T> := q;
        q, head := TakeQ(e, head, tail, all, o, a, b + c);
        o, b, qsize, tail := o + [e], b[1..], qsize - 1, e;
      }
    }
    Heads(all, o, a, b + c, q, head, tail);
    MergeNothing(le, key, o);
    assert a == [] && b == [] && b + c == c && o == target;
  }

  lemma {:induction false} Heads<T>(all: set<Node<T>>, o: seq<Node<T>>, a: seq<Node<T>>, b: seq<Node<T>>,
                                    q: Node?<T>, head: Node?<T>, tail: Node?<T>)
    requires InFlight(all, o, a, b, q, head, tail)
    ensures q == FirstOf(b) && (a != [] ==> a[0] in all) && (b != [] ==> b[0] in all)
  {
  }

  // ---------- one pass ----------

  ghost function PassOutput<E, K>(le: (K, K) -> bool, key: E -> K, o: seq<E>, s: seq<E>, k: nat): seq<E>
    requires k > 0
  {
    o + MergeSort.Pass(le, key, s, k)
  }

  lemma {:induction false} PassRound<E, K>(le: (K, K) -> bool, key: E -> K, o: seq<E>, s: seq<E>, k: nat)
    requires k > 0 && s != []
    ensures var m := Min(k, |s|);
            var b := s[m..];
            var m2 := Min(k, |b|);
            && PassOutput(le, key, o, s, k) == PassOutput(le, key, Output(le, key, o, s[..m], b[..m2]), b[m2..], k)
            && |b[m2..]| == |s| - Min(2 * k, |s|)
  {
    var m, n := Min(k, |s|), Min(2 * k, |s|);
    var b := s[m..];
    var m2 := Min(k, |b|);
    assert b[..m2] == s[m..n] && b[m2..] == s[n..];
    Join(o, MergeSort.Merge(le, key, s[..m], s[m..n]), MergeSort.Pass(le, key, s[n..], k));
  }

  lemma {:induction false} Join<E>(o: seq<E>, a: seq<E>, b: seq<E>)
    ensures o + (a + b) == (o + a) + b
  {
  }

  lemma {:induction false} PassDone<E, K>(le: (K, K) -> bool, key: E -> K, o: seq<E>, s: seq<E>, k: nat)
    requires k > 0
    ensures PassOutput(le, key, o, [], k) == o
    ensures PassOutput(le, key, [], s, k) == MergeSort.Pass(le, key, s, k)
  {
  }

  // Count off the first run.
  method SkipRun<T>(p: Node<T>, insize: nat, ghost s: seq<Node<T>>) returns (q: Node?<T>, psize: nat)
    requires Ended(s) && s != [] && p == s[0] && insize > 0
    ensures psize == Min(insize, |s|) && q == FirstOf(s[psize..])
  {
    q, psize := p, 0;
    var i := 0;
    while i < insize
      invariant 0 <= i <= insize && psize == i < |s| + (if i == insize then 1 else 0)
      invariant q == FirstOf(s[psize..]) && (i < insize ==> q != null)
    {
      psize := psize + 1;
      assert psize < |s| ==> s[psize - 1].next == s[psize];
      q := q.next;
      i := i + 1;
      if q == null {
        break;
      }
    }
  }

  lemma {:induction false} CutChain<T>(s: seq<Node<T>>, m: nat)
    requires m <= |s| && Ended(s)
    ensures Chain(s[..m]) && Ended(s[m..])
    ensures 0 < m ==> s[m - 1].next == FirstOf(s[m..])
  {
    assert forall i :: 0 <= i < m ==> s[..m][i] == s[i];
    assert forall i :: 0 <= i < |s| - m ==> s[m..][i] == s[m + i];
  }

  lemma {:induction false} CutApart<T>(o: seq<Node<T>>, s: seq<Node<T>>, m: nat)
    requires m <= |s| && Apart(o, [], s)
    ensures Apart(o, s[..m], s[m..])
    ensures forall x :: x in s[..m] || x in s[m..] ==> x in s
  {
    assert forall i :: 0 <= i < m ==> s[..m][i] == s[i];
    assert forall i :: 0 <= i < |s| - m ==> s[m..][i] == s[m + i];
  }

  lemma {:induction false} CutRun<T>(all: set<Node<T>>, o: seq<Node<T>>, s: seq<Node<T>>, m: nat,
                                     p: Node?<T>, head: Node?<T>, tail: Node?<T>)
    requires m <= |s| && InFlight(all, o, [], s, p, head, tail)
    ensures InFlight(all, o, s[..m], s[m..], FirstOf(s[m..]), head, tail) && p == FirstOf(s)
  {
    hide Chain, Ended, Apart, Built;
    CutChain(s, m);
    CutApart(o, s, m);
  }

  // Merge the next two runs onto the output.
  method MergeNext<T>(cmp: (T, T) -> int, p: Node<T>, insize: nat, head0: Node?<T>, tail0: Node?<T>,
                      ghost key: Node<T> -> T, ghost all: set<Node<T>>,
                      ghost o0: seq<Node<T>>, ghost rest0: seq<Node<T>>)
    returns (q: Node?<T>, head: Node?<T>, tail: Node?<T>, ghost o: seq<Node<T>>, ghost rest: seq<Node<T>>)
    requires insize > 0 && InFlight(all, o0, [], rest0, p, head0, tail0)
    requires forall x :: x in all ==> key(x) == x.item
    modifies all`next, all`prev
    ensures InFlight(all, o, [], rest, q, head, tail) && rest0 != []
    ensures PassOutput(Le(cmp), key, o, rest, insize) == PassOutput(Le(cmp), key, o0, rest0, insize)
    ensures |rest| == |rest0| - Min(2 * insize, |rest0|)
  {
    hide InFlight, Output, PassOutput;
    Heads(all, o0, [], rest0, p, head0, tail0);
    EndedRestOf(all, o0, rest0, p, head0, tail0);
    var psize;
    q, psize := SkipRun(p, insize, rest0);
    CutRun(all, o0, rest0, psize, p, head0, tail0);
    PassRound(Le(cmp), key, o0, rest0, insize);
    ghost var a, b := rest0[..psize], rest0[psize..];
    q, head, tail := MergeRuns(cmp, p, psize, q, insize, head0, tail0, key, all, o0, a, b);
    ghost var m := Min(insize, |b|);
    o, rest := Output(Le(cmp), key, o0, a, b[..m]), b[m..];
  }

  method SortPass<T>(cmp: (T, T) -> int, head0: Node<T>, insize: nat,
                     ghost key: Node<T> -> T, ghost all: set<Node<T>>, ghost s: seq<Node<T>>)
    returns (head: Node?<T>, tail: Node?<T>, nmerges: nat)
    requires insize > 0 && s != [] && head0 == s[0] && Ended(s) && Distinct(s)
    requires forall x :: x in s ==> x in all
    requires forall x :: x in all ==> key(x) == x.item
    modifies all`next, all`prev
    ensures var t := MergeSort.Pass(Le(cmp), key, s, insize);
            Linked(t) && head == FirstOf(t) && tail == LastOf(t)
    ensures nmerges <= 1 <==> |s| <= 2 * insize
  {
    hide InFlight, PassOutput, Ended, Distinct, Linked, Built, MergeSort.Pass, Le;
    var p: Node?<T> := head0;
    head, tail, nmerges := null, null, 0;
    ghost var o: seq<Node<T>>, rest: seq<Node<T>> := [], s;
    ghost var le := Le(cmp);
    StartFlight(all, s);
    while p != null
      invariant InFlight(all, o, [], rest, p, head, tail) && |rest| <= |s|
      invariant PassOutput(le, key, o, rest, insize) == PassOutput(le, key, [], s, insize)
      invariant nmerges == 0 <==> |rest| == |s|
      invariant nmerges == 1 ==> |rest| == |s| - Min(2 * insize, |s|)
      invariant nmerges >= 2 ==> |s| > 2 * insize
      decreases |rest|
    {
      Heads(all, o, [], rest, p, head, tail);
      assert nmerges >= 1 ==> |s| > 2 * insize;
      p, head, tail, o, rest := MergeNext(cmp, p, insize, head, tail, key, all, o, rest);
      nmerges := nmerges + 1;
    }
    Heads(all, o, [], rest, p, head, tail);
    PassDone(le, key, o, s, insize);
    FinishFlight(all, o, rest, p, head, tail);
    EndList(tail, o);
  }

  method EndList<T>(tail: Node?<T>, ghost o: seq<Node<T>>)
    requires Built(o) && Distinct(o) && tail == LastOf(o)
    modifies (if tail == null then {} else {tail})`next
    ensures Linked(o)
  {
    if tail != null {
      tail.next := null;
    }
    FinishLinks(o);
  }

  lemma {:induction false} StartFlight<T>(all: set<Node<T>>, s: seq<Node<T>>)
    requires s != [] && Ended(s) && Distinct(s) && forall x :: x in s ==> x in all
    ensures InFlight(all, [], [], s, s[0], null, null)
  {
  }

  lemma {:induction false} EndedRestOf<T>(all: set<Node<T>>, o: seq<Node<T>>, s: seq<Node<T>>,
                                          p: Node?<T>, head: Node?<T>, tail: Node?<T>)
    requires InFlight(all, o, [], s, p, head, tail)
    ensures Ended(s)
  {
  }

  lemma {:induction false} FinishFlight<T>(all: set<Node<T>>, o: seq<Node<T>>, s: seq<Node<T>>,
                                           p: Node?<T>, head: Node?<T>, tail: Node?<T>)
    requires InFlight(all, o, [], s, p, head, tail)
    ensures Built(o) && Distinct(o) && head == FirstOf(o) && tail == LastOf(o)
    ensures tail != null ==> tail in all
  {
  }

  lemma {:induction false} FinishLinks<T>(o: seq<Node<T>>)
    requires Built(o) && Distinct(o) && (o != [] ==> o[|o| - 1].next == null)
    ensures Linked(o)
  {
  }

  // ---------- the sort ----------

  ghost predicate Ordered<T>(cmp: (T, T) -> int, r: seq<Node<T>>)
    reads r`item
  {
    forall i, j :: 0 <= i < j < |r| ==> cmp(r[i].item, r[j].item) <= 0
  }

  // The position of a node in a list that contains it.
  ghost function PosIn<T>(s: seq<Node<T>>, x: Node<T>): (p: nat)
    ensures x in s ==> p < |s| && s[p] == x
  {
    if s == [] || s[0] == x then 0 else 1 + PosIn(s[1..], x)
  }

  // Nodes of `r` with equal keys come in the order they have in `s`.
  ghost predicate Stable<T>(cmp: (T, T) -> int, s: seq<Node<T>>, r: seq<Node<T>>)
    reads r`item
  {
    forall i, j :: 0 <= i < j < |r| && cmp(r[j].item, r[i].item) <= 0 ==> PosIn(s, r[i]) < PosIn(s, r[j])
  }

  lemma {:induction false} FinalOrder<T(!new)>(cmp: (T, T) -> int, key: Node<T> -> T, s: seq<Node<T>>, r: seq<Node<T>>)
    requires MergeSort.TotalPreorder(Le(cmp)) && Distinct(s) && r == MergeSort.Sort(Le(cmp), key, s, 1)
    requires forall x :: x in s ==> key(x) == x.item
    ensures Ordered(cmp, r) && Stable(cmp, s, r)
  {
    hide MergeSort.TotalPreorder, MergeSort.Sort;
    var rank := (x: Node<T>) => PosIn(s, x) as int;
    forall i | 0 <= i < |s| ensures rank(s[i]) == i {
      assert s[i] in s;
    }
    MergeSort.SortCorrect(Le(cmp), key, rank, s);
    forall i | 0 <= i < |r| ensures key(r[i]) == r[i].item {
      assert r[i] in multiset(r);
    }
  }

  lemma {:induction false} SortRound<E, K>(le: (K, K) -> bool, key: E -> K, s: seq<E>, k: nat)
    requires k > 0
    ensures var t := MergeSort.Pass(le, key, s, k);
            && |t| == |s| && multiset(t) == multiset(s)
            && MergeSort.Sort(le, key, s, k) == if |s| <= 2 * k then t else MergeSort.Sort(le, key, t, 2 * k)
  {
  }

  lemma {:induction false} LinkedFacts<T>(s: seq<Node<T>>)
    requires Linked(s)
    ensures Ended(s) && Distinct(s)
  {
  }

  // All the passes, with doubling run length.
  method Passes<T>(cmp: (T, T) -> int, first: Node<T>, ghost key: Node<T> -> T, ghost all: set<Node<T>>,
                   ghost s0: seq<Node<T>>)
    returns (head: Node?<T>, tail: Node?<T>, ghost s: seq<Node<T>>)
    requires Linked(s0) && 0 < |s0| < MAX_INDEXABLE && first == s0[0]
    requires forall x :: x in s0 <==> x in all
    requires forall x :: x in all ==> key(x) == x.item
    modifies all`next, all`prev
    ensures Linked(s) && head == FirstOf(s) && tail == LastOf(s)
    ensures s == MergeSort.Sort(Le(cmp), key, s0, 1)
  {
    hide Linked, Distinct, Ended, MergeSort.Sort, MergeSort.Pass;
    ghost var le := Le(cmp);
    var insize, nmerges := 1, 0;
    head, tail, s := first, null, s0;
    while true
      invariant (insize == 1 || 1 < insize <= |s0|) && s != [] && |s| == |s0| && multiset(s) == multiset(s0)
      invariant Linked(s) && head == s[0]
      invariant MergeSort.Sort(le, key, s, insize) == MergeSort.Sort(le, key, s0, 1)
      decreases |s0| - insize
    {
      // no unsigned overflow in the run length
      assert insize < 0x1_0000_0000;
      LinkedFacts(s);
      SortRound(le, key, s, insize);
      forall x | x in s ensures x in all {
        assert x in multiset(s0);
      }
      head, tail, nmerges := SortPass(cmp, head, insize, key, all, s);
      s := MergeSort.Pass(le, key, s, insize);
      if nmerges <= 1 {
        return;
      }
      insize := insize * 2;
    }
  }

  lemma {:induction false} SortPermutes<E, K>(le: (K, K) -> bool, key: E -> K, s: seq<E>)
    ensures var r := MergeSort.Sort(le, key, s, 1); |r| == |s| && multiset(r) == multiset(s)
  {
  }

  lemma {:induction false} Nothing<T>(cmp: (T, T) -> int)
    ensures Ordered(cmp, []) && Stable(cmp, [], [])
  {
  }

  // The items as they are now, whatever happens to the links.
  lemma {:induction false} ItemsAsKeys<T(!new)>(s: seq<Node<T>>) returns (key: Node<T> -> T)
    requires s != []
    ensures forall x :: x in s ==> key(x) == x.item
  {
    var m, d := map x | x in s :: x.item, s[0].item;
    key := (x: Node<T>) => if x in m then m[x] else d;
  }

  // Every list ends up with the same nodes, well linked.  When the comparator is a total
  // preorder they are sorted, and nodes with equal keys keep their order.
  method Sort<T(!new)>(list: List<T>, cmp: (T, T) -> int)
    requires list.Valid() && |list.nodes| < MAX_INDEXABLE
    modifies list, list.nodes`next, list.nodes`prev
    ensures list.Valid() && list.count == old(list.count)
    ensures multiset(list.nodes) == multiset(old(list.nodes))
    ensures MergeSort.TotalPreorder(Le(cmp)) ==>
              Ordered(cmp, list.nodes) && Stable(cmp, old(list.nodes), list.nodes)
  {
    hide Linked, Distinct, Ordered, Stable, MergeSort.Sort, MergeSort.TotalPreorder;
    if list.first == null {
      Nothing(cmp);
      return;
    }
    ghost var s0: seq<Node<T>> := list.nodes;
    LinkedFacts(s0);
    ghost var all := set x | x in s0;
    ghost var key := ItemsAsKeys(s0);
    ghost var s: seq<Node<T>>;
    var head, tail;
    head, tail, s := Passes(cmp, list.first, key, all, s0);
    SortPermutes(Le(cmp), key, s0);
    if MergeSort.TotalPreorder(Le(cmp)) {
      FinalOrder(cmp, key, s0, s);
    }
    list.first := head;
    list.last := tail;
    list.nodes := s;
  }
}
