/** Where the binary search of the sorted insertion puts a new key.

    `cmp(k, x)` is negative when `k` belongs after `x`, positive when it belongs before
    it, and zero when it may go right in front of it. */
module OrderedInsert {

  // The key belongs behind position lo and not behind position hi.
  predicate Bracket<K>(cmp: (K, K) -> int, keys: seq<K>, k: K, lo: nat, hi: nat) {
    lo < hi < |keys| && cmp(k, keys[lo]) < 0 && cmp(k, keys[hi]) >= 0
  }

  function Mid(lo: nat, hi: nat): nat {
    (lo + 1 + hi) / 2
  }

  function SearchPos<K>(cmp: (K, K) -> int, keys: seq<K>, k: K, lo: nat, hi: nat): (p: nat)
    requires Bracket(cmp, keys, k, lo, hi)
    ensures lo < p <= hi && cmp(k, keys[p]) >= 0
    ensures cmp(k, keys[p - 1]) < 0 || cmp(k, keys[p]) == 0
    decreases hi - lo
  {
    var mid := Mid(lo, hi);
    var c := cmp(k, keys[mid]);
    if c == 0 then mid
    else if c < 0 then
      if mid + 1 == hi then mid + 1 else SearchPos(cmp, keys, k, mid, hi)
    else
      if mid - 1 == lo then mid else SearchPos(cmp, keys, k, lo, mid)
  }

  // One round of the search.
  lemma {:induction false} SearchRound<K>(cmp: (K, K) -> int, keys: seq<K>, k: K, lo: nat, hi: nat)
    requires Bracket(cmp, keys, k, lo, hi)
    ensures var mid := Mid(lo, hi); lo < mid <= hi < |keys|
    ensures var mid, p := Mid(lo, hi), SearchPos(cmp, keys, k, lo, hi);
            var c := cmp(k, keys[mid]);
            && (c == 0 ==> p == mid)
            && (c < 0 ==> mid < hi && if mid + 1 == hi then p == mid + 1
                          else Bracket(cmp, keys, k, mid, hi) && p == SearchPos(cmp, keys, k, mid, hi))
            && (c > 0 ==> if mid - 1 == lo then p == mid
                          else mid < hi && Bracket(cmp, keys, k, lo, mid) && p == SearchPos(cmp, keys, k, lo, mid))
  {
  }

  // The search between lo and hi will end at p.
  ghost predicate Searching<K>(cmp: (K, K) -> int, keys: seq<K>, k: K, lo: int, hi: int, p: nat) {
    0 <= lo && 0 <= hi && Bracket(cmp, keys, k, lo, hi) && p == SearchPos(cmp, keys, k, lo, hi)
  }

  lemma {:induction false} SearchStep<K>(cmp: (K, K) -> int, keys: seq<K>, k: K, lo: int, hi: int, p: nat)
    requires Searching(cmp, keys, k, lo, hi, p)
    ensures 0 <= lo < Mid(lo, hi) <= hi < |keys|
    ensures var mid := Mid(lo, hi);
            var c := cmp(k, keys[mid]);
            && (c == 0 ==> p == mid)
            && (c < 0 ==> mid < hi && if mid + 1 == hi then p == mid + 1 else Searching(cmp, keys, k, mid, hi, p))
            && (c > 0 ==> if mid - 1 == lo then p == mid else mid < hi && Searching(cmp, keys, k, lo, mid, p))
  {
    SearchRound(cmp, keys, k, lo, hi);
  }

  // The only things any comparator guarantees: the neighbours of the new key were looked at.
  function InsertPos<K>(cmp: (K, K) -> int, keys: seq<K>, k: K): (p: nat)
    ensures p <= |keys|
    ensures p < |keys| ==> cmp(k, keys[p]) >= 0
    ensures p > 0 ==> cmp(k, keys[p - 1]) < 0 || (p < |keys| && cmp(k, keys[p]) == 0)
  {
    var n := |keys|;
    if n == 0 || cmp(k, keys[0]) >= 0 then 0
    else if n == 1 || cmp(k, keys[n - 1]) < 0 then n
    else SearchPos(cmp, keys, k, 0, n - 1)
  }

  lemma {:induction false} InsertPosCases<K>(cmp: (K, K) -> int, keys: seq<K>, k: K)
    ensures var n := |keys|;
            InsertPos(cmp, keys, k) ==
              if n == 0 || cmp(k, keys[0]) >= 0 then 0
              else if n == 1 || cmp(k, keys[n - 1]) < 0 then n
              else SearchPos(cmp, keys, k, 0, n - 1)
  {
  }

  function InsertAt<T>(s: seq<T>, p: nat, x: T): (r: seq<T>)
    requires p <= |s|
    ensures |r| == |s| + 1
  {
    s[..p] + [x] + s[p..]
  }

  lemma {:induction false} InsertAtEnds<T>(s: seq<T>, x: T)
    ensures InsertAt(s, 0, x) == [x] + s && InsertAt(s, |s|, x) == s + [x]
  {
  }

  // ---------- lawful comparators ----------

  // `cmp` never contradicts the order `le`, and calls equal only what `le` cannot tell apart.
  ghost predicate Respects<K(!new)>(cmp: (K, K) -> int, le: (K, K) -> bool) {
    && (forall a, b :: cmp(a, b) < 0 ==> le(b, a))
    && (forall a, b :: cmp(a, b) > 0 ==> le(a, b))
    && (forall a, b :: cmp(a, b) == 0 ==> le(a, b) && le(b, a))
  }

  ghost predicate Transitive<K(!new)>(le: (K, K) -> bool) {
    forall a, b, c :: le(a, b) && le(b, c) ==> le(a, c)
  }

  predicate Sorted<K>(le: (K, K) -> bool, s: seq<K>) {
    forall i, j :: 0 <= i < j < |s| ==> le(s[i], s[j])
  }

  lemma {:induction false} InsertKeepsSorted<K(!new)>(cmp: (K, K) -> int, le: (K, K) -> bool, keys: seq<K>, k: K)
    requires Respects(cmp, le) && Transitive(le) && Sorted(le, keys)
    ensures Sorted(le, InsertAt(keys, InsertPos(cmp, keys, k), k))
  {
    var p := InsertPos(cmp, keys, k);
    assert p > 0 && cmp(k, keys[p - 1]) >= 0 ==> le(keys[p - 1], keys[p]) && le(keys[p], k);
    SortedAround(le, keys, p, k);
  }

  lemma {:induction false} SortedAround<K(!new)>(le: (K, K) -> bool, keys: seq<K>, p: nat, k: K)
    requires Transitive(le) && Sorted(le, keys) && p <= |keys|
    requires p > 0 ==> le(keys[p - 1], k)
    requires p < |keys| ==> le(k, keys[p])
    ensures Sorted(le, InsertAt(keys, p, k))
  {
    var r := InsertAt(keys, p, k);
    assert forall i :: 0 <= i < p ==> r[i] == keys[i] && (i < p - 1 ==> le(keys[i], keys[p - 1]));
    assert forall j :: p < j < |r| ==> r[j] == keys[j - 1] && (j > p + 1 ==> le(keys[p], keys[j - 1]));
    assert forall i :: 0 <= i < p ==> le(r[i], k);
    assert forall j :: p < j < |r| ==> le(k, r[j]);
  }

  // Deleting never disturbs an order.
  lemma DeleteKeepsSorted<K>(le: (K, K) -> bool, keys: seq<K>, i: nat)
    requires Sorted(le, keys) && i < |keys|
    ensures Sorted(le, keys[..i] + keys[i + 1..])
  {
  }

  // Linear insertion: in front of the first key that is not earlier.
  function LinearPos<K>(cmp: (K, K) -> int, keys: seq<K>, k: K): (p: nat)
    ensures p <= |keys|
    ensures forall i :: 0 <= i < p ==> cmp(k, keys[i]) < 0
    ensures p < |keys| ==> cmp(k, keys[p]) >= 0
  {
    if keys == [] || cmp(k, keys[0]) >= 0 then 0 else 1 + LinearPos(cmp, keys[1..], k)
  }

  // A three-way order: antisymmetric and transitive, as a sort key would be.
  ghost predicate ThreeWay<K(!new)>(cmp: (K, K) -> int) {
    && (forall a, b :: cmp(a, b) < 0 <==> cmp(b, a) > 0)
    && (forall a, b, c :: cmp(a, b) < 0 && cmp(b, c) < 0 ==> cmp(a, c) < 0)
  }

  // With distinct keys the binary search lands exactly where linear insertion would.
  lemma {:induction false} InsertIsLinear<K(!new)>(cmp: (K, K) -> int, keys: seq<K>, k: K)
    requires ThreeWay(cmp)
    requires forall i, j :: 0 <= i < j < |keys| ==> cmp(keys[j], keys[i]) < 0
    requires forall i :: 0 <= i < |keys| ==> cmp(k, keys[i]) != 0
    ensures InsertPos(cmp, keys, k) == LinearPos(cmp, keys, k)
  {
    hide ThreeWay, SearchPos, InsertPos, LinearPos;
    var p := InsertPos(cmp, keys, k);
    forall i | 0 <= i < p ensures cmp(k, keys[i]) < 0 {
      assert cmp(k, keys[p - 1]) < 0;
      if i < p - 1 {
        Chain(cmp, k, keys[p - 1], keys[i]);
      }
    }
  }

  lemma {:induction false} Chain<K(!new)>(cmp: (K, K) -> int, a: K, b: K, c: K)
    requires ThreeWay(cmp) && cmp(a, b) < 0 && cmp(b, c) < 0
    ensures cmp(a, c) < 0
  {
  }
}
