/** The intrusive doubly linked list: links are rewritten in place, and the ghost sequence
    `nodes` says which list they spell. */
module DoublyLinkedList {
  import opened MiUtil
  import opened OrderedInsert

  // Positions are handed around as signed 32-bit steps.
  const MAX_INDEXABLE: int := 0x8000_0000

  class Node<T> {
    var next: Node?<T>
    var prev: Node?<T>
    var item: T

    constructor (t: T)
      ensures item == t && next == null && prev == null
    {
      item, next, prev := t, null, null;
    }
  }

  ghost predicate Distinct<T>(s: seq<Node<T>>) {
    forall i, j :: 0 <= i < j < |s| ==> s[i] != s[j]
  }

  ghost predicate Linked<T>(s: seq<Node<T>>)
    reads s`next, s`prev
  {
    && (forall i, k :: 0 <= i && k == i + 1 && k < |s| ==> s[i].next == s[k] && s[k].prev == s[i])
    && (s != [] ==> s[0].prev == null && s[|s| - 1].next == null)
    && Distinct(s)
  }

  ghost function Items<T>(s: seq<Node<T>>): (r: seq<T>)
    reads s`item
    ensures |r| == |s| && forall i :: 0 <= i < |s| ==> r[i] == s[i].item
  {
    if s == [] then [] else Items(s[..|s| - 1]) + [s[|s| - 1].item]
  }

  // Relinking the two neighbours and the newcomer is all an inner insertion takes.
  twostate lemma LinkedInsert<T>(s: seq<Node<T>>, new p: nat, new n: Node<T>)
    requires 0 < p < |s| && n !in s && old(Linked(s))
    requires n.prev == s[p - 1] && n.next == s[p] && s[p - 1].next == n && s[p].prev == n
    requires forall i :: 0 <= i < |s| && i != p - 1 ==> s[i].next == old(s[i].next)
    requires forall i :: 0 <= i < |s| && i != p ==> s[i].prev == old(s[i].prev)
    ensures Linked(InsertAt(s, p, n))
  {
    var r := InsertAt(s, p, n);
    assert forall i :: 0 <= i < p ==> r[i] == s[i];
    assert r[p] == n;
    assert forall i :: p < i < |r| ==> r[i] == s[i - 1];
    forall i, k | 0 <= i && k == i + 1 && k < |r| ensures r[i].next == r[k] && r[k].prev == r[i] {
      if k < p {
        assert old(s[i].next) == s[k];
      } else if i > p {
        assert old(s[i - 1].next) == s[k - 1];
      }
    }
  }

  twostate lemma LinkedDelete<T>(s: seq<Node<T>>, new p: nat)
    requires p < |s| && old(Linked(s))
    requires p > 0 ==> s[p - 1].next == (if p + 1 < |s| then s[p + 1] else null)
    requires p + 1 < |s| ==> s[p + 1].prev == (if p > 0 then s[p - 1] else null)
    requires forall i :: 0 <= i < |s| && i != p - 1 && i != p ==> s[i].next == old(s[i].next)
    requires forall i :: 0 <= i < |s| && i != p + 1 && i != p ==> s[i].prev == old(s[i].prev)
    ensures Linked(s[..p] + s[p + 1..])
  {
    var r := s[..p] + s[p + 1..];
    assert forall i :: 0 <= i < p ==> r[i] == s[i];
    assert forall i :: p <= i < |r| ==> r[i] == s[i + 1];
    forall i, k | 0 <= i && k == i + 1 && k < |r| ensures r[i].next == r[k] && r[k].prev == r[i] {
      if k < p {
        assert old(s[i].next) == s[k];
      } else if i >= p {
        assert old(s[i + 1].next) == s[k + 1];
      }
    }
  }

  class List<T(!new)> {
    var first: Node?<T>
    var last: Node?<T>
    var count: int
    ghost var nodes: seq<Node<T>>

    ghost predicate Valid()
      reads this, nodes`next, nodes`prev
    {
      && Linked(nodes)
      && first == (if nodes == [] then null else nodes[0])
      && last == (if nodes == [] then null else nodes[|nodes| - 1])
      && count == |nodes| <= MI_UTIL_MAXCOUNT
    }

    constructor ()
      ensures Valid() && nodes == []
    {
      first, last, count, nodes := null, null, 0, [];
    }

    method PushTail(n: Node<T>) returns (ret: int)
      requires Valid() && n !in nodes
      modifies this, nodes`next, n`next, n`prev
      ensures Valid()
      ensures old(count) >= MI_UTIL_MAXCOUNT ==> ret == MI_UTIL_ERROR && nodes == old(nodes)
      ensures old(count) < MI_UTIL_MAXCOUNT ==> ret == count && nodes == old(nodes) + [n]
    {
      if count >= MI_UTIL_MAXCOUNT {
        return MI_UTIL_ERROR;
      }
      if first != null {
        n.next := null;
        n.prev := last;
        last.next := n;
        last := n;
        count := count + 1;
      } else {
        first, last := n, n;
        n.next, n.prev := null, null;
        count := 1;
      }
      nodes := nodes + [n];
      return count;
    }

    method PushHead(n: Node<T>) returns (ret: int)
      requires Valid() && n !in nodes
      modifies this, nodes`prev, n`next, n`prev
      ensures Valid()
      ensures old(count) >= MI_UTIL_MAXCOUNT ==> ret == MI_UTIL_ERROR && nodes == old(nodes)
      ensures old(count) < MI_UTIL_MAXCOUNT ==> ret == count && nodes == [n] + old(nodes)
    {
      if count >= MI_UTIL_MAXCOUNT {
        return MI_UTIL_ERROR;
      }
      if first != null {
        n.prev := null;
        n.next := first;
        first.prev := n;
        first := n;
        count := count + 1;
      } else {
        first, last := n, n;
        n.next, n.prev := null, null;
        count := 1;
      }
      nodes := [n] + nodes;
      return count;
    }

    lemma EndFacts()
      requires Valid()
      ensures count == |nodes| && (first == null <==> nodes == [])
      ensures nodes != [] ==> first == nodes[0] && last == nodes[|nodes| - 1]
    {
    }

    lemma Neighbours(p: nat)
      requires Linked(nodes) && p < |nodes|
      ensures nodes[p].prev == if p > 0 then nodes[p - 1] else null
      ensures nodes[p].next == if p + 1 < |nodes| then nodes[p + 1] else null
    {
      if p > 0 {
        assert nodes[p - 1].next == nodes[p];
      }
      if p + 1 < |nodes| {
        assert nodes[p + 1].prev == nodes[p];
      }
    }

    // Put `n` between positions p - 1 and p.
    method LinkBetween(left: Node<T>, right: Node<T>, n: Node<T>, ghost p: nat)
      requires Linked(nodes) && n !in nodes && 0 < p < |nodes| && left == nodes[p - 1] && right == nodes[p]
      modifies left`next, right`prev, n`next, n`prev
      ensures Linked(InsertAt(nodes, p, n))
    {
      n.next := right;
      n.prev := left;
      right.prev := n;
      left.next := n;
      LinkedInsert(nodes, p, n);
    }

    // In front of the node at position p; without a node, at the tail.
    method InsertBefore(at: Node?<T>, n: Node<T>, ghost p: nat) returns (ret: int)
      requires Valid() && n !in nodes
      requires if at == null then p == |nodes| else p < |nodes| && nodes[p] == at
      modifies this, nodes`next, nodes`prev, n`next, n`prev
      ensures Valid()
      ensures old(count) >= MI_UTIL_MAXCOUNT ==> ret == MI_UTIL_ERROR && nodes == old(nodes)
      ensures old(count) < MI_UTIL_MAXCOUNT ==> ret == count && nodes == InsertAt(old(nodes), p, n)
    {
      hide Linked;
      if count >= MI_UTIL_MAXCOUNT {
        return MI_UTIL_ERROR;
      }
      if at == null {
        ret := PushTail(n);
        return;
      }
      Neighbours(p);
      if count == 0 || at.prev == null {
        ret := PushHead(n);
        return;
      }
      LinkBetween(at.prev, at, n, p);
      count := count + 1;
      nodes := InsertAt(nodes, p, n);
      return count;
    }

    // Behind the node at position p - 1; without a node, at the head.
    method InsertAfter(at: Node?<T>, n: Node<T>, ghost p: nat) returns (ret: int)
      requires Valid() && n !in nodes
      requires if at == null then p == 0 else 0 < p <= |nodes| && nodes[p - 1] == at
      modifies this, nodes`next, nodes`prev, n`next, n`prev
      ensures Valid()
      ensures old(count) >= MI_UTIL_MAXCOUNT ==> ret == MI_UTIL_ERROR && nodes == old(nodes)
      ensures old(count) < MI_UTIL_MAXCOUNT ==> ret == count && nodes == InsertAt(old(nodes), p, n)
    {
      hide Linked;
      if count >= MI_UTIL_MAXCOUNT {
        return MI_UTIL_ERROR;
      }
      if at == null {
        ret := PushHead(n);
        return;
      }
      Neighbours(p - 1);
      if count == 0 || at.next == null {
        ret := PushTail(n);
        return;
      }
      LinkBetween(at, at.next, n, p);
      count := count + 1;
      nodes := InsertAt(nodes, p, n);
      return count;
    }

    method Delete(n: Node<T>, ghost p: nat)
      requires Valid() && p < |nodes| && nodes[p] == n
      modifies this, nodes`next, nodes`prev
      ensures Valid() && nodes == old(nodes)[..p] + old(nodes)[p + 1..]
      ensures n.next == null && n.prev == null
    {
      hide Linked;
      Neighbours(p);
      if n.next == null {
        last := n.prev;
      }
      if n.prev == null {
        first := n.next;
      }
      Bypass(n, p);
      count := count - 1;
      nodes := nodes[..p] + nodes[p + 1..];
    }

    // The neighbours are joined to each other.
    method Bypass(n: Node<T>, ghost p: nat)
      requires Linked(nodes) && p < |nodes| && nodes[p] == n
      modifies nodes`next, nodes`prev
      ensures Linked(nodes[..p] + nodes[p + 1..]) && n.next == null && n.prev == null
    {
      Neighbours(p);
      if n.next != null {
        n.next.prev := n.prev;
      }
      if n.prev != null {
        n.prev.next := n.next;
      }
      n.prev, n.next := null, null;
      LinkedDelete(nodes, p);
    }

    // `k` steps from position `p`, forward or back.
    method Step(n: Node?<T>, k: int, ghost p: int) returns (r: Node?<T>)
      requires Valid() && (n != null ==> 0 <= p < |nodes| && nodes[p] == n)
      ensures r == if n != null && 0 <= p + k < |nodes| then nodes[p + k] else null
    {
      r := n;
      if r == null {
        return;
      }
      var i := 0;
      if k < 0 {
        while i < -k
          invariant 0 <= i <= -k && 0 <= p - i && r == nodes[p - i]
        {
          Neighbours(p - i);
          if r.prev == null {
            return null;
          }
          r := r.prev;
          i := i + 1;
        }
      } else if k > 0 {
        while i < k
          invariant 0 <= i <= k && p + i < |nodes| && r == nodes[p + i]
        {
          Neighbours(p + i);
          if r.next == null {
            return null;
          }
          r := r.next;
          i := i + 1;
        }
      }
    }

    method Insert(n: Node<T>, cmp: (T, T) -> int) returns (ret: int)
      requires Valid() && n !in nodes && |nodes| < MAX_INDEXABLE
      modifies this, nodes`next, nodes`prev, n`next, n`prev
      ensures Valid() && ret == count
      ensures nodes == InsertAt(old(nodes), InsertPos(cmp, old(Items(nodes)), n.item), n)
    {
      hide Valid, Items, SearchPos, InsertPos, InsertAt;
      EndFacts();
      InsertAtEnds(nodes, n);
      InsertPosCases(cmp, Items(nodes), n.item);
      if count == 0 {
        ret := PushTail(n);
        return;
      }
      var start := first;
      var c := cmp(n.item, start.item);
      if c >= 0 {
        ret := InsertBefore(start, n, 0);
        return;
      } else if count == 1 {
        ret := PushTail(n);
        return;
      }
      c := cmp(n.item, last.item);
      if c < 0 {
        ret := PushTail(n);
        return;
      }
      ret := InsertInside(n, cmp);
    }

    method InsertInside(n: Node<T>, cmp: (T, T) -> int) returns (ret: int)
      requires Valid() && n !in nodes && 0 < |nodes| < MAX_INDEXABLE
      requires Bracket(cmp, Items(nodes), n.item, 0, |nodes| - 1)
      modifies this, nodes`next, nodes`prev, n`next, n`prev
      ensures Valid() && ret == count
      ensures nodes == InsertAt(old(nodes), SearchPos(cmp, old(Items(nodes)), n.item, 0, |old(nodes)| - 1), n)
    {
      hide Valid, Items, SearchPos, Bracket, InsertAt;
      EndFacts();
      ghost var p := SearchPos(cmp, Items(nodes), n.item, 0, |nodes| - 1);
      var at, after := Locate(n.item, cmp);
      if after {
        ret := InsertAfter(at, n, p);
      } else {
        ret := InsertBefore(at, n, p);
      }
    }

    // The binary search: the node next to which the key belongs, and on which side.
    method Locate(k: T, cmp: (T, T) -> int) returns (at: Node<T>, after: bool)
      requires Valid() && 0 < |nodes| < MAX_INDEXABLE && Bracket(cmp, Items(nodes), k, 0, |nodes| - 1)
      ensures var p := SearchPos(cmp, Items(nodes), k, 0, |nodes| - 1);
              if after then 0 < p <= |nodes| && at == nodes[p - 1] else p < |nodes| && at == nodes[p]
    {
      hide Valid, Items, SearchPos, Bracket, Mid, Searching;
      EndFacts();
      ghost var keys := Items(nodes);
      ghost var p := SearchPos(cmp, keys, k, 0, |nodes| - 1);
      StartSearch(cmp, keys, k, |nodes| - 1);
      var vStart, vEnd, vpStart := 0, count - 1, first;
      var vMid, vpN := Probe(cmp, k, vpStart, vStart, vEnd, p);
      while vpN != null
        invariant 0 <= vStart < vMid <= vEnd < |nodes| && vMid == Mid(vStart, vEnd) && vpN == nodes[vMid]
        invariant vpStart == nodes[vStart] && Searching(cmp, keys, k, vStart, vEnd, p)
        decreases vEnd - vStart
      {
        SearchStep(cmp, keys, k, vStart, vEnd, p);
        var c := cmp(k, vpN.item);
        if c == 0 {
          return vpN, false;
        }
        if c < 0 {
          if vMid + 1 == vEnd {
            return vpN, true;
          }
          vStart, vpStart := vMid, vpN;
        } else {
          if vMid - 1 == vStart {
            return vpN, false;
          }
          vEnd := vMid;
        }
        vMid, vpN := Probe(cmp, k, vpStart, vStart, vEnd, p);
      }
      assert false;
    }

    // The middle of the part still searched, and its node.
    method Probe(ghost cmp: (T, T) -> int, ghost k: T, vpStart: Node?<T>, vStart: int, vEnd: int, ghost p: nat)
      returns (vMid: int, vpN: Node?<T>)
      requires Valid() && |nodes| < MAX_INDEXABLE && Searching(cmp, Items(nodes), k, vStart, vEnd, p)
      requires vStart < |nodes| && vpStart == nodes[vStart]
      ensures 0 <= vStart < vMid <= vEnd < |nodes| && vMid == Mid(vStart, vEnd) && vpN == nodes[vMid]
    {
      hide Items, SearchPos, Bracket, Searching;
      SearchStep(cmp, Items(nodes), k, vStart, vEnd, p);
      // no unsigned overflow
      assert vStart + 1 + vEnd < 0x1_0000_0000;
      vMid := (vStart + 1 + vEnd) / 2;
      vpN := Step(vpStart, vMid - vStart, vStart);
    }
  }

  lemma {:induction false} StartSearch<K>(cmp: (K, K) -> int, keys: seq<K>, k: K, hi: nat)
    requires Bracket(cmp, keys, k, 0, hi)
    ensures Searching(cmp, keys, k, 0, hi, SearchPos(cmp, keys, k, 0, hi))
  {
  }
}
