/** The chained hash table: nodes carry their own links, and the ghost `chains` say which
    list each bucket's links spell. */
module HashTable {
  import opened MiUtil

  class Node<K> {
    var link: Node?<K>
    const key: K

    constructor (k: K)
      ensures key == k && link == null
    {
      key, link := k, null;
    }
  }

  ghost function At<K>(c: seq<Node<K>>, i: nat): Node?<K> {
    if i < |c| then c[i] else null
  }

  ghost predicate IsChain<K>(head: Node?<K>, c: seq<Node<K>>)
    reads c`link
  {
    && head == At(c, 0)
    && (forall i, k :: 0 <= i < |c| && k == i + 1 ==> c[i].link == At(c, k))
    && (forall i, j :: 0 <= i < j < |c| ==> c[i] != c[j])
  }

  // ---------- the order in which a table is walked ----------

  // The chains from bucket b on, one behind the other.
  ghost function From<T>(chains: seq<seq<T>>, b: nat): seq<T>
    decreases |chains| - b
  {
    if b >= |chains| then [] else chains[b] + From(chains, b + 1)
  }

  lemma {:induction false} FromStep<T>(chains: seq<seq<T>>, b: nat, x: T)
    ensures b >= |chains| ==> From(chains, b) == []
    ensures b < |chains| ==> (x in From(chains, b) <==> x in chains[b] || x in From(chains, b + 1))
  {
  }

  lemma {:induction false} FromMembers<T>(chains: seq<seq<T>>, b: nat, x: T)
    ensures x in From(chains, b) <==> exists k :: b <= k < |chains| && x in chains[k]
    decreases |chains| - b
  {
    hide From;
    FromStep(chains, b, x);
    if b < |chains| {
      FromMembers(chains, b + 1, x);
    }
  }

  // Position p of the walk is a place in some chain, and what follows it is known.
  lemma {:induction false} Place<T>(chains: seq<seq<T>>, b: nat, p: nat) returns (k: nat, i: nat)
    requires p < |From(chains, b)|
    ensures b <= k < |chains| && i < |chains[k]| && chains[k][i] == From(chains, b)[p]
    ensures From(chains, b)[p + 1..] == chains[k][i + 1..] + From(chains, k + 1)
    decreases |chains| - b
  {
    var c := chains[b];
    if p < |c| {
      k, i := b, p;
    } else {
      k, i := Place(chains, b + 1, p - |c|);
      assert From(chains, b)[p + 1..] == From(chains, b + 1)[p - |c| + 1..];
    }
  }

  // Nodes of different buckets differ, so the walk meets every node exactly once.
  lemma {:induction false} WalkDistinct<T>(chains: seq<seq<T>>, b: nat)
    requires forall k, i, j :: 0 <= k < |chains| && 0 <= i < j < |chains[k]| ==> chains[k][i] != chains[k][j]
    requires forall k, m, x :: 0 <= k < m < |chains| && x in chains[k] ==> x !in chains[m]
    ensures forall i, j :: 0 <= i < j < |From(chains, b)| ==> From(chains, b)[i] != From(chains, b)[j]
    decreases |chains| - b
  {
    if b < |chains| {
      WalkDistinct(chains, b + 1);
      var c, rest, all := chains[b], From(chains, b + 1), From(chains, b);
      forall i, j | 0 <= i < j < |all| ensures all[i] != all[j] {
        if i < |c| <= j {
          assert all[i] == c[i] && all[j] == rest[j - |c|];
          FromMembers(chains, b + 1, rest[j - |c|]);
          assert c[i] in chains[b];
        } else if |c| <= i {
          assert all[i] == rest[i - |c|] && all[j] == rest[j - |c|];
        }
      }
    }
  }

  // ---------- the table ----------

  class Table<K(!new)> {
    const nbuckets: nat
    const hash: K -> nat
    const compare: (K, K) -> int
    const table: array<Node?<K>>
    var count: int
    ghost var chains: seq<seq<Node<K>>>
    ghost var stored: set<Node<K>>

    ghost predicate Sized()
      reads this`chains
    {
      0 < nbuckets == table.Length == |chains|
    }

    function Bucket(k: K): nat
      requires nbuckets > 0
    {
      hash(k) % nbuckets
    }

    // Every stored node is on the chain of its key's bucket and nothing else is on any chain.
    ghost predicate Places(cs: seq<seq<Node<K>>>, nodes: set<Node<K>>) {
      && 0 < nbuckets == |cs|
      && (forall b, n :: 0 <= b < nbuckets && n in cs[b] ==> n in nodes && Bucket(n.key) == b)
      && (forall n :: n in nodes ==> n in cs[Bucket(n.key)])
    }

    ghost predicate Valid()
      reads this`chains, this`stored, this`count, table, stored`link
    {
      && Sized() && Places(chains, stored)
      && (forall b :: 0 <= b < nbuckets ==> IsChain(table[b], chains[b]))
      && count == |stored| <= MI_UTIL_MAXCOUNT
    }

    lemma {:induction false} PlacesAdded(cs: seq<seq<Node<K>>>, nodes: set<Node<K>>, n: Node<K>)
      requires Places(cs, nodes)
      ensures var b := Bucket(n.key); Places(cs[b := [n] + cs[b]], nodes + {n})
    {
    }

    lemma {:induction false} Elsewhere(cs: seq<seq<Node<K>>>, nodes: set<Node<K>>, n: Node<K>, b: nat)
      requires Places(cs, nodes) && b < nbuckets && (n !in nodes || b != Bucket(n.key))
      ensures n !in cs[b]
    {
    }

    constructor (nbuckets: nat, hash: K -> nat, compare: (K, K) -> int)
      requires nbuckets > 0
      ensures Valid() && stored == {} && this.nbuckets == nbuckets && this.hash == hash && this.compare == compare
      ensures fresh(table)
    {
      this.nbuckets, this.hash, this.compare := nbuckets, hash, compare;
      table := new Node?<K>[nbuckets](_ => null);
      count, stored := 0, {};
      chains := seq(nbuckets, _ => []);
    }

    method Insert(n: Node<K>) returns (ret: int)
      requires Valid() && n !in stored
      modifies this`count, this`chains, this`stored, table, n`link
      ensures Valid()
      ensures old(count) >= MI_UTIL_MAXCOUNT ==>
                ret == MI_UTIL_ERROR && stored == old(stored) && chains == old(chains)
      ensures old(count) < MI_UTIL_MAXCOUNT ==>
                && ret == count && stored == old(stored) + {n}
                && var b := hash(n.key) % nbuckets; chains == old(chains)[b := [n] + old(chains)[b]]
    {
      hide IsChain, Places;
      PlacesBounds();
      if count >= MI_UTIL_MAXCOUNT {
        return MI_UTIL_ERROR;
      }
      var index := Bucket(n.key);
      forall b | 0 <= b < nbuckets ensures n !in chains[b] {
        Elsewhere(chains, stored, n, b);
      }
      PlacesAdded(chains, stored, n);
      ghost var c := chains[index];
      n.link := table[index];
      assert forall b :: 0 <= b < nbuckets ==> IsChain(table[b], chains[b]);
      ChainCons(n, c);
      table[index] := n;
      count := count + 1;
      chains := chains[index := [n] + chains[index]];
      stored := stored + {n};
      return count;
    }

    // A node that is not stored is left alone.
    method Delete(n: Node<K>) returns (ghost p: nat)
      requires Valid()
      modifies this`count, this`chains, this`stored, table, stored`link
      ensures Valid() && stored == old(stored) - {n}
      ensures n in old(stored) ==>
                var b := Bucket(n.key);
                var c := old(chains)[b];
                n.link == null && p < |c| && c[p] == n && chains == old(chains)[b := c[..p] + c[p + 1..]]
      ensures n !in old(stored) ==> chains == old(chains)
    {
      hide IsChain, Places;
      p := 0;
      PlacesBounds();
      var index := Bucket(n.key);
      HeadOf(index);
      if table[index] == n {
        Unlink(null, n, index, 0);
        return;
      }
      var vpN;
      vpN, p := Before(table[index], n, index);
      if vpN == null {
        NotOnItsChain(n);
        assert stored == stored - {n};
        return;
      }
      Unlink(vpN, n, index, p);
    }

    // The node in front of n on the chain whose head is not n, and the position of n.
    method Before(head: Node?<K>, n: Node<K>, ghost index: nat) returns (vpN: Node?<K>, ghost p: nat)
      requires Valid() && index < nbuckets && head == table[index] != n
      ensures var c := chains[index];
              if vpN == null then n !in c else 0 < p < |c| && c[p] == n && vpN == c[p - 1]
    {
      hide IsChain, Places;
      ghost var c := chains[index];
      ChainFacts(table[index], c);
      vpN, p := head, 0;
      while vpN != null && vpN.link != n
        invariant 0 <= p <= |c| && vpN == At(c, p)
        invariant forall k :: 0 <= k <= p && k < |c| ==> c[k] != n
        decreases |c| - p
      {
        assert c[p].link == At(c, p + 1);
        vpN := vpN.link;
        p := p + 1;
      }
      assert p < |c| ==> c[p].link == At(c, p + 1);
      p := p + 1;
    }

    lemma {:induction false} HeadOf(b: nat)
      requires Valid() && b < nbuckets
      ensures table[b] == At(chains[b], 0)
    {
    }

    // Take the node at position p off its chain; `before` is the one in front of it, if any.
    method Unlink(before: Node?<K>, n: Node<K>, index: nat, ghost p: nat)
      requires Valid() && index < nbuckets && p < |chains[index]| && chains[index][p] == n
      requires before == if p > 0 then chains[index][p - 1] else null
      modifies this`count, this`chains, this`stored, table, stored`link
      ensures Valid() && stored == old(stored) - {n} && n.link == null
      ensures var c := old(chains)[index]; chains == old(chains)[index := c[..p] + c[p + 1..]]
    {
      hide IsChain, Places;
      PlacesBounds();
      ghost var c := chains[index];
      ChainFacts(table[index], c);
      PlacesRemoved(chains, stored, index, p);
      assert c[p] in stored && (p > 0 ==> c[p - 1] in stored);
      forall b | 0 <= b < nbuckets && b != index ensures n !in chains[b] && (p > 0 ==> c[p - 1] !in chains[b]) {
        OneChain(chains, stored, b, index);
      }
      if before == null {
        table[index] := n.link;
      } else {
        before.link := n.link;
      }
      n.link := null;
      count := count - 1;
      assert forall b :: 0 <= b < nbuckets && b != index ==> IsChain(table[b], chains[b]);
      ChainWithout(table[index], c, p);
      chains := chains[index := c[..p] + c[p + 1..]];
      stored := stored - {n};
    }

    lemma {:induction false} NotOnItsChain(n: Node<K>)
      requires Valid() && n !in chains[Bucket(n.key)]
      ensures n !in stored
    {
    }

    lemma {:induction false} OneChain(cs: seq<seq<Node<K>>>, nodes: set<Node<K>>, b: nat, index: nat)
      requires Places(cs, nodes) && b < nbuckets && index < nbuckets && b != index
      ensures forall n :: n in cs[index] ==> n !in cs[b]
    {
      forall n | n in cs[index] ensures n !in cs[b] {
        assert Bucket(n.key) == index;
      }
    }

    lemma {:induction false} PlacesRemoved(cs: seq<seq<Node<K>>>, nodes: set<Node<K>>, b: nat, p: nat)
      requires Places(cs, nodes) && b < nbuckets && p < |cs[b]|
      requires forall i, j :: 0 <= i < j < |cs[b]| ==> cs[b][i] != cs[b][j]
      ensures Places(cs[b := cs[b][..p] + cs[b][p + 1..]], nodes - {cs[b][p]})
    {
      var c, n := cs[b], cs[b][p];
      var c' := c[..p] + c[p + 1..];
      assert n !in c';
      forall x | x in c && x != n ensures x in c' {
        var i :| 0 <= i < |c| && c[i] == x;
        assert if i < p then c'[i] == x else c'[i - 1] == x;
      }
      forall x | x in nodes && x != n ensures x in cs[b := c'][Bucket(x.key)] {
        assert x in cs[Bucket(x.key)];
      }
      forall k | 0 <= k < nbuckets && k != b ensures n !in cs[k] {
        OneChain(cs, nodes, k, b);
      }
    }

    // No node put on the chain after this one has an equal key.
    ghost predicate Newest(item: K, n: Node<K>)
      requires Sized()
      reads this`chains
    {
      var c := chains[Bucket(item)];
      exists i :: 0 <= i < |c| && c[i] == n && forall j :: 0 <= j < i ==> compare(item, c[j].key) != 0
    }

    // Only the item's own bucket is searched, newest first; with a lawful hash that is enough.
    method Find(item: K) returns (r: Node?<K>)
      requires Valid()
      ensures r != null ==> r in stored && compare(item, r.key) == 0 && Newest(item, r)
      ensures r == null <==> forall n :: n in stored && Bucket(n.key) == Bucket(item) ==> compare(item, n.key) != 0
      ensures Lawful() ==> (r != null <==> exists n :: n in stored && compare(item, n.key) == 0)
    {
      hide IsChain, Places;
      PlacesBounds();
      var index := Bucket(item);
      ghost var c := chains[index];
      ChainFacts(table[index], c);
      r := table[index];
      ghost var i := 0;
      while r != null && compare(item, r.key) != 0
        invariant 0 <= i <= |c| && r == At(c, i)
        invariant forall k :: 0 <= k < i ==> compare(item, c[k].key) != 0
        decreases |c| - i
      {
        r := r.link;
        i := i + 1;
      }
      forall n | n in stored && Bucket(n.key) == index ensures n in c {
        OnItsChain(n);
      }
      if r != null {
        assert c[i] in chains[index];
        InItsBucket(index, c[i]);
      }
    }

    lemma {:induction false} OnItsChain(n: Node<K>)
      requires Valid() && n in stored
      ensures n in chains[Bucket(n.key)]
    {
    }

    // Equal keys hash alike.
    ghost predicate Lawful() {
      forall a, b :: compare(a, b) == 0 ==> hash(a) == hash(b)
    }

    ghost function Walk(): seq<Node<K>>
      reads this`chains
    {
      From(chains, 0)
    }

    // The walk meets exactly the stored nodes, each of them once.
    lemma {:induction false} WalkIsStored()
      requires Valid()
      ensures forall n :: n in Walk() <==> n in stored
      ensures forall i, j :: 0 <= i < j < |Walk()| ==> Walk()[i] != Walk()[j]
    {
      forall n ensures n in Walk() <==> n in stored {
        FromMembers(chains, 0, n);
        if n in stored {
          assert n in chains[Bucket(n.key)];
        }
      }
      forall k, m, x | 0 <= k < m < |chains| && x in chains[k] ensures x !in chains[m] {
        OneChain(chains, stored, m, k);
      }
      WalkDistinct(chains, 0);
    }

    method First() returns (r: Node?<K>)
      requires Valid()
      ensures r == At(Walk(), 0)
    {
      hide Places;
      r := NextHead(0);
    }

    // The head of the first bucket from `start` on that is not empty.
    method NextHead(start: nat) returns (r: Node?<K>)
      requires Valid() && start <= nbuckets
      ensures r == At(From(chains, start), 0)
    {
      hide Places;
      var index := start;
      while index < nbuckets
        invariant start <= index <= nbuckets && From(chains, start) == From(chains, index)
      {
        if table[index] != null {
          return table[index];
        }
        index := index + 1;
      }
      return null;
    }

    method Next(n: Node<K>, ghost p: nat) returns (r: Node?<K>)
      requires Valid() && p < |Walk()| && Walk()[p] == n
      ensures r == At(Walk(), p + 1)
    {
      hide IsChain, Places, From;
      PlacesBounds();
      ghost var b, i := Place(chains, 0, p);
      ghost var c, after := chains[b], Walk()[p + 1..];
      ChainFacts(table[b], c);
      assert c[i].link == At(c, i + 1);
      InItsBucket(b, n);
      if n.link != null {
        assert n.link == c[i + 1] == after[0];
        return n.link;
      }
      assert c[i + 1..] == [];
      var index := Bucket(n.key);
      index := index + 1;
      r := NextHead(index);
      assert after == From(chains, index);
    }

    lemma {:induction false} InItsBucket(b: nat, n: Node<K>)
      requires Valid() && b < nbuckets && n in chains[b]
      ensures Bucket(n.key) == b
    {
    }

    lemma {:induction false} PlacesBounds()
      requires Valid()
      ensures |chains| == nbuckets && forall b, n :: 0 <= b < nbuckets && n in chains[b] ==> n in stored
    {
    }
  }

  lemma {:induction false} ChainCons<K>(n: Node<K>, c: seq<Node<K>>)
    requires IsChain(n.link, c) && n !in c
    ensures IsChain(n, [n] + c)
  {
    var r := [n] + c;
    assert forall i :: 0 < i < |r| ==> r[i] == c[i - 1];
    forall i, k | 0 <= i < |r| && k == i + 1 ensures r[i].link == At(r, k) {
      if i > 0 {
        assert c[i - 1].link == At(c, i);
      }
    }
  }

  lemma {:induction false} ChainFacts<K>(head: Node?<K>, c: seq<Node<K>>)
    requires IsChain(head, c)
    ensures head == At(c, 0)
    ensures forall i, k :: 0 <= i < |c| && k == i + 1 ==> c[i].link == At(c, k)
    ensures forall i, j :: 0 <= i < j < |c| ==> c[i] != c[j]
  {
  }

  // Bypassing position p leaves a chain without it.
  lemma {:induction false} ChainWithout<K>(head: Node?<K>, c: seq<Node<K>>, p: nat)
    requires p < |c| && forall i, j :: 0 <= i < j < |c| ==> c[i] != c[j]
    requires head == if p > 0 then c[0] else At(c, 1)
    requires p > 0 ==> c[p - 1].link == At(c, p + 1)
    requires forall i, k :: 0 <= i < |c| && k == i + 1 && i != p && k != p ==> c[i].link == At(c, k)
    ensures IsChain(head, c[..p] + c[p + 1..])
  {
    var r := c[..p] + c[p + 1..];
    assert forall i :: 0 <= i < p ==> r[i] == c[i];
    assert forall i :: p <= i < |r| ==> r[i] == c[i + 1];
    forall i, k | 0 <= i < |r| && k == i + 1 ensures r[i].link == At(r, k) {
      if k < p {
        assert c[i].link == At(c, k);
      } else if i >= p {
        assert c[i + 1].link == At(c, k + 1);
      }
    }
  }
}
