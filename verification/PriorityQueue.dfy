/** The two-dimensional linked priority queue.

    Nodes of equal priority form a row (the h links); the first nodes of the rows form a
    column ordered by priority (the v links).  Only the first node of a row has meaningful
    v links, and its h.previous points to the last node of the row. */
module PriorityQueue {
  import opened MiUtil

  class Node {
    const priority: int
    var vNext: Node?
    var vPrev: Node?
    var hNext: Node?
    var hPrev: Node?

    constructor (p: int)
      ensures priority == p
    {
      priority := p;
    }
  }

  // ---------- the reference: a stable priority queue ----------

  function InsertStable(q: seq<Node>, n: Node): (r: seq<Node>)
    ensures |r| == |q| + 1
  {
    if q == [] then [n]
    else if n.priority < q[0].priority then [n] + q
    else [q[0]] + InsertStable(q[1..], n)
  }

  lemma {:induction false} InsertPast(a: seq<Node>, b: seq<Node>, n: Node)
    requires forall x :: x in a ==> x.priority <= n.priority
    requires forall x :: x in b ==> n.priority < x.priority
    ensures InsertStable(a + b, n) == a + [n] + b
  {
    if a == [] {
      assert a + b == b;
    } else {
      assert (a + b)[1..] == a[1..] + b;
      InsertPast(a[1..], b, n);
    }
  }

  ghost predicate Members(q: seq<Node>, nodes: set<Node>) {
    (forall x :: x in nodes ==> x in q) && forall x :: x in q ==> x in nodes
  }

  lemma {:induction false} MembersPushed(q: seq<Node>, nodes: set<Node>, n: Node)
    requires Members(q, nodes)
    ensures Members(InsertStable(q, n), nodes + {n})
  {
    if q == [] {
    } else if n.priority < q[0].priority {
    } else {
      var rest := set x | x in q[1..];
      assert Members(q[1..], rest);
      MembersPushed(q[1..], rest, n);
      assert q == [q[0]] + q[1..];
    }
  }

  lemma {:induction false} MembersPopped(q: seq<Node>, nodes: set<Node>)
    requires Members(q, nodes) && q != [] && q[0] !in q[1..]
    ensures Members(q[1..], nodes - {q[0]})
  {
    assert q == [q[0]] + q[1..];
  }

  // The queue as a log of arrivals: popping takes the earliest among the most urgent.
  function FirstMin(arrivals: seq<Node>): (i: nat)
    requires arrivals != []
    ensures i < |arrivals|
    ensures forall j :: 0 <= j < |arrivals| ==> arrivals[i].priority <= arrivals[j].priority
    ensures forall j :: 0 <= j < i ==> arrivals[i].priority < arrivals[j].priority
  {
    var n := |arrivals| - 1;
    if n == 0 then 0
    else
      var m := FirstMin(arrivals[..n]);
      if arrivals[n].priority < arrivals[m].priority then n else m
  }

  function Without<T>(s: seq<T>, i: nat): (r: seq<T>)
    requires i < |s|
    ensures |r| == |s| - 1
  {
    s[..i] + s[i + 1..]
  }

  lemma WithoutSnoc<T>(s: seq<T>, x: T, i: nat)
    requires i < |s|
    ensures Without(s + [x], i) == Without(s, i) + [x]
    ensures (Without(s, i) + [x])[..|s| - 1] == Without(s, i)
  {
  }

  function Ordered(arrivals: seq<Node>): (r: seq<Node>)
    ensures |r| == |arrivals|
  {
    if arrivals == [] then []
    else InsertStable(Ordered(arrivals[..|arrivals| - 1]), arrivals[|arrivals| - 1])
  }

  // The front of the ordered queue is the earliest most urgent arrival, and the rest is
  // the ordered queue of the remaining arrivals.
  lemma {:induction false} FrontIsFirstMin(arrivals: seq<Node>)
    requires arrivals != []
    ensures Ordered(arrivals)[0] == arrivals[FirstMin(arrivals)]
    ensures Ordered(arrivals)[1..] == Ordered(Without(arrivals, FirstMin(arrivals)))
  {
    var n := |arrivals| - 1;
    var init, x := arrivals[..n], arrivals[n];
    if n == 0 {
      assert Without(arrivals, 0) == [] && init == [];
    } else {
      FrontIsFirstMin(init);
      var m := FirstMin(init);
      if x.priority < init[m].priority {
        assert Without(arrivals, n) == init;
      } else {
        assert arrivals == init + [x];
        WithoutSnoc(init, x, m);
      }
    }
  }

  datatype Op = Push(n: Node) | Pop

  // What a run of pushes and pops hands out, by the ordered queue ...
  function Served(q: seq<Node>, ops: seq<Op>): seq<Node>
    decreases |ops|
  {
    if ops == [] then []
    else match ops[0]
      case Push(n) => Served(InsertStable(q, n), ops[1..])
      case Pop => if q == [] then Served(q, ops[1..]) else [q[0]] + Served(q[1..], ops[1..])
  }

  // ... and by the arrival log.
  function ServedByArrival(arrivals: seq<Node>, ops: seq<Op>): seq<Node>
    decreases |ops|
  {
    if ops == [] then []
    else match ops[0]
      case Push(n) => ServedByArrival(arrivals + [n], ops[1..])
      case Pop =>
        if arrivals == [] then ServedByArrival(arrivals, ops[1..])
        else [arrivals[FirstMin(arrivals)]]
             + ServedByArrival(Without(arrivals, FirstMin(arrivals)), ops[1..])
  }

  lemma {:induction false} RunsServeByUrgencyThenArrival(arrivals: seq<Node>, ops: seq<Op>)
    ensures Served(Ordered(arrivals), ops) == ServedByArrival(arrivals, ops)
    decreases |ops|
  {
    if ops != [] {
      match ops[0]
      case Push(n) =>
        assert (arrivals + [n])[..|arrivals|] == arrivals;
        RunsServeByUrgencyThenArrival(arrivals + [n], ops[1..]);
      case Pop =>
        if arrivals == [] {
          RunsServeByUrgencyThenArrival(arrivals, ops[1..]);
        } else {
          FrontIsFirstMin(arrivals);
          RunsServeByUrgencyThenArrival(Without(arrivals, FirstMin(arrivals)), ops[1..]);
        }
    }
  }

  // ---------- rows ----------

  function Flat(rows: seq<seq<Node>>): seq<Node> {
    if rows == [] then [] else rows[0] + Flat(rows[1..])
  }

  lemma {:induction false} FlatSplit(rows: seq<seq<Node>>, r: nat)
    requires r <= |rows|
    ensures Flat(rows) == Flat(rows[..r]) + Flat(rows[r..])
  {
    if r == 0 {
      assert rows[..0] == [] && rows[0..] == rows;
    } else {
      FlatSplit(rows[1..], r - 1);
      assert rows[..r][1..] == rows[1..][..r - 1];
      assert rows[r..] == rows[1..][r - 1..];
    }
  }

  lemma {:induction false} FlatMember(rows: seq<seq<Node>>, x: Node)
    ensures x in Flat(rows) <==> exists i :: 0 <= i < |rows| && x in rows[i]
  {
    if rows != [] {
      FlatMember(rows[1..], x);
      if x in Flat(rows[1..]) {
        var i :| 0 <= i < |rows[1..]| && x in rows[1..][i];
        assert x in rows[i + 1];
      }
      if i :| 0 <= i < |rows| && x in rows[i] {
        if i > 0 { assert x in rows[1..][i - 1]; }
      }
    }
  }

  // Rows of equal priority, strictly rising from row to row; `col` holds their first nodes.
  ghost predicate Graded(rows: seq<seq<Node>>, col: seq<Node>) {
    && |rows| == |col|
    && (forall i :: 0 <= i < |rows| ==> SamePriority(rows[i], col[i]))
    && (forall i, k :: 0 <= i < k < |col| ==> col[i].priority < col[k].priority)
  }

  predicate SamePriority(row: seq<Node>, first: Node) {
    row != [] && row[0] == first && forall x :: x in row ==> x.priority == first.priority
  }

  // Where a node lands when the first `r` rows are no later than it and the others are.
  lemma {:induction false} InsertAtRow(rows: seq<seq<Node>>, col: seq<Node>, r: nat, n: Node)
    requires Graded(rows, col) && r <= |rows|
    requires forall i :: 0 <= i < r ==> col[i].priority <= n.priority
    requires forall i :: r <= i < |rows| ==> n.priority < col[i].priority
    ensures InsertStable(Flat(rows), n) == Flat(rows[..r]) + [n] + Flat(rows[r..])
  {
    FlatSplit(rows, r);
    forall x | x in Flat(rows[..r]) ensures x.priority <= n.priority {
      FlatMember(rows[..r], x);
      var i :| 0 <= i < r && x in rows[i];
      assert SamePriority(rows[i], col[i]);
    }
    forall x | x in Flat(rows[r..]) ensures n.priority < x.priority {
      FlatMember(rows[r..], x);
      var i :| 0 <= i < |rows[r..]| && x in rows[r..][i];
      assert SamePriority(rows[r + i], col[r + i]);
    }
    InsertPast(Flat(rows[..r]), Flat(rows[r..]), n);
  }

  lemma {:induction false} GradedNewRow(rows: seq<seq<Node>>, col: seq<Node>, r: nat, n: Node)
    requires Graded(rows, col) && r <= |rows|
    requires forall i :: 0 <= i < r ==> col[i].priority < n.priority
    requires forall i :: r <= i < |rows| ==> n.priority < col[i].priority
    ensures Graded(rows[..r] + [[n]] + rows[r..], col[..r] + [n] + col[r..])
  {
    var s, t := rows[..r] + [[n]] + rows[r..], col[..r] + [n] + col[r..];
    forall i | 0 <= i < |s| ensures SamePriority(s[i], t[i]) {
      if i < r {
        assert s[i] == rows[i] && t[i] == col[i];
      } else if i > r {
        assert s[i] == rows[i - 1] && t[i] == col[i - 1];
      }
    }
  }

  lemma {:induction false} FlatNewRow(rows: seq<seq<Node>>, r: nat, n: Node)
    requires r <= |rows|
    ensures Flat(rows[..r] + [[n]] + rows[r..]) == Flat(rows[..r]) + [n] + Flat(rows[r..])
  {
    var s := rows[..r] + [[n]] + rows[r..];
    FlatSplit(s, r);
    assert s[..r] == rows[..r] && s[r..][0] == [n] && s[r..][1..] == rows[r..];
  }

  lemma {:induction false} FlatLongerRow(rows: seq<seq<Node>>, r: nat, n: Node)
    requires r < |rows|
    ensures Flat(rows[r := rows[r] + [n]]) == Flat(rows[..r + 1]) + [n] + Flat(rows[r + 1..])
  {
    var s := rows[r := rows[r] + [n]];
    FlatSplit(s, r);
    FlatSplit(rows[..r + 1], r);
    assert s[..r] == rows[..r] && s[r..][0] == rows[r] + [n] && s[r..][1..] == rows[r + 1..];
    assert rows[..r + 1][..r] == rows[..r] && rows[..r + 1][r..] == [rows[r]];
    assert Flat([rows[r]]) == rows[r] + Flat([]) == rows[r];
  }

  lemma {:induction false} InsertIntoRow(rows: seq<seq<Node>>, col: seq<Node>, r: nat, n: Node)
    requires Graded(rows, col) && r < |rows| && n.priority == col[r].priority
    ensures Flat(rows[r := rows[r] + [n]]) == InsertStable(Flat(rows), n)
  {
    FlatLongerRow(rows, r, n);
    InsertAtRow(rows, col, r + 1, n);
  }

  lemma {:induction false} FlatShorterRow(rows: seq<seq<Node>>)
    requires rows != [] && rows[0] != []
    ensures Flat(rows) == [rows[0][0]] + Flat(rows[0 := rows[0][1..]])
    ensures |rows[0]| == 1 ==> Flat(rows) == [rows[0][0]] + Flat(rows[1..])
  {
    var s := rows[0 := rows[0][1..]];
    assert s[1..] == rows[1..];
    assert rows[0] == [rows[0][0]] + s[0];
  }

  lemma {:induction false} GradedLongerRow(rows: seq<seq<Node>>, col: seq<Node>, r: nat, n: Node)
    requires Graded(rows, col) && r < |rows| && n.priority == col[r].priority
    ensures Graded(rows[r := rows[r] + [n]], col)
  {
    var s := rows[r := rows[r] + [n]];
    assert SamePriority(rows[r], col[r]);
    assert forall x :: x in s[r] ==> x in rows[r] || x == n;
  }

  lemma {:induction false} GradedFewerRows(rows: seq<seq<Node>>, col: seq<Node>)
    requires Graded(rows, col) && rows != []
    ensures |rows| == |col| && Graded(rows[1..], col[1..])
  {
    assert forall i :: 0 <= i < |rows| - 1 ==> rows[1..][i] == rows[i + 1] && col[1..][i] == col[i + 1];
  }

  lemma {:induction false} GradedShorterRow(rows: seq<seq<Node>>, col: seq<Node>)
    requires Graded(rows, col) && rows != [] && |rows[0]| > 1
    ensures Graded(rows[0 := rows[0][1..]], col[0 := rows[0][1]])
  {
    var s, t := rows[0 := rows[0][1..]], col[0 := rows[0][1]];
    assert SamePriority(rows[0], col[0]);
    assert rows[0][1] in rows[0] && forall x :: x in s[0] ==> x in rows[0];
    assert forall i :: 1 <= i < |s| ==> s[i] == rows[i] && t[i] == col[i];
    assert SamePriority(s[0], t[0]);
  }

  // ---------- the linked queue ----------

  ghost predicate ColumnLinked(col: seq<Node>)
    reads col`vNext, col`vPrev
  {
    && (forall i, k :: 0 <= i && k == i + 1 && k < |col| ==> col[i].vNext == col[k] && col[k].vPrev == col[i])
    && (col != [] ==> col[0].vPrev == null && col[|col| - 1].vNext == null)
    && (forall i, k :: 0 <= i < k < |col| ==> col[i] != col[k])
  }

  ghost predicate RowLinked(row: seq<Node>)
    reads row`hNext, row`hPrev
  {
    && row != []
    && (forall j, k :: 0 <= j && k == j + 1 && k < |row| ==> row[j].hNext == row[k] && row[k].hPrev == row[j])
    && row[|row| - 1].hNext == null
    && row[0].hPrev == (if |row| == 1 then null else row[|row| - 1])
    && (forall j, k :: 0 <= j < k < |row| ==> row[j] != row[k])
  }

  lemma {:induction false} SingleRow(n: Node)
    requires n.hNext == null && n.hPrev == null
    ensures RowLinked([n])
  {
  }

  lemma {:induction false} SingleColumn(n: Node)
    requires n.vNext == null && n.vPrev == null
    ensures ColumnLinked([n]) && Graded([[n]], [n]) && Flat([[n]]) == [n]
  {
    assert Flat([[n]]) == [n] + Flat([]);
  }

  twostate lemma RowUntouched(row: seq<Node>)
    requires old(RowLinked(row))
    requires forall x :: x in row ==> x.hNext == old(x.hNext) && x.hPrev == old(x.hPrev)
    ensures RowLinked(row)
  {
    assert forall j :: 0 <= j < |row| ==> row[j] in row;
  }

  class Queue {
    var head: Node?
    var tail: Node?
    var count: int
    ghost var rows: seq<seq<Node>>
    ghost var col: seq<Node>
    ghost var nodes: set<Node>

    ghost predicate ColumnOk()
      reads this`head, this`tail, this`col, col`vNext, col`vPrev
    {
      && ColumnLinked(col)
      && head == (if col == [] then null else col[0])
      && tail == (if col == [] then null else col[|col| - 1])
    }

    ghost predicate RowsOk()
      reads this`rows, this`nodes, nodes`hNext, nodes`hPrev
    {
      forall i :: 0 <= i < |rows| ==> (forall x :: x in rows[i] ==> x in nodes) && RowLinked(rows[i])
    }

    ghost predicate LinksOk()
      reads this`head, this`tail, this`rows, this`col, this`nodes, nodes, col
    {
      (forall x :: x in col ==> x in nodes) && Graded(rows, col) && ColumnOk() && RowsOk()
    }

    ghost predicate Valid()
      reads this, nodes, col
    {
      && LinksOk() && count == |Flat(rows)| <= MI_UTIL_MAXCOUNT
      && Members(Flat(rows), nodes)
    }

    ghost function Contents(): seq<Node>
      reads this
    {
      Flat(rows)
    }

    constructor ()
      ensures Valid() && Contents() == [] && nodes == {}
    {
      head, tail, count := null, null, 0;
      rows, col, nodes := [], [], {};
    }

    // ----- relinking the column; h links are not touched -----

    method DropFirst()
      requires ColumnOk() && col != []
      modifies this`head, this`tail, this`col, col`vPrev
      ensures ColumnOk() && col == old(col)[1..]
    {
      var n := head;
      assert |col| > 1 ==> col[0].vNext == col[1];
      head := n.vNext;
      if n.vNext == null {
        tail := null;
      } else {
        n.vNext.vPrev := n.vPrev;
      }
      col := col[1..];
    }

    // `m` takes the place of the first node.
    method ReplaceFirst(m: Node)
      requires ColumnOk() && col != [] && m !in col
      modifies this`head, this`tail, this`col, col`vPrev, m`vNext, m`vPrev
      ensures ColumnOk() && col == old(col)[0 := m]
    {
      var n := head;
      assert |col| > 1 ==> col[0].vNext == col[1];
      head := m;
      m.vPrev := null;
      m.vNext := n.vNext;
      if n.vNext == null {
        tail := m;
      } else {
        n.vNext.vPrev := m;
      }
      col := col[0 := m];
    }

    method InsertBefore(scan: Node, n: Node, ghost r: nat)
      requires ColumnOk() && r < |col| && scan == col[r] && n !in col
      modifies this`head, this`col, col`vNext, col`vPrev, n`vNext, n`vPrev
      ensures ColumnOk() && col == old(col)[..r] + [n] + old(col)[r..]
    {
      assert r > 0 ==> scan.vPrev == col[r - 1];
      if scan.vPrev == null {
        head := n;
        n.vPrev := null;
      } else {
        scan.vPrev.vNext := n;
        n.vPrev := scan.vPrev;
      }
      n.vNext := scan;
      scan.vPrev := n;
      col := col[..r] + [n] + col[r..];
    }

    method Append(n: Node)
      requires ColumnOk() && col != [] && n !in col
      modifies this`tail, this`col, col`vNext, n`vNext, n`vPrev
      ensures ColumnOk() && col == old(col) + [n]
    {
      tail.vNext := n;
      n.vPrev := tail;
      n.vNext := null;
      tail := n;
      col := col + [n];
    }

    // ----- relinking one row; v links are not touched -----

    method JoinRow(scan: Node, n: Node, ghost row: seq<Node>)
      requires RowLinked(row) && scan == row[0] && n !in row
      modifies row`hNext, row`hPrev, n`hNext, n`hPrev
      ensures RowLinked(row + [n])
    {
      assert |row| > 1 ==> scan.hPrev == row[|row| - 1];
      n.hNext := null;
      if scan.hPrev != null {
        n.hPrev := scan.hPrev;
        scan.hPrev.hNext := n;
      } else {
        scan.hNext := n;
        n.hPrev := scan;
      }
      scan.hPrev := n;
    }

    method LeaveRow(n: Node, m: Node, ghost row: seq<Node>)
      requires RowLinked(row) && |row| > 1 && n == row[0] && m == row[1]
      modifies row`hPrev
      ensures RowLinked(row[1..])
    {
      if n.hPrev == n.hNext {
        m.hPrev := null;
      } else {
        m.hPrev := n.hPrev;
      }
    }

    // ----- the queue operations -----

    // The node popped is free again, whatever its links still say.
    method PopHead() returns (n: Node?)
      requires Valid()
      modifies this, nodes
      ensures Valid() && nodes == old(nodes) - {n}
      ensures old(Contents()) == [] ==> n == null && Contents() == []
      ensures old(Contents()) != [] ==> n == old(Contents())[0] && Contents() == old(Contents())[1..]
    {
      hide LinksOk, Flat, Members;
      HeadFacts();
      n := head;
      if n == null {
        return;
      }
      FlatShorterRow(rows);
      FirstIsNowhereElse();
      assert Flat(rows)[1..] == Flat(rows[0 := rows[0][1..]]);
      MembersPopped(Flat(rows), nodes);
      if n.hNext == null {
        PopShortRow();
      } else {
        PopLongRow(n);
      }
      count := count - 1;
      Forget(n);
    }

    ghost method Forget(n: Node)
      requires LinksOk() && n !in Flat(rows)
      modifies this`nodes
      ensures LinksOk() && nodes == old(nodes) - {n}
    {
      hide ColumnLinked, RowLinked, Flat;
      FlatMember(rows, n);
      forall i | 0 <= i < |col| ensures col[i] != n {
        assert SamePriority(rows[i], col[i]);
        assert rows[i][0] in rows[i];
      }
      nodes := nodes - {n};
    }

    lemma {:induction false} FirstIsNowhereElse()
      requires LinksOk() && rows != []
      ensures rows[0] != [] && rows[0][0] !in Flat(rows[0 := rows[0][1..]]) && rows[0][0] !in Flat(rows[1..])
    {
      hide ColumnLinked, Flat;
      RowFacts(0);
      RowsApart(rows, col, 0);
      var n := rows[0][0];
      FlatMember(rows[0 := rows[0][1..]], n);
      FlatMember(rows[1..], n);
      assert n in rows[0];
    }

    lemma {:induction false} HeadFacts()
      requires LinksOk()
      ensures if rows == [] then head == null && Flat(rows) == [] else
                && head != null && rows[0] != [] && rows[0][0] == head
                && (|rows[0]| == 1 <==> head.hNext == null)
                && Flat(rows) != []
    {
      if rows != [] {
        RowFacts(0);
      }
    }

    method PopShortRow()
      requires LinksOk() && rows != []
      modifies this`head, this`tail, this`col, this`rows, nodes`vPrev
      ensures LinksOk() && rows == old(rows)[1..]
    {
      hide Graded, ColumnLinked, RowLinked;
      GradedFewerRows(rows, col);
      DropFirst();
      rows := rows[1..];
      forall i | 0 <= i < |rows| ensures (forall x :: x in rows[i] ==> x in nodes) && RowLinked(rows[i]) {
        assert rows[i] == old(rows)[i + 1];
      }
    }

    method PopLongRow(n: Node)
      requires LinksOk() && rows != [] && n == head && n.hNext != null
      modifies this`head, this`tail, this`col, this`rows, nodes
      ensures LinksOk() && rows == old(rows)[0 := old(rows)[0][1..]]
    {
      hide Graded, ColumnLinked, RowLinked;
      ghost var row := rows[0];
      SecondFacts();
      var m := n.hNext;
      ReplaceFirst(m);
      assert RowLinked(row);
      LeaveRow(n, m, row);
      rows := rows[0 := row[1..]];
      forall i | 1 <= i < |rows| ensures (forall x :: x in rows[i] ==> x in nodes) && RowLinked(rows[i]) {
        assert rows[i] == old(rows)[i];
        assert forall x :: x in rows[i] ==> x !in row;
        RowUntouched(rows[i]);
      }
    }

    lemma {:induction false} SecondFacts()
      requires LinksOk() && rows != [] && head.hNext != null
      ensures var row := rows[0];
              && RowLinked(row) && |row| > 1 && row[0] == head && row[1] == head.hNext && row[1] !in col
              && Graded(rows[0 := row[1..]], col[0 := row[1]])
              && |rows| == |col|
              && (forall i, x :: 1 <= i < |rows| && x in rows[i] ==> x !in row)
              && (forall x :: x in row[1..] ==> x in row)
    {
      RowFacts(0);
      RowsApart(rows, col, 0);
      GradedShorterRow(rows, col);
      assert rows[0][1] in rows[0] && rows[0][1] != rows[0][0];
    }

    // Any node that is not queued, whether it never was or was popped before.
    method PushTail(n: Node) returns (ret: int)
      requires Valid() && n !in Contents()
      modifies this, nodes, n
      ensures Valid()
      ensures old(count) >= MI_UTIL_MAXCOUNT ==>
                ret == MI_UTIL_ERROR && Contents() == old(Contents()) && nodes == old(nodes)
      ensures old(count) < MI_UTIL_MAXCOUNT ==>
                ret == count && Contents() == InsertStable(old(Contents()), n) && nodes == old(nodes) + {n}
    {
      hide LinksOk, Flat, InsertStable;
      if count >= MI_UTIL_MAXCOUNT {
        return MI_UTIL_ERROR;
      }
      if head == null {
        PushFirst(n);
      } else {
        ghost var r;
        var scan;
        scan, r := SeekRow(n.priority);
        if scan == null {
          PushRowLast(n);
        } else if n.priority == scan.priority {
          PushIntoRow(scan, n, r);
        } else {
          PushRowBefore(scan, n, r);
        }
      }
      count := count + 1;
      MembersPushed(old(Contents()), old(nodes), n);
      return count;
    }

    // Back to the end of its class.
    method Requeue() returns (n: Node?)
      requires Valid()
      modifies this, nodes
      ensures Valid() && nodes == old(nodes)
      ensures old(Contents()) == [] ==> n == null && Contents() == []
      ensures old(Contents()) != [] ==>
                n == old(Contents())[0] && Contents() == InsertStable(old(Contents())[1..], old(Contents())[0])
    {
      hide LinksOk, Flat, InsertStable;
      n := PopHead();
      if n != null {
        var _ := PushTail(n);
      }
    }

    method PushFirst(n: Node)
      requires LinksOk() && head == null
      modifies this`head, this`tail, this`rows, this`col, this`nodes, n
      ensures LinksOk() && Contents() == InsertStable(old(Contents()), n) && nodes == old(nodes) + {n}
    {
      hide Flat, RowLinked, ColumnLinked, Graded;
      HeadFacts();
      head, tail := n, n;
      n.vPrev, n.hPrev, n.vNext, n.hNext := null, null, null, null;
      rows, col, nodes := [[n]], [n], nodes + {n};
      SingleRow(n);
      SingleColumn(n);
    }

    // The first row that is not more urgent than `priority`.
    method SeekRow(priority: int) returns (scan: Node?, ghost r: nat)
      requires LinksOk()
      ensures r <= |col| == |rows| && scan == (if r < |col| then col[r] else null)
      ensures forall i :: 0 <= i < r ==> col[i].priority < priority
      ensures scan != null ==> priority <= scan.priority
      ensures head != null ==> col != []
    {
      scan, r := head, 0;
      while scan != null && priority > scan.priority
        invariant r <= |col|
        invariant scan == if r < |col| then col[r] else null
        invariant forall i :: 0 <= i < r ==> col[i].priority < priority
        decreases |col| - r
      {
        assert r + 1 < |col| ==> col[r].vNext == col[r + 1];
        scan := scan.vNext;
        r := r + 1;
      }
    }

    // The bookkeeping for a new one-node row, once the column holds its node.
    ghost method RecordRow(n: Node, r: nat, oldCol: seq<Node>)
      requires Graded(rows, oldCol) && r <= |rows| == |oldCol| && col == oldCol[..r] + [n] + oldCol[r..]
      requires forall i :: 0 <= i < r ==> oldCol[i].priority < n.priority
      requires forall i :: r <= i < |oldCol| ==> n.priority < oldCol[i].priority
      requires ColumnOk() && RowsOk() && n.hNext == null && n.hPrev == null
      requires forall x :: x in oldCol ==> x in nodes
      modifies this`rows, this`nodes
      ensures LinksOk() && Contents() == InsertStable(old(Contents()), n) && nodes == old(nodes) + {n}
    {
      hide Graded, ColumnLinked, RowLinked, Flat, InsertStable;
      GradedNewRow(rows, oldCol, r, n);
      FlatNewRow(rows, r, n);
      InsertAtRow(rows, oldCol, r, n);
      SingleRow(n);
      rows, nodes := rows[..r] + [[n]] + rows[r..], nodes + {n};
      forall i | 0 <= i < |rows| ensures (forall x :: x in rows[i] ==> x in nodes) && RowLinked(rows[i]) {
        assert rows[i] == if i < r then old(rows)[i] else if i == r then [n] else old(rows)[i - 1];
      }
    }

    method PushRowBefore(scan: Node, n: Node, ghost r: nat)
      requires LinksOk() && n !in nodes && r < |col| && scan == col[r] && n.priority < scan.priority
      requires forall i :: 0 <= i < r ==> col[i].priority < n.priority
      modifies this`head, this`rows, this`col, this`nodes, nodes, n
      ensures LinksOk() && Contents() == InsertStable(old(Contents()), n) && nodes == old(nodes) + {n}
    {
      hide ColumnLinked, RowLinked, Flat, InsertStable;
      n.hPrev, n.hNext := null, null;
      InsertBefore(scan, n, r);
      RecordRow(n, r, old(col));
    }

    method PushRowLast(n: Node)
      requires LinksOk() && n !in nodes && col != []
      requires forall i :: 0 <= i < |col| ==> col[i].priority < n.priority
      modifies this`tail, this`rows, this`col, this`nodes, nodes, n
      ensures LinksOk() && Contents() == InsertStable(old(Contents()), n) && nodes == old(nodes) + {n}
    {
      hide ColumnLinked, RowLinked, Flat, InsertStable;
      n.hPrev, n.hNext := null, null;
      Append(n);
      RecordRow(n, |rows|, old(col));
    }

    method PushIntoRow(scan: Node, n: Node, ghost r: nat)
      requires LinksOk() && n !in nodes && r < |col| == |rows| && scan == col[r] && scan.priority == n.priority
      modifies this`rows, this`nodes, nodes, n
      ensures LinksOk() && Contents() == InsertStable(old(Contents()), n) && nodes == old(nodes) + {n}
    {
      hide Graded, ColumnLinked, RowLinked, Flat, InsertStable;
      ghost var row := rows[r];
      RowFacts(r);
      RowsApart(rows, col, r);
      GradedLongerRow(rows, col, r, n);
      InsertIntoRow(rows, col, r, n);
      JoinRow(scan, n, row);
      rows, nodes := rows[r := row + [n]], nodes + {n};
      forall i | 0 <= i < |rows| ensures (forall x :: x in rows[i] ==> x in nodes) && RowLinked(rows[i]) {
        if i != r {
          assert forall x :: x in rows[i] ==> x !in row;
          RowUntouched(rows[i]);
        }
      }
    }

    // What the first two nodes of a row look like.
    lemma {:induction false} RowFacts(i: nat)
      requires Graded(rows, col) && RowsOk() && i < |rows|
      ensures rows[i] != [] && rows[i][0] == col[i] && RowLinked(rows[i])
      ensures |rows[i]| > 1 <==> col[i].hNext != null
      ensures |rows[i]| > 1 ==> col[i].hNext == rows[i][1]
    {
      var row := rows[i];
      assert SamePriority(row, col[i]);
      assert RowLinked(row);
      assert |row| > 1 ==> row[0].hNext == row[1];
    }
  }

  // No node is in two rows, and no row holds the first node of another.
  lemma {:induction false} RowsApart(rows: seq<seq<Node>>, col: seq<Node>, r: nat)
    requires Graded(rows, col) && r < |rows|
    ensures forall i, x :: 0 <= i < |rows| && i != r && x in rows[i] ==> x !in rows[r]
    ensures forall i, x :: 0 <= i < |col| && i != r && x in rows[r] ==> x != col[i]
  {
    forall i, x | 0 <= i < |rows| && i != r && x in rows[i] ensures x !in rows[r] {
      assert SamePriority(rows[i], col[i]) && SamePriority(rows[r], col[r]);
    }
    forall i, x | 0 <= i < |col| && i != r && x in rows[r] ensures x != col[i] {
      assert SamePriority(rows[i], col[i]) && SamePriority(rows[r], col[r]);
    }
  }
}
