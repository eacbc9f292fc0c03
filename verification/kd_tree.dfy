/** The array kd-tree's prefix traversal: the nodes of a balanced kd-tree
    live in one array, the root of the sub-tree over [left, right] at the
    middle index, and the traversal visits that root before its left and
    right sub-trees. Point coordinates play no part here. */
module KdTree {

  datatype Tree<P> = Tree(numNodes: int, nodes: seq<P>)

  ghost predicate Valid<P>(t: Tree<P>)
  {
    t.numNodes == |t.nodes|
  }

  /** The default constructor: an empty tree. */
  function Empty<P>(): (t: Tree<P>)
    ensures Valid(t) && GetNumNodes(t) == 0
  {
    Tree(0, [])
  }

  /** The constructor that allocates `numNodes` nodes without initialising
      them; `contents` stands for whatever the allocation holds. */
  function WithNodes<P>(numNodes: nat, contents: seq<P>): (t: Tree<P>)
    requires |contents| == numNodes
    ensures Valid(t) && GetNumNodes(t) == numNodes
  {
    Tree(numNodes, contents)
  }

  /** The stored count, which in a valid tree is the length of the node
      array. */
  function GetNumNodes<P>(t: Tree<P>): (n: int)
    ensures Valid(t) ==> n == |t.nodes|
  {
    t.numNodes
  }

  /** `(left + right) >> 1`: an arithmetic shift, so the floor of the half
      also for a negative sum. */
  function Mid(left: int, right: int): (mid: int)
    ensures 2 * mid <= left + right < 2 * mid + 2
    ensures left <= right ==> left <= mid <= right
  {
    (left + right) / 2
  }

  /** Positions in a three-part concatenation. */
  lemma ConcatIndex<T>(x: T, lo: seq<T>, hi: seq<T>)
    ensures forall i :: 0 <= i < |lo| ==> ([x] + lo + hi)[1 + i] == lo[i]
    ensures forall i :: 0 <= i < |hi| ==> ([x] + lo + hi)[1 + |lo| + i] == hi[i]
  {
  }

  /** Every element of v lies in [a, b]. */
  predicate AllIn(v: seq<int>, a: int, b: int)
  {
    forall i :: 0 <= i < |v| ==> a <= v[i] <= b
  }

  /** Every index of [a, b] occurs exactly once in v. */
  predicate OnceEach(v: seq<int>, a: int, b: int)
  {
    forall k :: a <= k <= b ==> multiset(v)[k] == 1
  }

  /** A middle value with a block of values below it and a block above it,
      all within [a, b], stays within [a, b]. */
  lemma AllInJoin(x: int, lo: seq<int>, hi: seq<int>, a: int, b: int)
    requires a <= x <= b && AllIn(lo, a, x - 1) && AllIn(hi, x + 1, b)
    ensures AllIn([x] + lo + hi, a, b)
  {
    var v := [x] + lo + hi;
    ConcatIndex(x, lo, hi);
    forall i | 0 <= i < |v|
      ensures a <= v[i] <= b
    {
      if 0 < i < 1 + |lo| {
        assert v[i] == lo[i - 1];
      } else if i >= 1 + |lo| {
        assert v[i] == hi[i - 1 - |lo|];
      }
    }
  }

  /** A middle value with the indices below it once each and those above
      it once each holds every index of the whole range once. */
  lemma OnceEachJoin(x: int, lo: seq<int>, hi: seq<int>, a: int, b: int)
    requires a <= x <= b
    requires AllIn(lo, a, x - 1) && AllIn(hi, x + 1, b)
    requires OnceEach(lo, a, x - 1) && OnceEach(hi, x + 1, b)
    ensures OnceEach([x] + lo + hi, a, b)
  {
    var v := [x] + lo + hi;
    assert multiset(v) == multiset([x]) + multiset(lo) + multiset(hi);
    forall k | a <= k <= b
      ensures multiset(v)[k] == 1
    {
      if k < x {
        assert k !in hi;
      } else if k > x {
        assert k !in lo;
      } else {
        assert k !in lo && k !in hi;
      }
    }
  }

  /** The indices the private traversal visits for [left, right], in
      order, exactly as written: the middle index, then the left sub-range,
      then the right sub-range. It visits the middle index even for an
      empty range; the recursion itself only descends into non-empty
      ranges, and on a non-empty range every index of the range is visited
      exactly once and nothing else is. */
  function Visits(left: int, right: int): (v: seq<int>)
    ensures |v| >= 1 && v[0] == Mid(left, right)
    ensures left <= right ==> |v| == right - left + 1 && AllIn(v, left, right) && OnceEach(v, left, right)
    decreases if left <= right then right - left + 1 else 0
  {
    var mid := Mid(left, right);
    var lo := if left < mid then Visits(left, mid - 1) else [];
    var hi := if right > mid then Visits(mid + 1, right) else [];
    if left <= right then
      AllInJoin(mid, lo, hi, left, right);
      OnceEachJoin(mid, lo, hi, left, right);
      [mid] + lo + hi
    else
      [mid] + lo + hi
  }

  /** In a middle value followed by a block of smaller and a block of
      larger values, everything smaller comes before everything larger. */
  lemma BlockOrder(v: seq<int>, x: int, lo: seq<int>, hi: seq<int>, a: int, b: int)
    requires v == [x] + lo + hi
    requires AllIn(lo, a, x - 1) && AllIn(hi, x + 1, b)
    ensures forall i, j :: 0 <= i < |v| && 0 <= j < |v| && v[i] < x < v[j] ==> i < j
  {
    ConcatIndex(x, lo, hi);
    forall i | 1 + |lo| <= i < |v|
      ensures v[i] > x
    {
      assert v[i] == hi[i - 1 - |lo|];
    }
    forall i | 0 < i < 1 + |lo|
      ensures v[i] < x
    {
      assert v[i] == lo[i - 1];
    }
  }

  /** The traversal of a non-empty range: the middle index, then the
      visits of the indices below it, then those of the indices above it. */
  lemma VisitsSplit(left: int, right: int)
    requires left <= right
    ensures Visits(left, right) == [Mid(left, right)]
      + (if left < Mid(left, right) then Visits(left, Mid(left, right) - 1) else [])
      + (if right > Mid(left, right) then Visits(Mid(left, right) + 1, right) else [])
  {
  }

  /** Prefix order: the middle index first, and every index below it
      before every index above it. */
  lemma PrefixOrder(left: int, right: int)
    requires left <= right
    ensures var v := Visits(left, right);
      && v[0] == Mid(left, right)
      && forall i, j :: 0 <= i < |v| && 0 <= j < |v| && v[i] < Mid(left, right) < v[j] ==> i < j
  {
    var mid := Mid(left, right);
    var lo := if left < mid then Visits(left, mid - 1) else [];
    var hi := if right > mid then Visits(mid + 1, right) else [];
    VisitsSplit(left, right);
    BlockOrder(Visits(left, right), mid, lo, hi, left, right);
  }

  /** Together: the traversal of [left, right] calls the traversal function
      exactly once per index of the range, and for no other index. */
  lemma VisitsExactlyOnce(left: int, right: int)
    requires left <= right
    ensures var v := Visits(left, right);
      && |v| == right - left + 1
      && AllIn(v, left, right)
      && (forall k :: left <= k <= right ==> k in v)
      && OnceEach(v, left, right)
  {
    var v := Visits(left, right);
    forall k | left <= k <= right
      ensures k in v
    {
      assert multiset(v)[k] == 1;
    }
  }

  /** The indices the public traversal visits as written: the range
      [0, numNodes - 1], always at least one index. On a non-empty tree
      these are the node indices, each exactly once. */
  function TraverseIndicesAsWritten<P>(t: Tree<P>): (v: seq<int>)
    ensures |v| >= 1
    ensures t.numNodes >= 1 ==> |v| == t.numNodes && AllIn(v, 0, t.numNodes - 1) && OnceEach(v, 0, t.numNodes - 1)
  {
    if t.numNodes >= 1 then
      VisitsExactlyOnce(0, t.numNodes - 1);
      Visits(0, t.numNodes - 1)
    else
      Visits(0, t.numNodes - 1)
  }

  /** On the default-constructed empty tree the traversal visits index -1,
      one before the node array. */
  lemma EmptyTreeVisitsMinusOne<P>()
    ensures TraverseIndicesAsWritten(Empty<P>()) == [-1]
    ensures !(0 <= TraverseIndicesAsWritten(Empty<P>())[0] < |Empty<P>().nodes|)
  {
    assert Mid(0, -1) == -1;
  }

  /** The nodes at the given indices, in order. */
  function Gather<P>(nodes: seq<P>, order: seq<int>): (v: seq<P>)
    requires AllIn(order, 0, |nodes| - 1)
    ensures |v| == |order|
    ensures forall i :: 0 <= i < |order| ==> v[i] == nodes[order[i]]
  {
    seq(|order|, i requires 0 <= i < |order| => nodes[order[i]])
  }

  /** Gathering along an order that lists every index yields every node. */
  lemma GatherCovers<P>(nodes: seq<P>, order: seq<int>)
    requires AllIn(order, 0, |nodes| - 1)
    requires forall k :: 0 <= k < |nodes| ==> k in order
    ensures forall k :: 0 <= k < |nodes| ==> nodes[k] in Gather(nodes, order)
  {
    var v := Gather(nodes, order);
    forall k | 0 <= k < |nodes|
      ensures nodes[k] in v
    {
      assert k in order;
      var i :| 0 <= i < |order| && order[i] == k;
      assert v[i] == nodes[k];
    }
  }

  /** Taking the last index n out of an order that lists each of [0, n]
      once leaves an order that lists each of [0, n - 1] once. */
  lemma TakeOutLast(order: seq<int>, n: int, p: int)
    requires |order| == n + 1 && AllIn(order, 0, n) && OnceEach(order, 0, n)
    requires 0 <= p < |order| && order[p] == n
    ensures var rest := order[..p] + order[p + 1..];
      |rest| == n && AllIn(rest, 0, n - 1) && OnceEach(rest, 0, n - 1)
  {
    var rest := order[..p] + order[p + 1..];
    assert order == order[..p] + [n] + order[p + 1..];
    assert multiset(order) == multiset(rest) + multiset{n};
    assert multiset(order)[n] == 1;
    assert multiset(rest)[n] == 0;
    forall i | 0 <= i < |rest|
      ensures 0 <= rest[i] <= n - 1
    {
      assert rest[i] == (if i < p then order[i] else order[i + 1]);
      assert rest[i] in multiset(rest);
    }
    forall k | 0 <= k <= n - 1
      ensures multiset(rest)[k] == 1
    {
      assert multiset(order)[k] == 1;
    }
  }

  /** Gathering along the order is gathering along the order without the
      last index, with the last node put back where that index was. */
  lemma GatherSplice<P>(nodes: seq<P>, order: seq<int>, p: int)
    requires |nodes| >= 1 && AllIn(order, 0, |nodes| - 1)
    requires 0 <= p < |order| && order[p] == |nodes| - 1
    requires AllIn(order[..p] + order[p + 1..], 0, |nodes| - 2)
    ensures var h := Gather(nodes[..|nodes| - 1], order[..p] + order[p + 1..]);
      Gather(nodes, order) == h[..p] + [nodes[|nodes| - 1]] + h[p..]
  {
  }

  /** The position of a value that occurs in the sequence. */
  lemma PositionOf(v: seq<int>, x: int) returns (p: int)
    requires multiset(v)[x] >= 1
    ensures 0 <= p < |v| && v[p] == x
  {
    assert x in v;
    p :| 0 <= p < |v| && v[p] == x;
  }

  /** Putting an element back into a sequence adds it to the multiset. */
  lemma SpliceMultiset<T>(h: seq<T>, p: int, x: T)
    requires 0 <= p <= |h|
    ensures multiset(h[..p] + [x] + h[p..]) == multiset(h) + multiset{x}
  {
    assert h == h[..p] + h[p..];
  }

  /** Gathering along an order that lists every index exactly once yields
      the nodes rearranged: the same multiset. By induction on the number of
      nodes, taking out the last index. */
  lemma {:induction false} GatherPermutes<P>(nodes: seq<P>, order: seq<int>)
    requires |order| == |nodes| && AllIn(order, 0, |nodes| - 1) && OnceEach(order, 0, |nodes| - 1)
    ensures multiset(Gather(nodes, order)) == multiset(nodes)
    decreases |nodes|
  {
    if |nodes| > 0 {
      var n := |nodes| - 1;
      var p := PositionOf(order, n);
      var rest := order[..p] + order[p + 1..];
      TakeOutLast(order, n, p);
      GatherPermutes(nodes[..n], rest);
      GatherSplice(nodes, order, p);
      var h := Gather(nodes[..n], rest);
      SpliceMultiset(h, p, nodes[n]);
      calc {
        multiset(Gather(nodes, order));
        multiset(h) + multiset{nodes[n]};
        multiset(nodes[..n]) + multiset{nodes[n]};
        { assert nodes == nodes[..n] + [nodes[n]]; }
        multiset(nodes);
      }
    }
  }

  /** The public traversal with the empty tree visiting nothing: the
      traversal function receives the nodes rearranged (the same multiset),
      in the order of Visits, the root of the whole tree first. */
  function TraverseTree<P>(t: Tree<P>): (v: seq<P>)
    requires Valid(t)
    ensures |v| == GetNumNodes(t)
    ensures multiset(v) == multiset(t.nodes)
    ensures t.numNodes >= 1 ==> v == Gather(t.nodes, Visits(0, t.numNodes - 1))
    ensures forall k :: 0 <= k < |t.nodes| ==> t.nodes[k] in v
    ensures t.numNodes >= 1 ==> v[0] == t.nodes[Mid(0, t.numNodes - 1)]
  {
    if t.numNodes == 0 then []
    else
      var order := Visits(0, t.numNodes - 1);
      VisitsExactlyOnce(0, t.numNodes - 1);
      GatherCovers(t.nodes, order);
      GatherPermutes(t.nodes, order);
      Gather(t.nodes, order)
  }
}
