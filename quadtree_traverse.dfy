// The depth-first traversal of Quadtree.cpp (VisitNodes, VisitNodesInt,
// VisitDatas) as a function producing the trace of visited nodes with the
// regions handed to the visitor, and the proof that a traversal that always
// continues meets every record of the tree exactly once.
module QuadtreeTraverse {
  import opened QuadtreeTypes
  import opened QuadtreePaths
  import opened QuadtreeArena

  /** One visitor call: the node and the rectangle it was given. */
  datatype Visited = Visited(node: nat, lo: Point, hi: Point)

  /**
   * VisitNodesInt: call the visitor on `node`; on Continue descend into the
   * four children of an internal node in quadrant order with the quarters
   * of (lo, hi) around its midpoint; Skip prunes, Exit aborts everything.
   * The result is the trace of visitor calls and the value returned.
   */
  function Traverse(nodes: seq<Node>, node: nat, lo: Point, hi: Point, visit: (nat, Point, Point) -> Visit)
    : (r: (seq<Visited>, bool))
    requires ChildrenLinked(nodes)
    ensures node < |nodes| <==> r.0 != []
    ensures r.0 != [] ==> r.0[0] == Visited(node, lo, hi)
    ensures forall k :: 0 <= k < |r.0| ==> node <= r.0[k].node < |nodes|
    decreases |nodes| - node
  {
    if node >= |nodes| then ([], true)
    else
      var here := [Visited(node, lo, hi)];
      match visit(node, lo, hi)
      case Skip => (here, true)
      case Exit => (here, false)
      case Continue =>
        if nodes[node].Leaf? then (here, true)
        else
          assert ChildrenOk(nodes, node);
          var ch := nodes[node].children;
          var mid := Mid(lo, hi);
          var q0, q1, q2, q3 := Quarter(lo, hi, mid, 0), Quarter(lo, hi, mid, 1),
                                Quarter(lo, hi, mid, 2), Quarter(lo, hi, mid, 3);
          var r0 := Traverse(nodes, ch[0], q0.0, q0.1, visit);
          if !r0.1 then (here + r0.0, false)
          else
            var r1 := Traverse(nodes, ch[1], q1.0, q1.1, visit);
            if !r1.1 then (here + r0.0 + r1.0, false)
            else
              var r2 := Traverse(nodes, ch[2], q2.0, q2.1, visit);
              if !r2.1 then (here + r0.0 + r1.0 + r2.0, false)
              else
                var r3 := Traverse(nodes, ch[3], q3.0, q3.1, visit);
                (here + r0.0 + r1.0 + r2.0 + r3.0, r3.1)
  }

  /** VisitNodes: the traversal from the root over the tree's bounds. */
  function VisitNodes(t: Tree, visit: (nat, Point, Point) -> Visit): (seq<Visited>, bool)
    requires ChildrenLinked(t.nodes)
  {
    Traverse(t.nodes, 0, t.min, t.max, visit)
  }

  /** The visitor Resize uses when no insertion fails. */
  function ContinueAll(node: nat, lo: Point, hi: Point): Visit
  {
    Continue
  }

  /** The records VisitDatas hands out along a trace, node after node. */
  function TraceRecords(t: Tree, tr: seq<Visited>): seq<Record>
    decreases |tr|
  {
    if tr == [] then [] else TraceRecords(t, tr[..|tr| - 1]) + LeafRecords(t, tr[|tr| - 1].node)
  }

  /** A traversal whose visitor never says Exit reports success. */
  lemma {:induction false} TraverseNoExit(nodes: seq<Node>, node: nat, lo: Point, hi: Point,
                                           visit: (nat, Point, Point) -> Visit)
    requires ChildrenLinked(nodes)
    requires forall n, a, b :: visit(n, a, b) != Exit
    ensures Traverse(nodes, node, lo, hi, visit).1
    decreases |nodes| - node
  {
    if node < |nodes| && visit(node, lo, hi) == Continue && nodes[node].Internal? {
      assert ChildrenOk(nodes, node);
      var ch := nodes[node].children;
      var mid := Mid(lo, hi);
      var q0, q1, q2, q3 := Quarter(lo, hi, mid, 0), Quarter(lo, hi, mid, 1),
                            Quarter(lo, hi, mid, 2), Quarter(lo, hi, mid, 3);
      TraverseNoExit(nodes, ch[0], q0.0, q0.1, visit);
      TraverseNoExit(nodes, ch[1], q1.0, q1.1, visit);
      TraverseNoExit(nodes, ch[2], q2.0, q2.1, visit);
      TraverseNoExit(nodes, ch[3], q3.0, q3.1, visit);
    }
  }

  lemma {:induction false} TraceRecordsAppend(t: Tree, a: seq<Visited>, b: seq<Visited>)
    ensures TraceRecords(t, a + b) == TraceRecords(t, a) + TraceRecords(t, b)
    decreases |b|
  {
    if b == [] {
      assert a + b == a;
    } else {
      var init := b[..|b| - 1];
      SnocSplit(a, b);
      TraceRecordsAppend(t, a, init);
      var x, y, l := TraceRecords(t, a), TraceRecords(t, init), LeafRecords(t, b[|b| - 1].node);
      assert TraceRecords(t, a + b) == (x + y) + l;
      ConcatAssoc(x, y, l);
    }
  }

  // ---- Descendants -----------------------------------------------------------

  /** `y` is `x` or lies below it: following parents from `y` reaches `x`. */
  predicate Desc(nodes: seq<Node>, x: nat, y: nat)
    requires ParentsBefore(nodes) && y < |nodes|
    decreases y
  {
    y == x || (y > 0 && Desc(nodes, x, nodes[y].parent))
  }

  lemma {:induction false} DescBound(nodes: seq<Node>, x: nat, y: nat)
    requires ParentsBefore(nodes) && y < |nodes| && Desc(nodes, x, y)
    ensures x <= y
    decreases y
  {
    if y != x {
      DescBound(nodes, x, nodes[y].parent);
    }
  }

  /** Every node lies below the root. */
  lemma {:induction false} DescRoot(nodes: seq<Node>, y: nat)
    requires ParentsBefore(nodes) && y < |nodes|
    ensures Desc(nodes, 0, y)
    decreases y
  {
    if y > 0 {
      DescRoot(nodes, nodes[y].parent);
    }
  }

  /** Below a child is below its parent. */
  lemma {:induction false} DescFromChild(nodes: seq<Node>, x: nat, c: nat, y: nat)
    requires ParentsBefore(nodes) && c < |nodes| && y < |nodes|
    requires c > 0 && nodes[c].parent == x && Desc(nodes, c, y)
    ensures Desc(nodes, x, y)
    decreases y
  {
    if y != c {
      DescFromChild(nodes, x, c, nodes[y].parent);
    }
  }

  /** A proper descendant of `x` makes `x` internal and lies below one of its children. */
  lemma {:induction false} DescToChild(nodes: seq<Node>, x: nat, y: nat)
    requires ParentsBefore(nodes) && ChildrenLinked(nodes) && ParentsLinked(nodes)
    requires y < |nodes| && y != x && Desc(nodes, x, y)
    ensures x < |nodes| && nodes[x].Internal? && |nodes[x].children| == 4
    ensures exists k :: 0 <= k < 4 && Desc(nodes, nodes[x].children[k], y)
    decreases y
  {
    var p := nodes[y].parent;
    if p == x {
      assert nodes[p].Internal? && y in nodes[p].children;
      assert ChildrenOk(nodes, x);
      var k :| 0 <= k < 4 && nodes[x].children[k] == y;
      assert Desc(nodes, nodes[x].children[k], y);
    } else {
      DescToChild(nodes, x, p);
      var k :| 0 <= k < 4 && Desc(nodes, nodes[x].children[k], p);
      assert ChildrenOk(nodes, x);
      DescBound(nodes, nodes[x].children[k], p);
      assert Desc(nodes, nodes[x].children[k], y);
    }
  }

  /** The ancestors of a node form a chain. */
  lemma {:induction false} DescChain(nodes: seq<Node>, a: nat, b: nat, y: nat)
    requires ParentsBefore(nodes) && y < |nodes| && Desc(nodes, a, y) && Desc(nodes, b, y)
    ensures a < |nodes| && b < |nodes|
    ensures Desc(nodes, a, b) || Desc(nodes, b, a)
    decreases y
  {
    DescBound(nodes, a, y);
    DescBound(nodes, b, y);
    if y != a && y != b {
      DescChain(nodes, a, b, nodes[y].parent);
    }
  }

  /** No node lies below two different children of the same node. */
  lemma DescUnique(nodes: seq<Node>, x: nat, k: nat, l: nat, y: nat)
    requires ParentsBefore(nodes) && ChildrenLinked(nodes)
    requires x < |nodes| && nodes[x].Internal? && k < 4 && l < 4 && k != l && y < |nodes|
    ensures !(Desc(nodes, nodes[x].children[k], y) && Desc(nodes, nodes[x].children[l], y))
  {
    assert ChildrenOk(nodes, x);
    var ck, cl := nodes[x].children[k], nodes[x].children[l];
    if Desc(nodes, ck, y) && Desc(nodes, cl, y) {
      DescChain(nodes, ck, cl, y);
      if Desc(nodes, ck, cl) {
        assert Desc(nodes, ck, x);
        DescBound(nodes, ck, x);
      } else {
        assert Desc(nodes, cl, x);
        DescBound(nodes, cl, x);
      }
    }
  }

  /** The structural part of the arena invariant. */
  predicate Linked(nodes: seq<Node>)
  {
    ParentsBefore(nodes) && ChildrenLinked(nodes) && ParentsLinked(nodes)
  }

  // ---- Records below a node ----------------------------------------------------

  /** The records each node holds itself: its bucket's used prefix for a leaf, none for an internal node. */
  function Bag(t: Tree): nat -> multiset<Record>
  {
    (y: nat) => multiset(LeafRecords(t, y))
  }

  /** The nodes below `x`, as a predicate on arena indices. */
  function Under(nodes: seq<Node>, x: nat): nat -> bool
    requires ParentsBefore(nodes)
  {
    (y: nat) => y < |nodes| && Desc(nodes, x, y)
  }

  /**
   * The sum of `bag` over the indices 0 .. k-1 that satisfy `inside`. The
   * lemmas about it take both as parameters, so that they do not depend on
   * how buckets store records or how parents link nodes.
   */
  function Sum(inside: nat -> bool, bag: nat -> multiset<Record>, k: nat): multiset<Record>
    decreases k
  {
    if k == 0 then multiset{} else Sum(inside, bag, k - 1) + When(inside(k - 1), bag(k - 1))
  }

  /** The records below `x` in the whole arena. */
  function Below(t: Tree, x: nat): multiset<Record>
    requires ParentsBefore(t.nodes)
  {
    Sum(Under(t.nodes, x), Bag(t), |t.nodes|)
  }

  /** Below the root are all records of the tree. */
  lemma {:induction false} DescSumRoot(t: Tree, k: nat)
    requires ParentsBefore(t.nodes) && k <= |t.nodes|
    ensures Sum(Under(t.nodes, 0), Bag(t), k) == LeafSum(t, k)
    decreases k
  {
    if k > 0 {
      DescRoot(t.nodes, k - 1);
      DescSumRoot(t, k - 1);
      var inside, bag := Under(t.nodes, 0), Bag(t);
      assert inside(k - 1) && bag(k - 1) == multiset(LeafRecords(t, k - 1));
      assert Sum(inside, bag, k) == Sum(inside, bag, k - 1) + When(inside(k - 1), bag(k - 1));
    }
  }

  /** Nothing but the leaf itself lies below a leaf. */
  lemma LeafNoDesc(nodes: seq<Node>, x: nat)
    requires Linked(nodes) && x < |nodes| && nodes[x].Leaf?
    ensures forall y :: 0 <= y < |nodes| && y != x ==> !Desc(nodes, x, y)
  {
    forall y | 0 <= y < |nodes| && y != x && Desc(nodes, x, y)
      ensures false
    {
      DescToChild(nodes, x, y);
    }
  }

  /** The sum over a predicate that holds of `x` alone is `x`'s own bag. */
  lemma {:induction false} SumSingle(inside: nat -> bool, bag: nat -> multiset<Record>, x: nat, k: nat)
    requires inside(x)
    requires forall y: nat :: y < k && y != x ==> !inside(y)
    ensures Sum(inside, bag, k) == if x < k then bag(x) else multiset{}
    decreases k
  {
    if k > 0 {
      SumSingle(inside, bag, x, k - 1);
      if k - 1 == x {
        AddEmpty(bag(x));
      } else {
        AddEmpty(Sum(inside, bag, k - 1));
      }
    }
  }

  /** Below a leaf are only its own records. */
  lemma DescSumLeaf(t: Tree, x: nat)
    requires Linked(t.nodes) && x < |t.nodes| && t.nodes[x].Leaf?
    ensures Below(t, x) == multiset(LeafRecords(t, x))
  {
    LeafNoDesc(t.nodes, x);
    var under := Under(t.nodes, x);
    assert under(x);
    forall y: nat | y < |t.nodes| && y != x
      ensures !under(y)
    {
    }
    SumSingle(under, Bag(t), x, |t.nodes|);
  }

  /** Node `y` lies properly below `x` exactly when it lies below exactly one of `ch`. */
  predicate SplitsAt(nodes: seq<Node>, x: nat, ch: seq<nat>, y: nat)
    requires ParentsBefore(nodes) && y < |nodes| && |ch| == 4
  {
    Ind(y != x && Desc(nodes, x, y))
      == Ind(Desc(nodes, ch[0], y)) + Ind(Desc(nodes, ch[1], y)) + Ind(Desc(nodes, ch[2], y)) + Ind(Desc(nodes, ch[3], y))
  }

  lemma SplitsEverywhere(nodes: seq<Node>, x: nat)
    requires Linked(nodes) && x < |nodes| && nodes[x].Internal?
    ensures ChildrenOk(nodes, x)
    ensures forall y :: 0 <= y < |nodes| ==> SplitsAt(nodes, x, nodes[x].children, y)
  {
    assert ChildrenOk(nodes, x);
    forall y | 0 <= y < |nodes|
      ensures SplitsAt(nodes, x, nodes[x].children, y)
    {
      SplitsAtNode(nodes, x, y);
    }
  }

  /** SplitsEverywhere at one node `y`. */
  lemma SplitsAtNode(nodes: seq<Node>, x: nat, y: nat)
    requires Linked(nodes) && x < |nodes| && nodes[x].Internal? && y < |nodes|
    ensures ChildrenOk(nodes, x) && SplitsAt(nodes, x, nodes[x].children, y)
  {
    assert ChildrenOk(nodes, x);
    var ch := nodes[x].children;
    var b0, b1, b2, b3 := Desc(nodes, ch[0], y), Desc(nodes, ch[1], y), Desc(nodes, ch[2], y), Desc(nodes, ch[3], y);
    if y == x {
      if b0 { DescBound(nodes, ch[0], y); }
      if b1 { DescBound(nodes, ch[1], y); }
      if b2 { DescBound(nodes, ch[2], y); }
      if b3 { DescBound(nodes, ch[3], y); }
    } else {
      DescUnique(nodes, x, 0, 1, y);
      DescUnique(nodes, x, 0, 2, y);
      DescUnique(nodes, x, 0, 3, y);
      DescUnique(nodes, x, 1, 2, y);
      DescUnique(nodes, x, 1, 3, y);
      DescUnique(nodes, x, 2, 3, y);
      if Desc(nodes, x, y) {
        DescToChild(nodes, x, y);
      } else {
        if b0 { DescFromChild(nodes, x, ch[0], y); }
        if b1 { DescFromChild(nodes, x, ch[1], y); }
        if b2 { DescFromChild(nodes, x, ch[2], y); }
        if b3 { DescFromChild(nodes, x, ch[3], y); }
      }
    }
  }


  /**
   * A sum over `inside` is the sum of four sums, when every index with
   * records satisfies `inside` exactly as often as it satisfies the four.
   */
  lemma {:induction false} SumSplit(inside: nat -> bool, i0: nat -> bool, i1: nat -> bool, i2: nat -> bool, i3: nat -> bool,
                                    bag: nat -> multiset<Record>, k: nat)
    requires forall y: nat :: y < k ==> bag(y) == multiset{} || Ind(inside(y)) == Ind(i0(y)) + Ind(i1(y)) + Ind(i2(y)) + Ind(i3(y))
    ensures Sum(inside, bag, k) == Sum(i0, bag, k) + Sum(i1, bag, k) + Sum(i2, bag, k) + Sum(i3, bag, k)
    decreases k
  {
    if k > 0 {
      SumSplit(inside, i0, i1, i2, i3, bag, k - 1);
      var y := k - 1;
      var m := bag(y);
      var e0, e1, e2, e3 := When(i0(y), m), When(i1(y), m), When(i2(y), m), When(i3(y), m);
      PickOne(m, inside(y), i0(y), i1(y), i2(y), i3(y));
      Regroup(Sum(inside, bag, k), Sum(inside, bag, y), When(inside(y), m),
              Sum(i0, bag, y), Sum(i1, bag, y), Sum(i2, bag, y), Sum(i3, bag, y),
              e0, e1, e2, e3,
              Sum(i0, bag, k), Sum(i1, bag, k), Sum(i2, bag, k), Sum(i3, bag, k));
    }
  }

  /** Below an internal node are the records below its four children. */
  lemma DescSumInternal(t: Tree, x: nat)
    requires Linked(t.nodes) && x < |t.nodes| && t.nodes[x].Internal?
    ensures ChildrenOk(t.nodes, x)
    ensures var ch := t.nodes[x].children;
            Below(t, x) == Below(t, ch[0]) + Below(t, ch[1]) + Below(t, ch[2]) + Below(t, ch[3])
  {
    SplitsEverywhere(t.nodes, x);
    var ch := t.nodes[x].children;
    var bag := Bag(t);
    var u, u0, u1, u2, u3 := Under(t.nodes, x), Under(t.nodes, ch[0]), Under(t.nodes, ch[1]), Under(t.nodes, ch[2]), Under(t.nodes, ch[3]);
    assert LeafRecords(t, x) == [];
    forall y: nat | y < |t.nodes|
      ensures bag(y) == multiset{} || Ind(u(y)) == Ind(u0(y)) + Ind(u1(y)) + Ind(u2(y)) + Ind(u3(y))
    {
      assert SplitsAt(t.nodes, x, ch, y);
    }
    SumSplit(u, u0, u1, u2, u3, bag, |t.nodes|);
  }

  /** The traversal below an internal node that continues and whose four subtraversals succeed. */
  lemma TraverseUnfold(nodes: seq<Node>, x: nat, lo: Point, hi: Point, visit: (nat, Point, Point) -> Visit)
    requires ChildrenLinked(nodes) && x < |nodes| && nodes[x].Internal? && visit(x, lo, hi) == Continue
    ensures ChildrenOk(nodes, x)
    ensures var ch := nodes[x].children; var mid := Mid(lo, hi);
            var q0, q1, q2, q3 := Quarter(lo, hi, mid, 0), Quarter(lo, hi, mid, 1),
                                  Quarter(lo, hi, mid, 2), Quarter(lo, hi, mid, 3);
            var r0, r1, r2, r3 := Traverse(nodes, ch[0], q0.0, q0.1, visit), Traverse(nodes, ch[1], q1.0, q1.1, visit),
                                  Traverse(nodes, ch[2], q2.0, q2.1, visit), Traverse(nodes, ch[3], q3.0, q3.1, visit);
            r0.1 && r1.1 && r2.1 ==>
              Traverse(nodes, x, lo, hi, visit) == ([Visited(x, lo, hi)] + r0.0 + r1.0 + r2.0 + r3.0, r3.1)
  {
    assert ChildrenOk(nodes, x);
  }

  /** A traversal that always continues collects exactly the records below its start. */
  lemma {:induction false} TraverseAll(t: Tree, x: nat, lo: Point, hi: Point)
    requires Linked(t.nodes) && x < |t.nodes|
    ensures Traverse(t.nodes, x, lo, hi, ContinueAll).1
    ensures multiset(TraceRecords(t, Traverse(t.nodes, x, lo, hi, ContinueAll).0)) == Below(t, x)
    decreases |t.nodes| - x
  {
    var here := [Visited(x, lo, hi)];
    assert TraceRecords(t, here) == LeafRecords(t, x) by {
      assert here[..0] == [];
    }
    if t.nodes[x].Leaf? {
      DescSumLeaf(t, x);
    } else {
      DescSumInternal(t, x);
      var ch := t.nodes[x].children;
      var mid := Mid(lo, hi);
      var q0, q1, q2, q3 := Quarter(lo, hi, mid, 0), Quarter(lo, hi, mid, 1),
                            Quarter(lo, hi, mid, 2), Quarter(lo, hi, mid, 3);
      TraverseAll(t, ch[0], q0.0, q0.1);
      TraverseAll(t, ch[1], q1.0, q1.1);
      TraverseAll(t, ch[2], q2.0, q2.1);
      TraverseAll(t, ch[3], q3.0, q3.1);
      var r0, r1, r2, r3 := Traverse(t.nodes, ch[0], q0.0, q0.1, ContinueAll), Traverse(t.nodes, ch[1], q1.0, q1.1, ContinueAll),
                            Traverse(t.nodes, ch[2], q2.0, q2.1, ContinueAll), Traverse(t.nodes, ch[3], q3.0, q3.1, ContinueAll);
      TraverseUnfold(t.nodes, x, lo, hi, ContinueAll);
      TraceRecordsFive(t, here, r0.0, r1.0, r2.0, r3.0);
      MultisetFour(TraceRecords(t, r0.0), TraceRecords(t, r1.0), TraceRecords(t, r2.0), TraceRecords(t, r3.0));
    }
  }

  /** The records of a record-less first visit followed by four traces. */
  lemma TraceRecordsFive(t: Tree, h: seq<Visited>, a: seq<Visited>, b: seq<Visited>, c: seq<Visited>, d: seq<Visited>)
    requires TraceRecords(t, h) == []
    ensures TraceRecords(t, h + a + b + c + d)
         == TraceRecords(t, a) + TraceRecords(t, b) + TraceRecords(t, c) + TraceRecords(t, d)
  {
    TraceRecordsAppend(t, h + a + b + c, d);
    TraceRecordsAppend(t, h + a + b, c);
    TraceRecordsAppend(t, h + a, b);
    TraceRecordsAppend(t, h, a);
    assert TraceRecords(t, h) + TraceRecords(t, a) == TraceRecords(t, a);
  }

  lemma MultisetFour<T>(s0: seq<T>, s1: seq<T>, s2: seq<T>, s3: seq<T>)
    ensures multiset(s0 + s1 + s2 + s3) == multiset(s0) + multiset(s1) + multiset(s2) + multiset(s3)
  {
  }

  /** Visiting the whole tree from the root meets every record once: Resize's source order. */
  lemma TraversalContents(t: Tree)
    requires Valid(t)
    ensures VisitNodes(t, ContinueAll).1
    ensures multiset(TraceRecords(t, VisitNodes(t, ContinueAll).0)) == Contents(t)
  {
    TraverseAll(t, 0, t.min, t.max);
    DescSumRoot(t, |t.nodes|);
  }

  /** Every record a trace hands out is a record of the tree. */
  lemma {:induction false} TraceRecordsIn(t: Tree, tr: seq<Visited>, r: Record)
    requires forall k :: 0 <= k < |tr| ==> tr[k].node < |t.nodes|
    requires r in TraceRecords(t, tr)
    ensures r in Contents(t)
    decreases |tr|
  {
    var init := tr[..|tr| - 1];
    if r in TraceRecords(t, init) {
      TraceRecordsIn(t, init, r);
    } else {
      LeafInContents(t, tr[|tr| - 1].node, |t.nodes|, r);
    }
  }

  /** A record of a leaf among the first k nodes lies in their leaf sum. */
  lemma {:induction false} LeafInContents(t: Tree, n: nat, k: nat, r: Record)
    requires n < k && r in LeafRecords(t, n)
    ensures r in LeafSum(t, k)
    decreases k
  {
    if n < k - 1 {
      LeafInContents(t, n, k - 1, r);
    }
  }
}
