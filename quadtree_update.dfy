// The quadtree operations that change one leaf or split one leaf, stated as
// functions of the tree value (Quadtree.cpp: GetNewID, ShouldLeafSplit,
// GetNodeRegion, SplitLeafNode, InsertData, Erase), with the lemmas that
// they keep the arena invariant and conserve records.
module QuadtreeUpdate {
  import opened QuadtreeTypes
  import opened QuadtreePaths
  import opened QuadtreeArena

  // ---- GetNewID --------------------------------------------------------------

  /**
   * The slot number of GetNewID's single ascending scan: start at 0 and
   * step up whenever the record being looked at carries the current value.
   */
  function NewIdOf(rs: seq<Record>): nat
    decreases |rs|
  {
    if rs == [] then 0
    else
      var id := NewIdOf(rs[..|rs| - 1]);
      if IdSlot(rs[|rs| - 1].id) == id then id + 1 else id
  }

  /** GetNewID for a node index, `~0` when it is not a leaf of the arena. */
  function NewId(t: Tree, node: nat): nat
  {
    if node < |t.nodes| && t.nodes[node].Leaf? then NewIdOf(LeafRecords(t, node)) else NoIndex
  }

  /** The scan never goes past the number of records. */
  lemma {:induction false} NewIdBound(rs: seq<Record>)
    ensures NewIdOf(rs) <= |rs|
    decreases |rs|
  {
    if rs != [] {
      NewIdBound(rs[..|rs| - 1]);
    }
  }

  /** It reaches the count exactly when the slots are 0, 1, ..., count-1 in order. */
  lemma {:induction false} NewIdExact(rs: seq<Record>)
    ensures NewIdOf(rs) == |rs| <==> forall i :: 0 <= i < |rs| ==> IdSlot(rs[i].id) == i
    decreases |rs|
  {
    if rs != [] {
      var init := rs[..|rs| - 1];
      NewIdExact(init);
      NewIdBound(init);
      assert forall i :: 0 <= i < |init| ==> init[i] == rs[i];
    }
  }

  /** After slots 1, 0 the scan yields 1 again: slot numbers are not unique in general. */
  lemma NewIdRepeats()
    ensures var r1 := Record(Point(0.0, 0.0), 1, 0);
            var r0 := Record(Point(0.0, 0.0), 0, 0);
            NewIdOf([r1, r0]) == IdSlot(r1.id)
  {
    var r1 := Record(Point(0.0, 0.0), 1, 0);
    var r0 := Record(Point(0.0, 0.0), 0, 0);
    assert [r1, r0][..1] == [r1];
    assert [r1][..0] == [];
    assert IdSlot(1) == 1 && IdSlot(0) == 0;
    assert NewIdOf([r1]) == 0;
  }

  // ---- ShouldLeafSplit -------------------------------------------------------

  /** A leaf splits when its bucket is full and it is not at depth 15. */
  predicate ShouldSplit(t: Tree, node: nat)
    requires ParentsBefore(t.nodes)
  {
    && node < |t.nodes|
    && t.nodes[node].Leaf?
    && Depth(t.nodes, node) != Levels - 1
    && t.nodes[node].count == Capacity
  }

  // ---- GetNodeRegion ---------------------------------------------------------

  const UnitMin: Point := Point(-1.0, -1.0)
  const UnitMax: Point := Point(1.0, 1.0)
  const UnitMid: Point := Point(0.0, 0.0)

  /** One pass of GetNodeRegion's loop body: shrink (lo, hi) towards the quadrant `node` is in. */
  function RegionStep(parent: Node, node: nat, lo: Point, hi: Point, mid: Point): (Point, Point)
  {
    if parent.Internal? && |parent.children| == 4 then
      if parent.children[0] == node then
        (Point(lo.x / 2.0, lo.y / 2.0), Point(mid.x / 2.0, mid.y / 2.0))
      else if parent.children[1] == node then
        (Point(mid.x / 2.0, lo.y / 2.0), Point(hi.x / 2.0, mid.y / 2.0))
      else if parent.children[2] == node then
        (Point(lo.x / 2.0, mid.y / 2.0), Point(mid.x / 2.0, hi.y / 2.0))
      else if parent.children[3] == node then
        (Point(mid.x / 2.0, mid.y / 2.0), Point(hi.x / 2.0, hi.y / 2.0))
      else (lo, hi)
    else (lo, hi)
  }

  /** Scale a point of the unit frame by the bounds' size and offset it by `min`. */
  function Rescale(t: Tree, v: Point): Point
  {
    Point(v.x * (t.max.x - t.min.x) + t.min.x, v.y * (t.max.y - t.min.y) + t.min.y)
  }

  /**
   * GetNodeRegion as written: the loop never advances `current`, so it runs
   * once for any node other than the root and not at all for the root.
   */
  function NodeRegion(t: Tree, node: nat): (Point, Point, nat)
    requires ParentsBefore(t.nodes) && node < |t.nodes|
  {
    var cur := t.nodes[node];
    if cur.parent == node then (Rescale(t, UnitMin), Rescale(t, UnitMax), 0)
    else
      var r := RegionStep(t.nodes[cur.parent], node, UnitMin, UnitMax, UnitMid);
      (Rescale(t, r.0), Rescale(t, r.1), 1)
  }

  /** The midpoint SplitLeafNode splits at. */
  function SplitMid(t: Tree, node: nat): Point
    requires ParentsBefore(t.nodes) && node < |t.nodes|
  {
    var r := NodeRegion(t, node);
    Mid(r.0, r.1)
  }

  /** The depth GetNodeRegion reports is 0 for the root and 1 for every other node. */
  lemma NodeRegionDepth(t: Tree, node: nat)
    requires ParentsBefore(t.nodes) && node < |t.nodes|
    ensures NodeRegion(t, node).2 == if node == 0 then 0 else 1
  {
  }

  /** The root reports (min - size, max), so its split midpoint is `min` itself. */
  lemma RootRegion(t: Tree)
    requires ParentsBefore(t.nodes)
    ensures NodeRegion(t, 0).0 == Point(2.0 * t.min.x - t.max.x, 2.0 * t.min.y - t.max.y)
    ensures NodeRegion(t, 0).1 == t.max
    ensures SplitMid(t, 0) == t.min
  {
  }

  // ---- SplitLeafNode ---------------------------------------------------------

  /** The records of `rs` lying in quadrant `q` relative to `mid`, in their order. */
  function Filter(rs: seq<Record>, mid: Point, q: nat): (f: seq<Record>)
    ensures |f| <= |rs|
    decreases |rs|
  {
    if rs == [] then []
    else
      Filter(rs[..|rs| - 1], mid, q)
        + (if Quadrant(rs[|rs| - 1].pos, mid) == q then [rs[|rs| - 1]] else [])
  }

  /** Filtering by quadrant keeps exactly the records of that quadrant. */
  lemma {:induction false} FilterMembers(rs: seq<Record>, mid: Point, q: nat, r: Record)
    ensures r in Filter(rs, mid, q) <==> r in rs && Quadrant(r.pos, mid) == q
    decreases |rs|
  {
    if rs != [] {
      var init := rs[..|rs| - 1];
      FilterMembers(init, mid, q, r);
      assert rs == init + [rs[|rs| - 1]];
    }
  }

  /** Filtering a sequence with one more record at its end. */
  lemma FilterSnoc(init: seq<Record>, last: Record, mid: Point, q: nat)
    ensures Filter(init + [last], mid, q)
         == Filter(init, mid, q) + (if Quadrant(last.pos, mid) == q then [last] else [])
  {
    assert (init + [last])[..|init|] == init;
  }

  /** The four quadrant filters partition the records. */
  lemma {:induction false} FilterPartition(rs: seq<Record>, mid: Point)
    ensures multiset(rs) == multiset(Filter(rs, mid, 0)) + multiset(Filter(rs, mid, 1))
                          + multiset(Filter(rs, mid, 2)) + multiset(Filter(rs, mid, 3))
    decreases |rs|
  {
    if rs != [] {
      var init, last := rs[..|rs| - 1], rs[|rs| - 1];
      assert rs == init + [last];
      FilterPartition(init, mid);
      var q, e := Quadrant(last.pos, mid), multiset{last};
      FilterSnoc(init, last, mid, 0);
      FilterSnoc(init, last, mid, 1);
      FilterSnoc(init, last, mid, 2);
      FilterSnoc(init, last, mid, 3);
      SnocWhen(Filter(init, mid, 0), last, q == 0);
      SnocWhen(Filter(init, mid, 1), last, q == 1);
      SnocWhen(Filter(init, mid, 2), last, q == 2);
      SnocWhen(Filter(init, mid, 3), last, q == 3);
      SnocWhen(init, last, true);
      PickOne(e, true, q == 0, q == 1, q == 2, q == 3);
      Regroup(multiset(rs), multiset(init), When(true, e),
              multiset(Filter(init, mid, 0)), multiset(Filter(init, mid, 1)),
              multiset(Filter(init, mid, 2)), multiset(Filter(init, mid, 3)),
              When(q == 0, e), When(q == 1, e), When(q == 2, e), When(q == 3, e),
              multiset(Filter(rs, mid, 0)), multiset(Filter(rs, mid, 1)),
              multiset(Filter(rs, mid, 2)), multiset(Filter(rs, mid, 3)));
    }
  }

  /** Hence the four quadrant counts add up to the number of records. */
  lemma FilterCounts(rs: seq<Record>, mid: Point)
    ensures |rs| == |Filter(rs, mid, 0)| + |Filter(rs, mid, 1)| + |Filter(rs, mid, 2)| + |Filter(rs, mid, 3)|
  {
    FilterPartition(rs, mid);
    var a, b, c, d := Filter(rs, mid, 0), Filter(rs, mid, 1), Filter(rs, mid, 2), Filter(rs, mid, 3);
    assert |multiset(rs)| == |multiset(a) + multiset(b) + multiset(c) + multiset(d)|;
  }

  /** The bucket of child `q` of a split: the old bucket for the first, new ones for the others. */
  function ChildBucket(t: Tree, node: nat, q: nat): nat
    requires node < |t.nodes| && t.nodes[node].Leaf?
  {
    if q == 0 then t.nodes[node].data else |t.buckets| + q - 1
  }

  /**
   * The tree after a split of leaf `node` around `mid` whose redistribution
   * loop has placed the records `rs`: four leaves appended with `node` as
   * parent, the first reusing its bucket and the others taking three new
   * buckets, `node` internal with those children, and each child holding, in
   * order, the records of `rs` in its quadrant.
   */
  function SplitWith(t: Tree, node: nat, mid: Point, rs: seq<Record>): Tree
    requires node < |t.nodes| && t.nodes[node].Leaf? && t.nodes[node].data < |t.buckets|
    requires |rs| <= Capacity
  {
    var leaf := t.nodes[node];
    var f, d := |t.nodes|, |t.buckets|;
    var p0, p1, p2, p3 := Filter(rs, mid, 0), Filter(rs, mid, 1), Filter(rs, mid, 2), Filter(rs, mid, 3);
    Tree(t.min, t.max,
         t.nodes[node := Internal(leaf.parent, [f, f + 1, f + 2, f + 3])]
           + [Leaf(node, leaf.data, |p0|), Leaf(node, d, |p1|), Leaf(node, d + 1, |p2|), Leaf(node, d + 2, |p3|)],
         t.buckets[leaf.data := Pad(p0)] + [Pad(p1), Pad(p2), Pad(p3)])
  }

  /**
   * SplitLeafNode: every old record of the leaf placed in the child of its
   * quadrant around SplitMid. Anything but a leaf of the arena is left alone.
   */
  function Split(t: Tree, node: nat): Tree
    requires ParentsBefore(t.nodes)
    requires node < |t.nodes| && t.nodes[node].Leaf? ==> LeafOk(t, node)
  {
    if node >= |t.nodes| || !t.nodes[node].Leaf? then t
    else SplitWith(t, node, SplitMid(t, node), LeafRecords(t, node))
  }

  /** A split in progress, node by node and bucket by bucket. */
  lemma SplitWithShape(t: Tree, node: nat, mid: Point, rs: seq<Record>)
    requires node < |t.nodes| && t.nodes[node].Leaf? && t.nodes[node].data < |t.buckets|
    requires |rs| <= Capacity
    ensures var u := SplitWith(t, node, mid, rs); var f := |t.nodes|; var d := |t.buckets|;
            && |u.nodes| == f + 4 && |u.buckets| == d + 3
            && u.min == t.min && u.max == t.max
            && u.nodes[node] == Internal(t.nodes[node].parent, [f, f + 1, f + 2, f + 3])
            && (forall j :: 0 <= j < f && j != node ==> u.nodes[j] == t.nodes[j])
            && (forall c :: f <= c < f + 4 ==>
                  u.nodes[c] == Leaf(node, ChildBucket(t, node, c - f), |Filter(rs, mid, c - f)|))
            && (forall k :: 0 <= k < d && k != t.nodes[node].data ==> u.buckets[k] == t.buckets[k])
            && u.buckets[t.nodes[node].data] == Pad(Filter(rs, mid, 0))
            && u.buckets[d] == Pad(Filter(rs, mid, 1))
            && u.buckets[d + 1] == Pad(Filter(rs, mid, 2))
            && u.buckets[d + 2] == Pad(Filter(rs, mid, 3))
  {
  }

  /** The nodes after one more record: the count of the child of its quadrant goes up by one. */
  lemma SplitWithStepNodes(t: Tree, node: nat, mid: Point, rs: seq<Record>, r: Record)
    requires node < |t.nodes| && t.nodes[node].Leaf? && |rs| < Capacity
    requires t.nodes[node].data < |t.buckets|
    ensures var u := SplitWith(t, node, mid, rs); var c := |t.nodes| + Quadrant(r.pos, mid);
            && c < |u.nodes| && u.nodes[c] == Leaf(node, ChildBucket(t, node, c - |t.nodes|), |Filter(rs, mid, c - |t.nodes|)|)
            && SplitWith(t, node, mid, rs + [r]).nodes == u.nodes[c := u.nodes[c].(count := u.nodes[c].count + 1)]
  {
    var q := Quadrant(r.pos, mid);
    var u, v := SplitWith(t, node, mid, rs), SplitWith(t, node, mid, rs + [r]);
    var f := |t.nodes|;
    var c := f + q;
    SplitWithNodeAt(t, node, mid, rs, r, c);
    var w := u.nodes[c := u.nodes[c].(count := u.nodes[c].count + 1)];
    forall j | 0 <= j < f + 4
      ensures v.nodes[j] == w[j]
    {
      SplitWithNodeAt(t, node, mid, rs, r, j);
    }
  }

  /** Node `j` after one more record: only the child of the record's quadrant counts it. */
  lemma SplitWithNodeAt(t: Tree, node: nat, mid: Point, rs: seq<Record>, r: Record, j: nat)
    requires node < |t.nodes| && t.nodes[node].Leaf? && |rs| < Capacity
    requires t.nodes[node].data < |t.buckets| && j < |t.nodes| + 4
    ensures var u := SplitWith(t, node, mid, rs); var f := |t.nodes|;
            && j < |u.nodes|
            && (f <= j ==> u.nodes[j] == Leaf(node, ChildBucket(t, node, j - f), |Filter(rs, mid, j - f)|))
            && SplitWith(t, node, mid, rs + [r]).nodes[j]
               == if j == f + Quadrant(r.pos, mid) then u.nodes[j].(count := u.nodes[j].count + 1) else u.nodes[j]
  {
    var f := |t.nodes|;
    var u, v := SplitWith(t, node, mid, rs), SplitWith(t, node, mid, rs + [r]);
    if j >= f {
      var p := j - f;
      assert u.nodes[j] == Leaf(node, ChildBucket(t, node, p), |Filter(rs, mid, p)|);
      assert v.nodes[j] == Leaf(node, ChildBucket(t, node, p), |Filter(rs + [r], mid, p)|);
      FilterSnoc(rs, r, mid, p);
    } else {
      assert u.nodes[j] == v.nodes[j];
    }
  }

  /** Bucket `k` after one more record: changed only in the bucket of the record's quadrant. */
  lemma SplitWithBucketAt(t: Tree, node: nat, mid: Point, rs: seq<Record>, r: Record, k: nat)
    requires node < |t.nodes| && t.nodes[node].Leaf? && |rs| < Capacity
    requires t.nodes[node].data < |t.buckets| && k < |t.buckets| + 3
    ensures var u := SplitWith(t, node, mid, rs); var q := Quadrant(r.pos, mid);
            && k < |u.buckets| && (k == ChildBucket(t, node, q) ==> |Filter(rs, mid, q)| < |u.buckets[k]|)
            && SplitWith(t, node, mid, rs + [r]).buckets[k]
               == if k == ChildBucket(t, node, q) then u.buckets[k][|Filter(rs, mid, q)| := r] else u.buckets[k]
  {
    var q := Quadrant(r.pos, mid);
    var d, b := |t.buckets|, t.nodes[node].data;
    var u, v := SplitWith(t, node, mid, rs), SplitWith(t, node, mid, rs + [r]);
    if k == b || k >= d {
      var p := if k == b then 0 else k - d + 1;
      assert u.buckets[k] == Pad(Filter(rs, mid, p));
      assert v.buckets[k] == Pad(Filter(rs + [r], mid, p));
      FilterSnoc(rs, r, mid, p);
      if p == q {
        PadPush(Filter(rs, mid, q), r);
      }
    } else {
      assert u.buckets[k] == t.buckets[k] == v.buckets[k];
    }
  }

  /** The buckets after one more record: it lands in the first free slot of its quadrant's bucket. */
  lemma SplitWithStepBuckets(t: Tree, node: nat, mid: Point, rs: seq<Record>, r: Record)
    requires node < |t.nodes| && t.nodes[node].Leaf? && |rs| < Capacity
    requires t.nodes[node].data < |t.buckets|
    ensures var u := SplitWith(t, node, mid, rs); var q := Quadrant(r.pos, mid);
            var bq := ChildBucket(t, node, q); var n := |Filter(rs, mid, q)|;
            && bq < |u.buckets| && n < |u.buckets[bq]|
            && SplitWith(t, node, mid, rs + [r]).buckets == u.buckets[bq := u.buckets[bq][n := r]]
  {
    var q := Quadrant(r.pos, mid);
    var u, v := SplitWith(t, node, mid, rs), SplitWith(t, node, mid, rs + [r]);
    var d := |t.buckets|;
    var bq := ChildBucket(t, node, q);
    SplitWithBucketAt(t, node, mid, rs, r, bq);
    var w := u.buckets[bq := u.buckets[bq][|Filter(rs, mid, q)| := r]];
    forall k | 0 <= k < d + 3
      ensures v.buckets[k] == w[k]
    {
      SplitWithBucketAt(t, node, mid, rs, r, k);
    }
  }


  /**
   * One turn of the redistribution loop: the record goes to the first free
   * slot of the child of its quadrant, whose count goes up by one.
   */
  lemma SplitWithStep(t: Tree, node: nat, mid: Point, rs: seq<Record>, r: Record)
    requires node < |t.nodes| && t.nodes[node].Leaf? && |rs| < Capacity
    requires t.nodes[node].data < |t.buckets|
    ensures var u := SplitWith(t, node, mid, rs); var c := |t.nodes| + Quadrant(r.pos, mid);
            && c < |u.nodes| && u.nodes[c].Leaf? && u.nodes[c].data < |u.buckets|
            && u.nodes[c].count < |u.buckets[u.nodes[c].data]|
            && SplitWith(t, node, mid, rs + [r])
               == Tree(u.min, u.max, u.nodes[c := u.nodes[c].(count := u.nodes[c].count + 1)],
                       u.buckets[u.nodes[c].data := u.buckets[u.nodes[c].data][u.nodes[c].count := r]])
  {
    SplitWithStepNodes(t, node, mid, rs, r);
    SplitWithStepBuckets(t, node, mid, rs, r);
  }

  /** Before the redistribution loop: four empty leaves, the old bucket emptied. */
  lemma SplitWithNone(t: Tree, node: nat, mid: Point)
    requires node < |t.nodes| && t.nodes[node].Leaf? && t.nodes[node].data < |t.buckets|
    ensures var leaf := t.nodes[node]; var f, d := |t.nodes|, |t.buckets|;
            SplitWith(t, node, mid, [])
            == Tree(t.min, t.max,
                    (t.nodes + [NewLeaf(node, leaf.data), NewLeaf(node, d), NewLeaf(node, d + 1), NewLeaf(node, d + 2)])
                      [node := Internal(leaf.parent, [f, f + 1, f + 2, f + 3])],
                    t.buckets[leaf.data := EmptyBucket()] + [EmptyBucket(), EmptyBucket(), EmptyBucket()])
  {
    assert Pad([]) == EmptyBucket();
  }

  /**
   * The redistribution loop's step as the method performs it: look up the
   * child of the record's quadrant through the split node, then write the
   * record into that child's bucket and bump its count.
   */
  lemma SplitWithPlace(t: Tree, node: nat, mid: Point, rs: seq<Record>, r: Record, u: Tree)
    requires node < |t.nodes| && t.nodes[node].Leaf? && |rs| < Capacity
    requires t.nodes[node].data < |t.buckets|
    requires u == SplitWith(t, node, mid, rs)
    ensures node < |u.nodes| && u.nodes[node].Internal? && |u.nodes[node].children| == 4
    ensures var c := u.nodes[node].children[Quadrant(r.pos, mid)];
            && c < |u.nodes| && u.nodes[c].Leaf? && u.nodes[c].data < |u.buckets|
            && u.nodes[c].count < |u.buckets[u.nodes[c].data]|
            && SplitWith(t, node, mid, rs + [r])
               == Tree(u.min, u.max, u.nodes[c := u.nodes[c].(count := u.nodes[c].count + 1)],
                       u.buckets[u.nodes[c].data := u.buckets[u.nodes[c].data][u.nodes[c].count := r]])
  {
    var f := |t.nodes|;
    assert u.nodes[node] == Internal(t.nodes[node].parent, [f, f + 1, f + 2, f + 3]);
    assert u.nodes[node].children[Quadrant(r.pos, mid)] == f + Quadrant(r.pos, mid);
    SplitWithStep(t, node, mid, rs, r);
  }

  /** The split tree, node by node and bucket by bucket. */
  lemma SplitNodes(t: Tree, node: nat)
    requires ParentsBefore(t.nodes) && node < |t.nodes| && t.nodes[node].Leaf? && LeafOk(t, node)
    ensures var u := Split(t, node); var f := |t.nodes|; var d := |t.buckets|;
            var rs := LeafRecords(t, node); var mid := SplitMid(t, node);
            && |u.nodes| == f + 4 && |u.buckets| == d + 3
            && u.min == t.min && u.max == t.max
            && u.nodes[node] == Internal(t.nodes[node].parent, [f, f + 1, f + 2, f + 3])
            && (forall j :: 0 <= j < f && j != node ==> u.nodes[j] == t.nodes[j])
            && (forall c :: f <= c < f + 4 ==>
                  u.nodes[c] == Leaf(node, ChildBucket(t, node, c - f), |Filter(rs, mid, c - f)|))
            && (forall k :: 0 <= k < d && k != t.nodes[node].data ==> u.buckets[k] == t.buckets[k])
            && u.buckets[t.nodes[node].data] == Pad(Filter(rs, mid, 0))
            && u.buckets[d] == Pad(Filter(rs, mid, 1))
            && u.buckets[d + 1] == Pad(Filter(rs, mid, 2))
            && u.buckets[d + 2] == Pad(Filter(rs, mid, 3))
  {
    SplitWithShape(t, node, SplitMid(t, node), LeafRecords(t, node));
  }

  /** The children hold the quadrant filters of the old records. */
  lemma SplitChildRecords(t: Tree, node: nat)
    requires ParentsBefore(t.nodes) && node < |t.nodes| && t.nodes[node].Leaf? && LeafOk(t, node)
    ensures |Split(t, node).nodes| == |t.nodes| + 4
    ensures forall c :: |t.nodes| <= c < |t.nodes| + 4 ==>
              LeafRecords(Split(t, node), c) == Filter(LeafRecords(t, node), SplitMid(t, node), c - |t.nodes|)
    ensures LeafRecords(Split(t, node), node) == []
  {
    SplitNodes(t, node);
    assert ChildBucket(t, node, 0) == t.nodes[node].data;
  }

  /** A node other than the split one keeps its records when its bucket differs. */
  lemma SplitOtherRecords(t: Tree, node: nat, j: nat)
    requires ParentsBefore(t.nodes) && node < |t.nodes| && t.nodes[node].Leaf? && LeafOk(t, node)
    requires j < |t.nodes| && j != node
    requires t.nodes[j].Leaf? ==> LeafOk(t, j) && t.nodes[j].data != t.nodes[node].data
    ensures LeafRecords(Split(t, node), j) == LeafRecords(t, j)
  {
    SplitNodes(t, node);
  }

  /** After a split the parents still come first and every internal node's children are linked. */
  lemma SplitChildren(t: Tree, node: nat)
    requires ParentsBefore(t.nodes) && ChildrenLinked(t.nodes)
    requires node < |t.nodes| && t.nodes[node].Leaf? && LeafOk(t, node)
    ensures ParentsBefore(Split(t, node).nodes) && ChildrenLinked(Split(t, node).nodes)
  {
    SplitNodes(t, node);
    var u := Split(t, node);
    var f := |t.nodes|;
    assert forall j :: 0 <= j < f ==> u.nodes[j].parent == t.nodes[j].parent;
    forall i | 0 <= i < |u.nodes| && u.nodes[i].Internal?
      ensures ChildrenOk(u.nodes, i)
    {
      SplitChildOk(t, node, i);
    }
  }

  /** Node `i` after a split: the split leaf gets the four new children, the others keep theirs. */
  lemma SplitChildOk(t: Tree, node: nat, i: nat)
    requires ParentsBefore(t.nodes) && ChildrenLinked(t.nodes)
    requires node < |t.nodes| && t.nodes[node].Leaf? && LeafOk(t, node)
    requires i < |Split(t, node).nodes| && Split(t, node).nodes[i].Internal?
    ensures ChildrenOk(Split(t, node).nodes, i)
  {
    SplitNodes(t, node);
    var u := Split(t, node);
    if i != node {
      assert t.nodes[i] == u.nodes[i];
      assert ChildrenOk(t.nodes, i);
      var ch := t.nodes[i].children;
      forall k | 0 <= k < 4
        ensures u.nodes[ch[k]].parent == i
      {
        assert t.nodes[ch[k]].parent == i;
      }
    }
  }

  /** After a split every non-root node is still among its parent's children. */
  lemma SplitParents(t: Tree, node: nat)
    requires ParentsBefore(t.nodes) && ParentsLinked(t.nodes)
    requires node < |t.nodes| && t.nodes[node].Leaf? && LeafOk(t, node)
    requires ParentsBefore(Split(t, node).nodes)
    ensures ParentsLinked(Split(t, node).nodes)
  {
    SplitNodes(t, node);
    var u := Split(t, node);
    var f := |t.nodes|;
    forall i | 0 < i < |u.nodes|
      ensures u.nodes[u.nodes[i].parent].Internal? && i in u.nodes[u.nodes[i].parent].children
    {
      if i < f {
        var p := t.nodes[i].parent;
        assert t.nodes[p].Internal? && i in t.nodes[p].children;
        assert p != node;
        assert u.nodes[p] == t.nodes[p];
      } else {
        assert u.nodes[node].children[i - f] == i;
      }
    }
  }

  /** A split above depth 15 keeps every node within the depth bound. */
  lemma SplitDepths(t: Tree, node: nat)
    requires ParentsBefore(t.nodes) && DepthBounded(t.nodes)
    requires node < |t.nodes| && t.nodes[node].Leaf? && LeafOk(t, node)
    requires Depth(t.nodes, node) != Levels - 1
    requires ParentsBefore(Split(t, node).nodes)
    ensures DepthBounded(Split(t, node).nodes)
  {
    SplitNodes(t, node);
    var u := Split(t, node);
    var f := |t.nodes|;
    assert forall j :: 0 <= j < f ==> u.nodes[j].parent == t.nodes[j].parent;
    DepthFrame(t.nodes, u.nodes, node);
    forall i | 0 <= i < |u.nodes|
      ensures Depth(u.nodes, i) < Levels
      ensures u.nodes[i].Internal? ==> Depth(u.nodes, i) < Levels - 1
    {
      if i < f {
        DepthFrame(t.nodes, u.nodes, i);
      } else {
        assert Depth(u.nodes, i) == 1 + Depth(u.nodes, node);
      }
    }
  }

  /** The leaf part of the invariant survives a split. */
  lemma SplitLeaves(t: Tree, node: nat)
    requires ParentsBefore(t.nodes) && LeavesOwnBuckets(t)
    requires node < |t.nodes| && t.nodes[node].Leaf?
    ensures LeafOk(t, node)
    ensures LeavesOwnBuckets(Split(t, node))
  {
    assert LeafOk(t, node);
    SplitNodes(t, node);
    var u := Split(t, node);
    var f := |t.nodes|;
    var data := t.nodes[node].data;
    forall i | 0 <= i < |u.nodes| && u.nodes[i].Leaf?
      ensures LeafOk(u, i)
    {
      if i < f {
        SplitOldLeaf(t, node, i);
      } else {
        SplitNewLeaf(t, node, i);
      }
    }
    forall i, j | 0 <= i < j < |u.nodes| && u.nodes[i].Leaf? && u.nodes[j].Leaf?
      ensures u.nodes[i].data != u.nodes[j].data
    {
      if j < f {
        assert u.nodes[i] == t.nodes[i] && u.nodes[j] == t.nodes[j];
        assert t.nodes[i].data != t.nodes[j].data;
      } else {
        SplitNewLeaf(t, node, j);
        if i < f {
          SplitOldLeaf(t, node, i);
        } else {
          SplitNewLeaf(t, node, i);
        }
      }
    }
  }

  /** The four new leaves: child `c` takes bucket ChildBucket and holds its quadrant's records. */
  lemma SplitNewLeaf(t: Tree, node: nat, c: nat)
    requires ParentsBefore(t.nodes) && LeavesOwnBuckets(t)
    requires node < |t.nodes| && t.nodes[node].Leaf?
    requires |t.nodes| <= c < |t.nodes| + 4
    ensures LeafOk(t, node) && c < |Split(t, node).nodes| && Split(t, node).nodes[c].Leaf?
    ensures Split(t, node).nodes[c].data == ChildBucket(t, node, c - |t.nodes|)
    ensures LeafOk(Split(t, node), c)
  {
    assert LeafOk(t, node);
    SplitNodes(t, node);
  }

  /** A leaf other than the split one keeps its bucket, which is not the split leaf's. */
  lemma SplitOldLeaf(t: Tree, node: nat, i: nat)
    requires ParentsBefore(t.nodes) && LeavesOwnBuckets(t)
    requires node < |t.nodes| && t.nodes[node].Leaf?
    requires i < |t.nodes| && i != node && t.nodes[i].Leaf?
    ensures LeafOk(t, i) && t.nodes[i].data != t.nodes[node].data
    ensures LeafOk(t, node) && i < |Split(t, node).nodes| && Split(t, node).nodes[i] == t.nodes[i]
    ensures LeafOk(Split(t, node), i)
  {
    assert LeafOk(t, i) && LeafOk(t, node);
    assert t.nodes[i].data != t.nodes[node].data by {
      if i < node {
        assert t.nodes[i].data != t.nodes[node].data;
      }
    }
    SplitNodes(t, node);
  }

  /** Splitting a leaf above depth 15 keeps the arena invariant. */
  lemma SplitValid(t: Tree, node: nat)
    requires Valid(t) && node < |t.nodes| && t.nodes[node].Leaf?
    requires Depth(t.nodes, node) != Levels - 1
    ensures Valid(Split(t, node))
  {
    SplitLeaves(t, node);
    SplitChildren(t, node);
    SplitParents(t, node);
    SplitDepths(t, node);
  }

  /** Every leaf other than the split one keeps its records. */
  lemma SplitOthers(t: Tree, node: nat)
    requires ParentsBefore(t.nodes) && LeavesOwnBuckets(t)
    requires node < |t.nodes| && t.nodes[node].Leaf?
    ensures LeafOk(t, node)
    ensures forall j :: 0 <= j < |t.nodes| && j != node ==> LeafRecords(Split(t, node), j) == LeafRecords(t, j)
  {
    assert LeafOk(t, node);
    forall j | 0 <= j < |t.nodes| && j != node
      ensures LeafRecords(Split(t, node), j) == LeafRecords(t, j)
    {
      if t.nodes[j].Leaf? {
        assert LeafOk(t, j);
        assert t.nodes[j].data != t.nodes[node].data by {
          if j < node {
            assert t.nodes[j].data != t.nodes[node].data;
          }
        }
      }
      SplitOtherRecords(t, node, j);
    }
  }

  /** The leaf sum over four more nodes adds their four record bags. */
  lemma LeafSumFour(u: Tree, f: nat, a: seq<Record>, b: seq<Record>, c: seq<Record>, d: seq<Record>)
    requires LeafRecords(u, f) == a && LeafRecords(u, f + 1) == b
    requires LeafRecords(u, f + 2) == c && LeafRecords(u, f + 3) == d
    ensures LeafSum(u, f + 4) == LeafSum(u, f) + multiset(a) + multiset(b) + multiset(c) + multiset(d)
  {
    assert LeafSum(u, f + 1) == LeafSum(u, f) + multiset(a);
    assert LeafSum(u, f + 2) == LeafSum(u, f) + multiset(a) + multiset(b);
    assert LeafSum(u, f + 3) == LeafSum(u, f) + multiset(a) + multiset(b) + multiset(c);
  }

  /** A split keeps the tree's contents: the children together hold the old leaf's records. */
  lemma SplitContents(t: Tree, node: nat)
    requires ParentsBefore(t.nodes) && LeavesOwnBuckets(t)
    requires node < |t.nodes| && t.nodes[node].Leaf?
    ensures Contents(Split(t, node)) == Contents(t)
  {
    SplitOthers(t, node);
    SplitChildRecords(t, node);
    var u := Split(t, node);
    var f := |t.nodes|;
    var rs := LeafRecords(t, node);
    var mid := SplitMid(t, node);
    LeafSumUpdate(t, u, node, f);
    assert LeafSum(u, f) + multiset(rs) == LeafSum(t, f);
    var p0, p1, p2, p3 := Filter(rs, mid, 0), Filter(rs, mid, 1), Filter(rs, mid, 2), Filter(rs, mid, 3);
    LeafSumFour(u, f, p0, p1, p2, p3);
    FilterPartition(rs, mid);
    MultisetAddFour(LeafSum(u, f), multiset(p0), multiset(p1), multiset(p2), multiset(p3));
    assert Contents(u) == LeafSum(u, f + 4) == LeafSum(u, f) + multiset(rs);
  }

  /** The split node becomes internal over four new leaves that name it as parent. */
  lemma SplitTop(t: Tree, node: nat)
    requires ParentsBefore(t.nodes) && node < |t.nodes| && t.nodes[node].Leaf? && LeafOk(t, node)
    ensures var u := Split(t, node); var f := |t.nodes|;
            && u.min == t.min && u.max == t.max
            && u.nodes[node].Internal? && u.nodes[node].children == [f, f + 1, f + 2, f + 3]
            && (forall c :: f <= c < f + 4 ==> u.nodes[c].Leaf? && u.nodes[c].parent == node)
  {
    SplitNodes(t, node);
  }

  /** The children's counts add up to the old leaf's count. */
  lemma SplitCounts(t: Tree, node: nat)
    requires ParentsBefore(t.nodes) && node < |t.nodes| && t.nodes[node].Leaf? && LeafOk(t, node)
    ensures var u := Split(t, node); var f := |t.nodes|;
            |LeafRecords(u, f)| + |LeafRecords(u, f + 1)| + |LeafRecords(u, f + 2)| + |LeafRecords(u, f + 3)|
              == t.nodes[node].count
  {
    SplitChildRecords(t, node);
    FilterCounts(LeafRecords(t, node), SplitMid(t, node));
  }

  /** Every record of child `f + q` is an old record lying in quadrant `q` around SplitMid. */
  lemma SplitQuadrants(t: Tree, node: nat)
    requires ParentsBefore(t.nodes) && node < |t.nodes| && t.nodes[node].Leaf? && LeafOk(t, node)
    ensures var u := Split(t, node); var f := |t.nodes|;
            forall c, r :: f <= c < f + 4 && r in LeafRecords(u, c) ==>
              r in LeafRecords(t, node) && Quadrant(r.pos, SplitMid(t, node)) == c - f
  {
    SplitChildRecords(t, node);
    var u := Split(t, node);
    var f := |t.nodes|;
    var rs := LeafRecords(t, node);
    var mid := SplitMid(t, node);
    forall c, r | f <= c < f + 4 && r in LeafRecords(u, c)
      ensures r in rs && Quadrant(r.pos, mid) == c - f
    {
      assert LeafRecords(u, c) == Filter(rs, mid, c - f);
      FilterMembers(rs, mid, c - f, r);
    }
  }

  // ---- Locating and appending --------------------------------------------------

  /**
   * The first part of Insert and InsertData: find the leaf for `path`, split
   * it if ShouldLeafSplit says so, and find the leaf for `path` again.
   */
  function Settle(t: Tree, path: nat): (r: (Tree, nat))
    requires Valid(t)
    ensures Valid(r.0) && r.1 < |r.0.nodes| && r.0.nodes[r.1].Leaf?
    ensures r.1 == PathNode(r.0.nodes, path)
  {
    var n0 := PathNode(t.nodes, path);
    if ShouldSplit(t, n0) then
      SplitValid(t, n0);
      var u := Split(t, n0);
      PathNodeIsLeaf(u, path);
      (u, PathNode(u.nodes, path))
    else
      PathNodeIsLeaf(t, path);
      (t, n0)
  }

  /** Settling splits at most one leaf and keeps every record and the bounds. */
  lemma SettleConserves(t: Tree, path: nat)
    requires Valid(t)
    ensures Contents(Settle(t, path).0) == Contents(t)
    ensures Settle(t, path).0.min == t.min && Settle(t, path).0.max == t.max
  {
    var n0 := PathNode(t.nodes, path);
    if ShouldSplit(t, n0) {
      SplitContents(t, n0);
      SplitNodes(t, n0);
    }
  }

  /** `m_LeafDatas[leaf.data].datas[leaf.count++] = r`. */
  function Append(t: Tree, n: nat, r: Record): Tree
    requires n < |t.nodes| && t.nodes[n].Leaf?
    requires t.nodes[n].data < |t.buckets| && t.nodes[n].count < |t.buckets[t.nodes[n].data]|
  {
    var leaf := t.nodes[n];
    Tree(t.min, t.max,
         t.nodes[n := leaf.(count := leaf.count + 1)],
         t.buckets[leaf.data := t.buckets[leaf.data][leaf.count := r]])
  }

  /** Appending to a leaf with room keeps the arena invariant. */
  lemma AppendValid(t: Tree, n: nat, r: Record)
    requires Valid(t) && n < |t.nodes| && t.nodes[n].Leaf? && t.nodes[n].count < Capacity
    ensures LeafOk(t, n) && Valid(Append(t, n, r))
  {
    AppendEffect(t, n, r);
  }

  /** Appending to a leaf with room keeps the invariant and adds the record to that leaf only. */
  lemma AppendEffect(t: Tree, n: nat, r: Record)
    requires Valid(t) && n < |t.nodes| && t.nodes[n].Leaf? && t.nodes[n].count < Capacity
    ensures LeafOk(t, n)
    ensures Valid(Append(t, n, r))
    ensures LeafRecords(Append(t, n, r), n) == LeafRecords(t, n) + [r]
    ensures forall j :: 0 <= j < |t.nodes| && j != n ==> LeafRecords(Append(t, n, r), j) == LeafRecords(t, j)
    ensures Contents(Append(t, n, r)) == Contents(t) + multiset{r}
  {
    assert LeafOk(t, n);
    var used := LeafRecords(t, n);
    PadPush(used, r);
    assert Append(t, n, r) == SetLeaf(t, n, used + [r]);
    SetLeafEffect(t, n, used + [r]);
    assert multiset(used + [r]) == multiset(used) + multiset{r};
    MultisetCancel(Contents(Append(t, n, r)), Contents(t) + multiset{r}, multiset(used));
  }

  // ---- InsertData ------------------------------------------------------------

  /**
   * InsertData: reinsert a record under the leaf its id's path leads to,
   * splitting first if needed; false when that leaf is full.
   */
  function InsertDataSpec(t: Tree, rec: Record): (r: (Tree, bool))
    requires Valid(t)
    ensures Valid(r.0)
  {
    var s := Settle(t, IdPath(rec.id));
    if s.0.nodes[s.1].count == Capacity then (s.0, false)
    else
      AppendValid(s.0, s.1, rec);
      (Append(s.0, s.1, rec), true)
  }

  /** InsertData adds exactly the record on success and loses nothing on failure. */
  lemma InsertDataContents(t: Tree, rec: Record)
    requires Valid(t)
    ensures var r := InsertDataSpec(t, rec);
            && Contents(r.0) == (if r.1 then Contents(t) + multiset{rec} else Contents(t))
            && r.0.min == t.min && r.0.max == t.max
  {
    var s := Settle(t, IdPath(rec.id));
    SettleConserves(t, IdPath(rec.id));
    if s.0.nodes[s.1].count != Capacity {
      AppendEffect(s.0, s.1, rec);
    }
  }

  // ---- Erase -----------------------------------------------------------------

  /** The index of the first record carrying `id`. */
  function FirstIndex(rs: seq<Record>, id: nat): (r: Option<nat>)
    ensures r.Some? ==> r.value < |rs| && rs[r.value].id == id
                        && forall j :: 0 <= j < r.value ==> rs[j].id != id
    ensures r.None? ==> forall j :: 0 <= j < |rs| ==> rs[j].id != id
    decreases |rs|
  {
    if rs == [] then None
    else if rs[0].id == id then Some(0)
    else match FirstIndex(rs[1..], id)
      case None => None
      case Some(i) => Some(i + 1)
  }

  /** The leaf Erase and GetData search: the one the path half of the id leads to. */
  function IdLeaf(t: Tree, id: nat): nat
    requires Valid(t)
  {
    PathNode(t.nodes, IdPath(id))
  }

  /**
   * Erase's removal of slot `i` of leaf `n`: shift the later records down
   * and clear the freed last slot, or just clear the slot when it is the
   * last one in use.
   */
  function EraseAt(t: Tree, n: nat, i: nat): Tree
    requires n < |t.nodes| && t.nodes[n].Leaf? && LeafOk(t, n) && i < t.nodes[n].count
  {
    var leaf := t.nodes[n];
    var b := t.buckets[leaf.data];
    var b' := if i == leaf.count - 1 then b[i := EmptyRecord()]
              else b[..i] + b[i + 1..] + [EmptyRecord()];
    Tree(t.min, t.max, t.nodes[n := leaf.(count := leaf.count - 1)], t.buckets[leaf.data := b'])
  }

  /**
   * Erase: remove the first record with this id from its path's leaf; no
   * change when the id is not there.
   */
  function EraseSpec(t: Tree, id: nat): Tree
    requires Valid(t)
  {
    var n := IdLeaf(t, id);
    if !t.nodes[n].Leaf? then t
    else match FirstIndex(LeafRecords(t, n), id)
      case None => t
      case Some(i) =>
        assert LeafOk(t, n);
        EraseAt(t, n, i)
  }

  /** EraseAt is the one-leaf update to the records without slot `i`. */
  lemma EraseAtIsSetLeaf(t: Tree, n: nat, i: nat)
    requires n < |t.nodes| && t.nodes[n].Leaf? && LeafOk(t, n) && i < t.nodes[n].count
    ensures var rs := LeafRecords(t, n);
            EraseAt(t, n, i) == SetLeaf(t, n, rs[..i] + rs[i + 1..])
  {
    var rs := LeafRecords(t, n);
    var rest := rs[..i] + rs[i + 1..];
    if i == t.nodes[n].count - 1 {
      PadPop(rs);
      assert rest == rs[..|rs| - 1];
    } else {
      PadShift(rs, i);
    }
  }

  /**
   * `u` is `t` with record `i` of leaf `n` removed: the leaf keeps its other
   * records in order with a count one lower, no other leaf changes, and the
   * contents lose exactly that record.
   */
  predicate Removed(t: Tree, u: Tree, n: nat, i: nat)
    requires n < |t.nodes| && t.nodes[n].Leaf? && i < |LeafRecords(t, n)|
  {
    var rs := LeafRecords(t, n);
    && |u.nodes| == |t.nodes| && u.nodes[n].Leaf?
    && LeafRecords(u, n) == rs[..i] + rs[i + 1..]
    && u.nodes[n].count == t.nodes[n].count - 1
    && (forall j :: 0 <= j < |t.nodes| && j != n ==> LeafRecords(u, j) == LeafRecords(t, j))
    && Contents(u) == Contents(t) - multiset{rs[i]}
  }

  /** Removing slot `i` leaves that leaf with the other records in order, one fewer. */
  lemma EraseAtEffect(t: Tree, n: nat, i: nat)
    requires Valid(t) && n < |t.nodes| && t.nodes[n].Leaf? && i < t.nodes[n].count
    ensures LeafOk(t, n) && i < |LeafRecords(t, n)|
    ensures Valid(EraseAt(t, n, i)) && Removed(t, EraseAt(t, n, i), n, i)
  {
    assert LeafOk(t, n);
    var rs := LeafRecords(t, n);
    var rest := rs[..i] + rs[i + 1..];
    EraseAtIsSetLeaf(t, n, i);
    SetLeafEffect(t, n, rest);
    MultisetRemove(rs, i);
    MultisetTake(Contents(SetLeaf(t, n, rest)), Contents(t), multiset(rs), multiset(rest), multiset{rs[i]});
  }

  /** EraseAtEffect, the invariant alone. */
  lemma EraseAtValid(t: Tree, n: nat, i: nat)
    requires Valid(t) && n < |t.nodes| && t.nodes[n].Leaf? && i < t.nodes[n].count
    ensures LeafOk(t, n) && Valid(EraseAt(t, n, i))
  {
    EraseAtEffect(t, n, i);
  }

  /**
   * Erase removes the first matching record of the leaf, keeps the others in
   * their order, decrements the count and touches no other leaf; without a
   * match it changes nothing.
   */
  lemma EraseEffect(t: Tree, id: nat)
    requires Valid(t)
    ensures Valid(EraseSpec(t, id))
    ensures var n := IdLeaf(t, id); var fi := FirstIndex(LeafRecords(t, n), id);
            && (fi.None? ==> EraseSpec(t, id) == t)
            && (fi.Some? ==> t.nodes[n].Leaf? && Removed(t, EraseSpec(t, id), n, fi.value))
  {
    var n := IdLeaf(t, id);
    PathNodeIsLeaf(t, IdPath(id));
    var fi := FirstIndex(LeafRecords(t, n), id);
    if fi.Some? {
      assert LeafOk(t, n);
      assert EraseSpec(t, id) == EraseAt(t, n, fi.value);
      EraseAtEffect(t, n, fi.value);
    } else {
      assert EraseSpec(t, id) == t;
    }
  }

}
