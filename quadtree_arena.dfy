// The quadtree's state as a value: its bounds, the node arena and the bucket
// arena (`m_Min`, `m_Max`, `m_Nodes`, `m_LeafDatas` in Quadtree.h), the
// invariant every operation keeps, node depth (GetNodeDepth), the descent
// along a path (GetPathNode) and the multiset of stored records.
module QuadtreeArena {
  import opened QuadtreeTypes
  import opened QuadtreePaths

  datatype Tree = Tree(min: Point, max: Point, nodes: seq<Node>, buckets: seq<seq<Record>>)

  // ---- The arena invariant -------------------------------------------------

  /** Node 0 is the root and its own parent; every other node's parent comes earlier. */
  predicate ParentsBefore(nodes: seq<Node>)
  {
    && |nodes| > 0
    && nodes[0].parent == 0
    && forall i {:trigger nodes[i].parent} :: 0 < i < |nodes| ==> nodes[i].parent < i
  }

  /** Internal node `i` has four distinct, later children that name it as their parent. */
  predicate ChildrenOk(nodes: seq<Node>, i: nat)
    requires i < |nodes| && nodes[i].Internal?
  {
    var ch := nodes[i].children;
    && |ch| == 4
    && (forall k :: 0 <= k < 4 ==> i < ch[k] < |nodes| && nodes[ch[k]].parent == i)
    && (forall k, l :: 0 <= k < l < 4 ==> ch[k] != ch[l])
  }

  predicate ChildrenLinked(nodes: seq<Node>)
  {
    forall i {:trigger nodes[i].children} :: 0 <= i < |nodes| && nodes[i].Internal? ==> ChildrenOk(nodes, i)
  }

  /** Every non-root node is listed among its (internal) parent's children. */
  predicate ParentsLinked(nodes: seq<Node>)
    requires ParentsBefore(nodes)
  {
    forall i {:trigger nodes[i].parent} :: 0 < i < |nodes| ==>
      nodes[nodes[i].parent].Internal? && i in nodes[nodes[i].parent].children
  }

  /** The number of parent steps from node `i` up to the root. */
  function Depth(nodes: seq<Node>, i: nat): nat
    requires ParentsBefore(nodes) && i < |nodes|
    decreases i
  {
    if i == 0 then 0 else 1 + Depth(nodes, nodes[i].parent)
  }

  /** Nodes lie at most 15 levels deep and internal nodes at most 14 (leaves at 15 never split). */
  predicate DepthBounded(nodes: seq<Node>)
    requires ParentsBefore(nodes)
  {
    forall i :: 0 <= i < |nodes| ==>
      Depth(nodes, i) < Levels && (nodes[i].Internal? ==> Depth(nodes, i) < Levels - 1)
  }

  /** Leaf `i` uses at most 32 slots of its bucket, and the unused slots hold the empty record. */
  predicate LeafOk(t: Tree, i: nat)
    requires i < |t.nodes| && t.nodes[i].Leaf?
  {
    var n := t.nodes[i];
    && n.data < |t.buckets|
    && n.count <= Capacity
    && |t.buckets[n.data]| == Capacity
    && t.buckets[n.data] == Pad(t.buckets[n.data][..n.count])
  }

  /** Each leaf owns a bucket of its own. */
  predicate LeavesOwnBuckets(t: Tree)
  {
    && (forall i :: 0 <= i < |t.nodes| && t.nodes[i].Leaf? ==> LeafOk(t, i))
    && (forall i, j :: 0 <= i < j < |t.nodes| && t.nodes[i].Leaf? && t.nodes[j].Leaf? ==>
          t.nodes[i].data != t.nodes[j].data)
  }

  predicate Valid(t: Tree)
  {
    && ParentsBefore(t.nodes)
    && ChildrenLinked(t.nodes)
    && ParentsLinked(t.nodes)
    && DepthBounded(t.nodes)
    && LeavesOwnBuckets(t)
  }

  /** In a valid tree a leaf's count fits in its bucket. */
  lemma LeafFits(t: Tree, n: nat)
    requires Valid(t) && n < |t.nodes| && t.nodes[n].Leaf?
    ensures t.nodes[n].data < |t.buckets| && t.nodes[n].count <= |t.buckets[t.nodes[n].data]|
  {
    assert LeafOk(t, n);
  }

  /** A tree holding only an empty root leaf with bucket 0 (constructor, Clear). */
  function EmptyTree(min: Point, max: Point): (t: Tree)
    ensures Valid(t)
    ensures |t.nodes| == 1 && |t.buckets| == 1
    ensures t.nodes[0] == NewLeaf(0, 0)
  {
    Tree(min, max, [NewLeaf(0, 0)], [EmptyBucket()])
  }

  // ---- Records -------------------------------------------------------------

  /**
   * The records VisitDatas hands out for `node`: the used prefix of its
   * bucket when it is a leaf whose bucket exists, nothing otherwise.
   */
  function LeafRecords(t: Tree, node: nat): seq<Record>
  {
    if node < |t.nodes| && t.nodes[node].Leaf? && t.nodes[node].data < |t.buckets|
       && t.nodes[node].count <= |t.buckets[t.nodes[node].data]|
    then t.buckets[t.nodes[node].data][..t.nodes[node].count]
    else []
  }

  /** The records of the leaves among nodes 0 .. k-1. */
  function LeafSum(t: Tree, k: nat): multiset<Record>
    decreases k
  {
    if k == 0 then multiset{} else LeafSum(t, k - 1) + multiset(LeafRecords(t, k - 1))
  }

  /** Every record stored in the tree. */
  function Contents(t: Tree): multiset<Record>
  {
    LeafSum(t, |t.nodes|)
  }

  function Count(t: Tree): nat
  {
    |Contents(t)|
  }

  // ---- Walking a path --------------------------------------------------------

  /**
   * From `node` at level `i`, follow two path bits per internal node, lowest
   * bits first, for at most 16 levels; the node where it stops.
   */
  function Walk(nodes: seq<Node>, node: nat, path: nat, i: nat): (r: nat)
    requires ChildrenLinked(nodes) && node < |nodes|
    ensures r < |nodes|
    decreases Levels - i
  {
    if i < Levels && nodes[node].Internal?
    then Walk(nodes, nodes[node].children[Digit(path, i)], path, i + 1)
    else node
  }

  /** GetPathNode: the walk from the root. */
  function PathNode(nodes: seq<Node>, path: nat): (r: nat)
    requires ChildrenLinked(nodes) && |nodes| > 0
    ensures r < |nodes|
  {
    Walk(nodes, 0, path, 0)
  }

  // ---- Lemmas --------------------------------------------------------------

  /** The child of an internal node lies one level deeper. */
  lemma ChildDepth(nodes: seq<Node>, i: nat, k: nat)
    requires ParentsBefore(nodes) && ChildrenLinked(nodes)
    requires i < |nodes| && nodes[i].Internal? && k < 4
    ensures Depth(nodes, nodes[i].children[k]) == Depth(nodes, i) + 1
  {
    assert ChildrenOk(nodes, i);
  }

  /** A walk entered at the depth of its level ends on a leaf. */
  lemma {:induction false} WalkFromDepth(nodes: seq<Node>, node: nat, path: nat, i: nat)
    requires ParentsBefore(nodes) && ChildrenLinked(nodes) && DepthBounded(nodes)
    requires node < |nodes| && Depth(nodes, node) == i
    ensures nodes[Walk(nodes, node, path, i)].Leaf?
    decreases Levels - i
  {
    if nodes[node].Internal? {
      assert i < Levels - 1;
      ChildDepth(nodes, node, Digit(path, i));
      WalkFromDepth(nodes, nodes[node].children[Digit(path, i)], path, i + 1);
    }
  }

  /** GetPathNode always returns a leaf of a valid tree, for any path. */
  lemma PathNodeIsLeaf(t: Tree, path: nat)
    requires Valid(t)
    ensures t.nodes[PathNode(t.nodes, path)].Leaf?
  {
    WalkFromDepth(t.nodes, 0, path, 0);
  }

  /** Each step of the walk moves from a node to the child its path digit names. */
  lemma {:induction false} WalkStep(nodes: seq<Node>, node: nat, path: nat, i: nat)
    requires ChildrenLinked(nodes) && node < |nodes|
    requires i < Levels && nodes[node].Internal?
    ensures Walk(nodes, node, path, i) == Walk(nodes, nodes[node].children[Digit(path, i)], path, i + 1)
  {
  }

  /** Depth only depends on the parents of the nodes. */
  lemma {:induction false} DepthFrame(a: seq<Node>, b: seq<Node>, i: nat)
    requires ParentsBefore(a) && ParentsBefore(b)
    requires i < |a| <= |b|
    requires forall j :: 0 <= j < |a| ==> a[j].parent == b[j].parent
    ensures Depth(a, i) == Depth(b, i)
    decreases i
  {
    if i > 0 {
      DepthFrame(a, b, a[i].parent);
    }
  }

  /** The leaf sum over a prefix of nodes whose records did not change is unchanged. */
  lemma {:induction false} LeafSumFrame(t: Tree, u: Tree, k: nat)
    requires forall j :: 0 <= j < k ==> LeafRecords(t, j) == LeafRecords(u, j)
    ensures LeafSum(t, k) == LeafSum(u, k)
    decreases k
  {
    if k > 0 {
      LeafSumFrame(t, u, k - 1);
    }
  }

  /** Changing the records of one node `n` changes the leaf sum by exactly that difference. */
  lemma {:induction false} LeafSumUpdate(t: Tree, u: Tree, n: nat, k: nat)
    requires n < k
    requires forall j :: 0 <= j < k && j != n ==> LeafRecords(t, j) == LeafRecords(u, j)
    ensures LeafSum(u, k) + multiset(LeafRecords(t, n)) == LeafSum(t, k) + multiset(LeafRecords(u, n))
    decreases k
  {
    var mt, mu := multiset(LeafRecords(t, n)), multiset(LeafRecords(u, n));
    if k - 1 == n {
      LeafSumFrame(t, u, k - 1);
      var c := LeafSum(t, k - 1);
      assert LeafSum(u, k) == c + mu && LeafSum(t, k) == c + mt;
      MultisetSwap(c, mu, mt);
    } else {
      LeafSumUpdate(t, u, n, k - 1);
      var a, b := LeafSum(u, k - 1), LeafSum(t, k - 1);
      var x := multiset(LeafRecords(t, k - 1));
      assert x == multiset(LeafRecords(u, k - 1));
      assert LeafSum(u, k) == a + x && LeafSum(t, k) == b + x;
      MultisetAddBoth(a, b, x, mt, mu);
    }
  }

  // ---- Updating one leaf -------------------------------------------------------

  /** Two nodes with the same parent, the same kind and the same children. */
  predicate SameShape(x: Node, y: Node)
  {
    && x.parent == y.parent
    && x.Internal? == y.Internal?
    && (x.Internal? ==> x.children == y.children)
  }

  /** The structural part of the invariant depends only on the shape of the nodes. */
  lemma ShapeFrame(a: seq<Node>, b: seq<Node>)
    requires |a| == |b| && forall j :: 0 <= j < |a| ==> SameShape(a[j], b[j])
    requires ParentsBefore(a) && ChildrenLinked(a) && ParentsLinked(a) && DepthBounded(a)
    ensures ParentsBefore(b) && ChildrenLinked(b) && ParentsLinked(b) && DepthBounded(b)
  {
    forall i | 0 <= i < |b| && b[i].Internal?
      ensures ChildrenOk(b, i)
    {
      assert ChildrenOk(a, i);
    }
    forall i | 0 <= i < |b|
      ensures Depth(b, i) == Depth(a, i)
    {
      DepthFrame(a, b, i);
    }
  }

  /** Leaf `n` now uses the records `used`, padded to a full bucket. */
  function SetLeaf(t: Tree, n: nat, used: seq<Record>): Tree
    requires n < |t.nodes| && t.nodes[n].Leaf? && t.nodes[n].data < |t.buckets|
    requires |used| <= Capacity
  {
    var leaf := t.nodes[n];
    Tree(t.min, t.max, t.nodes[n := leaf.(count := |used|)], t.buckets[leaf.data := Pad(used)])
  }

  /** A leaf other than the updated one keeps its records. */
  lemma SetLeafOther(t: Tree, n: nat, used: seq<Record>, j: nat)
    requires n < |t.nodes| && t.nodes[n].Leaf? && t.nodes[n].data < |t.buckets|
    requires |used| <= Capacity
    requires j < |t.nodes| && j != n
    requires t.nodes[j].Leaf? ==> t.nodes[j].data != t.nodes[n].data
    ensures LeafRecords(SetLeaf(t, n, used), j) == LeafRecords(t, j)
  {
  }

  /** The leaf part of the invariant survives the update. */
  lemma SetLeafLeaves(t: Tree, n: nat, used: seq<Record>)
    requires LeavesOwnBuckets(t)
    requires n < |t.nodes| && t.nodes[n].Leaf? && |used| <= Capacity
    ensures LeafOk(t, n)
    ensures LeavesOwnBuckets(SetLeaf(t, n, used))
  {
    assert LeafOk(t, n);
    var u := SetLeaf(t, n, used);
    forall i | 0 <= i < |u.nodes| && u.nodes[i].Leaf?
      ensures LeafOk(u, i)
    {
      if i != n {
        assert LeafOk(t, i);
        assert t.nodes[i].data != t.nodes[n].data;
      }
    }
  }

  /**
   * Updating one leaf keeps the invariant, gives that leaf exactly `used`,
   * leaves every other leaf alone and trades the old records for the new
   * ones in the contents.
   */
  lemma SetLeafEffect(t: Tree, n: nat, used: seq<Record>)
    requires Valid(t) && n < |t.nodes| && t.nodes[n].Leaf? && |used| <= Capacity
    ensures LeafOk(t, n)
    ensures Valid(SetLeaf(t, n, used))
    ensures LeafRecords(SetLeaf(t, n, used), n) == used
    ensures forall j :: 0 <= j < |t.nodes| && j != n ==> LeafRecords(SetLeaf(t, n, used), j) == LeafRecords(t, j)
    ensures Contents(SetLeaf(t, n, used)) + multiset(LeafRecords(t, n)) == Contents(t) + multiset(used)
  {
    SetLeafLeaves(t, n, used);
    var u := SetLeaf(t, n, used);
    ShapeFrame(t.nodes, u.nodes);
    forall j | 0 <= j < |t.nodes| && j != n
      ensures LeafRecords(u, j) == LeafRecords(t, j)
    {
      if t.nodes[j].Leaf? {
        assert t.nodes[j].data != t.nodes[n].data by {
          if j < n {
            assert t.nodes[j].data != t.nodes[n].data;
          }
        }
      }
      SetLeafOther(t, n, used, j);
    }
    LeafSumUpdate(t, u, n, |t.nodes|);
  }
}
