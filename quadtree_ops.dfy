// The whole-tree operations of Quadtree.cpp as functions of the tree value:
// Resize (a fresh tree refilled through InsertData), EnsureRegion, Clear,
// Insert and GetData, with what each promises about the stored records.
module QuadtreeOps {
  import opened QuadtreeTypes
  import opened QuadtreePaths
  import opened QuadtreeArena
  import opened QuadtreeTraverse
  import opened QuadtreeUpdate

  /** The default bounds of `Quadtree()`: (-1, -1) to (1, 1). */
  const DefaultMin: Point := Point(-1.0, -1.0)
  const DefaultMax: Point := Point(1.0, 1.0)

  /** `p` lies within the closed rectangle (lo, hi). */
  predicate Inside(p: Point, lo: Point, hi: Point)
  {
    lo.x <= p.x <= hi.x && lo.y <= p.y <= hi.y
  }

  /** The component-wise minimum and maximum of two points: the corners of a union rectangle. */
  function Lower(a: Point, b: Point): (r: Point)
    ensures r.x <= a.x && r.x <= b.x && (r.x == a.x || r.x == b.x)
    ensures r.y <= a.y && r.y <= b.y && (r.y == a.y || r.y == b.y)
  {
    Point(if b.x < a.x then b.x else a.x, if b.y < a.y then b.y else a.y)
  }

  function Upper(a: Point, b: Point): (r: Point)
    ensures r.x >= a.x && r.x >= b.x && (r.x == a.x || r.x == b.x)
    ensures r.y >= a.y && r.y >= b.y && (r.y == a.y || r.y == b.y)
  {
    Point(if a.x < b.x then b.x else a.x, if a.y < b.y then b.y else a.y)
  }

  // ---- Resize ------------------------------------------------------------------

  /** The records Resize hands to InsertData, in the order VisitNodes meets them. */
  function AllRecords(t: Tree): seq<Record>
    requires ChildrenLinked(t.nodes)
  {
    TraceRecords(t, VisitNodes(t, ContinueAll).0)
  }

  /**
   * InsertData of each record in turn, stopping at the first that fails (the
   * record visitor returns false, the node visitor Exit).
   */
  function InsertAll(u: Tree, rs: seq<Record>): (r: (Tree, bool))
    requires Valid(u)
    ensures Valid(r.0)
    decreases |rs|
  {
    if rs == [] then (u, true)
    else
      var s := InsertDataSpec(u, rs[0]);
      if !s.1 then (s.0, false) else InsertAll(s.0, rs[1..])
  }

  /**
   * Resize: a fresh tree over (lo, hi) refilled with every record, each under
   * the path its old id carries; it replaces the tree only when every
   * reinsertion succeeded.
   */
  function ResizeSpec(t: Tree, lo: Point, hi: Point): (r: (Tree, bool))
    requires Valid(t)
    ensures Valid(r.0)
  {
    var refill := InsertAll(EmptyTree(lo, hi), AllRecords(t));
    if refill.1 then (refill.0, true) else (t, false)
  }

  /** EnsureRegion: nothing to do when (lo, hi) is already covered, else a Resize to the union. */
  function EnsureRegionSpec(t: Tree, lo: Point, hi: Point): (r: (Tree, bool))
    requires Valid(t)
    ensures Valid(r.0)
  {
    if lo.x < t.min.x || lo.y < t.min.y || hi.x > t.max.x || hi.y > t.max.y
    then ResizeSpec(t, Lower(lo, t.min), Upper(hi, t.max))
    else (t, true)
  }

  /** The empty tree holds no records. */
  lemma EmptyContents(lo: Point, hi: Point)
    ensures Contents(EmptyTree(lo, hi)) == multiset{}
  {
    var t := EmptyTree(lo, hi);
    assert LeafRecords(t, 0) == [];
    assert Contents(t) == LeafSum(t, 0) + multiset(LeafRecords(t, 0));
  }

  /** A run of InsertData that succeeds throughout adds exactly its records. */
  lemma {:induction false} InsertAllContents(u: Tree, rs: seq<Record>)
    requires Valid(u)
    ensures InsertAll(u, rs).0.min == u.min && InsertAll(u, rs).0.max == u.max
    ensures InsertAll(u, rs).1 ==> Contents(InsertAll(u, rs).0) == Contents(u) + multiset(rs)
    decreases |rs|
  {
    if rs != [] {
      var s := InsertDataSpec(u, rs[0]);
      InsertDataContents(u, rs[0]);
      if s.1 {
        var rest := rs[1..];
        assert InsertAll(u, rs) == InsertAll(s.0, rest);
        InsertAllContents(s.0, rest);
        MultisetCons(rs);
        MultisetAssoc(Contents(u), multiset{rs[0]}, multiset(rest));
      } else {
        assert InsertAll(u, rs) == s;
      }
    }
  }

  /**
   * Resize either fails and leaves the tree alone, or gives the tree the new
   * bounds and every old record, id included, and nothing else.
   */
  lemma ResizeEffect(t: Tree, lo: Point, hi: Point)
    requires Valid(t)
    ensures var r := ResizeSpec(t, lo, hi);
            && (!r.1 ==> r.0 == t)
            && (r.1 ==> r.0.min == lo && r.0.max == hi && Contents(r.0) == Contents(t))
  {
    TraversalContents(t);
    EmptyContents(lo, hi);
    InsertAllContents(EmptyTree(lo, hi), AllRecords(t));
    assert multiset{} + multiset(AllRecords(t)) == multiset(AllRecords(t));
  }

  /**
   * EnsureRegion: on success the bounds cover both the old bounds and
   * (lo, hi) and the records are the same; on failure nothing changes.
   */
  lemma EnsureRegionEffect(t: Tree, lo: Point, hi: Point)
    requires Valid(t)
    ensures t.min.x <= lo.x && t.min.y <= lo.y && hi.x <= t.max.x && hi.y <= t.max.y ==>
              EnsureRegionSpec(t, lo, hi) == (t, true)
    ensures var r := EnsureRegionSpec(t, lo, hi);
            && (!r.1 ==> r.0 == t)
            && (r.1 ==>
                  && Contents(r.0) == Contents(t)
                  && r.0.min.x <= lo.x && r.0.min.y <= lo.y && r.0.max.x >= hi.x && r.0.max.y >= hi.y
                  && r.0.min.x <= t.min.x && r.0.min.y <= t.min.y && r.0.max.x >= t.max.x && r.0.max.y >= t.max.y)
  {
    ResizeEffect(t, Lower(lo, t.min), Upper(hi, t.max));
  }

  /** Clear: only an empty root leaf and one bucket remain, with no records. */
  lemma ClearEffect(t: Tree)
    ensures var u := EmptyTree(t.min, t.max);
            && Valid(u) && |u.nodes| == 1 && |u.buckets| == 1
            && u.nodes[0].Leaf? && u.nodes[0].count == 0
            && Contents(u) == multiset{} && u.min == t.min && u.max == t.max
  {
    EmptyContents(t.min, t.max);
  }

  // ---- Insert ------------------------------------------------------------------

  /** The point lies outside the tree's bounds: Insert's test before it resizes. */
  predicate Outside(t: Tree, p: Point)
  {
    p.x < t.min.x || p.y < t.min.y || p.x > t.max.x || p.y > t.max.y
  }

  /**
   * The tree Insert works on: the tree resized to the union of its bounds
   * and the point when the point lies outside. A failed Resize is ignored.
   */
  function Prepared(t: Tree, p: Point): (u: Tree)
    requires Valid(t)
    ensures Valid(u)
  {
    if Outside(t, p) then ResizeSpec(t, Lower(t.min, p), Upper(t.max, p)).0 else t
  }

  /**
   * Insert once the bounds are settled: compute the point's path, settle on
   * its leaf, and either fail with `~0` when that leaf is full or append a
   * record with id `path << 32 | GetNewID(leaf)`.
   */
  function InsertAt(u: Tree, p: Point, value: nat): (r: (Tree, nat))
    requires Valid(u)
    ensures Valid(r.0)
  {
    var path := PathOf(p, u.min, u.max);
    var s := Settle(u, path);
    var id := MakeId(path, NewId(s.0, s.1));
    if s.0.nodes[s.1].count == Capacity then (s.0, NoIndex)
    else
      AppendValid(s.0, s.1, Record(p, id, value));
      (Append(s.0, s.1, Record(p, id, value)), id)
  }

  /** Insert: InsertAt on the tree resized, if need be, to take the point. */
  function InsertSpec(t: Tree, p: Point, value: nat): (r: (Tree, nat))
    requires Valid(t)
    ensures Valid(r.0)
  {
    InsertAt(Prepared(t, p), p, value)
  }

  /** A point outside the bounds widens them to the union when the resize succeeds, keeping every record. */
  lemma PreparedEffect(t: Tree, p: Point)
    requires Valid(t)
    ensures Contents(Prepared(t, p)) == Contents(t)
    ensures !Outside(t, p) ==> Prepared(t, p) == t
    ensures Outside(t, p) && ResizeSpec(t, Lower(t.min, p), Upper(t.max, p)).1 ==>
              Prepared(t, p).min == Lower(t.min, p) && Prepared(t, p).max == Upper(t.max, p)
    ensures !Outside(t, p) || ResizeSpec(t, Lower(t.min, p), Upper(t.max, p)).1 ==>
              Inside(p, Prepared(t, p).min, Prepared(t, p).max)
  {
    ResizeEffect(t, Lower(t.min, p), Upper(t.max, p));
  }

  /**
   * What Insert promises. Failure: the result is `~0`, the leaf the point
   * belongs to holds 32 records and no record was added. Success: the id's
   * high half is the point's path and its low half GetNewID's slot, which is
   * at most the leaf's old count; the id is not the sentinel; the leaf's count
   * grows by one and the stored records gain exactly the new one.
   */
  lemma InsertEffect(t: Tree, p: Point, value: nat)
    requires Valid(t)
    ensures var u := Prepared(t, p); var path := PathOf(p, u.min, u.max);
            var s := Settle(u, path); var r := InsertSpec(t, p, value);
            && r.0.min == u.min && r.0.max == u.max
            && (r.1 == NoIndex <==> s.0.nodes[s.1].count == Capacity)
            && (r.1 == NoIndex ==> Contents(r.0) == Contents(t))
            && (r.1 != NoIndex ==>
                  && IdPath(r.1) == path && path < HalfWord
                  && IdSlot(r.1) == NewId(s.0, s.1) <= s.0.nodes[s.1].count
                  && r.0.nodes[s.1].count == s.0.nodes[s.1].count + 1
                  && LeafRecords(r.0, s.1) == LeafRecords(s.0, s.1) + [Record(p, r.1, value)]
                  && Contents(r.0) == Contents(t) + multiset{Record(p, r.1, value)})
  {
    var u := Prepared(t, p);
    var path := PathOf(p, u.min, u.max);
    var s := Settle(u, path);
    PreparedEffect(t, p);
    SettleConserves(u, path);
    PathOfDigits(p, u.min, u.max, 0);
    assert LeafOk(s.0, s.1);
    var rs := LeafRecords(s.0, s.1);
    NewIdBound(rs);
    var slot := NewId(s.0, s.1);
    IdHalves(path, slot);
    IdNotSentinel(path, slot);
    assert InsertSpec(t, p, value) == InsertAt(u, p, value);
    if s.0.nodes[s.1].count != Capacity {
      var rec := Record(p, MakeId(path, slot), value);
      AppendEffect(s.0, s.1, rec);
      assert InsertAt(u, p, value) == (Append(s.0, s.1, rec), MakeId(path, slot));
    } else {
      assert InsertAt(u, p, value) == (s.0, NoIndex);
    }
  }

  // ---- GetData -----------------------------------------------------------------

  /** GetData: the first record carrying `id` in the leaf its path leads to. */
  function GetDataSpec(t: Tree, id: nat): (r: Option<Record>)
    requires Valid(t)
    ensures r.Some? ==> r.value.id == id && r.value in LeafRecords(t, IdLeaf(t, id))
  {
    var n := IdLeaf(t, id);
    if !t.nodes[n].Leaf? then None
    else match FirstIndex(LeafRecords(t, n), id)
      case None => None
      case Some(i) => Some(LeafRecords(t, n)[i])
  }

  /** GetData finds only stored records, and finds one whenever its leaf holds the id. */
  lemma GetDataFound(t: Tree, id: nat)
    requires Valid(t)
    ensures GetDataSpec(t, id).Some? ==> GetDataSpec(t, id).value in Contents(t)
    ensures GetDataSpec(t, id).None? <==> forall r :: r in LeafRecords(t, IdLeaf(t, id)) ==> r.id != id
  {
    PathNodeIsLeaf(t, IdPath(id));
    var n := IdLeaf(t, id);
    if GetDataSpec(t, id).Some? {
      LeafInContents(t, n, |t.nodes|, GetDataSpec(t, id).value);
    }
  }

  /** Appending a record to a leaf leads every path to the node it led to before. */
  lemma AppendPaths(t: Tree, n: nat, r: Record, path: nat)
    requires Valid(t) && n < |t.nodes| && t.nodes[n].Leaf? && t.nodes[n].count < Capacity
    ensures LeafOk(t, n) && Valid(Append(t, n, r))
    ensures PathNode(Append(t, n, r).nodes, path) == PathNode(t.nodes, path)
  {
    AppendValid(t, n, r);
    var u := Append(t, n, r);
    assert forall j :: 0 <= j < |t.nodes| ==> SameShape(t.nodes[j], u.nodes[j]);
    WalkShape(t.nodes, u.nodes, 0, path, 0);
  }

  /** Walking a path sees only the shape of the nodes. */
  lemma {:induction false} WalkShape(a: seq<Node>, b: seq<Node>, node: nat, path: nat, i: nat)
    requires ChildrenLinked(a) && ChildrenLinked(b) && |a| == |b| && node < |a|
    requires forall j :: 0 <= j < |a| ==> SameShape(a[j], b[j])
    ensures Walk(a, node, path, i) == Walk(b, node, path, i)
    decreases Levels - i
  {
    if i < Levels && a[node].Internal? {
      assert ChildrenOk(a, node) && b[node].Internal? && b[node].children == a[node].children;
      var c := a[node].children[Digit(path, i)];
      WalkShape(a, b, c, path, i + 1);
      assert Walk(a, node, path, i) == Walk(a, c, path, i + 1);
      assert Walk(b, node, path, i) == Walk(b, c, path, i + 1);
    }
  }

  /** The id a successful Insert returns leads GetData to a record with that id, in the same leaf. */
  lemma InsertThenGetData(t: Tree, p: Point, value: nat)
    requires Valid(t)
    ensures var r := InsertSpec(t, p, value);
            r.1 != NoIndex ==> GetDataSpec(r.0, r.1).Some? && GetDataSpec(r.0, r.1).value.id == r.1
  {
    var u := Prepared(t, p);
    var path := PathOf(p, u.min, u.max);
    var s := Settle(u, path);
    var r := InsertSpec(t, p, value);
    InsertEffect(t, p, value);
    assert r == InsertAt(u, p, value);
    if r.1 != NoIndex {
      var rec := Record(p, r.1, value);
      assert r.0 == Append(s.0, s.1, rec);
      AppendPaths(s.0, s.1, rec, path);
      assert IdLeaf(r.0, r.1) == s.1;
      assert rec in LeafRecords(r.0, s.1);
      GetDataFound(r.0, r.1);
    }
  }
}
