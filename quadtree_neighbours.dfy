// Quadtree::FindNeighbours (Quadtree.cpp) as functions: the circle/rectangle
// test that prunes the traversal, the records the pruned traversal scans,
// and the sorted, bounded neighbour buffer built from them one record at a
// time with std::lower_bound and memmove, together with what the buffer
// promises and where it loses an entry.
module QuadtreeNeighbours {
  import opened QuadtreeTypes
  import opened QuadtreePaths
  import opened QuadtreeArena
  import opened QuadtreeTraverse
  import opened QuadtreeUpdate

  // ---- Geometry ----------------------------------------------------------------

  function Min(a: real, b: real): real
  {
    if b < a then b else a
  }

  function Max(a: real, b: real): real
  {
    if a < b then b else a
  }

  function Sq(a: real): real
  {
    a * a
  }

  /** The squared Euclidean distance between two points. */
  function Dist2(a: Point, b: Point): (d: real)
    ensures d >= 0.0
  {
    Sq(a.x - b.x) + Sq(a.y - b.y)
  }

  /**
   * RectCircleOverlap: the point of the rectangle (lo, hi) nearest to `pos`
   * (`pos` clamped coordinate by coordinate) lies within `radius` of `pos`.
   */
  function RectCircleOverlap(lo: Point, hi: Point, pos: Point, radius: real): bool
  {
    var dx := pos.x - Max(lo.x, Min(pos.x, hi.x));
    var dy := pos.y - Max(lo.y, Min(pos.y, hi.y));
    Sq(dx) + Sq(dy) <= Sq(radius)
  }

  predicate InRect(p: Point, lo: Point, hi: Point)
  {
    lo.x <= p.x <= hi.x && lo.y <= p.y <= hi.y
  }

  lemma SquareMono(a: real, b: real)
    requires 0.0 <= a <= b
    ensures Sq(a) <= Sq(b)
  {
    assert a * a <= a * b <= b * b;
  }

  /** Clamping into [lo, hi] moves `v` no farther than any point of [lo, hi] is from it. */
  lemma ClampNearest(v: real, lo: real, hi: real, p: real)
    requires lo <= p <= hi
    ensures Sq(v - Max(lo, Min(v, hi))) <= Sq(v - p)
  {
    if v < lo {
      SquareMono(lo - v, p - v);
      assert Sq(v - lo) == Sq(lo - v) && Sq(v - p) == Sq(p - v);
    } else if hi < v {
      SquareMono(v - hi, v - p);
    }
  }

  /**
   * The pruning test never rejects a rectangle holding a point within the
   * radius: whatever FindNeighbours skips has nothing in range inside it.
   */
  lemma OverlapSound(lo: Point, hi: Point, pos: Point, radius: real, p: Point)
    requires InRect(p, lo, hi) && Dist2(p, pos) <= Sq(radius)
    ensures RectCircleOverlap(lo, hi, pos, radius)
  {
    ClampNearest(pos.x, lo.x, hi.x, p.x);
    ClampNearest(pos.y, lo.y, hi.y, p.y);
    assert Sq(p.x - pos.x) == Sq(pos.x - p.x) && Sq(p.y - pos.y) == Sq(pos.y - p.y);
  }

  /** A rectangle that contains the query point always overlaps the circle. */
  lemma OverlapInside(lo: Point, hi: Point, pos: Point, radius: real)
    requires InRect(pos, lo, hi)
    ensures RectCircleOverlap(lo, hi, pos, radius)
  {
    OverlapSound(lo, hi, pos, radius, pos);
  }

  /**
   * Records need not lie in the cell the traversal gives their leaf. With the
   * default bounds (-1, -1)..(1, 1), splitting the root leaf divides its
   * records around `min` (RootRegion), so a record at (-0.5, -0.5) goes to
   * child 3 (SplitQuadrants). The traversal hands child 3 the upper-right
   * quarter (0, 0)..(1, 1) (TraverseUnfold), which a circle of radius 0.1
   * around (-0.5, -0.5) misses, so FindNeighbours prunes that child and
   * does not find the record. The record's own path digit at level 0 is 0.
   */
  lemma RootSplitCell()
    ensures var t := EmptyTree(Point(-1.0, -1.0), Point(1.0, 1.0));
            && SplitMid(t, 0) == t.min == Point(-1.0, -1.0)
            && Mid(t.min, t.max) == Point(0.0, 0.0)
    ensures var p := Point(-0.5, -0.5);
            && Quadrant(p, Point(-1.0, -1.0)) == 3
            && Quadrant(p, Point(0.0, 0.0)) == 0
            && Quarter(Point(-1.0, -1.0), Point(1.0, 1.0), Point(0.0, 0.0), 3) == (Point(0.0, 0.0), Point(1.0, 1.0))
            && !RectCircleOverlap(Point(0.0, 0.0), Point(1.0, 1.0), p, 0.1)
  {
    var t := EmptyTree(Point(-1.0, -1.0), Point(1.0, 1.0));
    RootRegion(t);
    CellMisses();
  }

  /** The geometric half of RootSplitCell. */
  lemma CellMisses()
    ensures var p := Point(-0.5, -0.5);
            && Quadrant(p, Point(-1.0, -1.0)) == 3
            && Quadrant(p, Point(0.0, 0.0)) == 0
            && Quarter(Point(-1.0, -1.0), Point(1.0, 1.0), Point(0.0, 0.0), 3) == (Point(0.0, 0.0), Point(1.0, 1.0))
            && !RectCircleOverlap(Point(0.0, 0.0), Point(1.0, 1.0), p, 0.1)
  {
  }

  // ---- The scanned records -------------------------------------------------------

  /**
   * The record test: the source rejects a record when `sqrtf(d2) > maxDistance`.
   * As the square root is never negative, a record passes exactly when the
   * radius is not negative and the squared distance is at most its square.
   */
  predicate Within(pos: Point, maxDistance: real, r: Record)
  {
    maxDistance >= 0.0 && Dist2(r.pos, pos) <= Sq(maxDistance)
  }

  /** The node visitor: prune a node whose rectangle misses the circle. */
  function OverlapVisitor(pos: Point, maxDistance: real): (v: (nat, Point, Point) -> Visit)
    ensures forall n, lo, hi :: v(n, lo, hi) != Exit
  {
    (n: nat, lo: Point, hi: Point) => if RectCircleOverlap(lo, hi, pos, maxDistance) then Continue else Skip
  }

  /** The records the visitor scans along a trace: those of the nodes it does not prune. */
  function Scanned(t: Tree, tr: seq<Visited>, pos: Point, maxDistance: real): (rs: seq<Record>)
    decreases |tr|
  {
    if tr == [] then []
    else
      var e := tr[|tr| - 1];
      Scanned(t, tr[..|tr| - 1], pos, maxDistance)
        + (if RectCircleOverlap(e.lo, e.hi, pos, maxDistance) then LeafRecords(t, e.node) else [])
  }

  /** The records FindNeighbours looks at, in the order it looks at them. */
  function Candidates(t: Tree, pos: Point, maxDistance: real): seq<Record>
    requires ChildrenLinked(t.nodes)
  {
    Scanned(t, VisitNodes(t, OverlapVisitor(pos, maxDistance)).0, pos, maxDistance)
  }

  /** Every scanned record is stored in the tree. */
  lemma {:induction false} ScannedIn(t: Tree, tr: seq<Visited>, pos: Point, maxDistance: real, r: Record)
    requires forall k :: 0 <= k < |tr| ==> tr[k].node < |t.nodes|
    requires r in Scanned(t, tr, pos, maxDistance)
    ensures r in Contents(t)
    decreases |tr|
  {
    var init := tr[..|tr| - 1];
    if r in Scanned(t, init, pos, maxDistance) {
      ScannedIn(t, init, pos, maxDistance, r);
    } else {
      LeafInContents(t, tr[|tr| - 1].node, |t.nodes|, r);
    }
  }

  /** The pruned traversal runs to the end, and every candidate is a record of the tree. */
  lemma CandidatesIn(t: Tree, pos: Point, maxDistance: real, r: Record)
    requires ChildrenLinked(t.nodes)
    ensures VisitNodes(t, OverlapVisitor(pos, maxDistance)).1
    ensures r in Candidates(t, pos, maxDistance) ==> r in Contents(t)
  {
    TraverseNoExit(t.nodes, 0, t.min, t.max, OverlapVisitor(pos, maxDistance));
    if r in Candidates(t, pos, maxDistance) {
      ScannedIn(t, VisitNodes(t, OverlapVisitor(pos, maxDistance)).0, pos, maxDistance, r);
    }
  }

  // ---- The neighbour buffer --------------------------------------------------------

  /** Entries in order of non-decreasing distance. */
  predicate Sorted(buf: seq<Neighbour>)
  {
    forall i, j :: 0 <= i < j < |buf| ==> buf[i].distance <= buf[j].distance
  }

  /**
   * std::lower_bound with `a.distance < dist`: the first position whose
   * entry is not nearer than `d`.
   */
  function LowerBound(buf: seq<Neighbour>, d: real): (i: nat)
    ensures i <= |buf|
    ensures forall k :: 0 <= k < i ==> buf[k].distance < d
    ensures i < |buf| ==> buf[i].distance >= d
    decreases |buf|
  {
    if buf == [] || buf[0].distance >= d then 0 else 1 + LowerBound(buf[1..], d)
  }

  /** On a sorted buffer every entry from the lower bound on is not nearer than `d`. */
  lemma LowerBoundSplit(buf: seq<Neighbour>, d: real)
    requires Sorted(buf)
    ensures forall k :: LowerBound(buf, d) <= k < |buf| ==> buf[k].distance >= d
  {
  }

  /**
   * One accepted record offered to a buffer of at most `cap` entries. Past
   * the end: appended when there is room, dropped otherwise. Before the last
   * entry: inserted at its place, the later entries moving up one, the last
   * one falling off when the buffer is full. AT the last entry: that entry
   * is overwritten, even when there is room for both.
   */
  function Offer(buf: seq<Neighbour>, cap: nat, n: Neighbour): (r: seq<Neighbour>)
  {
    var lb := LowerBound(buf, n.distance);
    if lb == |buf| then (if |buf| >= cap then buf else buf + [n])
    else if lb < |buf| - 1 then
      (if |buf| >= cap then buf[..lb] + [n] + buf[lb..|buf| - 1] else buf[..lb] + [n] + buf[lb..])
    else buf[..lb] + [n]
  }

  /**
   * Placing `n` between the entries nearer than it and a run of the entries
   * not nearer than it keeps a sorted buffer sorted and adds nothing else.
   */
  lemma PlaceSorted(buf: seq<Neighbour>, lb: nat, m: nat, n: Neighbour)
    requires Sorted(buf) && lb <= m <= |buf|
    requires forall k :: 0 <= k < lb ==> buf[k].distance < n.distance
    requires forall k :: lb <= k < |buf| ==> buf[k].distance >= n.distance
    ensures Sorted(buf[..lb] + [n] + buf[lb..m])
    ensures forall e :: e in buf[..lb] + [n] + buf[lb..m] ==> e == n || e in buf
  {
    var r := buf[..lb] + [n] + buf[lb..m];
    assert forall k :: 0 <= k < lb ==> r[k] == buf[k];
    assert forall k :: lb < k < |r| ==> r[k] == buf[k - 1];
    forall i, j | 0 <= i < j < |r|
      ensures r[i].distance <= r[j].distance
    {
      if i == lb {
        assert r[j] == buf[j - 1];
      }
    }
  }

  /** Offering keeps the buffer sorted, within capacity, and made of old entries and `n`. */
  lemma OfferKeeps(buf: seq<Neighbour>, cap: nat, n: Neighbour)
    requires Sorted(buf) && |buf| <= cap
    ensures var r := Offer(buf, cap, n);
            && Sorted(r)
            && |buf| <= |r| <= cap
            && |r| <= |buf| + 1
            && forall e :: e in r ==> e == n || e in buf
  {
    LowerBoundSplit(buf, n.distance);
    var lb := LowerBound(buf, n.distance);
    if lb == |buf| {
      if |buf| < cap {
        assert buf + [n] == buf[..lb] + [n] + buf[lb..lb];
        PlaceSorted(buf, lb, lb, n);
      }
    } else if lb < |buf| - 1 {
      if |buf| >= cap {
        PlaceSorted(buf, lb, |buf| - 1, n);
      } else {
        assert buf[lb..] == buf[lb..|buf|];
        PlaceSorted(buf, lb, |buf|, n);
      }
    } else {
      assert buf[..lb] + [n] == buf[..lb] + [n] + buf[lb..lb];
      PlaceSorted(buf, lb, lb, n);
    }
  }

  /** Below capacity and not at the last entry, the record is added and nothing is lost. */
  lemma OfferGrows(buf: seq<Neighbour>, cap: nat, n: Neighbour)
    requires |buf| < cap && LowerBound(buf, n.distance) != |buf| - 1
    ensures multiset(Offer(buf, cap, n)) == multiset(buf) + multiset{n}
  {
    var lb := LowerBound(buf, n.distance);
    if lb < |buf| {
      assert Offer(buf, cap, n) == buf[..lb] + [n] + buf[lb..];
      InsertMultiset(buf, lb, n);
    } else {
      assert Offer(buf, cap, n) == buf + [n];
    }
  }

  /** At capacity, a record nearer than the last entry before it pushes out exactly the last entry. */
  lemma OfferEvicts(buf: seq<Neighbour>, cap: nat, n: Neighbour)
    requires 0 < |buf| && |buf| >= cap && LowerBound(buf, n.distance) < |buf| - 1
    ensures multiset(Offer(buf, cap, n)) + multiset{buf[|buf| - 1]} == multiset(buf) + multiset{n}
  {
    var lb := LowerBound(buf, n.distance);
    assert Offer(buf, cap, n) == buf[..lb] + [n] + buf[lb..|buf| - 1];
    InsertDropLast(buf, lb, n);
  }

  /** At capacity, a record not nearer than every entry changes nothing. */
  lemma OfferFullFar(buf: seq<Neighbour>, cap: nat, n: Neighbour)
    requires |buf| >= cap && LowerBound(buf, n.distance) == |buf|
    ensures Offer(buf, cap, n) == buf
  {
  }

  /**
   * The overwrite at the last position loses an entry although the buffer
   * has room: offering a nearer record to a one-entry buffer of capacity two
   * leaves only the new record.
   */
  lemma OfferOverwrites()
    ensures var a := Neighbour(EmptyRecord(), 2.0);
            var n := Neighbour(Record(Point(0.0, 0.0), 0, 7), 1.0);
            Offer([a], 2, n) == [n] && multiset(Offer([a], 2, n)) != multiset([a]) + multiset{n}
  {
    var a := Neighbour(EmptyRecord(), 2.0);
    var n := Neighbour(Record(Point(0.0, 0.0), 0, 7), 1.0);
    assert LowerBound([a], 1.0) == 0;
    assert multiset([a]) + multiset{n} != multiset{n} by {
      assert (multiset([a]) + multiset{n})[a] == 1;
    }
  }

  /** The entry for a record that passed the test: the record and its squared distance. */
  function Entry(pos: Point, r: Record): (n: Neighbour)
    ensures n.data == r && n.distance == Dist2(r.pos, pos)
  {
    Neighbour(r, Dist2(r.pos, pos))
  }

  /** The records that pass the distance test, in order. */
  function Accepted(rs: seq<Record>, pos: Point, maxDistance: real): (a: seq<Record>)
    ensures |a| <= |rs|
    decreases |rs|
  {
    if rs == [] then []
    else
      Accepted(rs[..|rs| - 1], pos, maxDistance)
        + (if Within(pos, maxDistance, rs[|rs| - 1]) then [rs[|rs| - 1]] else [])
  }

  /**
   * The record visitor over `rs`: returns the buffer and `totalFound`.
   * Every record passing the test is counted whether or not it is kept.
   */
  function Gather(rs: seq<Record>, pos: Point, maxDistance: real, cap: nat): (g: (seq<Neighbour>, nat))
    ensures Sorted(g.0) && |g.0| <= cap && |g.0| <= g.1
    ensures g.1 == |Accepted(rs, pos, maxDistance)|
    ensures forall e :: e in g.0 ==> e.data in rs && Within(pos, maxDistance, e.data) && e.distance == Dist2(e.data.pos, pos)
    decreases |rs|
  {
    if rs == [] then ([], 0)
    else
      var init, last := rs[..|rs| - 1], rs[|rs| - 1];
      var prev := Gather(init, pos, maxDistance, cap);
      if Within(pos, maxDistance, last) then
        OfferKeeps(prev.0, cap, Entry(pos, last));
        assert forall e :: e in init ==> e in rs;
        (Offer(prev.0, cap, Entry(pos, last)), prev.1 + 1)
      else
        assert forall e :: e in init ==> e in rs;
        prev
  }

  /** Gather over one more record: that record counted and offered if it is in range. */
  lemma GatherSnoc(rs: seq<Record>, j: nat, pos: Point, maxDistance: real, cap: nat)
    requires j < |rs|
    ensures var prev := Gather(rs[..j], pos, maxDistance, cap);
            Gather(rs[..j + 1], pos, maxDistance, cap)
              == if Within(pos, maxDistance, rs[j]) then (Offer(prev.0, cap, Entry(pos, rs[j])), prev.1 + 1) else prev
  {
    assert rs[..j + 1][..j] == rs[..j];
  }

  /**
   * FindNeighbours: the number of entries written, the sorted entries
   * themselves, and the value left in `maxNeighbours` (every record found
   * in range).
   */
  function FindNeighboursSpec(t: Tree, pos: Point, maxDistance: real, cap: nat): (seq<Neighbour>, nat)
    requires ChildrenLinked(t.nodes)
  {
    Gather(Candidates(t, pos, maxDistance), pos, maxDistance, cap)
  }

  /**
   * What a FindNeighbours call promises: at most `cap` entries, sorted by
   * distance, each a stored record in range with its distance, and no more
   * entries than records counted.
   */
  lemma FindNeighboursSound(t: Tree, pos: Point, maxDistance: real, cap: nat)
    requires ChildrenLinked(t.nodes)
    ensures var r := FindNeighboursSpec(t, pos, maxDistance, cap);
            && Sorted(r.0) && |r.0| <= cap && |r.0| <= r.1
            && r.1 == |Accepted(Candidates(t, pos, maxDistance), pos, maxDistance)|
            && forall e :: e in r.0 ==>
                 e.data in Contents(t) && Within(pos, maxDistance, e.data) && e.distance == Dist2(e.data.pos, pos)
  {
    var r := FindNeighboursSpec(t, pos, maxDistance, cap);
    forall e | e in r.0
      ensures e.data in Contents(t)
    {
      CandidatesIn(t, pos, maxDistance, e.data);
    }
  }

  /** A negative radius finds nothing. */
  lemma {:induction false} NegativeRadius(rs: seq<Record>, pos: Point, maxDistance: real, cap: nat)
    requires maxDistance < 0.0
    ensures Gather(rs, pos, maxDistance, cap) == ([], 0)
    decreases |rs|
  {
    if rs != [] {
      NegativeRadius(rs[..|rs| - 1], pos, maxDistance, cap);
    }
  }
}
