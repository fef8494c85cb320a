// The Quadtree object of Quadtree.h / Quadtree.cpp: the bounds and the two
// arenas as fields, and one method per member function. Each method works
// the way the C++ does (the same loops, the same early returns) and is proved
// to leave the object in the state the matching function of the tree value
// describes; what those functions promise is proved in the other modules.
module QuadtreeIndex {
  import opened QuadtreeTypes
  import opened QuadtreePaths
  import opened QuadtreeArena
  import opened QuadtreeTraverse
  import opened QuadtreeUpdate
  import opened QuadtreeNeighbours
  import opened QuadtreeOps

  class Quadtree {
    var min: Point
    var max: Point
    var nodes: seq<Node>
    var buckets: seq<seq<Record>>

    /** The object's fields as a tree value. */
    function State(): Tree
      reads this
    {
      Tree(min, max, nodes, buckets)
    }

    ghost predicate Valid()
      reads this
    {
      QuadtreeArena.Valid(State())
    }

    /** `Quadtree(min, max)`, by default over (-1, -1) to (1, 1): one empty root leaf and one bucket. */
    constructor (lo: Point := DefaultMin, hi: Point := DefaultMax)
      ensures Valid()
      ensures State() == EmptyTree(lo, hi)
    {
      min, max := lo, hi;
      nodes := [NewLeaf(0, 0)];
      buckets := [EmptyBucket()];
    }

    /**
     * ComputePath: sixteen rounds of comparing `pos` with the midpoint of the
     * working rectangle, recording the quadrant in bits 2i and 2i+1 and
     * shrinking the rectangle to it. Also returns the final rectangle.
     */
    method ComputePath(pos: Point) returns (path: nat, lo: Point, hi: Point)
      ensures path == PathOf(pos, min, max) && path < HalfWord
      ensures (lo, hi) == Cell(pos, min, max, Levels)
      ensures forall i :: 0 <= i < Levels ==>
                Digit(path, i) == Quadrant(pos, Mid(Cell(pos, min, max, i).0, Cell(pos, min, max, i).1))
    {
      var curMin, curMax := min, max;
      var curMid := Mid(curMin, curMax);
      path := 0;
      var i := 0;
      while i < Levels
        invariant 0 <= i <= Levels
        invariant path == Pack(Quadrants(pos, min, max, i))
        invariant (curMin, curMax) == Cell(pos, min, max, i)
        invariant i < Levels ==> curMid == Mid(curMin, curMax)
      {
        var childPath := (if pos.x >= curMid.x then 1 else 0) + (if pos.y >= curMid.y then 2 else 0);
        ghost var cell := (curMin, curMax);
        DescendStep(pos, min, max, i);
        // `path |= childPath << (2 * i)`: the bits from 2i upwards are still clear.
        path := path + childPath * Pow4(i);
        if childPath == 0 {
          curMax := curMid;
        } else if childPath == 1 {
          curMin := Point(curMid.x, curMin.y);
          curMax := Point(curMax.x, curMid.y);
        } else if childPath == 2 {
          curMax := Point(curMid.x, curMax.y);
          curMin := Point(curMin.x, curMid.y);
        } else {
          curMin := curMid;
        }
        assert (curMin, curMax) == Quarter(cell.0, cell.1, curMid, childPath);
        if i < Levels - 1 {
          curMid := Mid(curMin, curMax);
        }
        i := i + 1;
      }
      lo, hi := curMin, curMax;
      PathLayout(pos, min, max);
    }

    /**
     * GetPathNode: from the root, while the current node is internal and
     * fewer than 16 levels are used, step to the child named by the next two
     * path bits. Always ends on a leaf.
     */
    method GetPathNode(path: nat) returns (node: nat)
      requires Valid()
      ensures node == PathNode(nodes, path)
      ensures node < |nodes| && nodes[node].Leaf?
    {
      node := 0;
      var i := 0;
      while i < Levels && nodes[node].Internal?
        invariant 0 <= i <= Levels && node < |nodes|
        invariant Walk(nodes, node, path, i) == PathNode(nodes, path)
        decreases Levels - i
      {
        assert ChildrenOk(nodes, node);
        node := nodes[node].children[Digit(path, i)];
        i := i + 1;
      }
      PathNodeIsLeaf(State(), path);
    }

    /** GetNodeDepth: the number of parent steps up to the root, `~0` for a node outside the arena. */
    method GetNodeDepth(node: nat) returns (depth: nat)
      requires ParentsBefore(nodes)
      ensures depth == if node < |nodes| then Depth(nodes, node) else NoIndex
    {
      if node >= |nodes| {
        return NoIndex;
      }
      depth := 0;
      var n: nat := node;
      while nodes[n].parent != n
        invariant n < |nodes| && depth + Depth(nodes, n) == Depth(nodes, node)
        decreases n
      {
        n := nodes[n].parent;
        depth := depth + 1;
      }
    }

    /**
     * GetNodeRegion as written: `current` is read once and never advanced,
     * so the loop body runs at most once. The unit-frame rectangle is then
     * scaled by the bounds' size and moved by `min`. The rectangle is the
     * caller's `min`/`max` pair, passed in as `lo0`/`hi0`: outside the arena
     * it is handed back untouched.
     */
    method GetNodeRegion(node: nat, lo0: Point, hi0: Point) returns (depth: nat, lo: Point, hi: Point)
      requires ParentsBefore(nodes)
      ensures node >= |nodes| ==> depth == NoIndex && lo == lo0 && hi == hi0
      ensures node < |nodes| ==> (lo, hi, depth) == NodeRegion(State(), node)
      ensures node < |nodes| ==> depth == if node == 0 then 0 else 1
    {
      if node >= |nodes| {
        return NoIndex, lo0, hi0;
      }
      depth := 0;
      lo, hi := UnitMin, UnitMax;
      var mid := UnitMid;
      var n: nat := node;
      var current := nodes[node];
      while current.parent != n
        invariant depth <= 1
        invariant depth == 0 ==> n == node && lo == UnitMin && hi == UnitMax && mid == UnitMid
        invariant depth == 1 ==>
                    n == current.parent != node && (lo, hi) == RegionStep(nodes[current.parent], node, UnitMin, UnitMax, UnitMid)
        decreases 1 - depth
      {
        var parent := nodes[current.parent];
        if parent.Internal? && |parent.children| == 4 {
          if parent.children[0] == n {
            lo := Point(lo.x / 2.0, lo.y / 2.0);
            hi := Point(mid.x / 2.0, mid.y / 2.0);
          } else if parent.children[1] == n {
            lo := Point(mid.x / 2.0, lo.y / 2.0);
            hi := Point(hi.x / 2.0, mid.y / 2.0);
          } else if parent.children[2] == n {
            lo := Point(lo.x / 2.0, mid.y / 2.0);
            hi := Point(mid.x / 2.0, hi.y / 2.0);
          } else if parent.children[3] == n {
            lo := Point(mid.x / 2.0, mid.y / 2.0);
            hi := Point(hi.x / 2.0, hi.y / 2.0);
          }
        }
        mid := Mid(lo, hi);
        depth := depth + 1;
        n := current.parent;
      }
      assert depth == 0 <==> nodes[node].parent == node;
      ghost var unit := lo;
      ghost var unit' := hi;
      var width, height := max.x - min.x, max.y - min.y;
      lo := Point(lo.x * width + min.x, lo.y * height + min.y);
      hi := Point(hi.x * width + min.x, hi.y * height + min.y);
      assert State().min == min && State().max == max;
      assert lo.x == unit.x * (max.x - min.x) + min.x;
      assert lo == Rescale(State(), unit);
      assert hi == Rescale(State(), unit');
    }

    /** ShouldLeafSplit: a leaf of the arena, not at depth 15, with a full bucket. */
    method ShouldLeafSplit(node: nat) returns (b: bool)
      requires ParentsBefore(nodes)
      ensures b == ShouldSplit(State(), node)
      ensures b ==> node < |nodes| && nodes[node].Leaf? && nodes[node].count == Capacity
                    && Depth(nodes, node) != Levels - 1
    {
      if node >= |nodes| {
        return false;
      }
      if !nodes[node].Leaf? {
        return false;
      }
      var depth := GetNodeDepth(node);
      if depth == Levels - 1 {
        return false;
      }
      return nodes[node].count == Capacity;
    }

    /**
     * GetNewID: one ascending scan over the leaf's records, stepping the
     * candidate slot whenever a record's slot equals it.
     */
    method GetNewID(node: nat) returns (id: nat)
      requires Valid()
      ensures id == NewId(State(), node)
      ensures node < |nodes| && nodes[node].Leaf? ==> id <= nodes[node].count
    {
      if node >= |nodes| || !nodes[node].Leaf? {
        return NoIndex;
      }
      assert LeafOk(State(), node);
      var leaf := nodes[node];
      ghost var rs := LeafRecords(State(), node);
      id := 0;
      var i := 0;
      while i < leaf.count
        invariant i <= leaf.count
        invariant id == NewIdOf(rs[..i])
      {
        assert rs[..i + 1][..i] == rs[..i];
        if IdSlot(buckets[leaf.data][i].id) == id {
          id := id + 1;
        }
        i := i + 1;
      }
      assert rs[..leaf.count] == rs;
      NewIdBound(rs);
    }

    /**
     * SplitLeafNode: take the leaf's records out of its bucket, append four
     * empty child leaves (the first keeping the bucket, the others with new
     * buckets), make the node internal over them and deal the records out by
     * quadrant around the midpoint GetNodeRegion gives.
     */
    method SplitLeafNode(node: nat)
      requires ParentsBefore(nodes)
      requires node < |nodes| && nodes[node].Leaf? ==> LeafOk(State(), node)
      modifies this
      ensures State() == Split(old(State()), node)
    {
      if node >= |nodes| || !nodes[node].Leaf? {
        return;
      }
      ghost var t := State();
      ghost var rs := LeafRecords(t, node);
      // The source's `min` and `max` start uninitialised; they are overwritten
      // because `node` lies in the arena.
      var depth, lo, hi := GetNodeRegion(node, UnitMin, UnitMax);
      if depth == Levels {
        // GetNodeRegion reports depth 0 or 1, so this return is never taken.
        return;
      }
      var mid := Mid(lo, hi);
      assert mid == SplitMid(t, node);
      var leaf := nodes[node];
      var count := leaf.count;
      var oldLeafData := buckets[leaf.data];
      // The leaf's bucket is swapped for an empty one; four leaves are
      // appended (the first taking that bucket, the others three new ones)
      // and the node becomes internal over them.
      var firstChild, firstLeafData := |nodes|, |buckets|;
      nodes := (nodes + [NewLeaf(node, leaf.data), NewLeaf(node, firstLeafData),
                         NewLeaf(node, firstLeafData + 1), NewLeaf(node, firstLeafData + 2)])
               [node := Internal(leaf.parent, [firstChild, firstChild + 1, firstChild + 2, firstChild + 3])];
      buckets := buckets[leaf.data := EmptyBucket()] + [EmptyBucket(), EmptyBucket(), EmptyBucket()];
      SplitWithNone(t, node, mid);
      Redistribute(t, node, mid, oldLeafData[..count]);
    }

    /**
     * The redistribution loop of SplitLeafNode: each old record of the split
     * leaf, in order, goes into the child of its quadrant around `mid`.
     */
    method Redistribute(ghost t: Tree, node: nat, mid: Point, rs: seq<Record>)
      requires node < |t.nodes| && t.nodes[node].Leaf? && t.nodes[node].data < |t.buckets|
      requires |rs| <= Capacity && State() == SplitWith(t, node, mid, [])
      modifies this
      ensures State() == SplitWith(t, node, mid, rs)
    {
      var i := 0;
      while i < |rs|
        invariant i <= |rs| && State() == SplitWith(t, node, mid, rs[..i])
      {
        var data := rs[i];
        SplitWithPlace(t, node, mid, rs[..i], data, State());
        StoreRecord(nodes[node].children[Quadrant(data.pos, mid)], data);
        assert rs[..i + 1] == rs[..i] + [data];
        i := i + 1;
      }
      assert rs[..i] == rs;
    }

    /**
     * The steps Insert and InsertData share: find the leaf for `path`, split
     * it if it should split, and find the leaf for `path` again.
     */
    method SettleLeaf(path: nat) returns (node: nat)
      requires Valid()
      modifies this
      ensures Valid()
      ensures (State(), node) == Settle(old(State()), path)
    {
      node := GetPathNode(path);
      var split := ShouldLeafSplit(node);
      if split {
        SplitValid(State(), node);
        SplitLeafNode(node);
      }
      node := GetPathNode(path);
    }

    /**
     * InsertData: settle on the leaf of the path stored in the record's id
     * and append the record unless that leaf is full.
     */
    method InsertData(data: Record) returns (ok: bool)
      requires Valid()
      modifies this
      ensures Valid()
      ensures (State(), ok) == InsertDataSpec(old(State()), data)
    {
      var node := SettleLeaf(IdPath(data.id));
      if nodes[node].count == Capacity {
        return false;
      }
      AppendRecord(node, data);
      return true;
    }

    /**
     * Insert: resize to the union rectangle when the point lies outside the
     * bounds (ignoring whether that worked), then place the record.
     */
    method Insert(pos: Point, value: nat) returns (id: nat)
      requires Valid()
      modifies this
      ensures (State(), id) == InsertSpec(old(State()), pos, value)
      ensures Valid()
    {
      ghost var t := State();
      if pos.x < min.x || pos.y < min.y || pos.x > max.x || pos.y > max.y {
        var resized := Resize(Lower(min, pos), Upper(max, pos));
      }
      assert State() == Prepared(t, pos);
      id := Place(pos, value);
    }

    /**
     * The rest of Insert, within the bounds: compute the path, settle on its
     * leaf and append the record with id `path << 32 | slot`, or return `~0`
     * when the leaf is full.
     */
    method Place(pos: Point, value: nat) returns (id: nat)
      requires Valid()
      modifies this
      ensures Valid()
      ensures (State(), id) == InsertAt(old(State()), pos, value)
    {
      ghost var t := State();
      ghost var spec := InsertAt(t, pos, value);
      var path, _, _ := ComputePath(pos);
      var node := SettleLeaf(path);
      ghost var s := State();
      var slot := GetNewID(node);
      id := MakeId(path, slot);
      if nodes[node].count == Capacity {
        return NoIndex;
      }
      AppendRecord(node, Record(pos, id, value));
    }

    /** `m_LeafDatas[pLeaf->data].datas[pLeaf->count++] = data` for a leaf with room. */
    method AppendRecord(node: nat, data: Record)
      requires Valid() && node < |nodes| && nodes[node].Leaf? && nodes[node].count < Capacity
      modifies this
      ensures Valid()
      ensures State() == Append(old(State()), node, data)
    {
      AppendValid(State(), node, data);
      StoreRecord(node, data);
    }

    /** Writes `data` into the first free slot of leaf `node` and counts it. */
    method StoreRecord(node: nat, data: Record)
      requires node < |nodes| && nodes[node].Leaf? && nodes[node].data < |buckets|
      requires nodes[node].count < |buckets[nodes[node].data]|
      modifies this
      ensures var leaf := old(nodes[node]);
              && nodes == old(nodes)[node := leaf.(count := leaf.count + 1)]
              && buckets == old(buckets)[leaf.data := old(buckets[leaf.data])[leaf.count := data]]
      ensures min == old(min) && max == old(max)
    {
      var leaf := nodes[node];
      nodes, buckets := nodes[node := leaf.(count := leaf.count + 1)],
                        buckets[leaf.data := buckets[leaf.data][leaf.count := data]];
    }

    /**
     * Erase: scan the leaf of the id's path for the first record with this
     * id; remove it by moving the later records down one slot (or clearing
     * it when it is the last) and decrement the count.
     */
    method Erase(id: nat)
      requires Valid()
      modifies this
      ensures Valid()
      ensures State() == EraseSpec(old(State()), id)
    {
      ghost var t := State();
      var node := GetPathNode(IdPath(id));
      if !nodes[node].Leaf? {
        return;
      }
      assert LeafOk(t, node);
      var leaf := nodes[node];
      var found := FindRecord(buckets[leaf.data], leaf.count, id);
      if found.Some? {
        RemoveRecord(node, found.value);
      }
    }

    /**
     * Erase's removal of slot `i` of a leaf: the later records move down one
     * slot (the `memmove`) and the freed last slot is cleared.
     */
    method RemoveRecord(node: nat, i: nat)
      requires Valid() && node < |nodes| && nodes[node].Leaf? && i < nodes[node].count
      modifies this
      ensures State() == EraseAt(old(State()), node, i)
      ensures Valid()
    {
      ghost var t := State();
      EraseAtValid(t, node, i);
      var leaf := nodes[node];
      var datas := buckets[leaf.data];
      if i == leaf.count - 1 {
        datas := datas[i := EmptyRecord()];
      } else {
        datas := datas[..i] + datas[i + 1..] + [EmptyRecord()];
      }
      nodes, buckets := nodes[node := leaf.(count := leaf.count - 1)], buckets[leaf.data := datas];
      assert State() == EraseAt(t, node, i);
    }

    /** GetData: the first record with this id in the leaf of the id's path, if any. */
    method GetData(id: nat) returns (r: Option<Record>)
      requires Valid()
      ensures r == GetDataSpec(State(), id)
    {
      var node := GetPathNode(IdPath(id));
      if !nodes[node].Leaf? {
        return None;
      }
      assert LeafOk(State(), node);
      var leaf := nodes[node];
      var found := FindRecord(buckets[leaf.data], leaf.count, id);
      if found.Some? {
        return Some(buckets[leaf.data][found.value]);
      }
      return None;
    }

    /**
     * VisitDatas: hand each record of a leaf to the visitor in order and
     * stop with false at the first it rejects; true for anything but a leaf.
     */
    method VisitDatas(node: nat, visit: Record -> bool) returns (b: bool)
      requires Valid()
      ensures b <==> forall r :: r in LeafRecords(State(), node) ==> visit(r)
    {
      if node >= |nodes| || !nodes[node].Leaf? || nodes[node].data >= |buckets| {
        return true;
      }
      LeafFits(State(), node);
      var leaf := nodes[node];
      b := VisitAll(buckets[leaf.data], leaf.count, visit);
    }

    /**
     * Resize: build a fresh tree over (lo, hi) and give it every record, in
     * traversal order, through InsertData; adopt it only if every insertion
     * succeeded.
     */
    method Resize(lo: Point, hi: Point) returns (ok: bool)
      requires Valid()
      modifies this
      ensures Valid()
      ensures (State(), ok) == ResizeSpec(old(State()), lo, hi)
    {
      ghost var t := State();
      ghost var spec := ResizeSpec(t, lo, hi);
      var resizedQuadtree := new Quadtree(lo, hi);
      var rs := AllRecords(State());
      ghost var refill := InsertAll(EmptyTree(lo, hi), rs);
      var i := 0;
      while i < |rs|
        invariant i <= |rs|
        invariant fresh(resizedQuadtree) && resizedQuadtree.Valid()
        invariant State() == t
        invariant InsertAll(resizedQuadtree.State(), rs[i..]) == refill
      {
        ghost var before := resizedQuadtree.State();
        assert rs[i..][0] == rs[i] && rs[i..][1..] == rs[i + 1..];
        ok := resizedQuadtree.InsertData(rs[i]);
        if !ok {
          return false;
        }
        i := i + 1;
      }
      min, max := resizedQuadtree.min, resizedQuadtree.max;
      nodes, buckets := resizedQuadtree.nodes, resizedQuadtree.buckets;
      return true;
    }

    /** EnsureRegion: nothing to do when (lo, hi) is covered, otherwise Resize to the union. */
    method EnsureRegion(lo: Point, hi: Point) returns (ok: bool)
      requires Valid()
      modifies this
      ensures Valid()
      ensures (State(), ok) == EnsureRegionSpec(old(State()), lo, hi)
    {
      if lo.x < min.x || lo.y < min.y || hi.x > max.x || hi.y > max.y {
        ok := Resize(Lower(lo, min), Upper(hi, max));
        return;
      }
      return true;
    }

    /**
     * FindNeighbours: the records within `maxDistance` of `pos`, met in the
     * order of the pruned traversal, offered one by one to the caller's
     * buffer of `cap` entries. Returns how many entries were written and how
     * many records were in range (what the source leaves in `maxNeighbours`);
     * the buffer past the written entries is left alone.
     */
    method FindNeighbours(pos: Point, maxDistance: real, neighbours: array<Neighbour>, cap: nat)
      returns (count: nat, total: nat)
      requires Valid()
      requires cap <= neighbours.Length
      modifies neighbours
      ensures count <= cap
      ensures (neighbours[..count], total) == FindNeighboursSpec(State(), pos, maxDistance, cap)
      ensures forall k :: count <= k < neighbours.Length ==> neighbours[k] == old(neighbours[k])
    {
      var rs := Candidates(State(), pos, maxDistance);
      count, total := GatherInto(rs, pos, maxDistance, neighbours, cap);
    }

    /** Clear: back to one empty root leaf and one bucket, keeping the bounds. */
    method Clear()
      modifies this
      ensures Valid()
      ensures State() == EmptyTree(old(min), old(max))
    {
      nodes := [NewLeaf(0, 0)];
      buckets := [EmptyBucket()];
    }
  }

  /** VisitDatas' loop: hand `visit` the first `count` records until it returns false. */
  method VisitAll(datas: seq<Record>, count: nat, visit: Record -> bool) returns (b: bool)
    requires count <= |datas|
    ensures b <==> forall r :: r in datas[..count] ==> visit(r)
  {
    var i := 0;
    while i < count
      invariant i <= count
      invariant forall j :: 0 <= j < i ==> visit(datas[j])
    {
      if !visit(datas[i]) {
        assert datas[..count][i] == datas[i];
        return false;
      }
      i := i + 1;
    }
    forall r | r in datas[..count]
      ensures visit(r)
    {
      var j :| 0 <= j < count && datas[..count][j] == r;
    }
    return true;
  }

  /**
   * The scan Erase and GetData share: the first of the `count` used slots
   * whose record carries `id`.
   */
  method FindRecord(datas: seq<Record>, count: nat, id: nat) returns (r: Option<nat>)
    requires count <= |datas|
    ensures r == FirstIndex(datas[..count], id)
  {
    var i := 0;
    while i < count
      invariant i <= count
      invariant forall j :: 0 <= j < i ==> datas[j].id != id
    {
      if datas[i].id == id {
        assert FirstIndex(datas[..count], id) == Some(i);
        return Some(i);
      }
      i := i + 1;
    }
    assert FirstIndex(datas[..count], id) == None;
    return None;
  }

  /**
   * The record visitor of FindNeighbours run over `rs`: count each record in
   * range and offer it to the buffer.
   */
  method GatherInto(rs: seq<Record>, pos: Point, maxDistance: real, a: array<Neighbour>, cap: nat)
    returns (count: nat, total: nat)
    requires cap <= a.Length
    modifies a
    ensures count <= cap
    ensures (a[..count], total) == Gather(rs, pos, maxDistance, cap)
    ensures forall k :: count <= k < a.Length ==> a[k] == old(a[k])
  {
    count, total := 0, 0;
    var j := 0;
    while j < |rs|
      invariant j <= |rs| && count <= cap
      invariant (a[..count], total) == Gather(rs[..j], pos, maxDistance, cap)
      invariant forall k :: count <= k < a.Length ==> a[k] == old(a[k])
    {
      GatherSnoc(rs, j, pos, maxDistance, cap);
      if Within(pos, maxDistance, rs[j]) {
        total := total + 1;
        count := OfferInto(a, count, cap, Entry(pos, rs[j]));
      }
      j := j + 1;
    }
    assert rs[..|rs|] == rs;
  }

  /**
   * One accepted record offered to the `count` sorted entries of `a`: find
   * its place by binary search, move the later entries up (dropping the last
   * one when `cap` entries are in use) and write it.
   */
  method OfferInto(a: array<Neighbour>, count: nat, cap: nat, n: Neighbour) returns (count': nat)
    requires count <= cap <= a.Length
    requires Sorted(a[..count])
    modifies a
    ensures count <= count' <= cap
    ensures a[..count'] == Offer(old(a[..count]), cap, n)
    ensures forall k :: count' <= k < a.Length ==> a[k] == old(a[k])
  {
    ghost var buf := a[..count];
    var it := LowerBoundSearch(a, count, n.distance);
    if it == count {
      if count >= cap {
        return count;
      }
      SpliceAppend(buf, cap, n, it);
      count' := count + 1;
    } else if it < count - 1 {
      if count >= cap {
        SpliceEvict(buf, cap, n, it);
        ShiftUp(a, it, count - 1);
        count' := count;
      } else {
        SpliceGrow(buf, cap, n, it);
        ShiftUp(a, it, count);
        count' := count + 1;
      }
    } else {
      SpliceLast(buf, cap, n, it);
      count' := count;
    }
    a[it] := n;
    WrittenAt(buf, a[..], it, count', n);
  }

  /*
   * Offer as one splice, case by case: `n` is placed at its lower bound `lb`
   * and followed by the entries from there up to the new count less one.
   */

  /** Past the end with room: the splice appends. */
  lemma SpliceAppend(buf: seq<Neighbour>, cap: nat, n: Neighbour, lb: nat)
    requires |buf| < cap && lb == LowerBound(buf, n.distance) && lb == |buf|
    ensures Offer(buf, cap, n) == buf[..lb] + [n] + buf[lb..|buf|]
  {
    assert buf[..lb] == buf;
  }

  /** Before the last entry with room: everything from `lb` on moves up. */
  lemma SpliceGrow(buf: seq<Neighbour>, cap: nat, n: Neighbour, lb: nat)
    requires |buf| < cap && lb == LowerBound(buf, n.distance) && lb < |buf| - 1
    ensures Offer(buf, cap, n) == buf[..lb] + [n] + buf[lb..|buf|]
  {
    assert buf[lb..] == buf[lb..|buf|];
  }

  /** Before the last entry when full: the last entry falls off. */
  lemma SpliceEvict(buf: seq<Neighbour>, cap: nat, n: Neighbour, lb: nat)
    requires |buf| >= cap && lb == LowerBound(buf, n.distance) && lb < |buf| - 1
    ensures Offer(buf, cap, n) == buf[..lb] + [n] + buf[lb..|buf| - 1]
  {
  }

  /** At the last entry: it is overwritten. */
  lemma SpliceLast(buf: seq<Neighbour>, cap: nat, n: Neighbour, lb: nat)
    requires lb == LowerBound(buf, n.distance) && lb == |buf| - 1
    ensures Offer(buf, cap, n) == buf[..lb] + [n] + buf[lb..lb]
  {
    assert buf[lb..lb] == [];
  }

  /**
   * After the move and the write, the first `m` entries are the old ones
   * before `it`, then `n`, then the old ones from `it` on.
   */
  lemma WrittenAt(buf: seq<Neighbour>, after: seq<Neighbour>, it: nat, m: nat, n: Neighbour)
    requires it < m <= |after| && m - 1 <= |buf|
    requires forall k :: 0 <= k < it ==> after[k] == buf[k]
    requires after[it] == n
    requires forall k :: it < k < m ==> after[k] == buf[k - 1]
    ensures after[..m] == buf[..it] + [n] + buf[it..m - 1]
  {
  }

  /** std::lower_bound over the first `count` entries: a binary search for the first not nearer than `d`. */
  method LowerBoundSearch(a: array<Neighbour>, count: nat, d: real) returns (i: nat)
    requires count <= a.Length
    requires Sorted(a[..count])
    ensures i == LowerBound(a[..count], d)
  {
    var lo, hi := 0, count;
    while lo < hi
      invariant lo <= hi <= count
      invariant forall k :: 0 <= k < lo ==> a[k].distance < d
      invariant forall k :: hi <= k < count ==> a[k].distance >= d
    {
      var mid := lo + (hi - lo) / 2;
      if a[mid].distance < d {
        assert forall k :: 0 <= k <= mid ==> a[..count][k].distance <= a[..count][mid].distance;
        lo := mid + 1;
      } else {
        hi := mid;
      }
    }
    ghost var buf := a[..count];
    assert forall k :: 0 <= k < lo ==> buf[k].distance < d;
    assert lo < count ==> buf[lo].distance >= d;
    return lo;
  }

  /** The memmove of FindNeighbours: entries `from` to `to - 1` move up one place. */
  method ShiftUp(a: array<Neighbour>, from: nat, to: nat)
    requires from <= to < a.Length
    modifies a
    ensures forall k :: 0 <= k <= from ==> a[k] == old(a[k])
    ensures forall k :: from < k <= to ==> a[k] == old(a[k - 1])
    ensures forall k :: to < k < a.Length ==> a[k] == old(a[k])
  {
    var k := to;
    while k > from
      invariant from <= k <= to
      invariant forall i :: 0 <= i <= k ==> a[i] == old(a[i])
      invariant forall i :: k < i <= to ==> a[i] == old(a[i - 1])
      invariant forall i :: to < i < a.Length ==> a[i] == old(a[i])
    {
      a[k] := a[k - 1];
      k := k - 1;
    }
  }
}
