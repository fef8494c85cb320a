// The value types of the arena-backed quadtree (Quadtree.h): points, the
// visitor decision, the tagged node union, records, neighbour entries and the
// constants the source spells with `sizeof` and `~0ULL`.
module QuadtreeTypes {

  /** Records per leaf bucket (`QuadtreeLeafData::datas[32]`). */
  const Capacity: nat := 32

  /** Levels of 2-bit quadrant choices packed into a path. */
  const Levels: nat := 16

  /** `~0ULL`: the "no index" / "no id" sentinel of a 64-bit `size_t`. */
  const NoIndex: nat := 0xFFFF_FFFF_FFFF_FFFF

  /** `~0ULL` stored in the 63-bit `parent` bit-field. */
  const NoParent: nat := 0x7FFF_FFFF_FFFF_FFFF

  /** Two to the 32nd: the weight of the path half of a record id. */
  const HalfWord: nat := 0x1_0000_0000

  datatype Option<T> = None | Some(value: T)

  datatype Point = Point(x: real, y: real)

  /** What a node visitor asks the traversal to do next (`EQuadtreeVisit`). */
  datatype Visit = Continue | Skip | Exit

  /**
   * A node of the arena. The source overlays `QuadtreeNode` and
   * `QuadtreeLeaf` in the same storage and tells them apart by the `leaf`
   * bit; here the two layouts are the two variants of one datatype.
   * `children` holds the four child indices in quadrant order
   * (low-x/low-y, high-x/low-y, low-x/high-y, high-x/high-y); `data` is the
   * index of the leaf's bucket and `count` the number of records it uses.
   */
  datatype Node =
    | Internal(parent: nat, children: seq<nat>)
    | Leaf(parent: nat, data: nat, count: nat)

  /** A stored point with its 64-bit id (path << 32 | slot) and payload. */
  datatype Record = Record(pos: Point, id: nat, value: nat)

  /**
   * An entry of the neighbour buffer. `distance` holds the SQUARED
   * distance to the query point; the source stores its square root, which
   * orders the entries identically.
   */
  datatype Neighbour = Neighbour(data: Record, distance: real)

  /** `QuadtreeNode()`: an internal node whose parent and children are all the sentinel. */
  function DefaultNode(): (n: Node)
    ensures n.Internal? && n.parent == NoParent
    ensures |n.children| == 4 && forall k :: 0 <= k < 4 ==> n.children[k] == NoIndex
  {
    Internal(NoParent, [NoIndex, NoIndex, NoIndex, NoIndex])
  }

  /** `QuadtreeLeaf(parent, data)`: an empty leaf using bucket `data`. */
  function NewLeaf(parent: nat, data: nat): (n: Node)
    ensures n.Leaf? && n.count == 0
    ensures n.parent == parent && n.data == data
  {
    Leaf(parent, data, 0)
  }

  /** `QuadtreeData()`: the "no record" value, id and payload both `~0`. */
  function EmptyRecord(): (r: Record)
    ensures r.id == NoIndex && r.value == NoIndex && r.pos == Point(0.0, 0.0)
  {
    Record(Point(0.0, 0.0), NoIndex, NoIndex)
  }

  /** `QuadtreeLeafData()`: a bucket of 32 empty records. */
  function EmptyBucket(): (b: seq<Record>)
    ensures |b| == Capacity
    ensures forall k :: 0 <= k < |b| ==> b[k] == EmptyRecord()
  {
    seq(Capacity, _ => EmptyRecord())
  }

  /** A bucket whose used prefix is `used` and whose other slots hold the empty record. */
  function Pad(used: seq<Record>): (b: seq<Record>)
    requires |used| <= Capacity
    ensures |b| == Capacity && b[..|used|] == used
    ensures forall k :: |used| <= k < Capacity ==> b[k] == EmptyRecord()
  {
    used + seq(Capacity - |used|, _ => EmptyRecord())
  }

  /** Writing one more record into the first free slot of a padded bucket. */
  lemma PadPush(used: seq<Record>, r: Record)
    requires |used| < Capacity
    ensures Pad(used)[|used| := r] == Pad(used + [r])
  {
    var a, b := Pad(used)[|used| := r], Pad(used + [r]);
    forall k | 0 <= k < Capacity ensures a[k] == b[k] {
      if k < |used| {
        assert a[k] == used[k] == (used + [r])[k];
      } else if k == |used| {
        assert b[k] == (used + [r])[k];
      }
    }
  }

  /** Removing slot `i` by shifting the later records down one place. */
  lemma PadShift(used: seq<Record>, i: nat)
    requires i < |used| <= Capacity
    ensures Pad(used)[..i] + Pad(used)[i + 1..] + [EmptyRecord()] == Pad(used[..i] + used[i + 1..])
  {
    var a, b := Pad(used)[..i] + Pad(used)[i + 1..] + [EmptyRecord()], Pad(used[..i] + used[i + 1..]);
    var u := used[..i] + used[i + 1..];
    assert |a| == Capacity;
    forall k | 0 <= k < Capacity ensures a[k] == b[k] {
      if k < i {
        assert a[k] == used[k] == u[k];
      } else if k < |used| - 1 {
        assert a[k] == Pad(used)[k + 1] == used[k + 1] == u[k];
      }
    }
  }

  /** Clearing the last used slot. */
  lemma PadPop(used: seq<Record>)
    requires 0 < |used| <= Capacity
    ensures Pad(used)[|used| - 1 := EmptyRecord()] == Pad(used[..|used| - 1])
  {
    var a, b := Pad(used)[|used| - 1 := EmptyRecord()], Pad(used[..|used| - 1]);
    forall k | 0 <= k < Capacity ensures a[k] == b[k] {
      if k < |used| - 1 {
        assert a[k] == used[k] == used[..|used| - 1][k];
      }
    }
  }

  /** Inserting `x` at position `i` adds one copy of it to the multiset. */
  lemma InsertMultiset<T>(s: seq<T>, i: nat, x: T)
    requires i <= |s|
    ensures multiset(s[..i] + [x] + s[i..]) == multiset(s) + multiset{x}
  {
    assert s == s[..i] + s[i..];
  }

  /** Multiset addition is associative. */
  lemma MultisetAssoc<T>(a: multiset<T>, b: multiset<T>, c: multiset<T>)
    ensures a + b + c == a + (b + c)
  {
    forall e
      ensures (a + b + c)[e] == (a + (b + c))[e]
    {
    }
  }

  /** The order in which two multisets are added does not matter. */
  lemma MultisetSwap<T>(s: multiset<T>, a: multiset<T>, b: multiset<T>)
    ensures s + a + b == s + b + a
  {
    forall e
      ensures (s + a + b)[e] == (s + b + a)[e]
    {
    }
  }

  /** Adding four multisets one by one adds their sum. */
  lemma MultisetAddFour<T>(s: multiset<T>, a: multiset<T>, b: multiset<T>, c: multiset<T>, d: multiset<T>)
    ensures s + a + b + c + d == s + (a + b + c + d)
  {
    forall e
      ensures (s + a + b + c + d)[e] == (s + (a + b + c + d))[e]
    {
    }
  }

  /** Multiset addition cancels. */
  lemma MultisetCancel<T>(a: multiset<T>, b: multiset<T>, x: multiset<T>)
    requires a + x == b + x
    ensures a == b
  {
    forall y
      ensures a[y] == b[y]
    {
      assert (a + x)[y] == (b + x)[y];
    }
  }

  /** Adding the same multiset to both sides of an equation between sums. */
  lemma MultisetAddBoth<T>(a: multiset<T>, b: multiset<T>, x: multiset<T>, y: multiset<T>, z: multiset<T>)
    requires a + y == b + z
    ensures a + x + y == b + x + z
  {
    forall e
      ensures (a + x + y)[e] == (b + x + z)[e]
    {
      assert (a + y)[e] == (b + z)[e];
    }
  }

  /**
   * A sum `l == ls + e` whose two parts split four ways, `ls` into the `s`s and
   * `e` into the `e`s, is the four-way sum of the pairs `lq == sq + eq`.
   */
  lemma Regroup<T>(l: multiset<T>, ls: multiset<T>, e: multiset<T>,
                   s0: multiset<T>, s1: multiset<T>, s2: multiset<T>, s3: multiset<T>,
                   e0: multiset<T>, e1: multiset<T>, e2: multiset<T>, e3: multiset<T>,
                   l0: multiset<T>, l1: multiset<T>, l2: multiset<T>, l3: multiset<T>)
    requires l == ls + e && ls == s0 + s1 + s2 + s3 && e == e0 + e1 + e2 + e3
    requires l0 == s0 + e0 && l1 == s1 + e1 && l2 == s2 + e2 && l3 == s3 + e3
    ensures l == l0 + l1 + l2 + l3
  {
    forall z
      ensures l[z] == (l0 + l1 + l2 + l3)[z]
    {
    }
  }

  /** Taking element `i` out of a sequence takes one copy of it out of its multiset. */
  lemma MultisetRemove<T>(s: seq<T>, i: nat)
    requires i < |s|
    ensures multiset(s) == multiset(s[..i] + s[i + 1..]) + multiset{s[i]}
  {
    assert s == s[..i] + [s[i]] + s[i + 1..];
  }

  /** If `c + m == d + r` and `m == r + o`, then `c` is `d` with `o` taken out. */
  lemma MultisetTake<T>(c: multiset<T>, d: multiset<T>, m: multiset<T>, r: multiset<T>, o: multiset<T>)
    requires c + m == d + r && m == r + o
    ensures c == d - o
  {
    forall z
      ensures c[z] == (d - o)[z]
    {
      assert (c + m)[z] == (d + r)[z];
    }
  }

  /** The last element and the rest of `a + b` come from `b` when `b` is not empty. */
  lemma SnocSplit<T>(a: seq<T>, b: seq<T>)
    requires b != []
    ensures (a + b)[..|a + b| - 1] == a + b[..|b| - 1]
    ensures (a + b)[|a + b| - 1] == b[|b| - 1]
  {
  }

  /** A non-empty sequence's multiset is its head's plus its tail's. */
  lemma MultisetCons<T>(s: seq<T>)
    requires s != []
    ensures multiset(s) == multiset{s[0]} + multiset(s[1..])
  {
    assert s == [s[0]] + s[1..];
  }

  lemma ConcatAssoc<T>(x: seq<T>, y: seq<T>, z: seq<T>)
    ensures (x + y) + z == x + (y + z)
  {
  }

  lemma AddEmpty<T>(a: multiset<T>)
    ensures a + multiset{} == a && multiset{} + a == a
  {
  }

  /** `m` when `b` holds, nothing otherwise. */
  function When<T>(b: bool, m: multiset<T>): multiset<T>
  {
    if b then m else multiset{}
  }

  /** One for true, zero for false. */
  function Ind(b: bool): nat
  {
    if b then 1 else 0
  }

  /** Adding `m` once when exactly one of the flags is set, or never when none is; or adding nothing. */
  lemma PickOne<T>(m: multiset<T>, d: bool, b0: bool, b1: bool, b2: bool, b3: bool)
    requires m == multiset{} || Ind(d) == Ind(b0) + Ind(b1) + Ind(b2) + Ind(b3)
    ensures When(d, m) == When(b0, m) + When(b1, m) + When(b2, m) + When(b3, m)
  {
  }

  /** Appending `x` or nothing adds `x` or nothing to the multiset. */
  lemma SnocWhen<T>(s: seq<T>, x: T, b: bool)
    ensures multiset(s + (if b then [x] else [])) == multiset(s) + When(b, multiset{x})
  {
    if !b {
      assert s + [] == s;
    }
  }

  /** A non-empty sequence is its prefix up to `i`, the rest but the last, and the last. */
  lemma SplitLast<T>(s: seq<T>, i: nat)
    requires i < |s|
    ensures s == s[..i] + s[i..|s| - 1] + [s[|s| - 1]]
  {
  }

  /** Inserting `n` at `i` and dropping the last element trades the last element for `n`. */
  lemma InsertDropLast<T>(s: seq<T>, i: nat, n: T)
    requires i < |s|
    ensures multiset(s[..i] + [n] + s[i..|s| - 1]) + multiset{s[|s| - 1]} == multiset(s) + multiset{n}
  {
    SplitLast(s, i);
    SwapEnds(s[..i], s[i..|s| - 1], n, s[|s| - 1]);
  }

  /** Putting `n` in and taking `l` off the end leaves the same elements as the other way round. */
  lemma SwapEnds<T>(p: seq<T>, m: seq<T>, n: T, l: T)
    ensures multiset(p + [n] + m) + multiset{l} == multiset(p + m + [l]) + multiset{n}
  {
  }
}
