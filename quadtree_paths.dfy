// Quadrant choices, the 32-bit path that packs sixteen of them, and the
// 64-bit record id that pairs a path with a slot number (Quadtree.cpp,
// ComputePath, GetPathNode, Insert and GetNewID).
//
// Paths and ids are natural numbers. The source combines them with bit
// operations that act on disjoint bit ranges, so they are written here with
// arithmetic: `a | b << k` with `a < 2^k` is `a + b * 2^k`, `p >> 2i` is `p`
// divided by four `i` times (Shr2) and `& 0b11` is `% 4`.
module QuadtreePaths {
  import opened QuadtreeTypes

  /** The midpoint `min + (max - min) / 2` of a rectangle. */
  function Mid(lo: Point, hi: Point): Point
  {
    Point(lo.x + (hi.x - lo.x) / 2.0, lo.y + (hi.y - lo.y) / 2.0)
  }

  /**
   * The 2-bit quadrant of `p` relative to `mid`: bit 0 is `x >= mid.x`,
   * bit 1 is `y >= mid.y`.
   */
  function Quadrant(p: Point, mid: Point): (q: nat)
    ensures q < 4
    ensures q % 2 == 1 <==> p.x >= mid.x
    ensures q / 2 == 1 <==> p.y >= mid.y
  {
    (if p.x >= mid.x then 1 else 0) + (if p.y >= mid.y then 2 else 0)
  }

  /** The sub-rectangle of quadrant `q` of (lo, hi), split at `mid`. */
  function Quarter(lo: Point, hi: Point, mid: Point, q: nat): (Point, Point)
    requires q < 4
  {
    match q
    case 0 => (lo, mid)
    case 1 => (Point(mid.x, lo.y), Point(hi.x, mid.y))
    case 2 => (Point(lo.x, mid.y), Point(mid.x, hi.y))
    case 3 => (mid, hi)
  }

  /** The first `n` quadrant choices for `p`, descending from (lo, hi). */
  function Quadrants(p: Point, lo: Point, hi: Point, n: nat): (qs: seq<nat>)
    ensures |qs| == n
    ensures forall i :: 0 <= i < n ==> qs[i] < 4
    decreases n
  {
    if n == 0 then []
    else
      var q := Quadrant(p, Mid(lo, hi));
      var r := Quarter(lo, hi, Mid(lo, hi), q);
      [q] + Quadrants(p, r.0, r.1, n - 1)
  }

  /** The rectangle reached after `n` quadrant choices for `p`. */
  function Cell(p: Point, lo: Point, hi: Point, n: nat): (Point, Point)
    decreases n
  {
    if n == 0 then (lo, hi)
    else
      var r := Quarter(lo, hi, Mid(lo, hi), Quadrant(p, Mid(lo, hi)));
      Cell(p, r.0, r.1, n - 1)
  }

  function Pow4(n: nat): (r: nat)
    ensures r >= 1
  {
    if n == 0 then 1 else 4 * Pow4(n - 1)
  }

  /** Packs base-4 digits, the first one lowest. */
  function Pack(ds: seq<nat>): nat
  {
    if ds == [] then 0 else ds[0] + 4 * Pack(ds[1..])
  }

  /** `p >> (2 * i)`. */
  function Shr2(p: nat, i: nat): nat
  {
    if i == 0 then p else Shr2(p / 4, i - 1)
  }

  /** `(p >> (2 * i)) & 0b11`: the quadrant recorded for level `i`. */
  function Digit(p: nat, i: nat): (d: nat)
    ensures d < 4
  {
    Shr2(p, i) % 4
  }

  /** The path ComputePath derives for `p` inside the bounds (lo, hi). */
  function PathOf(p: Point, lo: Point, hi: Point): nat
  {
    Pack(Quadrants(p, lo, hi, Levels))
  }

  /** `path << 32 | slot`. */
  function MakeId(path: nat, slot: nat): nat
  {
    path * HalfWord + slot
  }

  /** `id >> 32`. */
  function IdPath(id: nat): nat
  {
    id / HalfWord
  }

  /** `id & 0xFFFFFFFF`. */
  function IdSlot(id: nat): nat
  {
    id % HalfWord
  }

  // ---- Lemmas ------------------------------------------------------------

  /** Packing digits below 4 stays below 4^|ds|. */
  lemma {:induction false} PackBound(ds: seq<nat>)
    requires forall i :: 0 <= i < |ds| ==> ds[i] < 4
    ensures Pack(ds) < Pow4(|ds|)
  {
    if ds != [] {
      PackBound(ds[1..]);
    }
  }

  /** Appending a digit at the top: what `path |= childPath << (2 * i)` does. */
  lemma {:induction false} PackSnoc(ds: seq<nat>, d: nat)
    ensures Pack(ds + [d]) == Pack(ds) + d * Pow4(|ds|)
  {
    if ds == [] {
      assert [d][1..] == [];
    } else {
      var rest, p := ds[1..], Pow4(|ds| - 1);
      assert (ds + [d])[1..] == rest + [d];
      PackSnoc(rest, d);
      assert Pack(ds + [d]) == ds[0] + 4 * (Pack(rest) + d * p);
      assert 4 * (d * p) == d * (4 * p);
      assert Pow4(|ds|) == 4 * p;
    }
  }

  /** Shifting a packed path right by `2 * i` bits leaves the digits from `i` on. */
  lemma {:induction false} ShrPack(ds: seq<nat>, i: nat)
    requires i <= |ds|
    requires forall k :: 0 <= k < |ds| ==> ds[k] < 4
    ensures Shr2(Pack(ds), i) == Pack(ds[i..])
  {
    if i > 0 {
      assert Pack(ds) / 4 == Pack(ds[1..]);
      ShrPack(ds[1..], i - 1);
      assert ds[1..][i - 1..] == ds[i..];
    }
  }

  /** Level `i`'s quadrant is read back from bits 2i and 2i+1 of the packed path. */
  lemma DigitPack(ds: seq<nat>, i: nat)
    requires i < |ds|
    requires forall k :: 0 <= k < |ds| ==> ds[k] < 4
    ensures Digit(Pack(ds), i) == ds[i]
  {
    ShrPack(ds, i);
    assert ds[i..][0] == ds[i];
  }

  /** The quadrant choice at each of the 16 levels, and the bound 2^32. */
  lemma PathOfDigits(p: Point, lo: Point, hi: Point, i: nat)
    requires i < Levels
    ensures PathOf(p, lo, hi) < HalfWord
    ensures Digit(PathOf(p, lo, hi), i) == Quadrants(p, lo, hi, Levels)[i]
  {
    var qs := Quadrants(p, lo, hi, Levels);
    PackBound(qs);
    Pow4Levels();
    DigitPack(qs, i);
  }

  /** Level `i`'s choice compares `p` with the midpoint of the cell of level `i`. */
  lemma {:induction false} QuadrantsAt(p: Point, lo: Point, hi: Point, n: nat, i: nat)
    requires i < n
    ensures Quadrants(p, lo, hi, n)[i]
         == Quadrant(p, Mid(Cell(p, lo, hi, i).0, Cell(p, lo, hi, i).1))
    decreases i
  {
    if i > 0 {
      var r := Quarter(lo, hi, Mid(lo, hi), Quadrant(p, Mid(lo, hi)));
      QuadrantsAt(p, r.0, r.1, n - 1, i - 1);
    }
  }

  /** One more level refines the cell reached so far to the quadrant of `p` in it. */
  lemma {:induction false} CellSnoc(p: Point, lo: Point, hi: Point, n: nat)
    ensures var c := Cell(p, lo, hi, n); var m := Mid(c.0, c.1);
            Cell(p, lo, hi, n + 1) == Quarter(c.0, c.1, m, Quadrant(p, m))
    decreases n
  {
    if n > 0 {
      var r := Quarter(lo, hi, Mid(lo, hi), Quadrant(p, Mid(lo, hi)));
      CellSnoc(p, r.0, r.1, n - 1);
    }
  }

  /** One more level appends the quadrant of `p` in the cell reached so far. */
  lemma {:induction false} QuadrantsSnoc(p: Point, lo: Point, hi: Point, n: nat)
    ensures var c := Cell(p, lo, hi, n);
            Quadrants(p, lo, hi, n + 1) == Quadrants(p, lo, hi, n) + [Quadrant(p, Mid(c.0, c.1))]
    decreases n
  {
    if n > 0 {
      var r := Quarter(lo, hi, Mid(lo, hi), Quadrant(p, Mid(lo, hi)));
      QuadrantsSnoc(p, r.0, r.1, n - 1);
    }
  }

  /**
   * One round of ComputePath: adding the quadrant of level `n`, shifted to
   * bits 2n and 2n+1, to the packed choices so far gives the packed choices
   * of one more level, and the next cell is that quadrant of the current one.
   */
  lemma DescendStep(p: Point, lo: Point, hi: Point, n: nat)
    ensures var c := Cell(p, lo, hi, n); var m := Mid(c.0, c.1); var q := Quadrant(p, m);
            && Pack(Quadrants(p, lo, hi, n + 1)) == Pack(Quadrants(p, lo, hi, n)) + q * Pow4(n)
            && Cell(p, lo, hi, n + 1) == Quarter(c.0, c.1, m, q)
  {
    QuadrantsSnoc(p, lo, hi, n);
    CellSnoc(p, lo, hi, n);
    var c := Cell(p, lo, hi, n);
    PackSnoc(Quadrants(p, lo, hi, n), Quadrant(p, Mid(c.0, c.1)));
  }

  /** The path fits in 32 bits and bits 2i, 2i+1 hold the quadrant chosen at level `i`. */
  lemma PathLayout(p: Point, lo: Point, hi: Point)
    ensures PathOf(p, lo, hi) < HalfWord
    ensures forall i :: 0 <= i < Levels ==>
              Digit(PathOf(p, lo, hi), i) == Quadrant(p, Mid(Cell(p, lo, hi, i).0, Cell(p, lo, hi, i).1))
  {
    PathOfDigits(p, lo, hi, 0);
    forall i | 0 <= i < Levels
      ensures Digit(PathOf(p, lo, hi), i) == Quadrant(p, Mid(Cell(p, lo, hi, i).0, Cell(p, lo, hi, i).1))
    {
      PathOfDigits(p, lo, hi, i);
      QuadrantsAt(p, lo, hi, Levels, i);
    }
  }

  lemma Pow4Levels()
    ensures Pow4(Levels) == HalfWord
  {
    assert Pow4(4) == 256;
    assert Pow4(8) == 256 * 256 by {
      assert Pow4(8) == 4 * 4 * 4 * 4 * Pow4(4);
    }
    assert Pow4(12) == 256 * 256 * 256 by {
      assert Pow4(12) == 4 * 4 * 4 * 4 * Pow4(8);
    }
    assert Pow4(16) == 4 * 4 * 4 * 4 * Pow4(12);
  }

  /** Ids round-trip: the path is the high half and the slot the low half. */
  lemma IdHalves(path: nat, slot: nat)
    requires slot < HalfWord
    ensures IdPath(MakeId(path, slot)) == path
    ensures IdSlot(MakeId(path, slot)) == slot
  {
    var id := MakeId(path, slot);
    assert id == path * HalfWord + slot;
  }

  /** A path below 2^32 and a slot below `~0 & 0xFFFFFFFF` never form the sentinel id. */
  lemma IdNotSentinel(path: nat, slot: nat)
    requires path < HalfWord && slot < HalfWord - 1
    ensures MakeId(path, slot) < NoIndex
  {
    assert path * HalfWord <= (HalfWord - 1) * HalfWord;
  }
}
