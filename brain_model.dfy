// The Python prototype of the growth tick (ai.py) as values: connections,
// neurons, and one function per step of `populate`, `findNearestNeurons` and
// `tick`, with the properties those steps keep.
//
// A neuron is identified by its position in `Brain.neurons`: the list only
// ever holds distinct objects, so `n == neuron` (object identity) is index
// equality and a `(i, neuron)` pair is the index `i`. Distances are compared
// squared; `math.sqrt` of a sum of squares is never negative and increasing,
// so `sqrt(d2) <= r` is `r >= 0 && d2 <= r * r` and `sqrt(d2) < c` is
// `d2 < c * c` for `c >= 0`. The `random` draws are a function `draw` of the
// draw number.
module BrainModel {
  import opened QuadtreeTypes

  /** `Connection(target, min, max, strength)`: fire into `target` when the source value lies in [min, max]. */
  datatype Connection = Connection(target: nat, min: real, max: real, strength: real)

  datatype Neuron = Neuron(
    x: real, y: real,
    connections: seq<Connection>,
    value: real, maxStrength: real,
    connectTick: int, connectTicks: int)

  /** `findNearestNeurons`' default radius. */
  const LinkRadius: real := 10.0

  /** The starting `closestDist` of the neighbour choice. */
  const FirstClosest: real := 20.0

  /** `Neuron(x, y, connectTicks)`: unconnected, value and strength 0, tick counter 0. */
  function NewNeuron(x: real, y: real, connectTicks: int): Neuron
  {
    Neuron(x, y, [], 0.0, 0.0, 0, connectTicks)
  }

  /** Python's `min(a, b)` and `max(a, b)` on floats. */
  function Min(a: real, b: real): real
  {
    if b < a then b else a
  }

  function Max(a: real, b: real): real
  {
    if b > a then b else a
  }

  // ---- populate ------------------------------------------------------------------

  /** `(i - n / 2) * 3`, with Python 3's true division. */
  function Coord(i: nat, n: nat): real
  {
    (i as real - n as real / 2.0) * 3.0
  }

  /** `len(range(n))`: the number of rounds `for i in range(n)` makes, none when `n` is negative. */
  function RangeLen(n: int): (r: nat)
    ensures n >= 0 ==> r == n
    ensures n <= 0 ==> r == 0
  {
    if n < 0 then 0 else n
  }

  lemma MulStep(a: nat, n: nat)
    ensures (a + 1) * n == a * n + n
  {
  }

  lemma {:induction false} MulLe(a: nat, b: nat, n: nat)
    requires a <= b
    ensures a * n <= b * n
    decreases b - a
  {
    if a < b {
      MulLe(a + 1, b, n);
      MulStep(a, n);
    }
  }

  /** Cell (i, j) of an n-by-n grid has a number `i * n + j` below `n * n`. */
  lemma GridIndex(n: nat, i: nat, j: nat)
    requires i < n && j < n
    ensures i * n + j < n * n
  {
    MulStep(i, n);
    MulLe(i + 1, n, n);
  }

  /** Neurons (i, 0) to (i, j - 1): the first `j` rounds of populate's inner loop in round `i` of the outer one. */
  function Row(n: nat, ticks: seq<int>, i: nat, j: nat): (r: seq<Neuron>)
    requires |ticks| == n * n && i < n && j <= n
    ensures |r| == j
    decreases j
  {
    if j == 0 then []
    else
      GridIndex(n, i, j - 1);
      Row(n, ticks, i, j - 1) + [NewNeuron(Coord(i, n), Coord(j - 1, n), ticks[i * n + j - 1])]
  }

  /** Rows 0 to i - 1 of the grid. */
  function Rows(n: nat, ticks: seq<int>, i: nat): (r: seq<Neuron>)
    requires |ticks| == n * n && i <= n
    ensures |r| == i * n
    decreases i
  {
    if i == 0 then []
    else
      MulStep(i - 1, n);
      Rows(n, ticks, i - 1) + Row(n, ticks, i - 1, n)
  }

  /** The `n * n` neurons `populate(n)` appends, given the `randint` draws in the order they are made. */
  function Grid(n: nat, ticks: seq<int>): (g: seq<Neuron>)
    requires |ticks| == n * n
    ensures |g| == n * n
  {
    Rows(n, ticks, n)
  }

  lemma {:induction false} RowAt(n: nat, ticks: seq<int>, i: nat, m: nat, j: nat)
    requires |ticks| == n * n && i < n && j < m <= n
    ensures i * n + j < n * n
    ensures Row(n, ticks, i, m)[j] == NewNeuron(Coord(i, n), Coord(j, n), ticks[i * n + j])
    decreases m
  {
    GridIndex(n, i, j);
    if j < m - 1 {
      RowAt(n, ticks, i, m - 1, j);
    }
  }

  lemma {:induction false} RowsAt(n: nat, ticks: seq<int>, m: nat, i: nat, j: nat)
    requires |ticks| == n * n && i < m <= n && j < n
    ensures i * n + j < n * n
    ensures Rows(n, ticks, m)[i * n + j] == NewNeuron(Coord(i, n), Coord(j, n), ticks[i * n + j])
    decreases m
  {
    GridIndex(n, i, j);
    MulStep(m - 1, n);
    if i < m - 1 {
      MulStep(i, n);
      MulLe(i + 1, m - 1, n);
      RowsAt(n, ticks, m - 1, i, j);
    } else {
      RowAt(n, ticks, i, n, j);
    }
  }

  /** populate(n): entry `i * n + j` sits at ((i - n/2) * 3, (j - n/2) * 3) with the (i * n + j)-th draw. */
  lemma GridAt(n: nat, ticks: seq<int>, i: nat, j: nat)
    requires |ticks| == n * n && i < n && j < n
    ensures i * n + j < n * n
    ensures Grid(n, ticks)[i * n + j] == NewNeuron(Coord(i, n), Coord(j, n), ticks[i * n + j])
  {
    RowsAt(n, ticks, n, i, j);
  }

  /** Every neuron of the grid is unconnected, with its counter at 0 and one of the draws as `connectTicks`. */
  lemma {:induction false} RowsFresh(n: nat, ticks: seq<int>, m: nat)
    requires |ticks| == n * n && m <= n
    ensures forall x :: 0 <= x < |Rows(n, ticks, m)| ==>
              var c := Rows(n, ticks, m)[x]; c.connections == [] && c.maxStrength == 0.0 && c.connectTick == 0 && c.connectTicks in ticks
    decreases m
  {
    if m > 0 {
      RowsFresh(n, ticks, m - 1);
      RowFresh(n, ticks, m - 1, n);
    }
  }

  lemma {:induction false} RowFresh(n: nat, ticks: seq<int>, i: nat, m: nat)
    requires |ticks| == n * n && i < n && m <= n
    ensures forall x :: 0 <= x < m ==>
              var c := Row(n, ticks, i, m)[x]; c.connections == [] && c.maxStrength == 0.0 && c.connectTick == 0 && c.connectTicks in ticks
    decreases m
  {
    if m > 0 {
      RowFresh(n, ticks, i, m - 1);
      GridIndex(n, i, m - 1);
    }
  }

  /** Appending unconnected neurons whose counters start below `connectTicks` keeps the invariant. */
  lemma AppendFreshWired(ns: seq<Neuron>, g: seq<Neuron>)
    requires Wired(ns)
    requires forall x :: 0 <= x < |g| ==> g[x].connections == [] && 0 == g[x].connectTick < g[x].connectTicks
    requires forall x :: 0 <= x < |g| ==> g[x].maxStrength == 0.0
    ensures Wired(ns + g)
  {
    var r := ns + g;
    forall x, y | 0 <= x < |r| && 0 <= y < |r|
      ensures Linked(r[x].connections, y) <==> Linked(r[y].connections, x)
    {
      if x < |ns| && y < |ns| {
        assert r[x] == ns[x] && r[y] == ns[y];
      } else if x < |ns| {
        assert r[y].connections == [];
        LinkedAt(r[x].connections, y);
      } else if y < |ns| {
        assert r[x].connections == [];
        LinkedAt(r[y].connections, x);
      }
    }
  }

  /** Appending the grid keeps the invariant. */
  lemma GridWired(ns: seq<Neuron>, n: nat, ticks: seq<int>)
    requires Wired(ns) && |ticks| == n * n
    requires forall k :: 0 <= k < |ticks| ==> 5 <= ticks[k] <= 25
    ensures Wired(ns + Grid(n, ticks))
  {
    var g := Grid(n, ticks);
    RowsFresh(n, ticks, n);
    AppendFreshWired(ns, g);
  }

  // ---- findNearestNeurons ----------------------------------------------------------

  function Dist2(a: Neuron, b: Neuron): real
  {
    (b.x - a.x) * (b.x - a.x) + (b.y - a.y) * (b.y - a.y)
  }

  /** `math.sqrt(dx * dx + dy * dy) <= maxDistance`. */
  predicate Near(a: Neuron, b: Neuron, maxDistance: real)
  {
    maxDistance >= 0.0 && Dist2(a, b) <= maxDistance * maxDistance
  }

  /** The indices below `m`, other than `q`, of the neurons within `maxDistance` of neuron `q`. */
  function NearestUpTo(ns: seq<Neuron>, q: nat, maxDistance: real, m: nat): (r: seq<nat>)
    requires q < |ns| && m <= |ns|
    ensures forall k :: 0 <= k < |r| ==> r[k] < m
    decreases m
  {
    if m == 0 then []
    else
      NearestUpTo(ns, q, maxDistance, m - 1)
        + (if m - 1 != q && Near(ns[q], ns[m - 1], maxDistance) then [m - 1] else [])
  }

  /** `findNearestNeurons(ns[q], maxDistance)`, as the indices it pairs with the neurons. */
  function Nearest(ns: seq<Neuron>, q: nat, maxDistance: real): (r: seq<nat>)
    requires q < |ns|
    ensures forall k :: 0 <= k < |r| ==> r[k] < |ns|
  {
    NearestUpTo(ns, q, maxDistance, |ns|)
  }

  /**
   * Exactly the other neurons in range, in list order and each once: an
   * index is returned if and only if it is not `q` and its neuron lies
   * within `maxDistance` of neuron `q`.
   */
  lemma NearestUpToExactly(ns: seq<Neuron>, q: nat, maxDistance: real, m: nat)
    requires q < |ns| && m <= |ns|
    ensures var r := NearestUpTo(ns, q, maxDistance, m);
            && (forall j: nat :: j in r <==> j < m && j != q && Near(ns[q], ns[j], maxDistance))
            && (forall a, b :: 0 <= a < b < |r| ==> r[a] < r[b])
  {
    NearestUpToMembers(ns, q, maxDistance, m);
    NearestUpToIncreasing(ns, q, maxDistance, m);
  }

  /** NearestUpToExactly, membership: the in-range neurons below `m` other than `q`. */
  lemma {:induction false} NearestUpToMembers(ns: seq<Neuron>, q: nat, maxDistance: real, m: nat)
    requires q < |ns| && m <= |ns|
    ensures forall j: nat :: j in NearestUpTo(ns, q, maxDistance, m) <==> j < m && j != q && Near(ns[q], ns[j], maxDistance)
    decreases m
  {
    if m > 0 {
      NearestUpToMembers(ns, q, maxDistance, m - 1);
    }
  }

  /** Each index is smaller than the next. */
  predicate Increasing(r: seq<nat>)
  {
    forall a, b :: 0 <= a < b < |r| ==> r[a] < r[b]
  }

  /** NearestUpToExactly, order: the indices come in increasing order. */
  lemma {:induction false} NearestUpToIncreasing(ns: seq<Neuron>, q: nat, maxDistance: real, m: nat)
    requires q < |ns| && m <= |ns|
    ensures Increasing(NearestUpTo(ns, q, maxDistance, m))
    decreases m
  {
    if m > 0 {
      NearestUpToIncreasing(ns, q, maxDistance, m - 1);
      var prev, r := NearestUpTo(ns, q, maxDistance, m - 1), NearestUpTo(ns, q, maxDistance, m);
      assert Increasing(prev);
      if m - 1 != q && Near(ns[q], ns[m - 1], maxDistance) {
        assert r == prev + [m - 1];
        forall a, b | 0 <= a < b < |r|
          ensures r[a] < r[b]
        {
          if b == |prev| {
            assert r[a] == prev[a];
          } else {
            assert r[a] == prev[a] && r[b] == prev[b];
          }
        }
      } else {
        assert r == prev;
      }
    }
  }


  lemma NearestExactly(ns: seq<Neuron>, q: nat, maxDistance: real)
    requires q < |ns|
    ensures var r := Nearest(ns, q, maxDistance);
            && q !in r
            && (forall j: nat :: j in r <==> j < |ns| && j != q && Near(ns[q], ns[j], maxDistance))
            && (forall a, b :: 0 <= a < b < |r| ==> r[a] < r[b])
  {
    NearestUpToExactly(ns, q, maxDistance, |ns|);
  }

  // ---- tick: propagation ---------------------------------------------------------

  /** `n.value >= con.min and n.value <= con.max`. */
  predicate Active(v: real, c: Connection)
  {
    v >= c.min && v <= c.max
  }

  /** Every connection targets an index of the list (Python would raise IndexError otherwise). */
  predicate TargetsIn(ns: seq<Neuron>)
  {
    forall i, c :: 0 <= i < |ns| && c in ns[i].connections ==> c.target < |ns|
  }

  /** The inner propagation loop: each active connection of `cons` adds its strength to its target's slot. */
  function Spread(acc: seq<real>, v: real, cons: seq<Connection>): (r: seq<real>)
    requires forall c :: c in cons ==> c.target < |acc|
    ensures |r| == |acc|
    decreases |cons|
  {
    if cons == [] then acc
    else
      var last := cons[|cons| - 1];
      var prev := Spread(acc, v, cons[..|cons| - 1]);
      if Active(v, last) then prev[last.target := prev[last.target] + last.strength] else prev
  }

  /** `nextValues` after the outer propagation loop has run over the first `m` neurons. */
  function Inflows(ns: seq<Neuron>, m: nat): (r: seq<real>)
    requires TargetsIn(ns) && m <= |ns|
    ensures |r| == |ns|
    decreases m
  {
    if m == 0 then seq(|ns|, k => 0.0)
    else Spread(Inflows(ns, m - 1), ns[m - 1].value, ns[m - 1].connections)
  }

  /** The `nextValues` list of a tick, computed from the values the tick starts with. */
  function NextValues(ns: seq<Neuron>): (r: seq<real>)
    requires TargetsIn(ns)
    ensures |r| == |ns|
  {
    Inflows(ns, |ns|)
  }

  /** The strength connections `cons` of a neuron with value `v` send to neuron `k`. */
  function SentTo(v: real, cons: seq<Connection>, k: nat): real
    decreases |cons|
  {
    if cons == [] then 0.0
    else
      var last := cons[|cons| - 1];
      SentTo(v, cons[..|cons| - 1], k) + (if last.target == k && Active(v, last) then last.strength else 0.0)
  }

  /** What the first `m` neurons send to neuron `k`. */
  function InflowTo(ns: seq<Neuron>, m: nat, k: nat): real
    requires m <= |ns|
    decreases m
  {
    if m == 0 then 0.0 else InflowTo(ns, m - 1, k) + SentTo(ns[m - 1].value, ns[m - 1].connections, k)
  }

  lemma {:induction false} SpreadAt(acc: seq<real>, v: real, cons: seq<Connection>, k: nat)
    requires forall c :: c in cons ==> c.target < |acc|
    requires k < |acc|
    ensures Spread(acc, v, cons)[k] == acc[k] + SentTo(v, cons, k)
    decreases |cons|
  {
    if cons != [] {
      assert forall c :: c in cons[..|cons| - 1] ==> c in cons;
      SpreadAt(acc, v, cons[..|cons| - 1], k);
    }
  }

  lemma {:induction false} InflowsAt(ns: seq<Neuron>, m: nat, k: nat)
    requires TargetsIn(ns) && m <= |ns| && k < |ns|
    ensures Inflows(ns, m)[k] == InflowTo(ns, m, k)
    decreases m
  {
    if m > 0 {
      InflowsAt(ns, m - 1, k);
      SpreadAt(Inflows(ns, m - 1), ns[m - 1].value, ns[m - 1].connections, k);
    }
  }

  /**
   * Propagation: neuron k's next input is the total strength of the
   * connections into k whose window holds their source's value at the
   * start of the tick.
   */
  lemma NextValuesAt(ns: seq<Neuron>, k: nat)
    requires TargetsIn(ns) && k < |ns|
    ensures NextValues(ns)[k] == InflowTo(ns, |ns|, k)
  {
    InflowsAt(ns, |ns|, k);
  }

  // ---- tick: choosing a neighbour --------------------------------------------------

  /** The targets of the connections `cons`. */
  function Targets(cons: seq<Connection>): set<nat>
    decreases |cons|
  {
    if cons == [] then {} else Targets(cons[..|cons| - 1]) + {cons[|cons| - 1].target}
  }

  /** Some connection in `cons` targets `j`: the `good = False` test. */
  predicate Linked(cons: seq<Connection>, j: nat)
  {
    j in Targets(cons)
  }

  /** `j` is linked exactly when some connection, at some index, targets it. */
  lemma {:induction false} LinkedAt(cons: seq<Connection>, j: nat)
    ensures Linked(cons, j) <==> exists l :: 0 <= l < |cons| && cons[l].target == j
    decreases |cons|
  {
    if cons != [] {
      var init := cons[..|cons| - 1];
      LinkedAt(init, j);
      if exists l :: 0 <= l < |cons| && cons[l].target == j {
        var l :| 0 <= l < |cons| && cons[l].target == j;
        if l < |init| {
          assert init[l] == cons[l];
        }
      }
      if exists l :: 0 <= l < |init| && init[l].target == j {
        var l :| 0 <= l < |init| && init[l].target == j;
        assert cons[l] == init[l];
      }
    }
  }

  /**
   * The scan for `bestNeighbour` over the candidates `cands` of neuron `i`:
   * the position in `cands` of the neighbour chosen so far, if any, and the
   * squared `closestDist`. Candidates `i` is already linked to are skipped;
   * a candidate replaces the choice only when strictly closer.
   */
  function Pick(ns: seq<Neuron>, i: nat, cands: seq<nat>): (p: (Option<nat>, real))
    requires i < |ns| && forall k :: 0 <= k < |cands| ==> cands[k] < |ns|
    ensures p.0.Some? ==> p.0.value < |cands|
    decreases |cands|
  {
    if cands == [] then (None, FirstClosest * FirstClosest)
    else
      var prev := Pick(ns, i, cands[..|cands| - 1]);
      var c := cands[|cands| - 1];
      if !Linked(ns[i].connections, c) && Dist2(ns[i], ns[c]) < prev.1 then (Some(|cands| - 1), Dist2(ns[i], ns[c]))
      else prev
  }

  /**
   * The choice is the closest candidate not yet linked to `i` and nearer
   * than 20, the earliest of equally close ones; there is none exactly when
   * every candidate is linked or at least 20 away.
   */
  lemma {:induction false} PickBest(ns: seq<Neuron>, i: nat, cands: seq<nat>)
    requires i < |ns| && forall k :: 0 <= k < |cands| ==> cands[k] < |ns|
    ensures var p := Pick(ns, i, cands);
            && (p.0.None? <==>
                  forall k :: 0 <= k < |cands| ==>
                    Linked(ns[i].connections, cands[k]) || Dist2(ns[i], ns[cands[k]]) >= FirstClosest * FirstClosest)
            && (p.0.None? ==> p.1 == FirstClosest * FirstClosest)
            && (p.0.Some? ==>
                  var b := p.0.value;
                  && b < |cands|
                  && !Linked(ns[i].connections, cands[b])
                  && p.1 == Dist2(ns[i], ns[cands[b]]) < FirstClosest * FirstClosest
                  && (forall k :: 0 <= k < |cands| && !Linked(ns[i].connections, cands[k]) ==>
                        Dist2(ns[i], ns[cands[k]]) >= p.1)
                  && (forall k :: 0 <= k < b && !Linked(ns[i].connections, cands[k]) ==>
                        Dist2(ns[i], ns[cands[k]]) > p.1))
    decreases |cands|
  {
    if cands != [] {
      var init := cands[..|cands| - 1];
      PickBest(ns, i, init);
      assert forall k :: 0 <= k < |init| ==> init[k] == cands[k];
    }
  }

  // ---- tick: linking ---------------------------------------------------------------

  /** `n.connections.append(c); n.maxStrength += c.strength`. */
  function Attach(n: Neuron, c: Connection): Neuron
  {
    n.(connections := n.connections + [c], maxStrength := n.maxStrength + c.strength)
  }

  /** `Connection(target, min(a, b), max(a, b), s)` from three draws. */
  function Drawn(target: nat, a: real, b: real, s: real): (c: Connection)
    ensures c.min <= c.max && c.target == target
  {
    Connection(target, Min(a, b), Max(a, b), s)
  }

  /** Link neurons `i` and `j` both ways, with draws `k` to `k + 5`. */
  function Link(ns: seq<Neuron>, i: nat, j: nat, draw: nat -> real, k: nat): (r: seq<Neuron>)
    requires i < |ns| && j < |ns|
    ensures |r| == |ns|
  {
    var ns1 := ns[i := Attach(ns[i], Drawn(j, draw(k), draw(k + 1), draw(k + 2)))];
    ns1[j := Attach(ns1[j], Drawn(i, draw(k + 3), draw(k + 4), draw(k + 5)))]
  }

  // ---- tick: one neuron, and the whole loop ------------------------------------------

  /** Whether neuron `n` links this tick: its tick counter, once stepped, has reached `connectTicks`. */
  predicate Due(n: Neuron)
  {
    n.connectTick + 1 >= n.connectTicks
  }

  /**
   * The second loop's body for neuron `i`, `made` connections into the tick:
   * set its value from `next`, step its counter, and when due, reset the
   * counter and link it to the chosen neighbour, if any.
   */
  function StepAt(ns: seq<Neuron>, made: nat, next: seq<real>, i: nat, draw: nat -> real): (r: (seq<Neuron>, nat))
    requires i < |ns| == |next|
    ensures |r.0| == |ns|
    ensures r.1 == made || r.1 == made + 2
  {
    var n := ns[i];
    var v := next[i] / Max(n.maxStrength, 1.0);
    if !Due(n) then (ns[i := n.(value := v, connectTick := n.connectTick + 1)], made)
    else
      var ns1 := ns[i := n.(value := v, connectTick := 0)];
      var cands := Nearest(ns1, i, LinkRadius);
      var best := Pick(ns1, i, cands).0;
      if best.None? then (ns1, made)
      else (Link(ns1, i, cands[best.value], draw, 3 * made), made + 2)
  }

  /** The neurons and `newConnections` after the second loop has run over the first `m` neurons. */
  function Run(ns: seq<Neuron>, next: seq<real>, draw: nat -> real, m: nat): (r: (seq<Neuron>, nat))
    requires m <= |ns| == |next|
    ensures |r.0| == |ns|
    decreases m
  {
    if m == 0 then (ns, 0)
    else
      var prev := Run(ns, next, draw, m - 1);
      StepAt(prev.0, prev.1, next, m - 1, draw)
  }

  /** `tick()`: the neurons afterwards and the value it returns. */
  function TickSpec(ns: seq<Neuron>, draw: nat -> real): (seq<Neuron>, nat)
    requires TargetsIn(ns)
  {
    Run(ns, NextValues(ns), draw, |ns|)
  }

  /** The number of connections held by all of `ns`. */
  function Conns(ns: seq<Neuron>): nat
  {
    if ns == [] then 0 else Conns(ns[..|ns| - 1]) + |ns[|ns| - 1].connections|
  }

  /** Replacing one neuron changes the total by the change in its connection count. */
  lemma {:induction false} ConnsUpdate(ns: seq<Neuron>, i: nat, x: Neuron)
    requires i < |ns|
    ensures Conns(ns[i := x]) + |ns[i].connections| == Conns(ns) + |x.connections|
    decreases |ns|
  {
    var last := |ns| - 1;
    if i == last {
      assert ns[i := x][..last] == ns[..last];
    } else {
      assert ns[i := x][..last] == ns[..last][i := x];
      ConnsUpdate(ns[..last], i, x);
    }
  }

  /**
   * The counter moves by 2 exactly when neuron `i` is due and a neighbour is
   * chosen; then the step is the link to that neighbour, and otherwise no
   * neuron's connections change. Either way the step adds to the counter
   * exactly the number of connections it appends.
   */
  lemma StepLinks(ns: seq<Neuron>, made: nat, next: seq<real>, i: nat, draw: nat -> real)
    requires i < |ns| == |next|
    ensures var n := ns[i];
            var ns1 := ns[i := n.(value := next[i] / Max(n.maxStrength, 1.0), connectTick := 0)];
            var cands := Nearest(ns1, i, LinkRadius);
            var best := Pick(ns1, i, cands).0;
            var r := StepAt(ns, made, next, i, draw);
            && (r.1 == made + 2 <==> Due(n) && best.Some?)
            && (r.1 == made + 2 ==> cands[best.value] != i && r.0 == Link(ns1, i, cands[best.value], draw, 3 * made))
            && (r.1 == made ==> forall k :: 0 <= k < |ns| ==> r.0[k].connections == ns[k].connections)
            && Conns(r.0) == Conns(ns) + (r.1 - made)
  {
    var n := ns[i];
    var v := next[i] / Max(n.maxStrength, 1.0);
    if !Due(n) {
      ConnsUpdate(ns, i, n.(value := v, connectTick := n.connectTick + 1));
    } else {
      var ns1 := ns[i := n.(value := v, connectTick := 0)];
      ConnsUpdate(ns, i, ns1[i]);
      var cands := Nearest(ns1, i, LinkRadius);
      var best := Pick(ns1, i, cands).0;
      if best.Some? {
        var j := cands[best.value];
        NearestExactly(ns1, i, LinkRadius);
        assert j in cands;
        var mid := ns1[i := Attach(ns1[i], Drawn(j, draw(3 * made), draw(3 * made + 1), draw(3 * made + 2)))];
        ConnsUpdate(ns1, i, mid[i]);
        ConnsUpdate(mid, j, Attach(mid[j], Drawn(i, draw(3 * made + 3), draw(3 * made + 4), draw(3 * made + 5))));
      }
    }
  }

  /** StepLinks' count: a step adds 0 or 2 to the counter, the number of connections it appends. */
  lemma StepCount(ns: seq<Neuron>, made: nat, next: seq<real>, i: nat, draw: nat -> real)
    requires i < |ns| == |next|
    ensures var r := StepAt(ns, made, next, i, draw);
            Conns(r.0) == Conns(ns) + (r.1 - made)
  {
    StepLinks(ns, made, next, i, draw);
  }

  /** After the loop over `m` neurons the counter equals the number of connections the loop appended. */
  lemma RunConns(ns: seq<Neuron>, next: seq<real>, draw: nat -> real, m: nat)
    requires m <= |ns| == |next|
    ensures Conns(Run(ns, next, draw, m).0) == Conns(ns) + Run(ns, next, draw, m).1
  {
    var k := 0;
    while k < m
      invariant k <= m
      invariant Conns(Run(ns, next, draw, k).0) == Conns(ns) + Run(ns, next, draw, k).1
    {
      var prev := Run(ns, next, draw, k);
      StepCount(prev.0, prev.1, next, k, draw);
      RunUnfold(ns, next, draw, k + 1);
      k := k + 1;
    }
  }

  /**
   * After the loop over `m` neurons the counter is even, at most `2 * m`,
   * and equal to the number of connections the loop appended: each neuron
   * starts at most one link, and each link appends two.
   */
  lemma {:induction false} RunCount(ns: seq<Neuron>, next: seq<real>, draw: nat -> real, m: nat)
    requires m <= |ns| == |next|
    ensures Run(ns, next, draw, m).1 % 2 == 0
    ensures Run(ns, next, draw, m).1 <= 2 * m
    ensures Conns(Run(ns, next, draw, m).0) == Conns(ns) + Run(ns, next, draw, m).1
    decreases m
  {
    RunConns(ns, next, draw, m);
    if m > 0 {
      RunCount(ns, next, draw, m - 1);
      RunUnfold(ns, next, draw, m);
      var prev := Run(ns, next, draw, m - 1);
      EvenStep(prev.1, StepAt(prev.0, prev.1, next, m - 1, draw).1);
    }
  }

  /** Adding nothing or two keeps a count even. */
  lemma EvenStep(a: nat, b: nat)
    requires a % 2 == 0 && (b == a || b == a + 2)
    ensures b % 2 == 0
  {
  }

  /**
   * `tick()` returns the number of connections it appended: an even number,
   * twice the links it formed, at most twice the number of neurons.
   */
  lemma TickCount(ns: seq<Neuron>, draw: nat -> real)
    requires TargetsIn(ns)
    ensures TickSpec(ns, draw).1 % 2 == 0 && TickSpec(ns, draw).1 <= 2 * |ns|
    ensures Conns(TickSpec(ns, draw).0) == Conns(ns) + TickSpec(ns, draw).1
  {
    RunCount(ns, NextValues(ns), draw, |ns|);
  }

  // ---- The invariant the prototype keeps ------------------------------------------

  /** No target appears twice among `cons`. */
  predicate Distinct(cons: seq<Connection>)
  {
    forall a, b :: 0 <= a < b < |cons| ==> cons[a].target != cons[b].target
  }

  /** The sum of the strengths of `cons`. */
  function Strength(cons: seq<Connection>): real
    decreases |cons|
  {
    if cons == [] then 0.0 else Strength(cons[..|cons| - 1]) + cons[|cons| - 1].strength
  }

  /** Every target is another neuron of the list, and every window is ordered. */
  predicate TargetsOk(ns: seq<Neuron>)
  {
    forall i, c :: 0 <= i < |ns| && c in ns[i].connections ==> c.target < |ns| && c.target != i && c.min <= c.max
  }

  /** Neuron `i` targets `j` exactly when `j` targets `i`. */
  predicate Symmetric(ns: seq<Neuron>)
  {
    forall i, j :: 0 <= i < |ns| && 0 <= j < |ns| ==> (Linked(ns[i].connections, j) <==> Linked(ns[j].connections, i))
  }

  /** `maxStrength` is the total strength of the neuron's connections. */
  predicate Summed(ns: seq<Neuron>)
  {
    forall i :: 0 <= i < |ns| ==> ns[i].maxStrength == Strength(ns[i].connections)
  }

  /**
   * The connections form a simple undirected graph (no self-links, no
   * repeated target, both directions together, ordered windows), strengths
   * are summed and each tick counter stays below `connectTicks`.
   */
  predicate Wired(ns: seq<Neuron>)
  {
    && TargetsOk(ns)
    && Symmetric(ns)
    && (forall i :: 0 <= i < |ns| ==> Distinct(ns[i].connections))
    && Summed(ns)
    && (forall i :: 0 <= i < |ns| ==> 0 <= ns[i].connectTick < ns[i].connectTicks)
  }

  /** Appending a connection: what it adds to the link test, to the strength and to distinctness. */
  lemma AttachFacts(cons: seq<Connection>, c: Connection)
    ensures forall y :: Linked(cons + [c], y) <==> Linked(cons, y) || c.target == y
    ensures Strength(cons + [c]) == Strength(cons) + c.strength
    ensures Distinct(cons) && !Linked(cons, c.target) ==> Distinct(cons + [c])
  {
    assert (cons + [c])[..|cons|] == cons;
    if Distinct(cons) && !Linked(cons, c.target) {
      LinkedAt(cons, c.target);
    }
  }

  /** Changing a neuron's value and tick counter, keeping the counter below `connectTicks`, keeps the invariant. */
  lemma RetickWired(ns: seq<Neuron>, i: nat, n: Neuron)
    requires Wired(ns) && i < |ns|
    requires n.connections == ns[i].connections && n.maxStrength == ns[i].maxStrength
    requires 0 <= n.connectTick < n.connectTicks
    ensures Wired(ns[i := n])
  {
    var r := ns[i := n];
    forall x, y | 0 <= x < |r| && 0 <= y < |r|
      ensures Linked(r[x].connections, y) <==> Linked(r[y].connections, x)
    {
      assert r[x].connections == ns[x].connections && r[y].connections == ns[y].connections;
    }
  }

  /** The link adds one connection to each side and leaves every other neuron alone. */
  lemma LinkShape(ns: seq<Neuron>, i: nat, j: nat, draw: nat -> real, k: nat)
    requires i < |ns| && j < |ns| && i != j
    ensures var r := Link(ns, i, j, draw, k);
            && r[i] == Attach(ns[i], Drawn(j, draw(k), draw(k + 1), draw(k + 2)))
            && r[j] == Attach(ns[j], Drawn(i, draw(k + 3), draw(k + 4), draw(k + 5)))
            && forall x :: 0 <= x < |ns| && x != i && x != j ==> r[x] == ns[x]
  {
  }

  lemma LinkTargets(ns: seq<Neuron>, i: nat, j: nat, draw: nat -> real, k: nat)
    requires TargetsOk(ns) && i < |ns| && j < |ns| && i != j
    ensures TargetsOk(Link(ns, i, j, draw, k))
  {
    var r := Link(ns, i, j, draw, k);
    LinkShape(ns, i, j, draw, k);
    forall x, c | 0 <= x < |r| && c in r[x].connections
      ensures c.target < |r| && c.target != x && c.min <= c.max
    {
      if x != i && x != j {
        assert c in ns[x].connections;
      } else if c !in ns[x].connections {
        assert c == r[x].connections[|r[x].connections| - 1];
      }
    }
  }

  lemma LinkSymmetric(ns: seq<Neuron>, i: nat, j: nat, draw: nat -> real, k: nat)
    requires Symmetric(ns) && i < |ns| && j < |ns| && i != j
    ensures Symmetric(Link(ns, i, j, draw, k))
  {
    var r := Link(ns, i, j, draw, k);
    LinkShape(ns, i, j, draw, k);
    AttachFacts(ns[i].connections, r[i].connections[|r[i].connections| - 1]);
    AttachFacts(ns[j].connections, r[j].connections[|r[j].connections| - 1]);
    forall x, y | 0 <= x < |r| && 0 <= y < |r|
      ensures Linked(r[x].connections, y) <==> Linked(r[y].connections, x)
    {
      assert Linked(ns[x].connections, y) <==> Linked(ns[y].connections, x);
    }
  }

  lemma LinkDistinct(ns: seq<Neuron>, i: nat, j: nat, draw: nat -> real, k: nat)
    requires Symmetric(ns) && forall x :: 0 <= x < |ns| ==> Distinct(ns[x].connections)
    requires i < |ns| && j < |ns| && i != j && !Linked(ns[i].connections, j)
    ensures var r := Link(ns, i, j, draw, k); forall x :: 0 <= x < |r| ==> Distinct(r[x].connections)
  {
    var r := Link(ns, i, j, draw, k);
    LinkShape(ns, i, j, draw, k);
    assert !Linked(ns[j].connections, i);
    AttachFacts(ns[i].connections, r[i].connections[|r[i].connections| - 1]);
    AttachFacts(ns[j].connections, r[j].connections[|r[j].connections| - 1]);
    forall x | 0 <= x < |r|
      ensures Distinct(r[x].connections)
    {
      if x != i && x != j {
        assert r[x] == ns[x];
      }
    }
  }

  lemma LinkSummed(ns: seq<Neuron>, i: nat, j: nat, draw: nat -> real, k: nat)
    requires Summed(ns) && i < |ns| && j < |ns| && i != j
    ensures Summed(Link(ns, i, j, draw, k))
  {
    var r := Link(ns, i, j, draw, k);
    LinkShape(ns, i, j, draw, k);
    AttachFacts(ns[i].connections, r[i].connections[|r[i].connections| - 1]);
    AttachFacts(ns[j].connections, r[j].connections[|r[j].connections| - 1]);
  }

  /**
   * Linking two distinct neurons not yet linked keeps the invariant: each
   * gains one connection to the other, so both directions appear together
   * and no target repeats.
   */
  lemma LinkWired(ns: seq<Neuron>, i: nat, j: nat, draw: nat -> real, k: nat)
    requires Wired(ns) && i < |ns| && j < |ns| && i != j
    requires !Linked(ns[i].connections, j)
    ensures Wired(Link(ns, i, j, draw, k))
  {
    LinkTargets(ns, i, j, draw, k);
    LinkSymmetric(ns, i, j, draw, k);
    LinkDistinct(ns, i, j, draw, k);
    LinkSummed(ns, i, j, draw, k);
    LinkShape(ns, i, j, draw, k);
  }

  /** One step of the second loop keeps the invariant. */
  lemma StepWired(ns: seq<Neuron>, made: nat, next: seq<real>, i: nat, draw: nat -> real)
    requires Wired(ns) && i < |ns| == |next|
    ensures Wired(StepAt(ns, made, next, i, draw).0)
  {
    var n := ns[i];
    var v := next[i] / Max(n.maxStrength, 1.0);
    if !Due(n) {
      RetickWired(ns, i, n.(value := v, connectTick := n.connectTick + 1));
    } else {
      var ns1 := ns[i := n.(value := v, connectTick := 0)];
      RetickWired(ns, i, n.(value := v, connectTick := 0));
      var cands := Nearest(ns1, i, LinkRadius);
      var best := Pick(ns1, i, cands).0;
      if best.Some? {
        NearestExactly(ns1, i, LinkRadius);
        PickBest(ns1, i, cands);
        assert cands[best.value] in cands;
        LinkWired(ns1, i, cands[best.value], draw, 3 * made);
      }
    }
  }

  /** The loop over `m` neurons is the loop over `m - 1` followed by one step. */
  lemma RunUnfold(ns: seq<Neuron>, next: seq<real>, draw: nat -> real, m: nat)
    requires 0 < m <= |ns| == |next|
    ensures var prev := Run(ns, next, draw, m - 1);
            Run(ns, next, draw, m) == StepAt(prev.0, prev.1, next, m - 1, draw)
  {
  }

  lemma RunWired(ns: seq<Neuron>, next: seq<real>, draw: nat -> real, m: nat)
    requires Wired(ns) && m <= |ns| == |next|
    ensures Wired(Run(ns, next, draw, m).0)
  {
    var k := 0;
    while k < m
      invariant k <= m
      invariant Wired(Run(ns, next, draw, k).0)
    {
      var prev := Run(ns, next, draw, k);
      StepWired(prev.0, prev.1, next, k, draw);
      RunUnfold(ns, next, draw, k + 1);
      k := k + 1;
    }
  }

  /** `tick()` keeps the connection graph simple and symmetric, the strengths summed and the counters in range. */
  lemma TickWired(ns: seq<Neuron>, draw: nat -> real)
    requires Wired(ns)
    ensures TargetsIn(ns)
    ensures Wired(TickSpec(ns, draw).0)
  {
    RunWired(ns, NextValues(ns), draw, |ns|);
  }

  // ---- What a tick does to each neuron ---------------------------------------------

  /** The tick counter after `n.connectTick += 1` and the reset when it reaches `connectTicks`. */
  function Bump(n: Neuron): int
  {
    if Due(n) then 0 else n.connectTick + 1
  }

  /**
   * One step sets neuron `i`'s value and counter; every other neuron keeps
   * its value and counter; nobody moves, and connections are only appended.
   */
  lemma StepFields(ns: seq<Neuron>, made: nat, next: seq<real>, i: nat, draw: nat -> real)
    requires i < |ns| == |next|
    ensures var r := StepAt(ns, made, next, i, draw).0;
            && r[i].value == next[i] / Max(ns[i].maxStrength, 1.0)
            && r[i].connectTick == Bump(ns[i])
            && (forall k :: 0 <= k < |ns| && k != i ==> r[k].value == ns[k].value && r[k].connectTick == ns[k].connectTick)
            && (forall k :: 0 <= k < |ns| ==>
                  && r[k].x == ns[k].x && r[k].y == ns[k].y && r[k].connectTicks == ns[k].connectTicks
                  && ns[k].connections <= r[k].connections)
  {
    var n := ns[i];
    if Due(n) {
      var ns1 := ns[i := n.(value := next[i] / Max(n.maxStrength, 1.0), connectTick := 0)];
      var cands := Nearest(ns1, i, LinkRadius);
      var best := Pick(ns1, i, cands).0;
      if best.Some? {
        var j := cands[best.value];
        NearestExactly(ns1, i, LinkRadius);
        assert j in cands;
        LinkShape(ns1, i, j, draw, 3 * made);
        var r := Link(ns1, i, j, draw, 3 * made);
        assert StepAt(ns, made, next, i, draw).0 == r;
        forall k | 0 <= k < |ns|
          ensures && r[k].x == ns[k].x && r[k].y == ns[k].y && r[k].connectTicks == ns[k].connectTicks
                  && ns[k].connections <= r[k].connections
                  && (k != i ==> r[k].value == ns[k].value && r[k].connectTick == ns[k].connectTick)
        {
          if k != i && k != j {
            assert r[k] == ns[k];
          }
        }
      } else {
        assert StepAt(ns, made, next, i, draw).0 == ns1;
      }
    }
  }

  /** The second loop moves nobody and only appends connections. */
  lemma {:induction false} RunKeeps(ns: seq<Neuron>, next: seq<real>, draw: nat -> real, m: nat, k: nat)
    requires m <= |ns| == |next| && k < |ns|
    ensures var r := Run(ns, next, draw, m).0;
            && r[k].x == ns[k].x && r[k].y == ns[k].y && r[k].connectTicks == ns[k].connectTicks
            && ns[k].connections <= r[k].connections
    decreases m
  {
    if m > 0 {
      RunKeeps(ns, next, draw, m - 1, k);
      var prev := Run(ns, next, draw, m - 1);
      StepFields(prev.0, prev.1, next, m - 1, draw);
      var r := StepAt(prev.0, prev.1, next, m - 1, draw).0;
      assert Run(ns, next, draw, m).0 == r;
      assert ns[k].connections <= prev.0[k].connections <= r[k].connections;
    }
  }

  /**
   * Once the second loop has passed neuron `k` its value and counter are
   * set and stay so; before, they are as they were.
   */
  lemma {:induction false} RunValues(ns: seq<Neuron>, next: seq<real>, draw: nat -> real, m: nat, k: nat)
    requires m <= |ns| == |next| && k < |ns|
    ensures var r := Run(ns, next, draw, m).0;
            && (k < m ==>
                  && r[k].value == next[k] / Max(Run(ns, next, draw, k).0[k].maxStrength, 1.0)
                  && r[k].connectTick == Bump(ns[k]))
            && (m <= k ==> r[k].value == ns[k].value && r[k].connectTick == ns[k].connectTick)
    decreases m
  {
    if m > 0 {
      RunValues(ns, next, draw, m - 1, k);
      RunKeeps(ns, next, draw, m - 1, k);
      var prev := Run(ns, next, draw, m - 1);
      StepFields(prev.0, prev.1, next, m - 1, draw);
      var r := StepAt(prev.0, prev.1, next, m - 1, draw).0;
      assert Run(ns, next, draw, m).0 == r;
    }
  }

  /**
   * After `tick()` every neuron is where it was, its counter has stepped
   * (back to 0 when it reached `connectTicks`), it has kept its connections
   * (possibly gaining more), and its value is its inflow computed from the
   * values at the start of the tick, divided by `max(maxStrength, 1)` as
   * `maxStrength` stood when the loop reached it.
   */
  lemma TickFields(ns: seq<Neuron>, draw: nat -> real, k: nat)
    requires TargetsIn(ns) && k < |ns|
    ensures var r := TickSpec(ns, draw).0;
            && r[k].x == ns[k].x && r[k].y == ns[k].y && r[k].connectTicks == ns[k].connectTicks
            && r[k].connectTick == Bump(ns[k])
            && ns[k].connections <= r[k].connections
            && r[k].value == InflowTo(ns, |ns|, k) / Max(Run(ns, NextValues(ns), draw, k).0[k].maxStrength, 1.0)
  {
    RunKeeps(ns, NextValues(ns), draw, |ns|, k);
    RunValues(ns, NextValues(ns), draw, |ns|, k);
    NextValuesAt(ns, k);
  }
}
