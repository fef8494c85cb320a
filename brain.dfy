// The `Brain` object of ai.py: the neuron list as a field, and `populate`,
// `findNearestNeurons` and `tick` as methods that run the prototype's loops
// and are proved to leave the list as the functions of BrainModel say.
module BrainPrototype {
  import opened QuadtreeTypes
  import opened BrainModel

  class Brain {
    var neurons: seq<Neuron>

    /** The invariant `populate` and `tick` keep (see BrainModel.Wired). */
    ghost predicate Valid()
      reads this
    {
      Wired(neurons)
    }

    /** `Brain()`: no neurons. */
    constructor ()
      ensures Valid() && neurons == []
    {
      neurons := [];
    }

    /**
     * populate(n): append an n-by-n grid of neurons, row by row, neuron
     * (i, j) at ((i - n/2) * 3, (j - n/2) * 3) with the (i * n + j)-th
     * `randint(5, 25)` draw as its `connectTicks`. A negative `n` makes
     * `range(n)` empty, so nothing is appended.
     */
    method Populate(n: int, ticks: seq<int>)
      requires Valid()
      requires |ticks| == RangeLen(n) * RangeLen(n)
      requires forall k :: 0 <= k < |ticks| ==> 5 <= ticks[k] <= 25
      modifies this
      ensures Valid()
      ensures neurons == old(neurons) + Grid(RangeLen(n), ticks)
      ensures n <= 0 ==> neurons == old(neurons)
    {
      if n <= 0 {
        assert Grid(RangeLen(n), ticks) == [];
        return;
      }
      var k := 0;
      var i := 0;
      while i < n
        invariant i <= n && k == i * n
        invariant neurons == old(neurons) + Rows(n, ticks, i)
      {
        var j := 0;
        while j < n
          invariant j <= n && k == i * n + j
          invariant neurons == old(neurons) + Rows(n, ticks, i) + Row(n, ticks, i, j)
        {
          GridIndex(n, i, j);
          ConcatAssoc(old(neurons) + Rows(n, ticks, i), Row(n, ticks, i, j), [NewNeuron(Coord(i, n), Coord(j, n), ticks[k])]);
          neurons := neurons + [NewNeuron(Coord(i, n), Coord(j, n), ticks[k])];
          k := k + 1;
          j := j + 1;
        }
        ConcatAssoc(old(neurons), Rows(n, ticks, i), Row(n, ticks, i, n));
        MulStep(i, n);
        i := i + 1;
      }
      GridWired(old(neurons), n, ticks);
    }

    /**
     * findNearestNeurons(neurons[q], maxDistance): the indices of the other
     * neurons within `maxDistance` of neuron `q`, in list order.
     */
    method FindNearestNeurons(q: nat, maxDistance: real) returns (neighbours: seq<nat>)
      requires q < |neurons|
      ensures neighbours == Nearest(neurons, q, maxDistance)
    {
      neighbours := [];
      var i := 0;
      while i < |neurons|
        invariant i <= |neurons|
        invariant neighbours == NearestUpTo(neurons, q, maxDistance, i)
      {
        if i != q {
          var n := neurons[i];
          var dx := n.x - neurons[q].x;
          var dy := n.y - neurons[q].y;
          if maxDistance >= 0.0 && dx * dx + dy * dy <= maxDistance * maxDistance {
            neighbours := neighbours + [i];
          }
        }
        i := i + 1;
      }
    }

    /**
     * tick(): gather every neuron's input from the values the tick starts
     * with, then for each neuron in turn set its value, step its counter and,
     * when due, link it to its closest unlinked neighbour, drawing the two
     * windows and strengths from `draw` (six draws per link, numbered from
     * 0). Returns the number of connections made.
     */
    method Tick(draw: nat -> real) returns (newConnections: nat)
      requires Valid()
      modifies this
      ensures Valid()
      ensures (neurons, newConnections) == TickSpec(old(neurons), draw)
    {
      ghost var ns := neurons;
      TickWired(ns, draw);
      newConnections := 0;
      var nextValues := Propagate(neurons);
      var i := 0;
      while i < |neurons|
        invariant |neurons| == |ns| && i <= |ns|
        invariant (neurons, newConnections) == Run(ns, nextValues, draw, i)
      {
        newConnections := Step(i, nextValues, draw, newConnections);
        i := i + 1;
      }
    }

    /**
     * The body of tick()'s second loop for neuron `i`, `made` connections
     * into the tick: set its value, step its counter and, when due, reset
     * the counter and link it to its closest unlinked neighbour.
     */
    method Step(i: nat, nextValues: seq<real>, draw: nat -> real, made: nat) returns (newConnections: nat)
      requires i < |neurons| == |nextValues|
      modifies this
      ensures (neurons, newConnections) == StepAt(old(neurons), made, nextValues, i, draw)
    {
      newConnections := made;
      var n := neurons[i];
      n := n.(value := nextValues[i] / Max(n.maxStrength, 1.0), connectTick := n.connectTick + 1);
      if n.connectTick >= n.connectTicks {
        n := n.(connectTick := 0);
        neurons := neurons[i := n];
        var neighbours := FindNearestNeurons(i, LinkRadius);
        var best := ChooseNeighbour(neurons, i, neighbours);
        if best.Some? {
          var j := neighbours[best.value];
          var k := 3 * newConnections;
          var a, b, s := draw(k), draw(k + 1), draw(k + 2);
          neurons := neurons[i := Attach(neurons[i], Connection(j, Min(a, b), Max(a, b), s))];
          a, b, s := draw(k + 3), draw(k + 4), draw(k + 5);
          neurons := neurons[j := Attach(neurons[j], Connection(i, Min(a, b), Max(a, b), s))];
          newConnections := newConnections + 2;
        }
      } else {
        neurons := neurons[i := n];
      }
    }
  }

  /**
   * The first loop of tick(): every connection whose window holds its
   * source's value adds its strength to its target's entry of `nextValues`.
   */
  method Propagate(ns: seq<Neuron>) returns (nextValues: seq<real>)
    requires TargetsIn(ns)
    ensures nextValues == NextValues(ns)
  {
    nextValues := seq(|ns|, k => 0.0);
    var i := 0;
    while i < |ns|
      invariant i <= |ns|
      invariant nextValues == Inflows(ns, i)
    {
      var n := ns[i];
      var m := 0;
      while m < |n.connections|
        invariant m <= |n.connections|
        invariant forall c :: c in n.connections[..m] ==> c in n.connections
        invariant nextValues == Spread(Inflows(ns, i), n.value, n.connections[..m])
      {
        var con := n.connections[m];
        assert n.connections[..m + 1][..m] == n.connections[..m];
        if n.value >= con.min && n.value <= con.max {
          nextValues := nextValues[con.target := nextValues[con.target] + con.strength];
        }
        m := m + 1;
      }
      assert n.connections[..m] == n.connections;
      i := i + 1;
    }
  }

  /**
   * The neighbour choice of tick(): scan the candidates, skip those neuron
   * `i` already has a connection to, and keep one that is strictly closer
   * than the closest so far (starting from 20). Returns its position in
   * `neighbours`.
   */
  method ChooseNeighbour(ns: seq<Neuron>, i: nat, neighbours: seq<nat>) returns (best: Option<nat>)
    requires i < |ns| && forall k :: 0 <= k < |neighbours| ==> neighbours[k] < |ns|
    ensures best == Pick(ns, i, neighbours).0
  {
    best := None;
    var closest := FirstClosest * FirstClosest;
    var p := 0;
    while p < |neighbours|
      invariant p <= |neighbours|
      invariant (best, closest) == Pick(ns, i, neighbours[..p])
    {
      var cons := ns[i].connections;
      var good := true;
      var m := 0;
      while m < |cons|
        invariant m <= |cons|
        invariant good
        invariant forall l :: 0 <= l < m ==> cons[l].target != neighbours[p]
      {
        if neighbours[p] == cons[m].target {
          good := false;
          break;
        }
        m := m + 1;
      }
      assert neighbours[..p + 1][..p] == neighbours[..p] && neighbours[..p + 1][p] == neighbours[p];
      LinkedAt(cons, neighbours[p]);
      assert good <==> !Linked(cons, neighbours[p]);
      if good {
        var dx := ns[neighbours[p]].x - ns[i].x;
        var dy := ns[neighbours[p]].y - ns[i].y;
        var dist := dx * dx + dy * dy;
        assert dist == Dist2(ns[i], ns[neighbours[p]]);
        if dist < closest {
          closest := dist;
          best := Some(p);
        }
      }
      p := p + 1;
    }
    assert neighbours[..p] == neighbours;
  }
}
