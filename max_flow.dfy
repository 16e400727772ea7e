/** The push-relabel maximum-flow solver as a class whose matrices and vectors are
    updated in place. Every method is proved against the value-level step it performs
    (module FlowNetwork), through the view State() of the arrays. */
module MaxFlow {
  import opened FlowNetwork

  /** The rows of a two-dimensional array as a matrix value. */
  ghost function Matrix2(a: array2<int>): (m: Matrix)
    reads a
    ensures |m| == a.Length0 && forall i :: 0 <= i < a.Length0 ==> |m[i]| == a.Length1
  {
    seq(a.Length0, i requires 0 <= i < a.Length0 reads a =>
      seq(a.Length1, j requires 0 <= j < a.Length1 reads a => a[i, j]))
  }

  /** A matrix value that agrees with the array entry by entry is its view. */
  lemma MatrixView(a: array2<int>, m: Matrix)
    requires IsSquare(m, a.Length0) && a.Length1 == a.Length0
    requires forall i, j :: 0 <= i < a.Length0 && 0 <= j < a.Length1 ==> a[i, j] == m[i][j]
    ensures Matrix2(a) == m
  {
    var v := Matrix2(a);
    forall i | 0 <= i < a.Length0 ensures v[i] == m[i] {
      assert forall j :: 0 <= j < a.Length1 ==> v[i][j] == m[i][j];
    }
  }

  /** The view's entries are the array's entries. */
  lemma Matrix2Entries(a: array2<int>)
    ensures forall i, j :: 0 <= i < a.Length0 && 0 <= j < a.Length1 ==> Matrix2(a)[i][j] == a[i, j]
  {
  }

  class PushRelabel {
    const vertices: nat
    const capacity: array2<int>
    const flow: array2<int>
    const height: array<int>
    const excessFlow: array<int>

    /** Every matrix is vertices x vertices, every vector has one entry per vertex, and
        the arrays are distinct. */
    ghost predicate Valid() {
      && capacity.Length0 == vertices && capacity.Length1 == vertices
      && flow.Length0 == vertices && flow.Length1 == vertices
      && height.Length == vertices && excessFlow.Length == vertices
      && capacity != flow && height != excessFlow
    }

    /** The current contents of the arrays as a value. */
    ghost function State(): Net
      reads capacity, flow, height, excessFlow
    {
      Net(Matrix2(capacity), Matrix2(flow), height[..], excessFlow[..])
    }

    lemma StateWellFormed()
      requires Valid()
      ensures WellFormed(State()) && Size(State()) == vertices
    {
    }

    /** A solver for a graph with the given number of vertices, no edges and no flow. */
    constructor (vertices: nat)
      ensures Valid() && this.vertices == vertices
      ensures WellFormed(State()) && IsFresh(State()) && NonNegativeCapacities(State())
      ensures forall i, j :: 0 <= i < vertices && 0 <= j < vertices ==> capacity[i, j] == 0
      ensures fresh(capacity) && fresh(flow) && fresh(height) && fresh(excessFlow)
    {
      this.vertices := vertices;
      capacity := new int[vertices, vertices]((i, j) => 0);
      flow := new int[vertices, vertices]((i, j) => 0);
      height := new int[vertices](i => 0);
      excessFlow := new int[vertices](i => 0);
    }

    /** Records cap as the capacity of the edge (u, v), replacing what was there. */
    method AddEdge(u: nat, v: nat, cap: int)
      requires Valid() && u < vertices && v < vertices
      modifies capacity
      ensures WellFormed(old(State())) && State() == WithEdge(old(State()), u, v, cap)
    {
      ghost var g := State();
      StateWellFormed();
      capacity[u, v] := cap;
      MatrixView(capacity, WithEdge(g, u, v, cap).capacity);
    }

    /** Lifts the source to height `vertices` and saturates every edge out of it; the
        reverse pair's capacity is overwritten with the forward capacity. */
    method InitializePreflow(source: nat)
      requires Valid() && source < vertices
      modifies capacity, flow, height, excessFlow
      ensures WellFormed(old(State())) && State() == Preflowed(old(State()), source)
    {
      StateWellFormed();
      ghost var g := State();
      Matrix2Entries(capacity);
      height[source] := vertices;
      SaturateSourceEdges(source, g.capacity[source]);
      PreflowCapacityView(g, source);
      PreflowFlowView(g, source);
      PreflowExcessView(g, source);
      assert height[..] == g.height[source := vertices];
    }

    /** The loop of the preflow: for every v with c = capacity[source, v] > 0, sets
        flow[source, v] and v's excess to c, takes c from the source's excess and sets
        capacity[v, source] to c. `out` is the source's row before the loop. */
    method SaturateSourceEdges(source: nat, ghost out: seq<int>)
      requires Valid() && source < vertices
      requires |out| == vertices && forall j :: 0 <= j < vertices ==> out[j] == capacity[source, j]
      modifies capacity, flow, excessFlow
      ensures forall i, j :: 0 <= i < vertices && 0 <= j < vertices ==>
        capacity[i, j] == if j == source && out[i] > 0 then out[i] else old(capacity[i, j])
      ensures forall i, j :: 0 <= i < vertices && 0 <= j < vertices ==>
        flow[i, j] == if i == source && out[j] > 0 then out[j] else old(flow[i, j])
      ensures forall i :: 0 <= i < vertices && i != source ==>
        excessFlow[i] == if out[i] > 0 then out[i] else old(excessFlow[i])
      ensures excessFlow[source] ==
        if out[source] > 0 then SumPositive(out[..source + 1]) - SumPositive(out)
        else old(excessFlow[source]) - SumPositive(out)
    {
      var v := 0;
      while v < vertices
        invariant 0 <= v <= vertices
        invariant forall i, j :: 0 <= i < vertices && 0 <= j < vertices ==>
          capacity[i, j] == if j == source && i < v && out[i] > 0 then out[i] else old(capacity[i, j])
        invariant forall i, j :: 0 <= i < vertices && 0 <= j < vertices ==>
          flow[i, j] == if i == source && j < v && out[j] > 0 then out[j] else old(flow[i, j])
        invariant forall i :: 0 <= i < vertices && i != source ==>
          excessFlow[i] == if i < v && out[i] > 0 then out[i] else old(excessFlow[i])
        invariant excessFlow[source] ==
          if source < v && out[source] > 0 then SumPositive(out[..source + 1]) - SumPositive(out[..v])
          else old(excessFlow[source]) - SumPositive(out[..v])
      {
        SumPositiveStep(out, v);
        var cap := capacity[source, v];
        assert cap == out[v];
        if cap > 0 {
          flow[source, v] := cap;
          excessFlow[v] := cap;
          excessFlow[source] := excessFlow[source] - cap;
          capacity[v, source] := cap;
        }
        v := v + 1;
      }
      assert out[..vertices] == out;
    }

    lemma PreflowCapacityView(g: Net, source: nat)
      requires Valid() && WellFormed(g) && Size(g) == vertices && source < vertices
      requires forall i, j :: 0 <= i < vertices && 0 <= j < vertices ==>
        capacity[i, j] == if j == source && g.capacity[source][i] > 0 then g.capacity[source][i] else g.capacity[i][j]
      ensures Matrix2(capacity) == Preflowed(g, source).capacity
    {
      MatrixView(capacity, Preflowed(g, source).capacity);
    }

    lemma PreflowFlowView(g: Net, source: nat)
      requires Valid() && WellFormed(g) && Size(g) == vertices && source < vertices
      requires forall i, j :: 0 <= i < vertices && 0 <= j < vertices ==>
        flow[i, j] == if i == source && g.capacity[source][j] > 0 then g.capacity[source][j] else g.flow[i][j]
      ensures Matrix2(flow) == Preflowed(g, source).flow
    {
      MatrixView(flow, Preflowed(g, source).flow);
    }

    lemma PreflowExcessView(g: Net, source: nat)
      requires Valid() && WellFormed(g) && Size(g) == vertices && source < vertices
      requires forall i :: 0 <= i < vertices && i != source ==>
        excessFlow[i] == if g.capacity[source][i] > 0 then g.capacity[source][i] else g.excess[i]
      requires excessFlow[source] == SourceExcessAfterPreflow(g, source)
      ensures excessFlow[..] == Preflowed(g, source).excess
    {
    }

    /** Moves the smaller of u's excess and the residual capacity of (u, v) from u to v. */
    method Push(u: nat, v: nat)
      requires Valid() && u < vertices && v < vertices
      modifies flow, excessFlow
      ensures WellFormed(old(State())) && State() == Pushed(old(State()), u, v)
    {
      ghost var g := State();
      StateWellFormed();
      var flowToPush := Min(excessFlow[u], capacity[u, v] - flow[u, v]);
      assert flowToPush == FlowToPush(g, u, v);
      flow[u, v] := flow[u, v] + flowToPush;
      flow[v, u] := flow[v, u] - flowToPush;
      excessFlow[u] := excessFlow[u] - flowToPush;
      excessFlow[v] := excessFlow[v] + flowToPush;
      ghost var r := Pushed(g, u, v);
      MatrixView(flow, r.flow);
      assert excessFlow[..] == r.excess;
    }

    /** Places u one above the lowest vertex it has residual capacity to; leaves it where
        it is when there is none. */
    method Relabel(u: nat)
      requires Valid() && u < vertices
      modifies height
      ensures WellFormed(old(State())) && State() == Relabelled(old(State()), u)
    {
      ghost var g := State();
      StateWellFormed();
      var found, minHeight := LowestNeighbourHeight(u);
      if found {
        height[u] := minHeight + 1;
      }
      assert height[..] == Relabelled(g, u).height;
    }

    /** The scan of relabel: whether u has residual capacity to some vertex, and the lowest
        height among those vertices. */
    method LowestNeighbourHeight(u: nat) returns (found: bool, minHeight: int)
      requires Valid() && u < vertices
      ensures WellFormed(State())
      ensures (if found then Some(minHeight) else None) == LowestResidualHeight(State(), u, vertices)
    {
      StateWellFormed();
      ghost var g := State();
      found := false;
      minHeight := 0;
      for v := 0 to vertices
        invariant (if found then Some(minHeight) else None) == LowestResidualHeight(g, u, v)
      {
        if capacity[u, v] - flow[u, v] > 0 {
          minHeight := if found then Min(minHeight, height[v]) else height[v];
          found := true;
        }
      }
    }

    /** Seeds the worklist: every vertex other than the source and the sink that holds
        excess, in increasing order. */
    method CollectActive(source: nat, sink: nat) returns (active: seq<nat>)
      requires Valid()
      ensures WellFormed(State()) && active == ActiveVertices(State(), source, sink, vertices)
      ensures IsWorklist(active, State(), source, sink)
    {
      StateWellFormed();
      active := [];
      for i := 0 to vertices
        invariant active == ActiveVertices(State(), source, sink, i)
      {
        if i != source && i != sink && excessFlow[i] > 0 {
          active := active + [i];
        }
      }
      ActiveVerticesIsWorklist(State(), source, sink, vertices);
    }

    /** One round of the main loop for the vertex u at the head of the worklist: push along
        the first admissible edge out of u and requeue, or relabel u when there is none. */
    method DischargeHead(source: nat, sink: nat, list: seq<nat>) returns (list': seq<nat>)
      requires Valid() && list != [] && InRange(list, vertices)
      modifies flow, excessFlow, height
      ensures WellFormed(old(State()))
      ensures Config(State(), list') == Discharge(Config(old(State()), list), source, sink)
    {
      StateWellFormed();
      ghost var cur := State();
      var u := list[0];
      var pushed := false;
      list' := list;
      var v := 0;
      while v < vertices
        invariant 0 <= v <= vertices && !pushed
        invariant State() == cur
        invariant FirstAdmissible(cur, u, v).None?
      {
        if capacity[u, v] - flow[u, v] > 0 && height[u] == height[v] + 1 {
          assert Admissible(cur, u, v);
          Push(u, v);
          pushed := true;
          if excessFlow[u] == 0 {
            list' := list'[1..];
          }
          if excessFlow[v] > 0 && v != source && v != sink && v !in list' {
            list' := list' + [v];
          }
          assert FirstAdmissible(cur, u, vertices) == Some(v);
          break;
        }
        v := v + 1;
      }
      if !pushed {
        Relabel(u);
      }
    }

    /** The main loop, for at most `fuel` rounds: discharges the head of the worklist until
        the worklist is empty. */
    method DischargeAll(source: nat, sink: nat, list: seq<nat>, fuel: nat) returns (list': seq<nat>)
      requires Valid() && InRange(list, vertices)
      modifies flow, excessFlow, height
      ensures WellFormed(old(State()))
      ensures Config(State(), list') == Run(Config(old(State()), list), source, sink, fuel)
    {
      StateWellFormed();
      ghost var final := Run(Config(State(), list), source, sink, fuel);
      list' := list;
      var remaining := fuel;
      ghost var cfg := Config(State(), list');
      while list' != [] && remaining > 0
        invariant WellFormed(State()) && Size(State()) == vertices
        invariant InRange(list', vertices)
        invariant cfg == Config(State(), list')
        invariant Run(cfg, source, sink, remaining) == final
        decreases remaining
      {
        ghost var prev, prevFuel := cfg, remaining;
        list' := DischargeHead(source, sink, list');
        cfg := Config(State(), list');
        remaining := remaining - 1;
        RunStep(prev, cfg, source, sink, prevFuel, remaining, final);
      }
      RunDone(cfg, source, sink, remaining);
    }

    /** Runs the preflow and then the main loop for at most `fuel` rounds, and returns the
        sink's excess. `finished` tells whether the loop emptied the worklist. On a
        freshly built graph the result lies between zero and the source's outgoing capacity,
        is at most the capacity into the sink,
        and once the loop has finished it is exactly what left the source. That no residual
        walk then leads from the source to the sink is MaxFlowRunNoAugmentingWalk. */
    method GetMaxFlow(source: nat, sink: nat, fuel: nat) returns (maxFlow: int, finished: bool)
      requires Valid() && source < vertices && sink < vertices
      modifies capacity, flow, height, excessFlow
      ensures WellFormed(old(State()))
      ensures State() == MaxFlowRun(old(State()), source, sink, fuel).net
      ensures finished <==> MaxFlowRun(old(State()), source, sink, fuel).active == []
      ensures maxFlow == excessFlow[sink]
      ensures IsFresh(old(State())) && NonNegativeCapacities(old(State())) && old(capacity[source, source]) == 0 ==>
        && (source != sink ==> 0 <= maxFlow <= SumPositive(old(State()).capacity[source]))
        && (source != sink ==> maxFlow <= SumPositive(Column(old(State()).capacity, sink)))
        && (finished ==> forall i :: 0 <= i < vertices && i != source && i != sink ==> excessFlow[i] == 0)
        && (finished && source != sink ==> maxFlow == -excessFlow[source])
    {
      StateWellFormed();
      ghost var g := State();
      InitializePreflow(source);
      var activeVertices := CollectActive(source, sink);
      activeVertices := DischargeAll(source, sink, activeVertices, fuel);
      finished := activeVertices == [];
      maxFlow := excessFlow[sink];
      if IsFresh(g) && NonNegativeCapacities(g) && g.capacity[source][source] == 0 {
        MaxFlowRunProperties(g, source, sink, fuel);
        ghost var r := MaxFlowRun(g, source, sink, fuel).net;
        assert excessFlow[..] == r.excess;
      }
    }
  }
}
