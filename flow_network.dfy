/** The state of a push-relabel maximum-flow computation over a dense graph with
    n vertices, as a value, and the steps the algorithm takes on it.

    Vertices are the indices 0 .. n-1. For every ordered pair (u, v) the state keeps
    a capacity and a flow; every vertex has a height and an excess. The functions
    here describe what each step of the algorithm does to that state; the lemmas
    state what the steps preserve and what holds once no internal vertex is left
    with excess. */
module FlowNetwork {

  datatype Option<T> = None | Some(value: T)

  /** A dense matrix, row by row. */
  type Matrix = seq<seq<int>>

  datatype Net = Net(capacity: Matrix, flow: Matrix, height: seq<int>, excess: seq<int>)

  function Size(g: Net): nat { |g.height| }

  predicate IsSquare(m: Matrix, n: nat) {
    |m| == n && forall i :: 0 <= i < n ==> |m[i]| == n
  }

  predicate WellFormed(g: Net) {
    IsSquare(g.capacity, Size(g)) && IsSquare(g.flow, Size(g)) && |g.excess| == Size(g)
  }

  /** A state as a freshly constructed instance has it: no flow, all heights and excesses zero. */
  predicate IsFresh(g: Net)
    requires WellFormed(g)
  {
    && (forall i, j :: 0 <= i < Size(g) && 0 <= j < Size(g) ==> g.flow[i][j] == 0)
    && (forall i :: 0 <= i < Size(g) ==> g.height[i] == 0)
    && (forall i :: 0 <= i < Size(g) ==> g.excess[i] == 0)
  }

  predicate NonNegativeCapacities(g: Net)
    requires WellFormed(g)
  {
    forall i, j :: 0 <= i < Size(g) && 0 <= j < Size(g) ==> g.capacity[i][j] >= 0
  }

  // ---------------------------------------------------------------------------
  // Sums

  function Sum(s: seq<int>): int {
    if |s| == 0 then 0 else Sum(s[..|s| - 1]) + s[|s| - 1]
  }

  function Pos(x: int): int { if x > 0 then x else 0 }

  /** The sum of the positive entries of s. */
  function SumPositive(s: seq<int>): int {
    if |s| == 0 then 0 else SumPositive(s[..|s| - 1]) + Pos(s[|s| - 1])
  }

  function Min(a: int, b: int): int { if a <= b then a else b }

  /** Column j of a square matrix: the entries m[i][j] for every row i. */
  function Column(m: Matrix, j: nat): seq<int>
    requires IsSquare(m, |m|) && j < |m|
  {
    seq(|m|, i requires 0 <= i < |m| => m[i][j])
  }

  lemma {:induction false} SumUpdate(s: seq<int>, i: nat, x: int)
    requires i < |s|
    ensures Sum(s[i := x]) == Sum(s) - s[i] + x
  {
    var n := |s| - 1;
    if i == n {
      assert s[i := x][..n] == s[..n];
    } else {
      assert s[i := x][..n] == s[..n][i := x];
      SumUpdate(s[..n], i, x);
    }
  }

  lemma {:induction false} SumNonNegative(s: seq<int>)
    requires forall i :: 0 <= i < |s| ==> s[i] >= 0
    ensures Sum(s) >= 0
  {
    if |s| > 0 {
      SumNonNegative(s[..|s| - 1]);
    }
  }

  lemma {:induction false} SumOfZeros(s: seq<int>)
    requires forall i :: 0 <= i < |s| ==> s[i] == 0
    ensures Sum(s) == 0
  {
    if |s| > 0 {
      SumOfZeros(s[..|s| - 1]);
    }
  }

  /** Summing the positive parts of the first k entries one by one gives SumPositive. */
  lemma {:induction false} SumOfPositiveParts(s: seq<int>, k: nat)
    requires k <= |s|
    ensures Sum(seq(k, i requires 0 <= i < k => Pos(s[i]))) == SumPositive(s[..k])
  {
    if k > 0 {
      SumOfPositiveParts(s, k - 1);
      var p := seq(k, i requires 0 <= i < k => Pos(s[i]));
      assert p[..k - 1] == seq(k - 1, i requires 0 <= i < k - 1 => Pos(s[i]));
      assert s[..k][..k - 1] == s[..k - 1];
    }
  }

  /** SumPositive of a prefix grows by the positive part of the next entry. */
  lemma SumPositiveStep(s: seq<int>, k: nat)
    requires k < |s|
    ensures SumPositive(s[..k + 1]) == SumPositive(s[..k]) + Pos(s[k])
  {
    assert s[..k + 1][..k] == s[..k];
  }

  /** A sequence bounded entry by entry by another sums to at most the other's positive part. */
  lemma {:induction false} SumBelowPositive(a: seq<int>, b: seq<int>)
    requires |a| == |b| && forall i :: 0 <= i < |a| ==> a[i] <= b[i]
    ensures Sum(a) <= SumPositive(b)
  {
    if |a| > 0 {
      SumBelowPositive(a[..|a| - 1], b[..|b| - 1]);
    }
  }

  /** A sum that is zero, with every entry except those at s and t non-negative, bounds
      t's entry by minus s's entry; with every such entry zero the two cancel exactly. */
  lemma SumOfTwoEnds(e: seq<int>, s: nat, t: nat)
    requires s < |e| && t < |e| && s != t && Sum(e) == 0
    requires forall i :: 0 <= i < |e| && i != s && i != t ==> e[i] >= 0
    ensures e[t] <= -e[s]
    ensures (forall i :: 0 <= i < |e| && i != s && i != t ==> e[i] == 0) ==> e[t] == -e[s]
  {
    var e1 := e[s := 0];
    var e2 := e1[t := 0];
    SumUpdate(e, s, 0);
    SumUpdate(e1, t, 0);
    SumNonNegative(e2);
    if forall i :: 0 <= i < |e| && i != s && i != t ==> e[i] == 0 {
      SumOfZeros(e2);
    }
  }

  // ---------------------------------------------------------------------------
  // Residual graph and labelling

  /** The residual capacity of the ordered pair (u, v). */
  function Residual(g: Net, u: nat, v: nat): int
    requires WellFormed(g) && u < Size(g) && v < Size(g)
  {
    g.capacity[u][v] - g.flow[u][v]
  }

  /** An edge the driver may push along: residual capacity left, and u exactly one above v. */
  predicate Admissible(g: Net, u: nat, v: nat)
    requires WellFormed(g) && u < Size(g) && v < Size(g)
  {
    Residual(g, u, v) > 0 && g.height[u] == g.height[v] + 1
  }

  predicate NoAdmissible(g: Net, u: nat)
    requires WellFormed(g) && u < Size(g)
  {
    forall v :: 0 <= v < Size(g) ==> !Admissible(g, u, v)
  }

  predicate HasResidualNeighbour(g: Net, u: nat)
    requires WellFormed(g) && u < Size(g)
  {
    exists v :: 0 <= v < Size(g) && Residual(g, u, v) > 0
  }

  /** No residual edge goes down by more than one level. */
  predicate ValidLabelling(g: Net)
    requires WellFormed(g)
  {
    forall u, v :: 0 <= u < Size(g) && 0 <= v < Size(g) && Residual(g, u, v) > 0 ==>
      g.height[u] <= g.height[v] + 1
  }

  /** Corresponding entries of the two square matrices have the same pair sums m[i][j] + m[j][i]. */
  predicate PairSumsAgree(m: Matrix, m': Matrix) {
    && |m| == |m'| && IsSquare(m, |m|) && IsSquare(m', |m'|)
    && forall i, j :: 0 <= i < |m| && 0 <= j < |m| ==> m[i][j] + m[j][i] == m'[i][j] + m'[j][i]
  }

  /** Vertex i holds excess and is neither the source nor the sink. */
  predicate IsActive(g: Net, s: nat, t: nat, i: nat)
    requires WellFormed(g) && i < Size(g)
  {
    i != s && i != t && g.excess[i] > 0
  }

  predicate NoDuplicates(list: seq<nat>) {
    forall a, b :: 0 <= a < b < |list| ==> list[a] != list[b]
  }

  /** The list holds, once each, exactly the active vertices. */
  predicate IsWorklist(list: seq<nat>, g: Net, s: nat, t: nat)
    requires WellFormed(g)
  {
    && (forall k :: 0 <= k < |list| ==> list[k] < Size(g))
    && NoDuplicates(list)
    && forall i :: 0 <= i < Size(g) ==> (i in list <==> IsActive(g, s, t, i))
  }

  // ---------------------------------------------------------------------------
  // The operations

  /** Recording the capacity of the edge (u, v). */
  function WithEdge(g: Net, u: nat, v: nat, cap: int): (r: Net)
    requires WellFormed(g) && u < Size(g) && v < Size(g)
    ensures WellFormed(r) && Size(r) == Size(g)
    ensures r.capacity[u][v] == cap
    ensures forall i, j :: 0 <= i < Size(g) && 0 <= j < Size(g) && (i != u || j != v) ==>
      r.capacity[i][j] == g.capacity[i][j]
    ensures r.flow == g.flow && r.height == g.height && r.excess == g.excess
    ensures IsFresh(g) ==> IsFresh(r)
    ensures NonNegativeCapacities(g) && cap >= 0 ==> NonNegativeCapacities(r)
  {
    g.(capacity := g.capacity[u := g.capacity[u][v := cap]])
  }

  /** The excess left at the source by the preflow: the excess it had, less the positive
      capacities out of it; a positive self-loop at the source resets the running total to
      zero when the scan reaches the source, so only the capacities after it are subtracted. */
  function SourceExcessAfterPreflow(g: Net, s: nat): int
    requires WellFormed(g) && s < Size(g)
  {
    var out := g.capacity[s];
    if out[s] > 0 then SumPositive(out[..s + 1]) - SumPositive(out)
    else g.excess[s] - SumPositive(out)
  }

  /** The state after the preflow from source s: the source is lifted to height n, and
      every edge (s, v) of positive capacity is saturated, gives v that capacity as its
      excess, and becomes the capacity of the reverse pair (v, s). */
  function Preflowed(g: Net, s: nat): Net
    requires WellFormed(g) && s < Size(g)
  {
    var n := Size(g);
    var out := g.capacity[s];
    Net(
      seq(n, i requires 0 <= i < n => if out[i] > 0 then g.capacity[i][s := out[i]] else g.capacity[i]),
      g.flow[s := seq(n, j requires 0 <= j < n => if out[j] > 0 then out[j] else g.flow[s][j])],
      g.height[s := n],
      seq(n, i requires 0 <= i < n =>
        if i == s then SourceExcessAfterPreflow(g, s)
        else if out[i] > 0 then out[i] else g.excess[i]))
  }

  /** The amount a push along (u, v) moves: the smaller of u's excess and the residual capacity. */
  function FlowToPush(g: Net, u: nat, v: nat): (d: int)
    requires WellFormed(g) && u < Size(g) && v < Size(g)
    ensures d <= g.excess[u] && d <= Residual(g, u, v)
    ensures d == g.excess[u] || d == Residual(g, u, v)
  {
    Min(g.excess[u], Residual(g, u, v))
  }

  /** The state after pushing along (u, v): flow[u][v] rises and flow[v][u] falls by the
      amount moved, which leaves u and arrives at v. */
  function Pushed(g: Net, u: nat, v: nat): (r: Net)
    requires WellFormed(g) && u < Size(g) && v < Size(g)
    ensures WellFormed(r) && Size(r) == Size(g)
    ensures r.capacity == g.capacity && r.height == g.height
    ensures PairSumsAgree(r.flow, g.flow)
    ensures u != v ==>
      var d := FlowToPush(g, u, v);
      && r.flow[u][v] == g.flow[u][v] + d && r.flow[v][u] == g.flow[v][u] - d
      && r.excess[u] == g.excess[u] - d && r.excess[v] == g.excess[v] + d
    ensures forall i, j :: 0 <= i < Size(g) && 0 <= j < Size(g) && !(i == u && j == v) && !(i == v && j == u) ==>
      r.flow[i][j] == g.flow[i][j]
    ensures forall i :: 0 <= i < Size(g) && i != u && i != v ==> r.excess[i] == g.excess[i]
  {
    var d := FlowToPush(g, u, v);
    var f1 := g.flow[u := g.flow[u][v := g.flow[u][v] + d]];
    var e1 := g.excess[u := g.excess[u] - d];
    g.(flow := f1[v := f1[v][u := f1[v][u] - d]], excess := e1[v := e1[v] + d])
  }

  /** The lowest height among the vertices v < k to which u has residual capacity, if any. */
  function LowestResidualHeight(g: Net, u: nat, k: nat): Option<int>
    requires WellFormed(g) && u < Size(g) && k <= Size(g)
  {
    if k == 0 then None
    else
      var m := LowestResidualHeight(g, u, k - 1);
      if Residual(g, u, k - 1) <= 0 then m
      else if m.Some? then Some(Min(m.value, g.height[k - 1]))
      else Some(g.height[k - 1])
  }

  /** The scan finds a height exactly when some v < k has residual capacity from u, and
      what it finds is the least height among those v. */
  lemma {:induction false} LowestResidualHeightIsLeast(g: Net, u: nat, k: nat)
    requires WellFormed(g) && u < Size(g) && k <= Size(g)
    ensures var r := LowestResidualHeight(g, u, k);
      && (r.None? <==> forall v :: 0 <= v < k ==> Residual(g, u, v) <= 0)
      && (r.Some? ==> forall v :: 0 <= v < k && Residual(g, u, v) > 0 ==> r.value <= g.height[v])
      && (r.Some? ==> exists v :: 0 <= v < k && Residual(g, u, v) > 0 && r.value == g.height[v])
  {
    if k > 0 {
      LowestResidualHeightIsLeast(g, u, k - 1);
    }
  }

  /** The state after relabelling u: u is placed one above its lowest residual neighbour,
      and left where it is if it has none. */
  function Relabelled(g: Net, u: nat): (r: Net)
    requires WellFormed(g) && u < Size(g)
    ensures WellFormed(r) && Size(r) == Size(g)
    ensures r.capacity == g.capacity && r.flow == g.flow && r.excess == g.excess
    ensures forall i :: 0 <= i < Size(g) && i != u ==> r.height[i] == g.height[i]
    ensures HasResidualNeighbour(g, u) ==>
      && (forall v :: 0 <= v < Size(g) && Residual(g, u, v) > 0 ==> r.height[u] <= g.height[v] + 1)
      && (exists v :: 0 <= v < Size(g) && Residual(g, u, v) > 0 && r.height[u] == g.height[v] + 1)
    ensures !HasResidualNeighbour(g, u) ==> r.height[u] == g.height[u]
  {
    LowestResidualHeightIsLeast(g, u, Size(g));
    match LowestResidualHeight(g, u, Size(g))
    case None => g
    case Some(m) => g.(height := g.height[u := m + 1])
  }

  // ---------------------------------------------------------------------------
  // The invariant of the driver loop

  /** The source sits at height n and no height is negative. */
  predicate HeightsInRange(g: Net, s: nat)
    requires WellFormed(g) && s < Size(g)
  {
    g.height[s] == Size(g) && forall i :: 0 <= i < Size(g) ==> g.height[i] >= 0
  }

  /** No pair carries more flow than its capacity. */
  predicate CapacityRespected(g: Net)
    requires WellFormed(g)
  {
    forall i, j :: 0 <= i < Size(g) && 0 <= j < Size(g) ==> Residual(g, i, j) >= 0
  }

  /** The excesses sum to zero, and each equals what the flow matrix records as entering
      the vertex, less, at the source, the positive capacities out of it. */
  predicate ExcessBalanced(g: Net, s: nat)
    requires WellFormed(g) && s < Size(g)
  {
    && Sum(g.excess) == 0
    && forall i :: 0 <= i < Size(g) ==>
         g.excess[i] == Sum(Column(g.flow, i)) - (if i == s then SumPositive(g.capacity[s]) else 0)
  }

  /** Every vertex but the source has non-negative excess, and the source has given away at
      most its outgoing capacity. */
  predicate ExcessSigns(g: Net, s: nat)
    requires WellFormed(g) && s < Size(g)
  {
    && (forall i :: 0 <= i < Size(g) && i != s ==> g.excess[i] >= 0)
    && g.excess[s] >= -SumPositive(g.capacity[s])
  }

  /** What holds of the state from the preflow on: a preflow with a valid labelling. */
  ghost predicate PreflowInvariant(g: Net, s: nat) {
    && WellFormed(g) && s < Size(g)
    && HeightsInRange(g, s)
    && CapacityRespected(g)
    && ValidLabelling(g)
    && ExcessBalanced(g, s)
    && ExcessSigns(g, s)
  }

  /** On a fresh state with non-negative capacities and no self-loop at the source, the
      preflow establishes the invariant, leaves the source with minus its outgoing
      capacity as excess, and keeps the source's row of capacities. */
  lemma PreflowEstablishesInvariant(g: Net, s: nat)
    requires WellFormed(g) && s < Size(g) && IsFresh(g) && NonNegativeCapacities(g)
    requires g.capacity[s][s] == 0
    ensures PreflowInvariant(Preflowed(g, s), s)
    ensures Preflowed(g, s).capacity[s] == g.capacity[s]
    ensures Preflowed(g, s).excess[s] == -SumPositive(g.capacity[s])
  {
    PreflowLabelling(g, s);
    PreflowExcesses(g, s);
    PreflowColumns(g, s);
  }

  /** After the preflow the source sits at height n above vertices at height 0, no pair
      carries more than its capacity, and the source has no residual capacity left, so
      the labelling is valid. */
  lemma PreflowLabelling(g: Net, s: nat)
    requires WellFormed(g) && s < Size(g) && IsFresh(g) && NonNegativeCapacities(g)
    requires g.capacity[s][s] == 0
    ensures WellFormed(Preflowed(g, s)) && Size(Preflowed(g, s)) == Size(g)
    ensures Preflowed(g, s).capacity[s] == g.capacity[s]
    ensures HeightsInRange(Preflowed(g, s), s)
    ensures CapacityRespected(Preflowed(g, s)) && ValidLabelling(Preflowed(g, s))
  {
    var n := Size(g);
    var p := Preflowed(g, s);
    assert p.capacity[s] == g.capacity[s];
    assert WellFormed(p);
    forall u, v | 0 <= u < n && 0 <= v < n && Residual(p, u, v) > 0
      ensures p.height[u] <= p.height[v] + 1
    {
      assert u != s;
    }
  }

  /** After the preflow every vertex but the source holds the positive part of the capacity
      from the source to it, the source holds minus their sum, and the excesses sum to zero. */
  lemma PreflowExcesses(g: Net, s: nat)
    requires WellFormed(g) && s < Size(g) && IsFresh(g) && g.capacity[s][s] == 0
    ensures |Preflowed(g, s).excess| == Size(g)
    ensures forall i :: 0 <= i < Size(g) && i != s ==> Preflowed(g, s).excess[i] == Pos(g.capacity[s][i])
    ensures Preflowed(g, s).excess[s] == -SumPositive(g.capacity[s])
    ensures Sum(Preflowed(g, s).excess) == 0
  {
    var n := Size(g);
    var out := g.capacity[s];
    var p := Preflowed(g, s);
    var parts := seq(n, i requires 0 <= i < n => Pos(out[i]));
    SumOfPositiveParts(out, n);
    assert out[..n] == out;
    assert p.excess == parts[s := -SumPositive(out)];
    SumUpdate(parts, s, -SumPositive(out));
  }

  /** After the preflow each column of the flow matrix holds at most the one saturated edge
      from the source, so each excess is what enters the vertex, less, at the source, the
      positive capacities out of it. */
  lemma PreflowColumns(g: Net, s: nat)
    requires WellFormed(g) && s < Size(g) && IsFresh(g) && g.capacity[s][s] == 0
    ensures WellFormed(Preflowed(g, s))
    ensures forall i :: 0 <= i < Size(g) ==>
      Preflowed(g, s).excess[i] == Sum(Column(Preflowed(g, s).flow, i)) - (if i == s then SumPositive(g.capacity[s]) else 0)
  {
    var n := Size(g);
    var out := g.capacity[s];
    var p := Preflowed(g, s);
    PreflowExcesses(g, s);
    forall i | 0 <= i < n
      ensures p.excess[i] == Sum(Column(p.flow, i)) - (if i == s then SumPositive(out) else 0)
    {
      var zeros := seq(n, j requires 0 <= j < n => 0);
      SumOfZeros(zeros);
      assert Column(p.flow, i) == zeros[s := Pos(out[i])];
      SumUpdate(zeros, s, Pos(out[i]));
    }
  }

  /** A push along an admissible edge moves a positive amount, keeps every residual
      capacity non-negative and keeps the labelling valid. */
  lemma PushKeepsLabelling(g: Net, u: nat, v: nat)
    requires WellFormed(g) && CapacityRespected(g) && ValidLabelling(g)
    requires u < Size(g) && v < Size(g) && g.excess[u] > 0 && Admissible(g, u, v)
    ensures 0 < FlowToPush(g, u, v)
    ensures CapacityRespected(Pushed(g, u, v)) && ValidLabelling(Pushed(g, u, v))
  {
    var n := Size(g);
    var r := Pushed(g, u, v);
    var d := FlowToPush(g, u, v);
    assert u != v;
    forall i, j | 0 <= i < n && 0 <= j < n
      ensures Residual(r, i, j) >= 0
      ensures Residual(r, i, j) > 0 ==> r.height[i] <= r.height[j] + 1
    {
      if i == v && j == u {
        assert Residual(r, i, j) == Residual(g, i, j) + d;
      } else if i == u && j == v {
        assert Residual(r, i, j) == Residual(g, i, j) - d;
      } else {
        assert Residual(r, i, j) == Residual(g, i, j);
      }
    }
  }

  /** A push from a vertex to itself adds the amount to flow[u][u] and takes it away again,
      and likewise for u's excess: nothing changes. */
  lemma PushToSelf(g: Net, u: nat)
    requires WellFormed(g) && u < Size(g)
    ensures Pushed(g, u, u) == g
  {
    var d := FlowToPush(g, u, u);
    var f1 := g.flow[u := g.flow[u][u := g.flow[u][u] + d]];
    var e1 := g.excess[u := g.excess[u] - d];
    assert f1[u][u := f1[u][u] - d] == g.flow[u];
    assert f1[u := f1[u][u := f1[u][u] - d]] == g.flow;
    assert e1[u := e1[u] + d] == g.excess;
  }

  /** A push with excess at u and residual capacity on (u, v) moves a positive amount and
      leaves neither negative: it either empties u or saturates the edge. */
  lemma PushEmptiesOrSaturates(g: Net, u: nat, v: nat)
    requires WellFormed(g) && u < Size(g) && v < Size(g) && u != v
    requires g.excess[u] > 0 && Residual(g, u, v) > 0
    ensures 0 < FlowToPush(g, u, v)
    ensures Pushed(g, u, v).excess[u] >= 0 && Residual(Pushed(g, u, v), u, v) >= 0
    ensures Pushed(g, u, v).excess[u] == 0 || Residual(Pushed(g, u, v), u, v) == 0
  {
  }

  /** A push leaves the total excess unchanged. */
  lemma PushConservesExcess(g: Net, u: nat, v: nat)
    requires WellFormed(g) && u < Size(g) && v < Size(g)
    ensures Sum(Pushed(g, u, v).excess) == Sum(g.excess)
  {
    var d := FlowToPush(g, u, v);
    var e1 := g.excess[u := g.excess[u] - d];
    SumUpdate(g.excess, u, g.excess[u] - d);
    SumUpdate(e1, v, e1[v] + d);
  }

  /** A push from u to v adds the amount moved to column v of the flow matrix and takes it
      from column u; every other column keeps its sum. */
  lemma PushColumnSum(g: Net, u: nat, v: nat, i: nat)
    requires WellFormed(g) && u < Size(g) && v < Size(g) && u != v && i < Size(g)
    ensures Sum(Column(Pushed(g, u, v).flow, i)) ==
      Sum(Column(g.flow, i)) + (if i == v then FlowToPush(g, u, v) else 0) - (if i == u then FlowToPush(g, u, v) else 0)
  {
    var r := Pushed(g, u, v);
    var d := FlowToPush(g, u, v);
    var c := Column(g.flow, i);
    if i == v {
      assert Column(r.flow, i) == c[u := c[u] + d];
      SumUpdate(c, u, c[u] + d);
    } else if i == u {
      assert Column(r.flow, i) == c[v := c[v] - d];
      SumUpdate(c, v, c[v] - d);
    } else {
      assert Column(r.flow, i) == c;
    }
  }

  /** A push keeps the total excess, and keeps each excess equal to its column of flow. */
  lemma PushKeepsBalance(g: Net, s: nat, u: nat, v: nat)
    requires WellFormed(g) && s < Size(g) && ExcessBalanced(g, s)
    requires u < Size(g) && v < Size(g) && u != v
    ensures ExcessBalanced(Pushed(g, u, v), s)
  {
    var r := Pushed(g, u, v);
    PushConservesExcess(g, u, v);
    forall i | 0 <= i < Size(g)
      ensures r.excess[i] == Sum(Column(r.flow, i)) - (if i == s then SumPositive(r.capacity[s]) else 0)
    {
      PushColumnSum(g, u, v, i);
    }
  }

  /** A push from an active, non-source vertex along an admissible edge keeps the invariant. */
  lemma PushPreservesInvariant(g: Net, s: nat, u: nat, v: nat)
    requires PreflowInvariant(g, s)
    requires u < Size(g) && v < Size(g) && u != s && g.excess[u] > 0 && Admissible(g, u, v)
    ensures PreflowInvariant(Pushed(g, u, v), s)
  {
    PushKeepsLabelling(g, u, v);
    PushKeepsBalance(g, s, u, v);
  }

  /** Relabelling a vertex with no admissible edge keeps the labelling valid and never
      lowers the vertex; when it has a residual neighbour, it strictly raises it. */
  lemma RelabelKeepsLabelling(g: Net, u: nat)
    requires WellFormed(g) && ValidLabelling(g) && u < Size(g) && NoAdmissible(g, u)
    ensures ValidLabelling(Relabelled(g, u))
    ensures Relabelled(g, u).height[u] >= g.height[u]
    ensures HasResidualNeighbour(g, u) ==> Relabelled(g, u).height[u] > g.height[u]
  {
    var n := Size(g);
    var r := Relabelled(g, u);
    if HasResidualNeighbour(g, u) {
      var w :| 0 <= w < n && Residual(g, u, w) > 0 && r.height[u] == g.height[w] + 1;
      assert !Admissible(g, u, w);
    }
    forall i, j | 0 <= i < n && 0 <= j < n && Residual(r, i, j) > 0
      ensures r.height[i] <= r.height[j] + 1
    {
      assert Residual(g, i, j) > 0;
    }
  }

  /** Relabelling a non-source vertex with no admissible edge keeps the invariant. */
  lemma RelabelPreservesInvariant(g: Net, s: nat, u: nat)
    requires PreflowInvariant(g, s)
    requires u < Size(g) && u != s && NoAdmissible(g, u)
    ensures PreflowInvariant(Relabelled(g, u), s)
    ensures Relabelled(g, u).height[u] >= g.height[u]
  {
    RelabelKeepsLabelling(g, u);
    var r := Relabelled(g, u);
    assert r.excess == g.excess && r.flow == g.flow && r.capacity == g.capacity;
    assert CapacityRespected(r) by {
      forall i, j | 0 <= i < Size(g) && 0 <= j < Size(g) ensures Residual(r, i, j) == Residual(g, i, j) { }
    }
  }

  /** The worklist after a push from its head u to v: u leaves when its excess is gone,
      and v joins at the back when it has become active and was not already there. */
  function RequeueAfterPush(list: seq<nat>, g: Net, s: nat, t: nat, v: nat): seq<nat>
    requires WellFormed(g) && list != [] && list[0] < Size(g) && v < Size(g)
  {
    var rest := if g.excess[list[0]] == 0 then list[1..] else list;
    if g.excess[v] > 0 && v != s && v != t && v !in rest then rest + [v] else rest
  }

  /** Dropping the head u once its excess is gone keeps the worklist exact for every
      vertex but v, when only u's and v's excess changed and u's did not go negative. */
  lemma DropHead(list: seq<nat>, g: Net, r: Net, s: nat, t: nat, v: nat)
    requires WellFormed(g) && WellFormed(r) && Size(r) == Size(g) && IsWorklist(list, g, s, t)
    requires list != [] && v < Size(g) && list[0] != v && r.excess[list[0]] >= 0
    requires forall i :: 0 <= i < Size(g) && i != list[0] && i != v ==> r.excess[i] == g.excess[i]
    ensures var rest := if r.excess[list[0]] == 0 then list[1..] else list;
      && (forall k :: 0 <= k < |rest| ==> rest[k] < Size(g))
      && NoDuplicates(rest)
      && (forall i :: 0 <= i < Size(g) && i != v ==> (i in rest <==> IsActive(r, s, t, i)))
      && (v in rest ==> v in list)
  {
    var u := list[0];
    var rest := if r.excess[u] == 0 then list[1..] else list;
    assert IsActive(g, s, t, u);
    forall i | 0 <= i < Size(g) && i != v
      ensures i in rest <==> IsActive(r, s, t, i)
    {
      if i != u && r.excess[u] == 0 {
        assert i in list <==> i in rest by {
          if i in list {
            var k :| 0 <= k < |list| && list[k] == i;
            assert k != 0;
            assert rest[k - 1] == i;
          }
        }
      }
    }
  }

  /** Requeueing after a push keeps the worklist exact, when only u's and v's excess changed,
      u's did not go negative and v's did not fall. */
  lemma RequeueKeepsWorklist(list: seq<nat>, g: Net, r: Net, s: nat, t: nat, v: nat)
    requires WellFormed(g) && WellFormed(r) && Size(r) == Size(g) && IsWorklist(list, g, s, t)
    requires list != [] && v < Size(g) && list[0] != v && r.excess[list[0]] >= 0
    requires forall i :: 0 <= i < Size(g) && i != list[0] && i != v ==> r.excess[i] == g.excess[i]
    requires r.excess[v] >= g.excess[v]
    ensures IsWorklist(RequeueAfterPush(list, r, s, t, v), r, s, t)
  {
    DropHead(list, g, r, s, t, v);
    var rest := if r.excess[list[0]] == 0 then list[1..] else list;
    assert v in rest ==> IsActive(g, s, t, v);
    if r.excess[v] > 0 && v != s && v != t && v !in rest {
      AppendNew(rest, v);
    }
  }

  /** Appending an element not yet in the list keeps it free of duplicates and adds just it. */
  lemma AppendNew(list: seq<nat>, v: nat)
    requires NoDuplicates(list) && v !in list
    ensures NoDuplicates(list + [v])
    ensures forall i :: i in list + [v] <==> i in list || i == v
  {
  }

  /** A push from the head of the worklist along an admissible edge, followed by the
      requeueing, keeps the list exactly the active vertices. */
  lemma WorklistAfterPush(list: seq<nat>, g: Net, s: nat, t: nat, v: nat)
    requires WellFormed(g) && IsWorklist(list, g, s, t) && list != []
    requires v < Size(g) && Admissible(g, list[0], v)
    ensures IsWorklist(RequeueAfterPush(list, Pushed(g, list[0], v), s, t, v), Pushed(g, list[0], v), s, t)
  {
    var u := list[0];
    var r := Pushed(g, u, v);
    assert u != v;
    assert IsActive(g, s, t, u);
    assert FlowToPush(g, u, v) > 0;
    RequeueKeepsWorklist(list, g, r, s, t, v);
  }

  // ---------------------------------------------------------------------------
  // The driver loop

  /** The active vertices below k in increasing order: the worklist the driver starts from. */
  function ActiveVertices(g: Net, s: nat, t: nat, k: nat): seq<nat>
    requires WellFormed(g) && k <= Size(g)
  {
    if k == 0 then []
    else ActiveVertices(g, s, t, k - 1) + (if IsActive(g, s, t, k - 1) then [k - 1] else [])
  }

  /** The starting worklist lists the active vertices below k, each once, in increasing order. */
  lemma {:induction false} ActiveVerticesIsWorklist(g: Net, s: nat, t: nat, k: nat)
    requires WellFormed(g) && k <= Size(g)
    ensures forall a :: 0 <= a < |ActiveVertices(g, s, t, k)| ==> ActiveVertices(g, s, t, k)[a] < k
    ensures forall a, b :: 0 <= a < b < |ActiveVertices(g, s, t, k)| ==>
      ActiveVertices(g, s, t, k)[a] < ActiveVertices(g, s, t, k)[b]
    ensures forall i :: 0 <= i < k ==> (i in ActiveVertices(g, s, t, k) <==> IsActive(g, s, t, i))
    ensures k == Size(g) ==> IsWorklist(ActiveVertices(g, s, t, k), g, s, t)
  {
    if k > 0 {
      ActiveVerticesIsWorklist(g, s, t, k - 1);
      var l := ActiveVertices(g, s, t, k - 1);
      assert forall i :: 0 <= i < k - 1 ==> (i in ActiveVertices(g, s, t, k) <==> i in l);
    }
  }

  /** The first vertex w < k along whose edge from u a push is allowed, if any. */
  function FirstAdmissible(g: Net, u: nat, k: nat): (r: Option<nat>)
    requires WellFormed(g) && u < Size(g) && k <= Size(g)
    ensures r.None? <==> forall w :: 0 <= w < k ==> !Admissible(g, u, w)
    ensures r.Some? ==>
      && r.value < k && Admissible(g, u, r.value)
      && forall w :: 0 <= w < r.value ==> !Admissible(g, u, w)
  {
    if k == 0 then None
    else
      match FirstAdmissible(g, u, k - 1)
      case Some(v) => Some(v)
      case None => if Admissible(g, u, k - 1) then Some(k - 1) else None
  }

  /** A state of the network together with the driver's worklist. */
  datatype Config = Config(net: Net, active: seq<nat>)

  predicate InRange(list: seq<nat>, n: nat) {
    forall k :: 0 <= k < |list| ==> list[k] < n
  }

  /** One round of the driver loop. The head u of the worklist pushes along its first
      admissible edge, after which the worklist is requeued; with no admissible edge, u
      is relabelled and the worklist is left as it is. */
  function Discharge(c: Config, s: nat, t: nat): (r: Config)
    requires WellFormed(c.net) && c.active != [] && InRange(c.active, Size(c.net))
    ensures WellFormed(r.net) && Size(r.net) == Size(c.net) && InRange(r.active, Size(r.net))
    ensures r.net.capacity == c.net.capacity
  {
    var u := c.active[0];
    match FirstAdmissible(c.net, u, Size(c.net))
    case Some(v) =>
      var p := Pushed(c.net, u, v);
      Config(p, RequeueAfterPush(c.active, p, s, t, v))
    case None => Config(Relabelled(c.net, u), c.active)
  }

  /** A driver round as a total step: a configuration it does not apply to is left alone. */
  function Round(s: nat, t: nat): Config -> Config {
    (c: Config) =>
      if WellFormed(c.net) && c.active != [] && InRange(c.active, Size(c.net)) then Discharge(c, s, t) else c
  }

  /** At most fuel applications of step, stopping early once the worklist is empty. */
  function Iterate(step: Config -> Config, c: Config, fuel: nat): Config
    decreases fuel
  {
    if c.active == [] || fuel == 0 then c else Iterate(step, step(c), fuel - 1)
  }

  /** Induction over Iterate: a property that every step from a configuration with work
      left keeps holds after any number of steps. */
  lemma {:induction false} IterateInduction(P: Config -> bool, step: Config -> Config, c: Config, fuel: nat)
    requires P(c)
    requires forall x: Config :: P(x) && x.active != [] ==> P(step(x))
    ensures P(Iterate(step, c, fuel))
    decreases fuel
  {
    if c.active != [] && fuel > 0 {
      IterateInduction(P, step, step(c), fuel - 1);
    }
  }

  /** The driver loop run for at most fuel rounds; it stops early once the worklist is empty. */
  function Run(c: Config, s: nat, t: nat, fuel: nat): Config {
    Iterate(Round(s, t), c, fuel)
  }

  /** What holds between driver rounds: the preflow invariant, the worklist is exactly the
      active vertices, and a sink other than the source stays at height 0. */
  ghost predicate ConfigInvariant(c: Config, s: nat, t: nat) {
    && PreflowInvariant(c.net, s) && t < Size(c.net)
    && IsWorklist(c.active, c.net, s, t)
    && (s != t ==> c.net.height[t] == 0)
  }

  /** r is reachable from c by driver rounds in the sense that matters: the same capacities,
      the same pair sums of flow, and no vertex lower than it was. */
  predicate Evolved(c: Config, r: Config) {
    && WellFormed(c.net) && WellFormed(r.net) && Size(r.net) == Size(c.net)
    && r.net.capacity == c.net.capacity
    && PairSumsAgree(r.net.flow, c.net.flow)
    && forall i :: 0 <= i < Size(c.net) ==> r.net.height[i] >= c.net.height[i]
  }

  lemma EvolvedTransitive(a: Config, b: Config, c: Config)
    requires Evolved(a, b) && Evolved(b, c)
    ensures Evolved(a, c)
  {
    var n := Size(a.net);
    forall i, j | 0 <= i < n && 0 <= j < n
      ensures c.net.flow[i][j] + c.net.flow[j][i] == a.net.flow[i][j] + a.net.flow[j][i]
    {
      assert c.net.flow[i][j] + c.net.flow[j][i] == b.net.flow[i][j] + b.net.flow[j][i];
    }
  }

  lemma EvolvedReflexive(c: Config)
    requires WellFormed(c.net)
    ensures Evolved(c, c)
  {
  }

  /** A driver round keeps the invariant between rounds. */
  lemma DischargePreservesInvariant(c: Config, s: nat, t: nat)
    requires ConfigInvariant(c, s, t) && c.active != []
    ensures ConfigInvariant(Discharge(c, s, t), s, t) && Evolved(c, Discharge(c, s, t))
  {
    var g := c.net;
    var u := c.active[0];
    assert IsActive(g, s, t, u);
    match FirstAdmissible(g, u, Size(g))
    case Some(v) =>
      PushPreservesInvariant(g, s, u, v);
      WorklistAfterPush(c.active, g, s, t, v);
    case None =>
      RelabelPreservesInvariant(g, s, u);
      var r := Relabelled(g, u);
      assert forall i :: 0 <= i < Size(g) ==> (IsActive(r, s, t, i) <==> IsActive(g, s, t, i));
  }

  /** A run with work left and fuel left is one Discharge followed by the rest of the run. */
  lemma RunUnfold(c: Config, s: nat, t: nat, fuel: nat)
    requires WellFormed(c.net) && InRange(c.active, Size(c.net)) && c.active != [] && fuel > 0
    ensures Run(c, s, t, fuel) == Run(Discharge(c, s, t), s, t, fuel - 1)
  {
  }

  /** After one round, what is left of a run reaches the same configuration. */
  lemma RunStep(c: Config, d: Config, s: nat, t: nat, fuel: nat, rest: nat, final: Config)
    requires WellFormed(c.net) && InRange(c.active, Size(c.net)) && c.active != [] && fuel == rest + 1
    requires d == Discharge(c, s, t) && Run(c, s, t, fuel) == final
    ensures Run(d, s, t, rest) == final
  {
    RunUnfold(c, s, t, fuel);
  }

  /** A run with no work or no fuel left stops where it is. */
  lemma RunDone(c: Config, s: nat, t: nat, fuel: nat)
    requires c.active == [] || fuel == 0
    ensures Run(c, s, t, fuel) == c
  {
  }

  /** Any number of driver rounds keeps the invariant between rounds, keeps the capacities
      and pair sums, and lowers no vertex. */
  lemma RunPreservesInvariant(c: Config, s: nat, t: nat, fuel: nat)
    requires ConfigInvariant(c, s, t)
    ensures ConfigInvariant(Run(c, s, t, fuel), s, t) && Evolved(c, Run(c, s, t, fuel))
  {
    EvolvedReflexive(c);
    var p := (x: Config) => ConfigInvariant(x, s, t) && Evolved(c, x);
    var step := Round(s, t);
    forall x: Config | p(x) && x.active != []
      ensures p(step(x))
    {
      assert step(x) == Discharge(x, s, t);
      DischargePreservesInvariant(x, s, t);
      EvolvedTransitive(c, x, Discharge(x, s, t));
    }
    IterateInduction(p, step, c, fuel);
  }

  /** The configuration the driver loop starts from: the preflow and its active vertices. */
  function Start(g: Net, s: nat, t: nat): Config
    requires WellFormed(g) && s < Size(g)
  {
    var p := Preflowed(g, s);
    Config(p, ActiveVertices(p, s, t, Size(p)))
  }

  lemma StartEstablishesInvariant(g: Net, s: nat, t: nat)
    requires WellFormed(g) && s < Size(g) && t < Size(g)
    requires IsFresh(g) && NonNegativeCapacities(g) && g.capacity[s][s] == 0
    ensures InRange(Start(g, s, t).active, Size(g))
    ensures ConfigInvariant(Start(g, s, t), s, t)
  {
    var p := Preflowed(g, s);
    PreflowEstablishesInvariant(g, s);
    ActiveVerticesIsWorklist(p, s, t, Size(p));
    assert s != t ==> p.height[t] == g.height[t];
  }

  /** The driver run from a fresh graph for at most fuel rounds. */
  function MaxFlowRun(g: Net, s: nat, t: nat, fuel: nat): Config
    requires WellFormed(g) && s < Size(g)
  {
    Run(Start(g, s, t), s, t, fuel)
  }

  /** What the driver guarantees, however many rounds it takes: the invariant holds, the
      capacities are those of the preflow, flow only moved within pairs, no vertex went
      down, and the sink's excess lies between zero and the source's outgoing capacity.
      Once the worklist is empty, every vertex but the source and the sink is balanced and
      the sink's excess is what left the source. */
  lemma MaxFlowRunProperties(g: Net, s: nat, t: nat, fuel: nat)
    requires WellFormed(g) && s < Size(g) && t < Size(g)
    requires IsFresh(g) && NonNegativeCapacities(g) && g.capacity[s][s] == 0
    ensures ConfigInvariant(MaxFlowRun(g, s, t, fuel), s, t)
    ensures Evolved(Start(g, s, t), MaxFlowRun(g, s, t, fuel))
    ensures s != t ==> 0 <= MaxFlowRun(g, s, t, fuel).net.excess[t] <= SumPositive(g.capacity[s])
    ensures s != t ==> MaxFlowRun(g, s, t, fuel).net.excess[t] <= SumPositive(Column(g.capacity, t))
    ensures MaxFlowRun(g, s, t, fuel).active == [] ==>
      var r := MaxFlowRun(g, s, t, fuel).net;
      && (forall i :: 0 <= i < Size(g) && i != s && i != t ==> r.excess[i] == 0 && Sum(Column(r.flow, i)) == 0)
      && (s != t ==> r.excess[t] == -r.excess[s])
      && (s == t ==> r.excess[t] == 0)
  {
    StartEstablishesInvariant(g, s, t);
    PreflowEstablishesInvariant(g, s);
    var c := Start(g, s, t);
    RunPreservesInvariant(c, s, t, fuel);
    ExcessAtExit(MaxFlowRun(g, s, t, fuel).net, s, t);
    if s != t {
      PreflowKeepsColumn(g, s, t);
      SinkInflowBound(MaxFlowRun(g, s, t, fuel).net, s, t, Column(g.capacity, t));
    }
  }

  /** The preflow rewrites only the source's column of capacities. */
  lemma PreflowKeepsColumn(g: Net, s: nat, t: nat)
    requires WellFormed(g) && s < Size(g) && t < Size(g) && s != t
    ensures forall i :: 0 <= i < Size(g) ==> Preflowed(g, s).capacity[i][t] == g.capacity[i][t]
  {
  }

  /** The sink's excess is what the flow matrix records as entering it, so with no pair over
      capacity it is at most the positive capacities into the sink. */
  lemma SinkInflowBound(r: Net, s: nat, t: nat, into: seq<int>)
    requires PreflowInvariant(r, s) && t < Size(r) && s != t
    requires |into| == Size(r) && forall i :: 0 <= i < Size(r) ==> r.capacity[i][t] == into[i]
    ensures r.excess[t] <= SumPositive(into)
  {
    var col := Column(r.flow, t);
    forall i | 0 <= i < |col| ensures col[i] <= into[i] {
      assert Residual(r, i, t) >= 0;
    }
    SumBelowPositive(col, into);
  }

  /** Once no vertex is active, every vertex but the source and the sink has zero excess, so
      nothing enters or leaves it on balance; the sink's excess is minus the source's, and
      lies between zero and the source's outgoing capacity. While vertices are still active
      the sink's excess already has those bounds. */
  lemma ExcessAtExit(g: Net, s: nat, t: nat)
    requires PreflowInvariant(g, s) && t < Size(g)
    ensures s != t ==> 0 <= g.excess[t] <= -g.excess[s] <= SumPositive(g.capacity[s])
    ensures (forall i :: 0 <= i < Size(g) ==> !IsActive(g, s, t, i)) ==>
      && (forall i :: 0 <= i < Size(g) && i != s && i != t ==> g.excess[i] == 0 && Sum(Column(g.flow, i)) == 0)
      && (s != t ==> g.excess[t] == -g.excess[s])
      && (s == t ==> g.excess[t] == 0)
  {
    var n := Size(g);
    if forall i :: 0 <= i < n ==> !IsActive(g, s, t, i) {
      forall i | 0 <= i < n && i != s && i != t
        ensures g.excess[i] == 0 && Sum(Column(g.flow, i)) == 0
      {
        assert !IsActive(g, s, t, i);
      }
    }
    if s != t {
      SumOfTwoEnds(g.excess, s, t);
    } else {
      var e1 := g.excess[s := 0];
      SumUpdate(g.excess, s, 0);
      if forall i :: 0 <= i < n ==> !IsActive(g, s, t, i) {
        forall i | 0 <= i < n ensures e1[i] == 0 {
          if i != s { assert !IsActive(g, s, t, i); }
        }
        SumOfZeros(e1);
      }
    }
  }

  // ---------------------------------------------------------------------------
  // No residual walk from the source to the sink

  /** p visits vertices in order, each step along positive residual capacity. */
  predicate IsResidualWalk(g: Net, p: seq<nat>)
    requires WellFormed(g)
  {
    && (forall k :: 0 <= k < |p| ==> p[k] < Size(g))
    && forall k :: 0 <= k < |p| - 1 ==> Residual(g, p[k], p[k + 1]) > 0
  }

  /** Along a residual walk of a validly labelled state, height falls by at most one per step. */
  lemma {:induction false} HeightAlongWalk(g: Net, p: seq<nat>)
    requires WellFormed(g) && ValidLabelling(g) && IsResidualWalk(g, p) && |p| > 0
    ensures g.height[p[0]] <= g.height[p[|p| - 1]] + |p| - 1
  {
    if |p| > 1 {
      HeightAlongWalk(g, p[1..]);
    }
  }

  /** More than n entries, all below n, cannot all differ. */
  lemma {:induction false} Repeats(q: seq<nat>, n: nat)
    requires |q| > n && forall k :: 0 <= k < |q| ==> q[k] < n
    ensures exists i, j :: 0 <= i < j < |q| && q[i] == q[j]
    decreases n
  {
    var m := |q| - 1;
    var x := q[m];
    if exists i :: 0 <= i < m && q[i] == x {
      var i :| 0 <= i < m && q[i] == x;
      assert q[i] == q[m];
    } else {
      // Close the gap left by x and look for a repeat among the others.
      var q' := seq(m, k requires 0 <= k < m => if q[k] > x then q[k] - 1 else q[k]);
      Repeats(q', n - 1);
      var i, j :| 0 <= i < j < m && q'[i] == q'[j];
      assert q[i] == q[j];
    }
  }

  /** Cutting out the loop between two visits of the same vertex leaves a residual walk
      with the same ends. */
  lemma Shortcut(g: Net, p: seq<nat>, i: nat, j: nat)
    requires WellFormed(g) && IsResidualWalk(g, p) && i < j < |p| && p[i] == p[j]
    ensures var q := p[..i] + p[j..];
      && IsResidualWalk(g, q) && |q| < |p| && q[0] == p[0] && q[|q| - 1] == p[|p| - 1]
  {
    var q := p[..i] + p[j..];
    forall k | 0 <= k < |q| - 1
      ensures Residual(g, q[k], q[k + 1]) > 0
    {
      if k + 1 < i {
        assert q[k] == p[k] && q[k + 1] == p[k + 1];
      } else if k + 1 == i {
        assert q[k] == p[k] && q[k + 1] == p[k + 1];
      } else {
        assert q[k] == p[k - i + j] && q[k + 1] == p[k + 1 - i + j];
      }
    }
  }

  /** In a state satisfying the invariant, every vertex that a residual walk from the source
      reaches sits above height 0: a walk with no repeated vertex has at most n vertices and
      goes down at most one level per step from height n, and any other walk shortens to one. */
  lemma {:induction false} ReachedAboveZero(g: Net, s: nat, p: seq<nat>)
    requires PreflowInvariant(g, s) && IsResidualWalk(g, p) && |p| > 0 && p[0] == s
    ensures g.height[p[|p| - 1]] > 0
    decreases |p|
  {
    if |p| <= Size(g) {
      HeightAlongWalk(g, p);
    } else {
      Repeats(p, Size(g));
      var i, j :| 0 <= i < j < |p| && p[i] == p[j];
      Shortcut(g, p, i, j);
      ReachedAboveZero(g, s, p[..i] + p[j..]);
    }
  }

  /** With the sink at height 0, no residual walk leads from the source to the sink: the
      flow can be augmented along no path. */
  lemma NoAugmentingWalk(g: Net, s: nat, t: nat, p: seq<nat>)
    requires PreflowInvariant(g, s) && t < Size(g) && g.height[t] == 0
    requires IsResidualWalk(g, p) && |p| > 0 && p[0] == s
    ensures p[|p| - 1] != t
  {
    ReachedAboveZero(g, s, p);
  }

  /** However many rounds the driver takes from a fresh graph, the sink cannot be reached
      from the source in the residual graph. */
  lemma MaxFlowRunNoAugmentingWalk(g: Net, s: nat, t: nat, fuel: nat)
    requires WellFormed(g) && s < Size(g) && t < Size(g) && s != t
    requires IsFresh(g) && NonNegativeCapacities(g) && g.capacity[s][s] == 0
    ensures WellFormed(MaxFlowRun(g, s, t, fuel).net)
    ensures forall p :: IsResidualWalk(MaxFlowRun(g, s, t, fuel).net, p) && |p| > 0 && p[0] == s ==> p[|p| - 1] != t
  {
    MaxFlowRunProperties(g, s, t, fuel);
    var r := MaxFlowRun(g, s, t, fuel).net;
    forall p | IsResidualWalk(r, p) && |p| > 0 && p[0] == s
      ensures p[|p| - 1] != t
    {
      NoAugmentingWalk(r, s, t, p);
    }
  }
}
