/** The retiming engine of src/opt/opt.py (class OPT): the candidate clocks taken from D,
    the binary search over them with a slot list it fills in place, the two feasibility
    oracles (the constraint graph with Bellman-Ford, and FEAS), the critical-path pass CP
    that updates the shared delay array in place, and the application of a lag vector to
    the circuit's wires. */
module OptEngine {
  import opened CircuitGraph
  import opened Candidates
  import opened Topo
  import opened ShortestPaths
  import opened Constraints
  import opened CriticalPath
  import Search

  /** The oracle `opt` selects: "opt1" picks the constraint graph with Bellman-Ford,
      anything else FEAS. */
  datatype Algorithm = BellmanFordOracle | FeasOracle

  /** One entry of the search's list: a candidate clock, and once probed its verdict and lags. */
  datatype Slot = Slot(clock: int, verdict: Option<bool>, lags: Option<seq<int>>)

  /** What one call of the search decides: report a result (and the index of the slot it
      comes from, or -1), or continue with the window [lo, hi], the left or the right half. */
  datatype Move = Stop(feasible: bool, lags: Option<seq<int>>, at: int) | Recurse(lo: int, hi: int)

  /** Python's default recursion limit, which bounds the depth of the recursive search. */
  const PythonRecursionLimit: nat := 1000

  /** Python list indexing: a negative index counts from the end; anything else is an IndexError. */
  function PyIndex(len: nat, i: int): (r: Option<nat>)
    ensures r.Some? ==> r.value < len && (r.value == i || r.value == i + len)
    ensures r.None? <==> !(-(len as int) <= i < len)
  {
    if 0 <= i < len then Some(i) else if -(len as int) <= i < 0 then Some(i + len) else None
  }

  /** `np.where(d > clock, 1, 0)`. */
  function Exceeds(d: seq<int>, clock: int): (delta: seq<int>)
    ensures |delta| == |d|
    ensures forall v :: 0 <= v < |d| ==> (delta[v] == 1 <==> d[v] > clock) && (delta[v] == 0 <==> d[v] <= clock)
  {
    seq(|d|, v requires 0 <= v < |d| => if d[v] > clock then 1 else 0)
  }

  /** The component delays d(v), the diagonal of D. */
  function Diagonal(D: seq<seq<int>>, n: nat): (diag: seq<int>)
    requires Square(D, n)
    ensures |diag| == n && forall v :: 0 <= v < n ==> diag[v] == D[v][v]
  {
    seq(n, v requires 0 <= v < n => D[v][v])
  }

  /** Over increasing candidate clocks, the table of which of them admit a retiming never
      turns from feasible to infeasible, provided W is at most every wire's register count. */
  lemma TableMonotone(n: nat, es: seq<Edge>, W: seq<seq<int>>, D: seq<seq<int>>, cands: seq<int>, V: seq<bool>)
    requires WellFormed(n, es) && Square(W, n) && Square(D, n) && Dominated(es, W, n)
    requires StrictlyIncreasing(cands) && |V| == |cands|
    requires forall i :: 0 <= i < |V| ==> (V[i] <==> ClockFeasible(n, es, W, D, cands[i]))
    ensures Search.Monotone(V)
  {
    forall i, j | 0 <= i <= j < |V| && V[i] ensures V[j] {
      if i < j {
        ClockFeasibleMonotone(n, es, W, D, cands[i], cands[j]);
      }
    }
  }

  /** The table of which candidate clocks admit a retiming of the circuit es. */
  ghost function Table(n: nat, es: seq<Edge>, W: seq<seq<int>>, D: seq<seq<int>>, cands: seq<int>): (V: seq<bool>)
    requires WellFormed(n, es) && Square(W, n) && Square(D, n)
    ensures |V| == |cands| && forall i :: 0 <= i < |V| ==> (V[i] <==> ClockFeasible(n, es, W, D, cands[i]))
  {
    seq(|cands|, i requires 0 <= i < |cands| => ClockFeasible(n, es, W, D, cands[i]))
  }

  /** Every entry of D is among the candidates taken from D. */
  lemma InCandidates(D: seq<seq<int>>, cands: seq<int>, u: nat, v: nat)
    requires u < |D| && v < |D[u]|
    requires forall x :: x in cands <==> exists u, v :: 0 <= u < |D| && 0 <= v < |D[u]| && D[u][v] == x
    ensures D[u][v] in cands
  {
    var x := D[u][v];
    assert exists u', v' :: 0 <= u' < |D| && 0 <= v' < |D[u']| && D[u'][v'] == x;
  }

  /** When the candidates are the distinct entries of D in increasing order and no wire
      carries a negative count, there is a candidate and the last one admits a retiming. */
  lemma LastCandidateFeasible(n: nat, es: seq<Edge>, W: seq<seq<int>>, D: seq<seq<int>>, cands: seq<int>)
    requires WellFormed(n, es) && Square(W, n) && Square(D, n) && NonNegative(es) && n > 0
    requires StrictlyIncreasing(cands)
    requires forall x :: x in cands <==> exists u, v :: 0 <= u < |D| && 0 <= v < |D[u]| && D[u][v] == x
    ensures |cands| > 0 && ClockFeasible(n, es, W, D, cands[|cands| - 1])
  {
    InCandidates(D, cands, 0, 0);
    var top := cands[|cands| - 1];
    forall u, v | 0 <= u < n && 0 <= v < n ensures D[u][v] <= top {
      InCandidates(D, cands, u, v);
      var i :| 0 <= i < |cands| && cands[i] == D[u][v];
    }
    LargestClockFeasible(n, es, W, D, top);
  }

  class Opt {
    /** Nodes are 0..n-1. */
    const n: nat
    /** The circuit; `_apply_retiming` rewrites its wires' register counts in place. */
    const graph: array<Edge>
    const W: seq<seq<int>>
    const D: seq<seq<int>>
    /** `node_delay`: null until `opt` copies the diagonal of D into it; every CP pass adds into it. */
    var nodeDelay: array?<int>
    var minClock: int
    var dRange: seq<int>
    /** The lags the search settled on; None when it reported no feasible clock. */
    var retimings: Option<seq<int>>
    var checker: Option<Algorithm>

    ghost predicate Valid()
      reads this, graph
    {
      WellFormed(n, graph[..]) && Square(W, n) && Square(D, n)
    }

    /** The delay array CP works on is in place. */
    ghost predicate Ready()
      reads this
    {
      nodeDelay != null && nodeDelay.Length == n
    }

    constructor (n: nat, graph: array<Edge>, W: seq<seq<int>>, D: seq<seq<int>>)
      ensures this.n == n && this.graph == graph && this.W == W && this.D == D
      ensures nodeDelay == null && minClock == 0 && dRange == [] && retimings == Some([]) && checker == None
    {
      this.n := n;
      this.graph := graph;
      this.W := W;
      this.D := D;
      nodeDelay := null;
      minClock := 0;
      dRange := [];
      retimings := Some([]);
      checker := None;
    }

    /** `_create_d_range`: the distinct entries of D in increasing order. */
    function CreateDRange(): (r: seq<int>)
      reads this
      ensures StrictlyIncreasing(r)
      ensures forall x :: x in r <==> exists u, v :: 0 <= u < |D| && 0 <= v < |D[u]| && D[u][v] == x
    {
      SortedDistinct(MatrixValues(D))
    }

    /** `_apply_retiming`: every wire's count becomes w + r(v) - r(u), computed from its own
        count before the update; the endpoints stay. */
    method ApplyRetiming(g: array<Edge>, r: seq<int>)
      requires LagFits(g[..], r)
      modifies g
      ensures g[..] == Retime(old(g[..]), r)
    {
      ghost var before := g[..];
      var i := 0;
      while i < g.Length
        invariant 0 <= i <= g.Length
        invariant g[..i] == Retime(before, r)[..i]
        invariant g[i..] == before[i..]
      {
        assert g[i] == before[i];
        g[i] := RetimeEdge(g[i], r);
        assert g[..i + 1] == Retime(before, r)[..i + 1];
        i := i + 1;
      }
      assert g[..] == g[..g.Length];
    }

    /** The largest delay among v's zero-register predecessors (`np.max` over the marked
        entries of v's column), or None when v has none. */
    method MaxPredDelay(g: array<Edge>, v: nat) returns (best: Option<int>)
      requires Ready() && SourcesIn(g[..], nodeDelay[..])
      ensures MaxPred(g[..], nodeDelay[..], v, best)
    {
      best := None;
      var i := 0;
      while i < g.Length
        invariant 0 <= i <= g.Length
        invariant best.None? <==> forall j :: 0 <= j < i && g[j].v == v ==> g[j].w != 0
        invariant best.Some? ==> exists j :: 0 <= j < i && g[j].v == v && g[j].w == 0 && best.value == nodeDelay[g[j].u]
        invariant best.Some? ==> forall j :: 0 <= j < i && g[j].v == v && g[j].w == 0 ==> nodeDelay[g[j].u] <= best.value
      {
        var e := g[i];
        assert e.u < nodeDelay.Length by {
          assert g[..][i] == e;
        }
        if e.v == v && e.w == 0 && (best.None? || nodeDelay[e.u] > best.value) {
          best := Some(nodeDelay[e.u]);
        }
        i := i + 1;
      }
    }

    /** One step of CP: v's entry grows by the largest entry among its zero-register predecessors. */
    method RaiseNode(g: array<Edge>, v: nat)
      requires Ready() && SourcesIn(g[..], nodeDelay[..]) && v < n
      modifies nodeDelay
      ensures nodeDelay[..] == old(nodeDelay[..])[v := old(nodeDelay[v]) + PredDelay(g[..], old(nodeDelay[..]), v)]
    {
      var best := MaxPredDelay(g, v);
      MaxPredIsPredDelay(g[..], nodeDelay[..], v, best);
      if best.Some? {
        nodeDelay[v] := nodeDelay[v] + best.value;
      }
    }

    /** The loop of CP over the nodes the sort yields: each node's entry grows by the
        largest entry among its zero-register predecessors, which were yielded and updated
        before it; the nodes not yielded keep their entries. */
    method Propagate(g: array<Edge>, order: seq<nat>)
      requires Ready() && WellFormed(n, g[..]) && ClosedPrefix(g[..], n, order)
      modifies nodeDelay
      ensures CPOver(g[..], order, old(nodeDelay[..]), nodeDelay[..])
    {
      ghost var es := g[..];
      ghost var base := nodeDelay[..];
      var k := 0;
      while k < |order|
        invariant 0 <= k <= |order| && SourcesIn(es, nodeDelay[..])
        invariant CPPrefix(es, order, base, nodeDelay[..], k)
        invariant forall v :: 0 <= v < n && v !in order ==> nodeDelay[v] == base[v]
      {
        ghost var before := nodeDelay[..];
        RaiseNode(g, order[k]);
        CPStep(es, n, order, base, before, nodeDelay[..], k);
        k := k + 1;
      }
    }

    /** The loop of `_clock_period` over what the topological sort of the zero-register
        wires yields; `complete` says whether the sort finished without raising. */
    method SortAndPropagate(g: array<Edge>) returns (complete: bool)
      requires Ready() && WellFormed(n, g[..])
      modifies nodeDelay
      ensures complete <==> !HasCyclicCore(g[..], n)
      ensures complete ==> CPFixpoint(g[..], old(nodeDelay[..]), nodeDelay[..])
      ensures !complete ==> CPOver(g[..], TopoSort(g[..], n).order, old(nodeDelay[..]), nodeDelay[..])
    {
      ghost var es, base := g[..], nodeDelay[..];
      var sorted := TopoSort(g[..], n);
      Propagate(g, sorted.order);
      complete := sorted.blocked == {};
      if complete {
        CPDone(es, n, sorted.order, base, nodeDelay[..]);
      }
    }

    /** `_clock_period`, the CP pass: along the nodes the topological sort of the
        zero-register wires yields, each node's entry of the shared delay array grows by the
        largest entry among its zero-register predecessors; the result is the largest entry.
        On a cyclic core the sort raises after the nodes it could yield, whose entries have
        already grown; on an empty circuit `np.max` raises and nothing has changed. */
    method ClockPeriod(g: array<Edge>) returns (r: Result<int>)
      requires Ready() && WellFormed(n, g[..])
      modifies nodeDelay
      ensures r.Success? ==> CPFixpoint(g[..], old(nodeDelay[..]), nodeDelay[..])
      ensures r.Success? ==> r.value in nodeDelay[..] && forall v :: 0 <= v < n ==> nodeDelay[v] <= r.value
      ensures r.Failure? ==> r.fault == CombinationalCycle || r.fault == EmptyMax
      ensures r == Failure(CombinationalCycle) <==> HasCyclicCore(g[..], n)
      ensures r == Failure(CombinationalCycle) ==> CPOver(g[..], TopoSort(g[..], n).order, old(nodeDelay[..]), nodeDelay[..])
      ensures r == Failure(EmptyMax) <==> n == 0
      ensures r == Failure(EmptyMax) ==> nodeDelay[..] == old(nodeDelay[..])
    {
      var complete := SortAndPropagate(g);
      if !complete {
        return Failure(CombinationalCycle);
      }
      if n == 0 {
        return Failure(EmptyMax);
      }
      r := Success(MaxOf(nodeDelay[..]));
    }

    /** `_bellman_ford_checker`: shortest distances from the extra node of the constraint
        graph; the clock is feasible exactly when no negative cycle exists, and then the
        distances to nodes 0..n-1 are lags meeting every constraint, each at most 0. */
    method BellmanFordChecker(clock: int) returns (feasible: bool, lags: Option<seq<int>>)
      requires Valid()
      ensures feasible <==> ClockFeasible(n, graph[..], W, D, clock)
      ensures feasible ==> lags.Some? && |lags.value| == n && ClockConstraints(n, graph[..], W, D, clock, lags.value, 0)
      ensures feasible ==> forall v :: 0 <= v < n ==> IsDistance(ConstraintGraph(n, graph[..], W, D, clock), n, v, lags.value[v])
      ensures !feasible ==> lags.None?
    {
      var pairs := ProductArcs(W, D, n, clock, n);
      feasible, lags := SolveConstraints(n, graph[..], W, D, clock, pairs);
    }

    /** Re-apply the accumulated lags to the working copy, which already holds the circuit
        retimed by drift: it then holds the circuit retimed by drift + total. */
    method Reapply(work: array<Edge>, total: seq<int>, ghost drift: seq<int>) returns (ghost drift': seq<int>)
      requires Valid() && work != graph && |total| == n && |drift| == n
      requires LagFits(graph[..], drift) && work[..] == Retime(graph[..], drift)
      modifies work
      ensures drift' == Add(drift, total) && LagFits(graph[..], drift') && work[..] == Retime(graph[..], drift')
      ensures WellFormed(n, work[..])
    {
      RetimeKeepsWires(n, graph[..], drift);
      ApplyRetiming(work, total);
      RetimeTwice(graph[..], drift, total);
      drift' := Add(drift, total);
      RetimeKeepsWires(n, graph[..], drift');
    }

    /** One round of `_feas_checker`: re-apply the accumulated lags to the working copy, run
        CP on it, and add 1 to the lag of every node whose delay exceeds the clock. */
    method FeasRound(work: array<Edge>, clock: int, total: seq<int>, ghost drift: seq<int>)
      returns (r: Result<seq<int>>, ghost drift': seq<int>)
      requires Valid() && Ready() && work != graph && |total| == n && |drift| == n
      requires LagFits(graph[..], drift) && work[..] == Retime(graph[..], drift)
      modifies work, nodeDelay
      ensures drift' == Add(drift, total) && LagFits(graph[..], drift') && work[..] == Retime(graph[..], drift')
      ensures r.Success? ==> CPFixpoint(work[..], old(nodeDelay[..]), nodeDelay[..])
      ensures r.Success? ==> r.value == Add(total, Exceeds(nodeDelay[..], clock))
      ensures r.Success? ==> |r.value| == n && forall v :: 0 <= v < n ==>
        r.value[v] == (if nodeDelay[v] > clock then total[v] + 1 else total[v])
      ensures r.Failure? ==> r == Failure(CombinationalCycle) || r == Failure(EmptyMax)
      ensures r == Failure(EmptyMax) <==> n == 0
      ensures r == Failure(CombinationalCycle) <==> HasCyclicCore(work[..], n)
      ensures r == Failure(CombinationalCycle) ==> CPOver(work[..], TopoSort(work[..], n).order, old(nodeDelay[..]), nodeDelay[..])
    {
      drift' := Reapply(work, total, drift);
      var cp := ClockPeriod(work);
      if cp.Failure? {
        return Failure(cp.fault), drift';
      }
      var delta := Exceeds(nodeDelay[..], clock);
      if exists v :: 0 <= v < n && delta[v] == 1 {
        r := Success(Add(total, delta));
      } else {
        AddNothing(total, delta);
        r := Success(total);
      }
    }

    /** Adding a vector of zeros changes nothing: skipping the addition when no node exceeds
        the clock gives the same lags as making it. */
    lemma AddNothing(total: seq<int>, delta: seq<int>)
      requires |total| == |delta| && forall v :: 0 <= v < |delta| ==> delta[v] == 0
      ensures Add(total, delta) == total
    {
    }

    /** The first m rounds of `_feas_checker`: before round k the delay array is arrays[k],
        the working copy carries the lags drifts[k] and total_retimings is totals[k]. Round k
        re-applies the totals to the copy, sorts it completely, runs CP over the previous
        array, and adds 1 to the total of every node whose new delay exceeds the clock. */
    ghost predicate FeasTrace(clock: int, arrays: seq<seq<int>>, drifts: seq<seq<int>>, totals: seq<seq<int>>, m: nat)
      reads this, graph
    {
      && |arrays| == m + 1 && |drifts| == m + 1 && |totals| == m + 1
      && drifts[0] == Zeros(n) && totals[0] == Zeros(n)
      && (forall k :: 0 <= k <= m ==> |arrays[k]| == n && |drifts[k]| == n && |totals[k]| == n)
      && (forall k :: 0 <= k <= m ==> LagFits(graph[..], drifts[k]))
      && forall k :: 0 < k <= m ==>
        && drifts[k] == Add(drifts[k - 1], totals[k - 1])
        && TopoSort(Retime(graph[..], drifts[k]), n).blocked == {}
        && CPFixpoint(Retime(graph[..], drifts[k]), arrays[k - 1], arrays[k])
        && totals[k] == Add(totals[k - 1], Exceeds(arrays[k], clock))
    }

    /** One more round extends the trace. */
    lemma TraceStep(clock: int, arrays: seq<seq<int>>, drifts: seq<seq<int>>, totals: seq<seq<int>>, m: nat,
                    a: seq<int>, d: seq<int>, t: seq<int>)
      requires FeasTrace(clock, arrays, drifts, totals, m)
      requires |a| == n && |d| == n && |t| == n && LagFits(graph[..], d)
      requires d == Add(drifts[m], totals[m]) && TopoSort(Retime(graph[..], d), n).blocked == {}
      requires CPFixpoint(Retime(graph[..], d), arrays[m], a)
      requires t == Add(totals[m], Exceeds(a, clock))
      ensures FeasTrace(clock, arrays + [a], drifts + [d], totals + [t], m + 1)
    {
      var arrays', drifts', totals' := arrays + [a], drifts + [d], totals + [t];
      forall k | 0 <= k <= m + 1
        ensures |arrays'[k]| == n && |drifts'[k]| == n && |totals'[k]| == n && LagFits(graph[..], drifts'[k])
      {
        if k <= m {
          assert arrays'[k] == arrays[k] && drifts'[k] == drifts[k] && totals'[k] == totals[k];
        }
      }
      forall k | 0 < k <= m + 1
        ensures drifts'[k] == Add(drifts'[k - 1], totals'[k - 1])
        ensures TopoSort(Retime(graph[..], drifts'[k]), n).blocked == {}
        ensures CPFixpoint(Retime(graph[..], drifts'[k]), arrays'[k - 1], arrays'[k])
        ensures totals'[k] == Add(totals'[k - 1], Exceeds(arrays'[k], clock))
      {
        if k <= m {
          assert arrays'[k] == arrays[k] && drifts'[k] == drifts[k] && totals'[k] == totals[k];
        }
      }
    }

    /** Two recordings of the first m rounds that start from the same delay array agree up
        to round k: every CP pass is on a circuit without zero-register cycles, where its
        result is determined by the array it starts from. */
    lemma {:induction false} TracesAgree(clock: int, a1: seq<seq<int>>, d1: seq<seq<int>>, t1: seq<seq<int>>,
                                         a2: seq<seq<int>>, d2: seq<seq<int>>, t2: seq<seq<int>>, m: nat, k: nat)
      requires FeasTrace(clock, a1, d1, t1, m) && FeasTrace(clock, a2, d2, t2, m) && a1[0] == a2[0] && k <= m
      ensures a1[k] == a2[k] && d1[k] == d2[k] && t1[k] == t2[k]
    {
      if k > 0 {
        TracesAgree(clock, a1, d1, t1, a2, d2, t2, m, k - 1);
        var es := Retime(graph[..], d1[k]);
        assert d2[k] == d1[k];
        CPFixpointUnique(es, n, TopoSort(es, n).order, a1[k - 1], a1[k], a2[k]);
      }
    }

    /** The rounds of `_feas_checker` are determined by the clock and the delay array the
        call starts from. */
    lemma FeasTraceDetermined(clock: int, a1: seq<seq<int>>, d1: seq<seq<int>>, t1: seq<seq<int>>,
                              a2: seq<seq<int>>, d2: seq<seq<int>>, t2: seq<seq<int>>, m: nat)
      requires FeasTrace(clock, a1, d1, t1, m) && FeasTrace(clock, a2, d2, t2, m) && a1[0] == a2[0]
      ensures a1 == a2 && d1 == d2 && t1 == t2
    {
      forall k | 0 <= k <= m ensures a1[k] == a2[k] && d1[k] == d2[k] && t1[k] == t2[k] {
        TracesAgree(clock, a1, d1, t1, a2, d2, t2, m, k);
      }
    }

    /** One round of `_feas_checker` (`FeasRound`), recorded at the end of the trace. */
    method TracedRound(work: array<Edge>, clock: int, total: seq<int>, ghost drift: seq<int>,
                       ghost arrays: seq<seq<int>>, ghost drifts: seq<seq<int>>, ghost totals: seq<seq<int>>, ghost round: nat)
      returns (r: Result<seq<int>>, ghost drift': seq<int>,
               ghost arrays': seq<seq<int>>, ghost drifts': seq<seq<int>>, ghost totals': seq<seq<int>>)
      requires Valid() && Ready() && work != graph && |total| == n && |drift| == n
      requires LagFits(graph[..], drift) && work[..] == Retime(graph[..], drift)
      requires FeasTrace(clock, arrays, drifts, totals, round)
      requires arrays[round] == nodeDelay[..] && totals[round] == total && drifts[round] == drift
      modifies work, nodeDelay
      ensures drift' == Add(drift, total) && LagFits(graph[..], drift') && work[..] == Retime(graph[..], drift')
      ensures r.Success? ==> |r.value| == n && forall v :: 0 <= v < n ==>
        r.value[v] == (if nodeDelay[v] > clock then total[v] + 1 else total[v])
      ensures r.Success? ==> FeasTrace(clock, arrays', drifts', totals', round + 1) && arrays'[0] == arrays[0]
      ensures r.Success? && FeasTrace(clock, arrays', drifts', totals', round + 1) ==>
        arrays'[round + 1] == nodeDelay[..] && totals'[round + 1] == r.value && drifts'[round + 1] == drift'
      ensures r.Failure? ==> r == Failure(CombinationalCycle) || r == Failure(EmptyMax)
      ensures r == Failure(EmptyMax) <==> n == 0
      ensures r == Failure(CombinationalCycle) <==> HasCyclicCore(work[..], n)
    {
      arrays', drifts', totals' := arrays, drifts, totals;
      r, drift' := FeasRound(work, clock, total, drift);
      if r.Success? {
        TraceStep(clock, arrays, drifts, totals, round, nodeDelay[..], drift', r.value);
        arrays', drifts', totals' := arrays + [nodeDelay[..]], drifts + [drift'], totals + [r.value];
      }
    }

    /** How many rounds `_feas_checker` runs: one per node but the last. */
    function RoundCount(): (k: nat)
      reads this
      ensures n >= 1 ==> k + 1 == n
      ensures n == 0 ==> k == 0
    {
      if n == 0 then 0 else n - 1
    }

    /** The rounds of `_feas_checker`, on its working copy of the circuit. */
    method FeasRounds(work: array<Edge>, clock: int)
      returns (r: Result<seq<int>>, ghost arrays: seq<seq<int>>, ghost drifts: seq<seq<int>>, ghost totals: seq<seq<int>>,
               ghost failed: seq<int>)
      requires Valid() && Ready() && work != graph && work[..] == graph[..]
      modifies work, nodeDelay
      ensures r.Success? ==> |r.value| == n && forall v :: 0 <= v < n ==> 0 <= r.value[v] <= n - 1
      ensures r.Success? ==> FeasTrace(clock, arrays, drifts, totals, RoundCount())
      ensures r.Success? && FeasTrace(clock, arrays, drifts, totals, RoundCount()) ==>
        && arrays[0] == old(nodeDelay[..]) && arrays[RoundCount()] == nodeDelay[..] && totals[RoundCount()] == r.value
        && work[..] == Retime(graph[..], drifts[RoundCount()])
      ensures r.Success? && n >= 2 ==> !HasCyclicCore(graph[..], n)
      ensures r.Failure? ==> n >= 2 && r == Failure(CombinationalCycle)
      ensures r.Failure? ==> |failed| == n && LagFits(graph[..], failed) && HasCyclicCore(Retime(graph[..], failed), n)
      ensures HasCyclicCore(graph[..], n) && n >= 2 ==> r == Failure(CombinationalCycle)
      ensures NonNegative(graph[..]) ==> (r.Failure? <==> n >= 2 && HasCyclicCore(graph[..], n))
    {
      var total := Zeros(n);
      ghost var drift := Zeros(n);
      arrays, drifts, totals := [nodeDelay[..]], [drift], [total];
      RetimeZeros(graph[..], n);
      var round := 0;
      while round < n - 1
        invariant 0 <= round <= RoundCount()
        invariant Ready() && |total| == n && |drift| == n
        invariant LagFits(graph[..], drift) && work[..] == Retime(graph[..], drift)
        invariant round == 0 ==> total == Zeros(n) && drift == Zeros(n)
        invariant round > 0 ==> !HasCyclicCore(graph[..], n)
        invariant forall v :: 0 <= v < n ==> 0 <= total[v] <= round
        invariant FeasTrace(clock, arrays, drifts, totals, round) && arrays[0] == old(nodeDelay[..])
        invariant arrays[round] == nodeDelay[..] && totals[round] == total && drifts[round] == drift
      {
        var step;
        if round == 0 {
          assert Add(drift, total) == Zeros(n);
        }
        step, drift, arrays, drifts, totals := TracedRound(work, clock, total, drift, arrays, drifts, totals, round);
        if step.Failure? {
          if NonNegative(graph[..]) {
            RetimedCoreIsCore(graph[..], n, drift);
          }
          return Failure(step.fault), arrays, drifts, totals, drift;
        }
        total := step.value;
        round := round + 1;
      }
      assert round == RoundCount();
      r, failed := Success(total), [];
    }

    /** The last application of the totals to the working copy, and CP on it. */
    method LastPass(work: array<Edge>, total: seq<int>, ghost drift: seq<int>) returns (cp: Result<int>, ghost drift': seq<int>)
      requires Valid() && Ready() && work != graph && |total| == n && |drift| == n
      requires LagFits(graph[..], drift) && work[..] == Retime(graph[..], drift)
      modifies work, nodeDelay
      ensures drift' == Add(drift, total) && LagFits(graph[..], drift')
      ensures cp.Success? ==> !HasCyclicCore(Retime(graph[..], drift'), n)
      ensures cp.Success? ==> CPFixpoint(Retime(graph[..], drift'), old(nodeDelay[..]), nodeDelay[..])
      ensures cp.Success? ==> cp.value in nodeDelay[..] && forall v :: 0 <= v < n ==> nodeDelay[v] <= cp.value
      ensures cp.Failure? ==> cp == Failure(CombinationalCycle) || cp == Failure(EmptyMax)
      ensures cp == Failure(EmptyMax) <==> n == 0
      ensures cp == Failure(CombinationalCycle) <==> HasCyclicCore(Retime(graph[..], drift'), n)
    {
      drift' := Reapply(work, total, drift);
      cp := ClockPeriod(work);
    }

    /** `_feas_checker`: on a copy of the circuit, n-1 rounds each re-apply the accumulated
        lags to the same copy, run CP, and add 1 to the lag of every node whose delay
        exceeds the clock; then a last application and CP give the verdict. The ghost
        outputs record every round (`FeasTrace`) and the lags of the last application. */
    method FeasChecker(clock: int)
      returns (r: Result<(bool, seq<int>)>, ghost arrays: seq<seq<int>>, ghost drifts: seq<seq<int>>,
               ghost totals: seq<seq<int>>, ghost drift: seq<int>)
      requires Valid() && Ready()
      modifies nodeDelay
      ensures r.Success? ==> |r.value.1| == n && forall v :: 0 <= v < n ==> 0 <= r.value.1[v] <= n - 1
      ensures r.Success? ==> n >= 1 && FeasTrace(clock, arrays, drifts, totals, n - 1) && arrays[0] == old(nodeDelay[..])
      ensures r.Success? && n >= 1 && FeasTrace(clock, arrays, drifts, totals, n - 1) ==>
        && r.value.1 == totals[n - 1]
        && drift == Add(drifts[n - 1], totals[n - 1]) && LagFits(graph[..], drift)
        && !HasCyclicCore(Retime(graph[..], drift), n)
        && CPFixpoint(Retime(graph[..], drift), arrays[n - 1], nodeDelay[..])
      ensures r.Success? ==> (r.value.0 <==> forall v :: 0 <= v < n ==> nodeDelay[v] <= clock)
      ensures n == 0 ==> r == Failure(EmptyMax)
      ensures HasCyclicCore(graph[..], n) ==> r == Failure(CombinationalCycle)
      ensures r.Failure? ==> (n == 0 && r == Failure(EmptyMax)) || r == Failure(CombinationalCycle)
      ensures NonNegative(graph[..]) && n >= 1 && !HasCyclicCore(graph[..], n) ==> r.Success?
    {
      var work := new Edge[graph.Length](i requires 0 <= i < graph.Length reads graph => graph[i]);
      assert work[..] == graph[..];
      var rounds;
      rounds, arrays, drifts, totals, drift := FeasRounds(work, clock);
      if rounds.Failure? {
        return Failure(rounds.fault), arrays, drifts, totals, drift;
      }
      var total := rounds.value;
      var cp;
      cp, drift := LastPass(work, total, drifts[RoundCount()]);
      if RoundCount() == 0 {
        assert drift == Zeros(n);
        RetimeZeros(graph[..], n);
      }
      if cp.Failure? {
        if NonNegative(graph[..]) && cp.fault == CombinationalCycle {
          RetimedCoreIsCore(graph[..], n, drift);
        }
        return Failure(cp.fault), arrays, drifts, totals, drift;
      }
      r := Success((cp.value <= clock, total));
    }

    /** What a probe of `clock` may report under the selected oracle. */
    ghost predicate Sound(alg: Option<Algorithm>, es: seq<Edge>, clock: int, feasible: bool, lags: Option<seq<int>>)
      requires WellFormed(n, es) && Square(W, n) && Square(D, n)
    {
      && (feasible ==> lags.Some? && |lags.value| == n)
      && (alg == Some(BellmanFordOracle) ==>
            && (feasible ==> ClockConstraints(n, es, W, D, clock, lags.value, 0))
            && (!feasible ==> lags.None?))
      && (alg == Some(FeasOracle) ==>
            lags.Some? && |lags.value| == n && forall v :: 0 <= v < n ==> 0 <= lags.value[v] <= n - 1)
    }

    /** What the search may report from the slot list cs: (True, lags) from a slot that
        holds True and whose predecessor (if any) holds False, with lags the oracle may give
        for its clock; (False, None) only once the last slot holds False. */
    ghost predicate Reports(alg: Option<Algorithm>, es: seq<Edge>, cs: seq<Slot>, feasible: bool, lags: Option<seq<int>>, at: int)
      requires WellFormed(n, es) && Square(W, n) && Square(D, n)
    {
      && (feasible ==>
            && 0 <= at < |cs| && cs[at].verdict == Some(true) && lags == cs[at].lags
            && (at == 0 || cs[at - 1].verdict == Some(false))
            && Sound(alg, es, cs[at].clock, true, lags))
      && (!feasible ==> lags.None? && at == -1 && |cs| > 0 && cs[|cs| - 1].verdict == Some(false))
    }

    /** `self._checker(clock)`: the selected oracle. */
    method Check(clock: int) returns (r: Result<(bool, Option<seq<int>>)>)
      requires Valid() && Ready() && checker.Some?
      modifies nodeDelay
      ensures r.Success? ==> Sound(checker, graph[..], clock, r.value.0, r.value.1)
      ensures checker == Some(BellmanFordOracle) ==> r.Success? && (r.value.0 <==> ClockFeasible(n, graph[..], W, D, clock))
      ensures checker == Some(BellmanFordOracle) ==> r.Success? && nodeDelay[..] == old(nodeDelay[..])
    {
      if checker == Some(BellmanFordOracle) {
        var feasible, lags := BellmanFordChecker(clock);
        r := Success((feasible, lags));
      } else {
        var f, _, _, _, _ := FeasChecker(clock);
        if f.Failure? {
          return Failure(f.fault);
        }
        r := Success((f.value.0, Some(f.value.1)));
      }
    }

    /** Two slot lists hold the same clocks, slot by slot. */
    ghost predicate SameClocks(a: seq<Slot>, b: seq<Slot>) {
      |a| == |b| && forall i :: 0 <= i < |a| ==> a[i].clock == b[i].clock
    }

    /** Every verdict recorded in the slot list is the table's entry for that slot. */
    ghost predicate Recorded(V: seq<bool>, cs: seq<Slot>) {
      |V| == |cs| && forall i :: 0 <= i < |cs| && cs[i].verdict.Some? ==> cs[i].verdict.value == V[i]
    }

    /** V[i] says whether the i-th candidate clock admits a retiming of the circuit es. */
    ghost predicate Decides(V: seq<bool>, es: seq<Edge>)
      reads this
    {
      && WellFormed(n, es) && Square(W, n) && Square(D, n) && |V| == |dRange|
      && forall i :: 0 <= i < |V| ==> (V[i] <==> ClockFeasible(n, es, W, D, dRange[i]))
    }

    /** Under the Bellman-Ford oracle, the slot list holds the candidate clocks in order and
        its verdicts are those of the table V of which candidates admit a retiming. */
    ghost predicate Tracks(V: seq<bool>, cs: seq<Slot>)
      reads this, graph
      requires Valid()
    {
      && checker == Some(BellmanFordOracle) && Decides(V, graph[..]) && Recorded(V, cs)
      && |cs| == |dRange| && forall i :: 0 <= i < |cs| ==> cs[i].clock == dRange[i]
    }

    /** The search runs under the Bellman-Ford oracle over a monotone table V of which
        candidates admit a retiming of the circuit, with enough recursion depth for it. */
    ghost predicate SearchGuard(V: seq<bool>)
      reads this, graph
    {
      && checker == Some(BellmanFordOracle) && Decides(V, graph[..]) && Search.Monotone(V) && |V| > 0
      && Search.Depth(|V|) <= PythonRecursionLimit
    }

    /** Probe slot i with the selected oracle and record (clock, verdict, lags) in it; a
        failing probe records nothing. */
    method Probe(clocks: array<Slot>, i: nat, ghost V: seq<bool>, ghost tracked: bool) returns (r: Result<(bool, Option<seq<int>>)>)
      requires Valid() && Ready() && checker.Some? && i < clocks.Length
      requires tracked ==> Tracks(V, clocks[..])
      modifies clocks, nodeDelay
      ensures r.Success? ==> Sound(checker, graph[..], old(clocks[i].clock), r.value.0, r.value.1)
      ensures r.Success? ==> clocks[..] == old(clocks[..])[i := Slot(old(clocks[i].clock), Some(r.value.0), r.value.1)]
      ensures r.Failure? ==> clocks[..] == old(clocks[..])
      ensures checker == Some(BellmanFordOracle) ==> r.Success? && nodeDelay[..] == old(nodeDelay[..])
      ensures tracked ==> r.Success? && r.value.0 == V[i] && Tracks(V, clocks[..])
    {
      r := Check(clocks[i].clock);
      if r.Success? {
        clocks[i] := Slot(clocks[i].clock, Some(r.value.0), r.value.1);
      }
    }

    /** The predecessor test of the search: probe slot mid-1 (Python indexing) unless it
        already holds a verdict, and report whether it holds False. */
    method ProbePredecessor(clocks: array<Slot>, mid: int, ghost V: seq<bool>, ghost tracked: bool) returns (r: Result<bool>)
      requires Valid() && Ready() && checker.Some?
      modifies clocks, nodeDelay
      requires tracked ==> Tracks(V, clocks[..])
      ensures SameClocks(old(clocks[..]), clocks[..])
      ensures forall j :: 0 <= j < clocks.Length && old(clocks[j]).verdict.Some? ==> clocks[j] == old(clocks[j])
      ensures r.Success? ==> PyIndex(clocks.Length, mid - 1).Some?
      ensures r.Success? ==> (r.value <==> clocks[PyIndex(clocks.Length, mid - 1).value].verdict == Some(false))
      ensures checker == Some(BellmanFordOracle) ==> nodeDelay[..] == old(nodeDelay[..])
      ensures tracked ==> Tracks(V, clocks[..])
      ensures tracked && 0 < mid < clocks.Length ==> r.Success? && (r.value <==> !V[mid - 1])
    {
      var px := PyIndex(clocks.Length, mid - 1);
      if px.None? {
        return Failure(IndexOutOfRange);
      }
      var p := px.value;
      if clocks[p].verdict.None? {
        var pp := Probe(clocks, p, V, tracked);
        if pp.Failure? {
          return Failure(pp.fault);
        }
      }
      r := Success(clocks[p].verdict == Some(false));
    }

    /** Probe the middle slot mid (Python indexing): its index m, verdict and lags. */
    method ProbeMid(clocks: array<Slot>, mid: int, ghost V: seq<bool>, ghost tracked: bool) returns (r: Result<(nat, bool, Option<seq<int>>)>)
      requires Valid() && Ready() && checker.Some?
      modifies clocks, nodeDelay
      requires tracked ==> Tracks(V, clocks[..])
      ensures SameClocks(old(clocks[..]), clocks[..])
      ensures r.Success? ==>
        && PyIndex(clocks.Length, mid) == Some(r.value.0)
        && clocks[r.value.0].verdict == Some(r.value.1) && clocks[r.value.0].lags == r.value.2
        && Sound(checker, graph[..], clocks[r.value.0].clock, r.value.1, r.value.2)
      ensures checker == Some(BellmanFordOracle) ==> nodeDelay[..] == old(nodeDelay[..])
      ensures tracked ==> Tracks(V, clocks[..])
      ensures tracked && 0 <= mid < clocks.Length ==> r.Success? && (r.value.1 <==> V[mid])
    {
      var ix := PyIndex(clocks.Length, mid);
      if ix.None? {
        return Failure(IndexOutOfRange);
      }
      var m := ix.value;
      var probe := Probe(clocks, m, V, tracked);
      if probe.Failure? {
        return Failure(probe.fault);
      }
      r := Success((m, probe.value.0, probe.value.1));
    }

    /** One call of the search without its recursion: probe the middle slot (Python floor
        division and Python indexing) and record its verdict in place; stop at a feasible
        slot whose predecessor holds False (probing the predecessor first when it is
        unexplored) or at an infeasible last slot; otherwise say which half to search. */
    method SearchStep(clocks: array<Slot>, start: int, end: int, ghost V: seq<bool>, ghost tracked: bool) returns (r: Result<Move>)
      requires Valid() && Ready() && checker.Some?
      modifies clocks, nodeDelay
      requires tracked ==> Tracks(V, clocks[..])
      ensures SameClocks(old(clocks[..]), clocks[..])
      ensures r.Success? && r.value.Stop? ==> Reports(checker, graph[..], clocks[..], r.value.feasible, r.value.lags, r.value.at)
      ensures checker == Some(BellmanFordOracle) ==> nodeDelay[..] == old(nodeDelay[..])
      ensures tracked ==> Tracks(V, clocks[..])
      ensures r.Success? && r.value.Recurse? ==> var mid := (start + end) / 2;
        r.value == Recurse(start, mid - 1) || r.value == Recurse(mid + 1, end)
      ensures tracked && Search.Window(V, start, end) ==>
        && r.Success?
        && (r.value.Recurse? ==> Search.Progress(V, start, end, r.value.lo, r.value.hi))
    {
      ghost var guarded := tracked && Search.Window(V, start, end);
      var mid := (start + end) / 2;
      var probe := ProbeMid(clocks, mid, V, tracked);
      if probe.Failure? {
        return Failure(probe.fault);
      }
      var m, feasible, lags := probe.value.0, probe.value.1, probe.value.2;
      if mid == 0 && feasible {
        return Success(Stop(feasible, lags, m));
      }
      if mid == clocks.Length - 1 && !feasible {
        return Success(Stop(false, None, -1));
      }
      if !feasible {
        if guarded {
          Search.StepRight(V, start, end, mid);
        }
        return Success(Recurse(mid + 1, end));
      }
      r := AfterFeasibleMid(clocks, start, end, m, lags, V, tracked);
    }

    /** The rest of a search step once the middle slot (mid, not 0; m once indexed) holds True: stop there
        when its predecessor holds False, otherwise move to the left half. */
    method AfterFeasibleMid(clocks: array<Slot>, start: int, end: int, m: nat, lags: Option<seq<int>>, ghost V: seq<bool>, ghost tracked: bool)
      returns (r: Result<Move>)
      requires Valid() && Ready() && checker.Some?
      requires var mid := (start + end) / 2;
        && mid != 0 && PyIndex(clocks.Length, mid) == Some(m)
        && clocks[m].verdict == Some(true) && clocks[m].lags == lags
        && Sound(checker, graph[..], clocks[m].clock, true, lags)
      modifies clocks, nodeDelay
      requires tracked ==> Tracks(V, clocks[..])
      ensures SameClocks(old(clocks[..]), clocks[..])
      ensures r.Success? && r.value.Stop? ==> Reports(checker, graph[..], clocks[..], r.value.feasible, r.value.lags, r.value.at)
      ensures checker == Some(BellmanFordOracle) ==> nodeDelay[..] == old(nodeDelay[..])
      ensures tracked ==> Tracks(V, clocks[..])
      ensures r.Success? && r.value.Recurse? ==> r.value == Recurse(start, (start + end) / 2 - 1)
      ensures tracked && Search.Window(V, start, end) ==>
        && r.Success?
        && (r.value.Recurse? ==> Search.Progress(V, start, end, r.value.lo, r.value.hi))
    {
      ghost var guarded := tracked && Search.Window(V, start, end);
      var mid := (start + end) / 2;
      var stop := ProbePredecessor(clocks, mid, V, tracked);
      if stop.Failure? {
        return Failure(stop.fault);
      }
      if stop.value {
        return Success(Stop(true, lags, m));
      }
      if guarded {
        Search.StepLeft(V, start, end, mid);
      }
      r := Success(Recurse(start, mid - 1));
    }

    /** `_binary_search_recursive`: one step, then the recursive call on the half it names;
        `at` is the index of the reported slot, or -1. The fuel is what is left of Python's
        recursion limit. */
    method BinarySearch(clocks: array<Slot>, start: int, end: int, fuel: nat, ghost V: seq<bool>, ghost tracked: bool)
      returns (r: Result<(bool, Option<seq<int>>)>, ghost at: int)
      requires Valid() && Ready() && checker.Some?
      modifies clocks, nodeDelay
      requires tracked ==> Tracks(V, clocks[..])
      ensures SameClocks(old(clocks[..]), clocks[..])
      ensures r.Success? ==> Reports(checker, graph[..], clocks[..], r.value.0, r.value.1, at)
      ensures checker == Some(BellmanFordOracle) ==> nodeDelay[..] == old(nodeDelay[..])
      ensures tracked ==> Tracks(V, clocks[..])
      ensures tracked && Search.Window(V, start, end) && fuel >= Search.Depth(end - start + 1) ==> r.Success?
      decreases fuel
    {
      ghost var guarded := tracked && Search.Window(V, start, end) && fuel >= Search.Depth(end - start + 1);
      if fuel == 0 {
        assert !guarded;
        return Failure(RecursionLimit), -1;
      }
      var step := SearchStep(clocks, start, end, V, tracked);
      if step.Failure? {
        assert !guarded;
        return Failure(step.fault), -1;
      }
      if step.value.Stop? {
        return Success((step.value.feasible, step.value.lags)), step.value.at;
      }
      r, at := BinarySearch(clocks, step.value.lo, step.value.hi, fuel - 1, V, tracked);
    }

    /** lags is what a search for the least candidate should report for the circuit es, V
        telling which candidates admit a retiming: lags for the first of them meeting its
        constraints, or None when no candidate admits one. */
    ghost predicate Optimal(V: seq<bool>, cands: seq<int>, es: seq<Edge>, lags: Option<seq<int>>)
      requires WellFormed(n, es) && Square(W, n) && Square(D, n)
    {
      if exists k :: 0 <= k < |V| && V[k] then
        && lags.Some? && |lags.value| == n
        && exists k :: Search.IsLeast(V, k) && k < |cands| && ClockConstraints(n, es, W, D, cands[k], lags.value, 0)
      else
        lags.None?
    }

    /** The search as `search_min_clock` starts it: one slot per candidate clock, none probed,
        over the whole list. Under the Bellman-Ford oracle, with V the table of which
        candidates admit a retiming and monotone, it reports the least such candidate with
        lags meeting its constraints, or (False, None) when there is none. */
    method FindRetiming(ghost V: seq<bool>, ghost searched: bool) returns (r: Result<(bool, Option<seq<int>>)>)
      requires Valid() && Ready() && checker.Some?
      requires searched ==> SearchGuard(V)
      modifies nodeDelay
      ensures r.Success? && r.value.0 ==> r.value.1.Some? && |r.value.1.value| == n
      ensures r.Success? && !r.value.0 ==> r.value.1.None?
      ensures checker == Some(BellmanFordOracle) ==> nodeDelay[..] == old(nodeDelay[..])
      ensures searched ==> r.Success? && (r.value.0 <==> r.value.1.Some?) && Optimal(V, dRange, graph[..], r.value.1)
    {
      var cands := dRange;
      var clocks := new Slot[|cands|](i requires 0 <= i < |cands| => Slot(cands[i], None, None));
      ghost var guarded := searched;
      assert guarded ==> Tracks(V, clocks[..]);
      ghost var at;
      r, at := BinarySearch(clocks, 0, |cands| - 1, PythonRecursionLimit, V, guarded);
      if guarded {
        assert Tracks(V, clocks[..]);
        if r.value.0 {
          assert V[at] && (at == 0 || !V[at - 1]);
          Search.FoundIsLeast(V, at);
          assert Search.IsLeast(V, at) && clocks[at].clock == dRange[at];
        } else {
          assert !V[|V| - 1];
        }
      }
    }

    /** The end of `search_min_clock`: record the lags found, apply them to the circuit (None
        cannot be indexed once the circuit has a wire) and record CP's clock period of the
        retimed circuit. */
    method Install(found: Option<seq<int>>) returns (r: Result<()>)
      requires Valid() && Ready() && (found.Some? ==> |found.value| == n)
      modifies this, graph, nodeDelay
      ensures nodeDelay == old(nodeDelay) && checker == old(checker) && dRange == old(dRange) && Valid() && Ready()
      ensures retimings == found
      ensures found.Some? ==> graph[..] == Retime(old(graph[..]), found.value)
      ensures found.None? ==> graph[..] == old(graph[..])
      ensures r.Success? ==>
        && CPFixpoint(graph[..], old(nodeDelay[..]), nodeDelay[..])
        && minClock in nodeDelay[..] && forall v :: 0 <= v < n ==> nodeDelay[v] <= minClock
      ensures found.None? && graph.Length > 0 ==> r == Failure(NotSubscriptable)
      ensures found.Some? || graph.Length == 0 ==> (r.Success? <==> n > 0 && !HasCyclicCore(graph[..], n))
    {
      retimings := found;
      if found.None? {
        if graph.Length > 0 {
          return Failure(NotSubscriptable);
        }
      } else {
        ghost var es := graph[..];
        RetimeKeepsWires(n, graph[..], found.value);
        ApplyRetiming(graph, found.value);
        RetimeKeepsWires(n, es, found.value);
      }
      var cp := ClockPeriod(graph);
      if cp.Failure? {
        return Failure(cp.fault);
      }
      minClock := cp.value;
      r := Success(());
    }

    /** `search_min_clock`: search the candidates, then apply the lags found and record the
        clock period of the retimed circuit. */
    method SearchMinClock(ghost V: seq<bool>, ghost searched: bool) returns (r: Result<()>)
      requires Valid() && Ready() && checker.Some?
      requires searched ==> SearchGuard(V)
      modifies this, graph, nodeDelay
      ensures nodeDelay == old(nodeDelay) && checker == old(checker) && dRange == old(dRange) && Valid() && Ready()
      ensures r.Success? && retimings.Some? ==> |retimings.value| == n && graph[..] == Retime(old(graph[..]), retimings.value)
      ensures r.Success? && retimings.None? ==> graph[..] == old(graph[..])
      ensures r.Success? ==> minClock in nodeDelay[..] && forall v :: 0 <= v < n ==> nodeDelay[v] <= minClock
      ensures r.Success? && checker == Some(BellmanFordOracle) ==> CPFixpoint(graph[..], old(nodeDelay[..]), nodeDelay[..])
      ensures searched ==> Found(V, dRange, old(graph[..]), retimings, graph[..], r)
    {
      var res := FindRetiming(V, searched);
      if res.Failure? {
        return Failure(res.fault);
      }
      r := Install(res.value.1);
    }

    /** `opt`: copy the component delays into the shared delay array, take the candidate
        clocks from D, select the oracle and run the search. Under the Bellman-Ford oracle,
        for a circuit with a node, no negative wire and W at most every wire's register
        count, the circuit ends up retimed by lags for the least candidate clock that
        admits a retiming, meeting its constraints, with no negative wire; the call fails
        exactly when the retimed circuit has a cycle of zero-register wires. */
    method Run(alg: Algorithm) returns (r: Result<()>)
      requires Valid()
      modifies this, graph
      ensures Valid() && Ready() && fresh(nodeDelay) && checker == Some(alg) && dRange == CreateDRange()
      ensures r.Success? ==> minClock in nodeDelay[..] && forall v :: 0 <= v < n ==> nodeDelay[v] <= minClock
      ensures r.Success? && alg == BellmanFordOracle ==> CPFixpoint(graph[..], Diagonal(D, n), nodeDelay[..])
      ensures (alg == BellmanFordOracle && n > 0 && Dominated(old(graph[..]), W, n) && NonNegative(old(graph[..]))
        && Search.Depth(|dRange|) <= PythonRecursionLimit) ==>
          Settled(old(graph[..]), dRange, retimings, graph[..]) && (r.Success? <==> !HasCyclicCore(graph[..], n))
    {
      Prepare(alg);
      ghost var es, cands := graph[..], dRange;
      ghost var V := Table(n, es, W, D, cands);
      ghost var guarded := alg == BellmanFordOracle && n > 0 && Dominated(es, W, n) && NonNegative(es)
        && Search.Depth(|dRange|) <= PythonRecursionLimit;
      if guarded {
        TableMonotone(n, es, W, D, cands, V);
        LastCandidateFeasible(n, es, W, D, cands);
        assert V[|V| - 1];
      }
      r := SearchMinClock(V, guarded);
      if guarded {
        FoundSettles(V, cands, es, retimings, graph[..], r);
      }
    }

    /** The start of `opt`: the shared delay array becomes a copy of the component delays,
        the candidates are taken from D and the oracle is selected. */
    method Prepare(alg: Algorithm)
      requires Valid()
      modifies this
      ensures Valid() && Ready() && fresh(nodeDelay) && nodeDelay[..] == Diagonal(D, n)
      ensures checker == Some(alg) && dRange == CreateDRange() && retimings == old(retimings)
    {
      var diag := Diagonal(D, n);
      nodeDelay := new int[n](v requires 0 <= v < n => diag[v]);
      assert nodeDelay[..] == diag;
      dRange := CreateDRange();
      checker := Some(alg);
    }

    /** The outcome `opt` promises for the circuit es with candidates cands: lags for the
        first candidate that admits a retiming, meeting its constraints, and the circuit
        after is es retimed by them, with no negative wire. */
    ghost predicate Settled(es: seq<Edge>, cands: seq<int>, lags: Option<seq<int>>, after: seq<Edge>)
      requires WellFormed(n, es) && Square(W, n) && Square(D, n)
    {
      && lags.Some? && |lags.value| == n
      && after == Retime(es, lags.value) && NonNegative(after)
      && exists k :: LeastFeasible(es, cands, k) && ClockConstraints(n, es, W, D, cands[k], lags.value, 0)
    }

    /** What `search_min_clock` leaves behind for the circuit es, V telling which of the
        candidates cands admit a retiming: the lags of the least one (Optimal), the circuit
        after retimed by them, and the clock-period computation failing exactly on a cycle
        of zero-register wires (or an empty circuit); with no lags, a circuit with a wire
        cannot be indexed. */
    ghost predicate Found(V: seq<bool>, cands: seq<int>, es: seq<Edge>, lags: Option<seq<int>>, after: seq<Edge>, r: Result<()>)
      requires WellFormed(n, es) && Square(W, n) && Square(D, n)
    {
      && Optimal(V, cands, es, lags)
      && (lags.Some? ==> after == Retime(es, lags.value))
      && (lags.Some? ==> (r.Success? <==> n > 0 && !HasCyclicCore(after, n)))
      && (lags.None? && |es| > 0 ==> r == Failure(NotSubscriptable))
    }

    /** When some candidate admits a retiming, what the search leaves behind is the outcome
        `opt` promises, and it fails exactly on a cycle of zero-register wires. */
    lemma FoundSettles(V: seq<bool>, cands: seq<int>, es: seq<Edge>, lags: Option<seq<int>>, after: seq<Edge>, r: Result<()>)
      requires WellFormed(n, es) && Square(W, n) && Square(D, n) && Dominated(es, W, n) && n > 0
      requires |V| == |cands| && forall i :: 0 <= i < |V| ==> (V[i] <==> ClockFeasible(n, es, W, D, cands[i]))
      requires Found(V, cands, es, lags, after, r) && exists k :: 0 <= k < |V| && V[k]
      ensures Settled(es, cands, lags, after) && (r.Success? <==> !HasCyclicCore(after, n))
    {
      OptimalSettles(V, cands, es, lags, after);
    }

    /** What the search settles on is legal: when V, the table of which candidates admit a
        retiming of es, has a feasible entry, the lags reported are those of the least
        feasible candidate and leave no wire negative. */
    lemma OptimalSettles(V: seq<bool>, cands: seq<int>, es: seq<Edge>, lags: Option<seq<int>>, after: seq<Edge>)
      requires WellFormed(n, es) && Square(W, n) && Square(D, n) && Dominated(es, W, n)
      requires |V| == |cands| && forall i :: 0 <= i < |V| ==> (V[i] <==> ClockFeasible(n, es, W, D, cands[i]))
      requires Optimal(V, cands, es, lags) && exists k :: 0 <= k < |V| && V[k]
      requires lags.Some? ==> after == Retime(es, lags.value)
      ensures Settled(es, cands, lags, after)
    {
      var k :| Search.IsLeast(V, k) && k < |cands| && ClockConstraints(n, es, W, D, cands[k], lags.value, 0);
      assert LeastFeasible(es, cands, k);
      ConstraintsAreLegal(n, es, W, D, cands[k], lags.value, 0);
    }

    /** k is the first candidate that admits a retiming of the circuit es. */
    ghost predicate LeastFeasible(es: seq<Edge>, cands: seq<int>, k: int)
      requires WellFormed(n, es) && Square(W, n) && Square(D, n)
    {
      && 0 <= k < |cands| && ClockFeasible(n, es, W, D, cands[k])
      && forall j :: 0 <= j < k ==> !ClockFeasible(n, es, W, D, cands[j])
    }
  }
}
