/** The difference-constraint graph of a candidate clock and the single-source
    shortest-path computation with negative-cycle detection run on it
    (`_bellman_ford_checker` in src/opt/opt.py, `_check_clock_feasibility` in
    src/opt/opt1.py). */
module Constraints {
  import opened CircuitGraph
  import opened ShortestPaths

  /** An n x n matrix of integers (the W and D matrices). */
  predicate Square(m: seq<seq<int>>, n: nat) {
    |m| == n && forall a :: 0 <= a < n ==> |m[a]| == n
  }

  datatype Arc = Arc(from: nat, to: nat, weight: int)

  predicate ArcsWithin(arcs: seq<Arc>, size: nat) {
    forall i :: 0 <= i < |arcs| ==> arcs[i].from < size && arcs[i].to < size
  }

  /** A graph with `size` nodes and no arcs. */
  function Empty(size: nat): (g: Matrix)
    ensures |g| == size && IsMatrix(g)
  {
    seq(size, _ => seq(size, _ => None))
  }

  /** `add_weighted_edges_from`: the arcs in turn, a later arc replacing the weight of an earlier one. */
  function AddWeighted(g: Matrix, arcs: seq<Arc>): (r: Matrix)
    requires IsMatrix(g) && ArcsWithin(arcs, |g|)
    ensures |r| == |g| && IsMatrix(r)
    decreases |arcs|
  {
    if arcs == [] then g
    else
      var a := arcs[0];
      AddWeighted(g[a.from := g[a.from][a.to := Some(a.weight)]], arcs[1..])
  }

  /** The weight of the last arc a -> b in the list, if any. */
  function LastWeight(arcs: seq<Arc>, a: nat, b: nat): Option<int>
    decreases |arcs|
  {
    if arcs == [] then None
    else match LastWeight(arcs[1..], a, b)
      case Some(x) => Some(x)
      case None => if arcs[0].from == a && arcs[0].to == b then Some(arcs[0].weight) else None
  }

  /** After adding a list of arcs, each entry holds the last weight added for it, or its old value. */
  lemma {:induction false} AddWeightedAt(g: Matrix, arcs: seq<Arc>, a: nat, b: nat)
    requires IsMatrix(g) && ArcsWithin(arcs, |g|) && a < |g| && b < |g|
    ensures AddWeighted(g, arcs)[a][b] == if LastWeight(arcs, a, b).Some? then LastWeight(arcs, a, b) else g[a][b]
    decreases |arcs|
  {
    if arcs != [] {
      var x := arcs[0];
      AddWeightedAt(g[x.from := g[x.from][x.to := Some(x.weight)]], arcs[1..], a, b);
    }
  }

  lemma {:induction false} LastWeightAppend(xs: seq<Arc>, ys: seq<Arc>, a: nat, b: nat)
    ensures LastWeight(xs + ys, a, b) == if LastWeight(ys, a, b).Some? then LastWeight(ys, a, b) else LastWeight(xs, a, b)
    decreases |xs|
  {
    if xs != [] {
      assert (xs + ys)[1..] == xs[1..] + ys;
      assert (xs + ys)[0] == xs[0];
      LastWeightAppend(xs[1..], ys, a, b);
    } else {
      assert xs + ys == ys;
    }
  }

  /** First kind of constraint: the arc v -> u of weight w(u,v) for each wire u -> v. */
  function EdgeArcs(es: seq<Edge>): (arcs: seq<Arc>)
  {
    seq(|es|, i requires 0 <= i < |es| => Arc(es[i].v, es[i].u, es[i].w))
  }

  /** Second kind, for source node `src` and targets 0..t-1: the arc target -> src of weight
      W[src][target] - 1 whenever D[src][target] exceeds the clock. */
  function RowArcs(W: seq<seq<int>>, D: seq<seq<int>>, n: nat, clock: int, src: nat, t: nat): (arcs: seq<Arc>)
    requires Square(W, n) && Square(D, n) && src < n && t <= n
  {
    if t == 0 then []
    else RowArcs(W, D, n, clock, src, t - 1)
         + (if D[src][t - 1] > clock then [Arc(t - 1, src, W[src][t - 1] - 1)] else [])
  }

  /** The second kind for sources 0..s-1, in the order of `itertools.product(nodes, nodes)`. */
  function ProductArcs(W: seq<seq<int>>, D: seq<seq<int>>, n: nat, clock: int, s: nat): (arcs: seq<Arc>)
    requires Square(W, n) && Square(D, n) && s <= n
  {
    if s == 0 then [] else ProductArcs(W, D, n, clock, s - 1) + RowArcs(W, D, n, clock, s - 1, n)
  }

  /** x is the arc the pair loop adds for a source below s: from x.from to x.to, whose
      D entry exceeds the clock, weighted W - 1. */
  predicate PairArcOf(W: seq<seq<int>>, D: seq<seq<int>>, n: nat, clock: int, s: nat, x: Arc)
    requires Square(W, n) && Square(D, n) && s <= n
  {
    x.from < n && x.to < s && D[x.to][x.from] > clock && x.weight == W[x.to][x.from] - 1
  }

  /** The row of `src` holds exactly the arcs target -> src whose D entry exceeds the clock. */
  lemma {:induction false} RowArcsContents(W: seq<seq<int>>, D: seq<seq<int>>, n: nat, clock: int, src: nat, t: nat)
    requires Square(W, n) && Square(D, n) && src < n && t <= n
    ensures forall x :: x in RowArcs(W, D, n, clock, src, t) ==> x.to == src && x.from < t && PairArcOf(W, D, n, clock, src + 1, x)
    ensures forall a :: 0 <= a < t && D[src][a] > clock ==> Arc(a, src, W[src][a] - 1) in RowArcs(W, D, n, clock, src, t)
  {
    if t > 0 {
      RowArcsContents(W, D, n, clock, src, t - 1);
    }
  }

  /** The pair loop over sources 0..s-1 adds exactly the arcs b -> a with b < s whose D entry exceeds the clock. */
  lemma {:induction false} ProductArcsContents(W: seq<seq<int>>, D: seq<seq<int>>, n: nat, clock: int, s: nat)
    requires Square(W, n) && Square(D, n) && s <= n
    ensures forall x :: x in ProductArcs(W, D, n, clock, s) ==> PairArcOf(W, D, n, clock, s, x)
    ensures forall a, b :: 0 <= a < n && 0 <= b < s && D[b][a] > clock ==> Arc(a, b, W[b][a] - 1) in ProductArcs(W, D, n, clock, s)
  {
    if s > 0 {
      var src := s - 1;
      var pre := ProductArcs(W, D, n, clock, src);
      var row := RowArcs(W, D, n, clock, src, n);
      assert ProductArcs(W, D, n, clock, s) == pre + row;
      ProductArcsContents(W, D, n, clock, src);
      RowArcsContents(W, D, n, clock, src, n);
      PairArcsAppend(W, D, n, clock, s, src, pre, row);
    }
  }

  /** The arcs for sources below s - 1 followed by the row of s - 1 are the arcs for sources below s. */
  lemma PairArcsAppend(W: seq<seq<int>>, D: seq<seq<int>>, n: nat, clock: int, s: nat, src: nat, pre: seq<Arc>, row: seq<Arc>)
    requires Square(W, n) && Square(D, n) && s == src + 1 <= n
    requires forall x :: x in pre ==> PairArcOf(W, D, n, clock, src, x)
    requires forall a, b :: 0 <= a < n && 0 <= b < src && D[b][a] > clock ==> Arc(a, b, W[b][a] - 1) in pre
    requires forall x :: x in row ==> x.to == src && x.from < n && PairArcOf(W, D, n, clock, s, x)
    requires forall a :: 0 <= a < n && D[src][a] > clock ==> Arc(a, src, W[src][a] - 1) in row
    ensures forall x :: x in pre + row ==> PairArcOf(W, D, n, clock, s, x)
    ensures forall a, b :: 0 <= a < n && 0 <= b < s && D[b][a] > clock ==> Arc(a, b, W[b][a] - 1) in pre + row
  {
    forall x | x in pre + row ensures PairArcOf(W, D, n, clock, s, x) {
      if x in pre {
        assert PairArcOf(W, D, n, clock, src, x);
      } else {
        assert x in row;
      }
    }
    forall a, b | 0 <= a < n && 0 <= b < s && D[b][a] > clock ensures Arc(a, b, W[b][a] - 1) in pre + row {
      if b < src {
        assert Arc(a, b, W[b][a] - 1) in pre;
      } else {
        assert Arc(a, b, W[b][a] - 1) in row;
      }
    }
  }

  lemma ProductArcsWithin(W: seq<seq<int>>, D: seq<seq<int>>, n: nat, clock: int, s: nat)
    requires Square(W, n) && Square(D, n) && s <= n
    ensures ArcsWithin(ProductArcs(W, D, n, clock, s), n)
  {
    ProductArcsContents(W, D, n, clock, s);
    var arcs := ProductArcs(W, D, n, clock, s);
    forall i | 0 <= i < |arcs| ensures arcs[i].from < n && arcs[i].to < n {
      assert arcs[i] in arcs;
    }
  }

  /** When every arc a -> b in the list weighs w, the weight recorded for a -> b is w
      exactly when such an arc is present. */
  lemma {:induction false} LastWeightUniform(arcs: seq<Arc>, a: nat, b: nat, w: int)
    requires forall x :: x in arcs && x.from == a && x.to == b ==> x.weight == w
    ensures LastWeight(arcs, a, b) == if Arc(a, b, w) in arcs then Some(w) else None
    decreases |arcs|
  {
    if arcs != [] {
      assert forall x :: x in arcs[1..] ==> x in arcs;
      LastWeightUniform(arcs[1..], a, b, w);
      assert arcs == [arcs[0]] + arcs[1..];
    }
  }

  /** The 0-weight arcs from the extra node n to every node. */
  function ExtraArcs(n: nat): (arcs: seq<Arc>)
  {
    seq(n, v requires 0 <= v < n => Arc(n, v, 0))
  }

  /** The constraint graph of a clock on nodes 0..n, node n being the extra node. */
  function ConstraintGraph(n: nat, es: seq<Edge>, W: seq<seq<int>>, D: seq<seq<int>>, clock: int): (g: Matrix)
    requires WellFormed(n, es) && Square(W, n) && Square(D, n)
    ensures |g| == n + 1 && IsMatrix(g)
  {
    var g0 := AddWeighted(Empty(n + 1), EdgeArcs(es));
    ProductArcsWithin(W, D, n, clock, n);
    var g1 := AddWeighted(g0, ProductArcs(W, D, n, clock, n));
    AddWeighted(g1, ExtraArcs(n))
  }

  lemma ProductArcsAt(W: seq<seq<int>>, D: seq<seq<int>>, n: nat, clock: int, s: nat, a: nat, b: nat)
    requires Square(W, n) && Square(D, n) && s <= n && a < n
    ensures LastWeight(ProductArcs(W, D, n, clock, s), a, b)
         == if b < s && D[b][a] > clock then Some(W[b][a] - 1) else None
  {
    var arcs := ProductArcs(W, D, n, clock, s);
    ProductArcsContents(W, D, n, clock, s);
    var w := if b < n then W[b][a] - 1 else 0;
    LastWeightUniform(arcs, a, b, w);
    assert Arc(a, b, w) in arcs ==> PairArcOf(W, D, n, clock, s, Arc(a, b, w));
  }

  lemma {:induction false} ExtraArcsAt(n: nat, k: nat, a: nat, b: nat)
    requires k <= n
    ensures LastWeight(ExtraArcs(n)[..k], a, b) == if a == n && b < k then Some(0) else None
  {
    if k > 0 {
      ExtraArcsAt(n, k - 1, a, b);
      assert ExtraArcs(n)[..k] == ExtraArcs(n)[..k - 1] + [Arc(n, k - 1, 0)];
      LastWeightAppend(ExtraArcs(n)[..k - 1], [Arc(n, k - 1, 0)], a, b);
      assert [Arc(n, k - 1, 0)][1..] == [];
    }
  }

  /** The weight recorded for the arc v -> u of the first kind is the count of the wire u -> v. */
  lemma {:induction false} EdgeArcsAt(es: seq<Edge>, n: nat, k: nat, i: nat)
    requires WellFormed(n, es) && i < k <= |es|
    ensures LastWeight(EdgeArcs(es)[..k], es[i].v, es[i].u) == Some(es[i].w)
  {
    var pre := EdgeArcs(es)[..k - 1];
    assert EdgeArcs(es)[..k] == pre + [EdgeArcs(es)[k - 1]];
    LastWeightAppend(pre, [EdgeArcs(es)[k - 1]], es[i].v, es[i].u);
    assert [EdgeArcs(es)[k - 1]][1..] == [];
    if i < k - 1 {
      EdgeArcsAt(es, n, k - 1, i);
    }
  }

  /** What a retiming r (with e the extra node's value) must satisfy for the clock: a wire
      u -> v whose D[u][v] does not exceed the clock keeps r(u) - r(v) <= w(u,v); every pair
      with D[u][v] above the clock gets r(u) - r(v) <= W[u][v] - 1; no lag exceeds e. */
  ghost predicate ClockConstraints(n: nat, es: seq<Edge>, W: seq<seq<int>>, D: seq<seq<int>>, clock: int, r: seq<int>, e: int)
    requires WellFormed(n, es) && Square(W, n) && Square(D, n) && |r| == n
  {
    && (forall i :: 0 <= i < |es| && D[es[i].u][es[i].v] <= clock ==> r[es[i].u] - r[es[i].v] <= es[i].w)
    && (forall u, v :: 0 <= u < n && 0 <= v < n && D[u][v] > clock ==> r[u] - r[v] <= W[u][v] - 1)
    && (forall v :: 0 <= v < n ==> r[v] <= e)
  }

  /** The weight of the arc a -> b of the constraint graph, in closed form: nothing enters
      the extra node n, which reaches every other node with weight 0; between two circuit
      nodes the pair constraint replaces the wire constraint on the same arc, because it is
      added later. */
  function ArcWeight(n: nat, es: seq<Edge>, W: seq<seq<int>>, D: seq<seq<int>>, clock: int, a: nat, b: nat): Option<int>
    requires Square(W, n) && Square(D, n) && a <= n && b <= n
  {
    if b == n then None
    else if a == n then Some(0)
    else if D[b][a] > clock then Some(W[b][a] - 1)
    else LastWeight(EdgeArcs(es), a, b)
  }

  /** g has the entries of the constraint graph of the clock. */
  ghost predicate Shaped(g: Matrix, n: nat, es: seq<Edge>, W: seq<seq<int>>, D: seq<seq<int>>, clock: int)
    requires Square(W, n) && Square(D, n)
  {
    |g| == n + 1 && IsMatrix(g) && forall a, b :: 0 <= a <= n && 0 <= b <= n ==> g[a][b] == ArcWeight(n, es, W, D, clock, a, b)
  }

  lemma ConstraintGraphAt(n: nat, es: seq<Edge>, W: seq<seq<int>>, D: seq<seq<int>>, clock: int, a: nat, b: nat)
    requires WellFormed(n, es) && Square(W, n) && Square(D, n) && a <= n && b <= n
    ensures ConstraintGraph(n, es, W, D, clock)[a][b] == ArcWeight(n, es, W, D, clock, a, b)
  {
    var g0 := AddWeighted(Empty(n + 1), EdgeArcs(es));
    ProductArcsWithin(W, D, n, clock, n);
    var g1 := AddWeighted(g0, ProductArcs(W, D, n, clock, n));
    AddWeightedAt(Empty(n + 1), EdgeArcs(es), a, b);
    AddWeightedAt(g0, ProductArcs(W, D, n, clock, n), a, b);
    AddWeightedAt(g1, ExtraArcs(n), a, b);
    ExtraArcsAt(n, n, a, b);
    assert ExtraArcs(n)[..n] == ExtraArcs(n);
    if a >= n || b >= n {
      EdgeArcsFrom(es, n, |es|, a, b);
      assert EdgeArcs(es)[..|es|] == EdgeArcs(es);
    }
    if a < n {
      ProductArcsAt(W, D, n, clock, n, a, b);
    } else {
      ProductArcsFrom(W, D, n, clock, n, a, b);
    }
  }

  /** The constraint graph built arc list by arc list has the closed-form entries. */
  lemma ConstraintGraphShaped(n: nat, es: seq<Edge>, W: seq<seq<int>>, D: seq<seq<int>>, clock: int)
    requires WellFormed(n, es) && Square(W, n) && Square(D, n)
    ensures Shaped(ConstraintGraph(n, es, W, D, clock), n, es, W, D, clock)
  {
    forall a, b | 0 <= a <= n && 0 <= b <= n
      ensures ConstraintGraph(n, es, W, D, clock)[a][b] == ArcWeight(n, es, W, D, clock, a, b)
    {
      ConstraintGraphAt(n, es, W, D, clock, a, b);
    }
  }

  /** No first-kind arc leaves or enters the extra node. */
  lemma {:induction false} EdgeArcsFrom(es: seq<Edge>, n: nat, k: nat, a: nat, b: nat)
    requires WellFormed(n, es) && k <= |es| && (a >= n || b >= n)
    ensures LastWeight(EdgeArcs(es)[..k], a, b).None?
  {
    if k > 0 {
      EdgeArcsFrom(es, n, k - 1, a, b);
      assert EdgeArcs(es)[..k] == EdgeArcs(es)[..k - 1] + [EdgeArcs(es)[k - 1]];
      LastWeightAppend(EdgeArcs(es)[..k - 1], [EdgeArcs(es)[k - 1]], a, b);
      assert [EdgeArcs(es)[k - 1]][1..] == [];
    } else {
      assert EdgeArcs(es)[..k] == [];
    }
  }

  /** No second-kind arc leaves the extra node. */
  lemma ProductArcsFrom(W: seq<seq<int>>, D: seq<seq<int>>, n: nat, clock: int, s: nat, a: nat, b: nat)
    requires Square(W, n) && Square(D, n) && s <= n && a >= n
    ensures LastWeight(ProductArcs(W, D, n, clock, s), a, b).None?
  {
    ProductArcsContents(W, D, n, clock, s);
    LastWeightUniform(ProductArcs(W, D, n, clock, s), a, b, 0);
  }


  /** An arc of the first kind comes from a wire. */
  lemma {:induction false} EdgeArcsSome(es: seq<Edge>, k: nat, a: nat, b: nat)
    requires k <= |es| && LastWeight(EdgeArcs(es)[..k], a, b).Some?
    ensures exists i :: 0 <= i < k && es[i].v == a && es[i].u == b && es[i].w == LastWeight(EdgeArcs(es)[..k], a, b).value
  {
    if k > 0 {
      var pre := EdgeArcs(es)[..k - 1];
      assert EdgeArcs(es)[..k] == pre + [EdgeArcs(es)[k - 1]];
      LastWeightAppend(pre, [EdgeArcs(es)[k - 1]], a, b);
      assert [EdgeArcs(es)[k - 1]][1..] == [];
      if LastWeight([EdgeArcs(es)[k - 1]], a, b).None? {
        EdgeArcsSome(es, k - 1, a, b);
      }
    }
  }

  /** The constraint graph's arcs are exactly the clock constraints: a distance vector d
      on nodes 0..n is a potential for the graph iff its first n entries, as lags, meet
      every constraint with d(n) as the bound. */
  lemma ConstraintsMeaning(g: Matrix, n: nat, es: seq<Edge>, W: seq<seq<int>>, D: seq<seq<int>>, clock: int, d: seq<int>)
    requires WellFormed(n, es) && Square(W, n) && Square(D, n) && Shaped(g, n, es, W, D, clock) && |d| == n + 1
    ensures Satisfies(g, d) <==> ClockConstraints(n, es, W, D, clock, d[..n], d[n])
  {
    if Satisfies(g, d) {
      PotentialMeetsConstraints(g, n, es, W, D, clock, d);
    }
    if ClockConstraints(n, es, W, D, clock, d[..n], d[n]) {
      ConstraintsArePotential(g, n, es, W, D, clock, d);
    }
  }

  lemma PotentialMeetsConstraints(g: Matrix, n: nat, es: seq<Edge>, W: seq<seq<int>>, D: seq<seq<int>>, clock: int, d: seq<int>)
    requires WellFormed(n, es) && Square(W, n) && Square(D, n) && Shaped(g, n, es, W, D, clock) && |d| == n + 1
    requires Satisfies(g, d)
    ensures ClockConstraints(n, es, W, D, clock, d[..n], d[n])
  {
    var r := d[..n];
    forall i | 0 <= i < |es| && D[es[i].u][es[i].v] <= clock
      ensures r[es[i].u] - r[es[i].v] <= es[i].w
    {
      var u, v := es[i].u, es[i].v;
      assert g[v][u] == LastWeight(EdgeArcs(es), v, u);
      EdgeArcsAt(es, n, |es|, i);
      assert EdgeArcs(es)[..|es|] == EdgeArcs(es);
      assert d[u] <= d[v] + es[i].w;
    }
    forall u, v | 0 <= u < n && 0 <= v < n && D[u][v] > clock
      ensures r[u] - r[v] <= W[u][v] - 1
    {
      assert g[v][u] == Some(W[u][v] - 1);
    }
    forall v | 0 <= v < n ensures r[v] <= d[n] {
      assert g[n][v] == Some(0);
    }
  }

  lemma ConstraintsArePotential(g: Matrix, n: nat, es: seq<Edge>, W: seq<seq<int>>, D: seq<seq<int>>, clock: int, d: seq<int>)
    requires WellFormed(n, es) && Square(W, n) && Square(D, n) && Shaped(g, n, es, W, D, clock) && |d| == n + 1
    requires ClockConstraints(n, es, W, D, clock, d[..n], d[n])
    ensures Satisfies(g, d)
  {
    var r := d[..n];
    forall a, b | 0 <= a < |g| && 0 <= b < |g| && g[a][b].Some?
      ensures d[b] <= d[a] + g[a][b].value
    {
      assert g[a][b] == ArcWeight(n, es, W, D, clock, a, b);
      if a < n && b < n {
        if D[b][a] <= clock {
          assert EdgeArcs(es)[..|es|] == EdgeArcs(es);
          EdgeArcsSome(es, |es|, a, b);
          var i :| 0 <= i < |es| && es[i].v == a && es[i].u == b && es[i].w == LastWeight(EdgeArcs(es), a, b).value;
          assert r[b] - r[a] <= es[i].w;
        } else {
          assert r[b] - r[a] <= W[b][a] - 1;
        }
      } else if a == n {
        assert r[b] <= d[n];
      }
    }
  }

  /** The extra node n is a proper source for the shortest-path pass: nothing enters it,
      and it reaches every other node by an arc of weight 0. */
  lemma ExtraNodeIsSource(g: Matrix, n: nat, es: seq<Edge>, W: seq<seq<int>>, D: seq<seq<int>>, clock: int)
    requires WellFormed(n, es) && Square(W, n) && Square(D, n) && Shaped(g, n, es, W, D, clock)
    ensures forall a :: 0 <= a < |g| ==> g[a][n].None?
    ensures forall v :: 0 <= v < |g| && v != n ==> g[n][v] == Some(0)
  {
    forall a | 0 <= a < |g| ensures g[a][n].None? {
      assert g[a][n] == ArcWeight(n, es, W, D, clock, a, n);
    }
    forall v | 0 <= v < |g| && v != n ensures g[n][v] == Some(0) {
      assert g[n][v] == ArcWeight(n, es, W, D, clock, n, v);
    }
  }

  /** The clock admits a retiming meeting every constraint. */
  ghost predicate ClockFeasible(n: nat, es: seq<Edge>, W: seq<seq<int>>, D: seq<seq<int>>, clock: int)
    requires WellFormed(n, es) && Square(W, n) && Square(D, n)
  {
    exists r: seq<int>, e: int :: |r| == n && ClockConstraints(n, es, W, D, clock, r, e)
  }

  /** Constraints that can be met are exactly a constraint graph without negative cycles
      (the direction from no cycle to a retiming is the shortest-path pass itself). */
  lemma FeasibleHasNoNegativeCycle(g: Matrix, n: nat, es: seq<Edge>, W: seq<seq<int>>, D: seq<seq<int>>, clock: int)
    requires WellFormed(n, es) && Square(W, n) && Square(D, n) && Shaped(g, n, es, W, D, clock)
    requires ClockFeasible(n, es, W, D, clock)
    ensures !HasNegativeCycle(g)
  {
    var r: seq<int>, e: int :| |r| == n && ClockConstraints(n, es, W, D, clock, r, e);
    var d := r + [e];
    assert d[..n] == r;
    ConstraintsArePotential(g, n, es, W, D, clock, d);
    SatisfiesNoNegativeCycle(g, d);
  }

  /** When every pair's W is at most the register count of its direct wire (a wire is a
      path), lags meeting the clock constraints keep every register count non-negative. */
  lemma ConstraintsAreLegal(n: nat, es: seq<Edge>, W: seq<seq<int>>, D: seq<seq<int>>, clock: int, r: seq<int>, e: int)
    requires WellFormed(n, es) && Square(W, n) && Square(D, n) && |r| == n
    requires Dominated(es, W, n) && ClockConstraints(n, es, W, D, clock, r, e)
    ensures LagFits(es, r) && NonNegative(Retime(es, r))
  {
    RetimeLegal(es, r);
  }

  /** W never exceeds the register count of the direct wire. */
  predicate Dominated(es: seq<Edge>, W: seq<seq<int>>, n: nat)
    requires WellFormed(n, es) && Square(W, n)
  {
    forall i :: 0 <= i < |es| ==> W[es[i].u][es[i].v] <= es[i].w
  }

  /** A longer clock keeps a feasible retiming feasible: it only drops pair constraints,
      and the wire constraints it adds are implied by the pair constraints they replace. */
  lemma ClockFeasibleMonotone(n: nat, es: seq<Edge>, W: seq<seq<int>>, D: seq<seq<int>>, c1: int, c2: int)
    requires WellFormed(n, es) && Square(W, n) && Square(D, n) && Dominated(es, W, n) && c1 <= c2
    requires ClockFeasible(n, es, W, D, c1)
    ensures ClockFeasible(n, es, W, D, c2)
  {
    var r: seq<int>, e: int :| |r| == n && ClockConstraints(n, es, W, D, c1, r, e);
    assert ClockConstraints(n, es, W, D, c2, r, e) by {
      forall i | 0 <= i < |es| && D[es[i].u][es[i].v] <= c2
        ensures r[es[i].u] - r[es[i].v] <= es[i].w
      {
        if D[es[i].u][es[i].v] > c1 {
          assert r[es[i].u] - r[es[i].v] <= W[es[i].u][es[i].v] - 1;
        }
      }
    }
  }

  /** With non-negative register counts, the largest entry of D is a feasible clock: no
      pair constraint remains and the zero retiming meets the wire constraints. */
  lemma LargestClockFeasible(n: nat, es: seq<Edge>, W: seq<seq<int>>, D: seq<seq<int>>, clock: int)
    requires WellFormed(n, es) && Square(W, n) && Square(D, n) && NonNegative(es)
    requires forall u, v :: 0 <= u < n && 0 <= v < n ==> D[u][v] <= clock
    ensures ClockFeasible(n, es, W, D, clock)
  {
    assert ClockConstraints(n, es, W, D, clock, Zeros(n), 0);
  }

  /** The constraint graph of the clock, its pair arcs given as built by the caller, and
      Bellman-Ford from the extra node: the clock is feasible exactly when no negative
      cycle exists, and then the distances to nodes 0..n-1 are lags meeting every
      constraint, each at most 0. */
  method SolveConstraints(n: nat, es: seq<Edge>, W: seq<seq<int>>, D: seq<seq<int>>, clock: int, pairs: seq<Arc>)
    returns (feasible: bool, lags: Option<seq<int>>)
    requires WellFormed(n, es) && Square(W, n) && Square(D, n) && pairs == ProductArcs(W, D, n, clock, n)
    ensures feasible <==> ClockFeasible(n, es, W, D, clock)
    ensures feasible ==> lags.Some? && |lags.value| == n && ClockConstraints(n, es, W, D, clock, lags.value, 0)
    ensures feasible ==> forall v :: 0 <= v < n ==> IsDistance(ConstraintGraph(n, es, W, D, clock), n, v, lags.value[v])
    ensures !feasible ==> lags.None?
  {
    ProductArcsWithin(W, D, n, clock, n);
    var g := AddWeighted(AddWeighted(AddWeighted(Empty(n + 1), EdgeArcs(es)), pairs), ExtraArcs(n));
    assert g == ConstraintGraph(n, es, W, D, clock);
    ConstraintGraphShaped(n, es, W, D, clock);
    ExtraNodeIsSource(g, n, es, W, D, clock);
    var ok, dist := BellmanFord(g, n);
    if ok {
      ConstraintsMeaning(g, n, es, W, D, clock, dist);
      assert |dist[..n]| == n && ClockConstraints(n, es, W, D, clock, dist[..n], dist[n]);
      feasible, lags := true, Some(dist[..n]);
    } else {
      if ClockFeasible(n, es, W, D, clock) {
        FeasibleHasNoNegativeCycle(g, n, es, W, D, clock);
        assert false;
      }
      feasible, lags := false, None;
    }
  }
}
