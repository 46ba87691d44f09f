/** The W computation of src/wd/wd.py (class WD): every wire weighted by the pair
    (registers, -delay of its source), the scalar weight the all-pairs shortest-path search
    ranks paths by, and the register count summed along each returned path. */
module WD {
  import opened CircuitGraph
  import CriticalPath

  /** The weighted graph: the `weight` pair of every arc (u, v). */
  type Weights = map<(nat, nat), (int, int)>

  /** A dict of dicts keyed by node (W). */
  type Table = map<nat, map<nat, int>>

  /** The `weights` comprehension of `_weight_edges`: the pair (w, -d(u)) for every wire u -> v. */
  function WeightsOf(es: seq<Edge>, delay: seq<int>): Weights
    requires forall i :: 0 <= i < |es| ==> es[i].u < |delay|
  {
    if es == [] then map[]
    else
      var e := es[|es| - 1];
      WeightsOf(es[..|es| - 1], delay)[(e.u, e.v) := (e.w, -delay[e.u])]
  }

  /** The weighted graph has exactly the wires of the circuit as arcs. */
  lemma {:induction false} WeightsOfArcs(es: seq<Edge>, delay: seq<int>)
    requires forall i :: 0 <= i < |es| ==> es[i].u < |delay|
    ensures forall k :: k in WeightsOf(es, delay) <==> exists i :: 0 <= i < |es| && (es[i].u, es[i].v) == k
  {
    if es != [] {
      var pre := es[..|es| - 1];
      assert forall i :: 0 <= i < |pre| ==> pre[i] == es[i];
      WeightsOfArcs(pre, delay);
      forall k | k in WeightsOf(es, delay)
        ensures exists i :: 0 <= i < |es| && (es[i].u, es[i].v) == k
      {
        if k != (es[|es| - 1].u, es[|es| - 1].v) {
          assert k in WeightsOf(pre, delay);
          var i :| 0 <= i < |pre| && (pre[i].u, pre[i].v) == k;
          assert (es[i].u, es[i].v) == k;
        }
      }
    }
  }

  /** Each wire's arc is weighted (its register count, minus its source's delay), when no two
      wires join the same pair of nodes (a DiGraph keeps one). */
  lemma {:induction false} WeightsOfValues(es: seq<Edge>, delay: seq<int>)
    requires forall i :: 0 <= i < |es| ==> es[i].u < |delay|
    requires forall i, j :: 0 <= i < j < |es| ==> (es[i].u, es[i].v) != (es[j].u, es[j].v)
    ensures forall i :: 0 <= i < |es| ==>
      (es[i].u, es[i].v) in WeightsOf(es, delay) && WeightsOf(es, delay)[(es[i].u, es[i].v)] == (es[i].w, -delay[es[i].u])
  {
    if es != [] {
      var pre := es[..|es| - 1];
      assert forall i :: 0 <= i < |pre| ==> pre[i] == es[i];
      WeightsOfValues(pre, delay);
      WeightsOfArcs(pre, delay);
    }
  }

  /** The second component of every arc is minus its source's delay, whatever wire set it. */
  lemma {:induction false} WeightsOfSources(es: seq<Edge>, delay: seq<int>)
    requires forall i :: 0 <= i < |es| ==> es[i].u < |delay|
    ensures forall k :: k in WeightsOf(es, delay) ==> k.0 < |delay| && WeightsOf(es, delay)[k].1 == -delay[k.0]
  {
    if es != [] {
      var pre := es[..|es| - 1];
      assert forall i :: 0 <= i < |pre| ==> pre[i] == es[i];
      WeightsOfSources(pre, delay);
    }
  }

  /** x * y is non-negative for non-negative x and y. */
  lemma {:induction false} MulNonNegative(x: int, y: int)
    requires x >= 0 && y >= 0
    ensures x * y >= 0
    decreases x
  {
    if x > 0 {
      MulNonNegative(x - 1, y);
      assert x * y == (x - 1) * y + y;
    }
  }

  /** `_custom_weight`: first * M + (M - second), M the largest component delay. */
  function CustomWeight(weight: (int, int), m: int): int {
    weight.0 * m + (m - weight.1)
  }

  /** With registers, delays and M non-negative the weight is non-negative, as Dijkstra needs. */
  lemma CustomWeightNonNegative(w: int, d: int, m: int)
    requires w >= 0 && d >= 0 && m >= 0
    ensures CustomWeight((w, -d), m) >= 0
  {
    MulNonNegative(w, m);
  }

  /** Since every delay is at most M, an arc with fewer registers never weighs more. */
  lemma FewerRegistersNeverHeavier(w1: int, d1: int, w2: int, d2: int, m: int)
    requires 0 <= d1 <= m && 0 <= d2 <= m && w1 < w2
    ensures CustomWeight((w1, -d1), m) <= CustomWeight((w2, -d2), m)
  {
    MulNonNegative(w2 - w1 - 1, m);
    assert (w2 - w1 - 1) * m == w2 * m - w1 * m - m;
  }

  /** Between arcs with as many registers, the one whose source has the smaller delay weighs
      less: the weight adds d(u), so the search prefers the lower delay, not the higher one
      the doc-comment of `_custom_weight` names. */
  lemma LowerDelayLighter(w: int, d1: int, d2: int, m: int)
    ensures CustomWeight((w, -d1), m) < CustomWeight((w, -d2), m) <==> d1 < d2
  {
  }

  /** Every consecutive pair of the path is an arc of the weighted graph. */
  predicate IsPathIn(g: Weights, p: seq<nat>) {
    |p| >= 1 && forall k :: 0 <= k < |p| - 1 ==> (p[k], p[k + 1]) in g
  }

  /** The arcs of the weighted graph carry at most M of delay and no negative one. */
  predicate DelaysWithin(g: Weights, m: int) {
    forall k :: k in g ==> 0 <= -g[k].1 <= m
  }

  /** The total weight of a path under `_custom_weight`, as the shortest-path search ranks it. */
  function PathCost(g: Weights, p: seq<nat>, m: int): int
    requires IsPathIn(g, p)
    decreases |p|
  {
    if |p| < 2 then 0 else CustomWeight(g[(p[0], p[1])], m) + PathCost(g, p[1..], m)
  }

  /** The registers along a path. */
  function PathRegisters(g: Weights, p: seq<nat>): int
    requires IsPathIn(g, p)
    decreases |p|
  {
    if |p| < 2 then 0 else g[(p[0], p[1])].0 + PathRegisters(g, p[1..])
  }

  /** The delays of every node of a path but its last (the sources of its arcs). */
  function PathDelay(g: Weights, p: seq<nat>): int
    requires IsPathIn(g, p)
    decreases |p|
  {
    if |p| < 2 then 0 else -g[(p[0], p[1])].1 + PathDelay(g, p[1..])
  }

  /** A path's weight is its registers times M, plus M per arc, plus its delay: registers do
      not dominate, since the M per arc grows with the path's length. */
  lemma {:induction false} PathCostSplit(g: Weights, p: seq<nat>, m: int)
    requires IsPathIn(g, p)
    ensures PathCost(g, p, m) == PathRegisters(g, p) * m + (|p| - 1) * m + PathDelay(g, p)
    decreases |p|
  {
    if |p| >= 2 {
      PathCostSplit(g, p[1..], m);
      var a := g[(p[0], p[1])].0;
      assert (a + PathRegisters(g, p[1..])) * m == a * m + PathRegisters(g, p[1..]) * m;
      assert (|p| - 1) * m == m + (|p| - 2) * m;
    }
  }

  /** Three nodes of delay 1 (so M = 1): 0 -> 1 and 1 -> 2 without registers, 0 -> 2 with
      one. The register-free path 0 -> 1 -> 2 weighs 4 and the direct wire 3, so the search
      returns the direct wire and W[0][2] comes out 1 instead of 0. */
  lemma AsWrittenMisranks()
    ensures var g: Weights := map[(0, 1) := (0, -1), (1, 2) := (0, -1), (0, 2) := (1, -1)];
      && IsPathIn(g, [0, 1, 2]) && IsPathIn(g, [0, 2])
      && PathRegisters(g, [0, 1, 2]) == 0 && PathRegisters(g, [0, 2]) == 1
      && PathCost(g, [0, 2], 1) < PathCost(g, [0, 1, 2], 1)
  {
    var g: Weights := map[(0, 1) := (0, -1), (1, 2) := (0, -1), (0, 2) := (1, -1)];
    var p, q := [0, 1, 2], [0, 2];
    assert p[1..] == [1, 2] && p[1..][1..] == [2] && q[1..] == [2];
    assert PathRegisters(g, p) == 0 && PathRegisters(g, q) == 1;
    assert PathCost(g, p, 1) == 4 && PathCost(g, q, 1) == 3;
  }

  /** The weight that ranks registers first: first * S + (M + second), that is w * S + (M - d(u)),
      with S = n * M + 1 larger than the delay term of any path on at most n nodes. */
  function RankedWeight(weight: (int, int), m: int, scale: int): int {
    weight.0 * scale + (m + weight.1)
  }

  /** The total ranked weight of a path. */
  function RankedCost(g: Weights, p: seq<nat>, m: int, scale: int): int
    requires IsPathIn(g, p)
    decreases |p|
  {
    if |p| < 2 then 0 else RankedWeight(g[(p[0], p[1])], m, scale) + RankedCost(g, p[1..], m, scale)
  }

  /** A path's ranked weight is its registers times S, plus M per arc, minus its delay. */
  lemma {:induction false} RankedCostSplit(g: Weights, p: seq<nat>, m: int, scale: int)
    requires IsPathIn(g, p)
    ensures RankedCost(g, p, m, scale) == PathRegisters(g, p) * scale + (|p| - 1) * m - PathDelay(g, p)
    decreases |p|
  {
    if |p| >= 2 {
      RankedCostSplit(g, p[1..], m, scale);
      var a := g[(p[0], p[1])].0;
      assert (a + PathRegisters(g, p[1..])) * scale == a * scale + PathRegisters(g, p[1..]) * scale;
      assert (|p| - 1) * m == m + (|p| - 2) * m;
    }
  }

  /** Each arc carries between 0 and M of delay, so a path carries between 0 and M per arc. */
  lemma {:induction false} PathDelayWithin(g: Weights, p: seq<nat>, m: int)
    requires IsPathIn(g, p) && DelaysWithin(g, m)
    ensures 0 <= PathDelay(g, p) <= (|p| - 1) * m
    decreases |p|
  {
    if |p| >= 2 {
      PathDelayWithin(g, p[1..], m);
      assert (|p| - 1) * m == m + (|p| - 2) * m;
    }
  }

  lemma ScaleGrows(a: int, b: int, s: int)
    requires a < b && s > 0
    ensures a * s + s <= b * s
  {
    MulNonNegative(b - a - 1, s);
    assert (b - a - 1) * s == b * s - a * s - s;
  }

  lemma SlackBelowScale(k: int, n: int, m: int)
    requires 0 <= k <= n - 1 && m >= 0
    ensures k * m <= (n - 1) * m < n * m + 1
  {
    MulNonNegative(n - 1 - k, m);
    assert (n - 1 - k) * m == (n - 1) * m - k * m;
    assert (n - 1) * m == n * m - m;
  }

  /** With the ranked weight, of two paths on at most n nodes the one with fewer registers is
      strictly lighter, so the shortest path has the fewest registers and W is the minimum
      register count. */
  lemma RankedPrefersFewerRegisters(g: Weights, p: seq<nat>, q: seq<nat>, n: nat, m: int)
    requires DelaysWithin(g, m) && m >= 0
    requires IsPathIn(g, p) && IsPathIn(g, q) && |p| <= n && |q| <= n
    requires PathRegisters(g, p) < PathRegisters(g, q)
    ensures RankedCost(g, p, m, n * m + 1) < RankedCost(g, q, m, n * m + 1)
  {
    var scale := n * m + 1;
    RankedCostSplit(g, p, m, scale);
    RankedCostSplit(g, q, m, scale);
    PathDelayWithin(g, p, m);
    PathDelayWithin(g, q, m);
    SlackBelowScale(|p| - 1, n, m);
    ScaleGrows(PathRegisters(g, p), PathRegisters(g, q), scale);
  }

  /** Between arcs with as many registers, the ranked weight makes the one whose source has
      the higher delay the lighter, as the doc-comment of `_custom_weight` intends. */
  lemma RankedHigherDelayLighter(w: int, d1: int, d2: int, m: int, scale: int)
    ensures RankedWeight((w, -d1), m, scale) < RankedWeight((w, -d2), m, scale) <==> d1 > d2
  {
  }

  /** Each ranked arc weight is non-negative, as Dijkstra needs. */
  lemma RankedWeightNonNegative(w: int, d: int, m: int, scale: int)
    requires w >= 0 && 0 <= d <= m && scale >= 0
    ensures RankedWeight((w, -d), m, scale) >= 0
  {
    MulNonNegative(w, scale);
  }

  /** `compute_w`: the first components summed over the consecutive pairs of the path that are
      arcs; `self._weighted_graph[v1]` raises KeyError for a node v1 outside nodes 0..n-1. */
  function ComputeW(g: Weights, n: nat, p: seq<nat>): Result<int>
    decreases |p|
  {
    if |p| < 2 then Success(0)
    else if p[0] >= n then Failure(KeyMissing)
    else match ComputeW(g, n, p[1..])
      case Failure(f) => Failure(f)
      case Success(rest) => Success((if (p[0], p[1]) in g then g[(p[0], p[1])].0 else 0) + rest)
  }

  /** Along a path of the weighted graph on its nodes, `compute_w` is the register count. */
  lemma {:induction false} ComputeWIsRegisters(g: Weights, n: nat, p: seq<nat>)
    requires IsPathIn(g, p) && forall k :: 0 <= k < |p| ==> p[k] < n
    ensures ComputeW(g, n, p) == Success(PathRegisters(g, p))
    decreases |p|
  {
    if |p| >= 2 {
      ComputeWIsRegisters(g, n, p[1..]);
    }
  }

  /** With non-negative register counts, `compute_w` never returns a negative sum. */
  lemma {:induction false} ComputeWNonNegative(g: Weights, n: nat, p: seq<nat>)
    requires forall k :: k in g ==> g[k].0 >= 0
    requires ComputeW(g, n, p).Success?
    ensures ComputeW(g, n, p).value >= 0
    decreases |p|
  {
    if |p| >= 2 {
      ComputeWNonNegative(g, n, p[1..]);
    }
  }

  /** Prepending the source to a path that starts at it adds only the pair (src, src), which
      counts only through a self-loop: so W[u][u] is 0 for a node without one. */
  lemma SourceTwice(g: Weights, n: nat, p: seq<nat>)
    requires |p| >= 1 && p[0] < n
    ensures ComputeW(g, n, [p[0]] + p).Success? <==> ComputeW(g, n, p).Success?
    ensures ComputeW(g, n, p).Success? ==>
      ComputeW(g, n, [p[0]] + p).value == ComputeW(g, n, p).value + (if (p[0], p[0]) in g then g[(p[0], p[0])].0 else 0)
  {
    assert ([p[0]] + p)[1..] == p;
  }

  /** One entry of the all-pairs result: the path from src to target. */
  datatype Entry = Entry(src: nat, target: nat, path: seq<nat>)

  /** The all-pairs result, a dict of dicts, as lists of (key, value) pairs in dict order. */
  type AllPairs = seq<(nat, seq<(nat, seq<nat>)>)>

  /** The entries of one source's dict, in order. */
  function Row(src: nat, ts: seq<(nat, seq<nat>)>): (r: seq<Entry>)
    ensures |r| == |ts|
  {
    seq(|ts|, k requires 0 <= k < |ts| => Entry(src, ts[k].0, ts[k].1))
  }

  /** Every entry of the all-pairs result, in the order the nested loops visit them. */
  function Flat(ps: AllPairs): seq<Entry> {
    if ps == [] then [] else Row(ps[0].0, ps[0].1) + Flat(ps[1..])
  }

  /** `self.w[src][target] = x`, creating the inner dict first when src has none. */
  function Put(w: Table, src: nat, target: nat, x: int): Table {
    w[src := (if src in w then w[src] else map[])[target := x]]
  }

  /** W after `compute_wd` has gone through the listed entries from W = w, in order, with the
      source put in front of each path; the first `compute_w` that raises stops it. */
  function FillW(w: Table, g: Weights, n: nat, es: seq<Entry>): Result<Table>
    decreases |es|
  {
    if es == [] then Success(w)
    else match ComputeW(g, n, [es[0].src] + es[0].path)
      case Failure(f) => Failure(f)
      case Success(x) => FillW(Put(w, es[0].src, es[0].target, x), g, n, es[1..])
  }

  /** No (source, target) pair is listed twice, as in a dict of dicts. */
  predicate Unique(es: seq<Entry>) {
    forall i, j :: 0 <= i < j < |es| ==> (es[i].src, es[i].target) != (es[j].src, es[j].target)
  }

  /** Setting one entry keeps every other entry of W. */
  lemma PutKeeps(w: Table, src: nat, target: nat, x: int, s: nat, t: nat)
    requires (s, t) != (src, target) && s in w && t in w[s]
    ensures s in Put(w, src, target, x) && t in Put(w, src, target, x)[s] && Put(w, src, target, x)[s][t] == w[s][t]
  {
  }

  /** An entry of W that no listed pair names is left as it was. */
  lemma {:induction false} FillWKeeps(w: Table, g: Weights, n: nat, es: seq<Entry>, s: nat, t: nat)
    requires FillW(w, g, n, es).Success? && s in w && t in w[s]
    requires forall k :: 0 <= k < |es| ==> (es[k].src, es[k].target) != (s, t)
    ensures s in FillW(w, g, n, es).value && t in FillW(w, g, n, es).value[s]
    ensures FillW(w, g, n, es).value[s][t] == w[s][t]
    decreases |es|
  {
    if es != [] {
      var x := ComputeW(g, n, [es[0].src] + es[0].path).value;
      PutKeeps(w, es[0].src, es[0].target, x, s, t);
      FillWKeeps(Put(w, es[0].src, es[0].target, x), g, n, es[1..], s, t);
    }
  }

  /** W holds, for every listed pair, `compute_w` of its path with the source in front. */
  lemma {:induction false} FillWListed(w: Table, g: Weights, n: nat, es: seq<Entry>)
    requires Unique(es) && FillW(w, g, n, es).Success?
    ensures forall k :: 0 <= k < |es| ==>
      (es[k].src in FillW(w, g, n, es).value && es[k].target in FillW(w, g, n, es).value[es[k].src]
       && Success(FillW(w, g, n, es).value[es[k].src][es[k].target]) == ComputeW(g, n, [es[k].src] + es[k].path))
    decreases |es|
  {
    if es != [] {
      var x := ComputeW(g, n, [es[0].src] + es[0].path).value;
      var w' := Put(w, es[0].src, es[0].target, x);
      var rest := es[1..];
      assert forall k :: 0 <= k < |rest| ==> rest[k] == es[k + 1];
      FillWListed(w', g, n, rest);
      FillWKeeps(w', g, n, rest, es[0].src, es[0].target);
    }
  }

  /** Beyond the entries it started with, W holds only the listed pairs. */
  lemma {:induction false} FillWOnly(w: Table, g: Weights, n: nat, es: seq<Entry>)
    requires FillW(w, g, n, es).Success?
    ensures forall s, t :: s in FillW(w, g, n, es).value && t in FillW(w, g, n, es).value[s] ==>
      ((s in w && t in w[s]) || exists k :: 0 <= k < |es| && es[k].src == s && es[k].target == t)
    decreases |es|
  {
    if es != [] {
      var x := ComputeW(g, n, [es[0].src] + es[0].path).value;
      var w' := Put(w, es[0].src, es[0].target, x);
      var rest := es[1..];
      FillWOnly(w', g, n, rest);
      forall s, t | s in FillW(w, g, n, es).value && t in FillW(w, g, n, es).value[s]
        ensures (s in w && t in w[s]) || exists k :: 0 <= k < |es| && es[k].src == s && es[k].target == t
      {
        if !(s in w' && t in w'[s]) {
          var k :| 0 <= k < |rest| && rest[k].src == s && rest[k].target == t;
          assert es[k + 1] == rest[k];
        } else if (s, t) == (es[0].src, es[0].target) {
          assert es[0].src == s && es[0].target == t;
        }
      }
    }
  }

  /** Each path of one source's dict with the source put in front (`path.insert(0, src)`). */
  function PrependTargets(src: nat, ts: seq<(nat, seq<nat>)>): (r: seq<(nat, seq<nat>)>)
    ensures |r| == |ts|
  {
    seq(|ts|, k requires 0 <= k < |ts| => (ts[k].0, [src] + ts[k].1))
  }

  /** The all-pairs result after `compute_wd`: every path starts with its source twice. */
  function PrependAll(ps: AllPairs): (r: AllPairs)
    ensures |r| == |ps|
  {
    seq(|ps|, i requires 0 <= i < |ps| => (ps[i].0, PrependTargets(ps[i].0, ps[i].1)))
  }

  /** Going through two runs of entries is going through the first, then from there through
      the second. */
  lemma {:induction false} FillWAppend(w: Table, g: Weights, n: nat, a: seq<Entry>, b: seq<Entry>)
    ensures FillW(w, g, n, a + b) ==
      match FillW(w, g, n, a)
      case Failure(f) => Failure(f)
      case Success(w') => FillW(w', g, n, b)
    decreases |a|
  {
    if a == [] {
      assert a + b == b;
    } else {
      assert (a + b)[0] == a[0] && (a + b)[1..] == a[1..] + b;
      var x := ComputeW(g, n, [a[0].src] + a[0].path);
      if x.Success? {
        FillWAppend(Put(w, a[0].src, a[0].target, x.value), g, n, a[1..], b);
      }
    }
  }

  /** `compute_wd`'s inner loop for one source from W = w: each target's path with the source
      in front goes through `compute_w`, and the first that raises stops it. */
  function FillTargets(w: Table, g: Weights, n: nat, src: nat, ts: seq<(nat, seq<nat>)>): Result<Table>
    decreases |ts|
  {
    if ts == [] then Success(w)
    else match ComputeW(g, n, [src] + ts[0].1)
      case Failure(f) => Failure(f)
      case Success(x) => FillTargets(Put(w, src, ts[0].0, x), g, n, src, ts[1..])
  }

  /** `compute_wd`'s outer loop from W = w: every source's targets in turn. */
  function FillAll(w: Table, g: Weights, n: nat, ps: AllPairs): Result<Table>
    decreases |ps|
  {
    if ps == [] then Success(w)
    else match FillTargets(w, g, n, ps[0].0, ps[0].1)
      case Failure(f) => Failure(f)
      case Success(w') => FillAll(w', g, n, ps[1..])
  }

  /** One source's loop goes through the entries of its row. */
  lemma {:induction false} FillTargetsIsFillW(w: Table, g: Weights, n: nat, src: nat, ts: seq<(nat, seq<nat>)>)
    ensures FillTargets(w, g, n, src, ts) == FillW(w, g, n, Row(src, ts))
    decreases |ts|
  {
    if ts != [] {
      assert Row(src, ts)[0] == Entry(src, ts[0].0, ts[0].1);
      assert Row(src, ts)[1..] == Row(src, ts[1..]);
      var x := ComputeW(g, n, [src] + ts[0].1);
      if x.Success? {
        FillTargetsIsFillW(Put(w, src, ts[0].0, x.value), g, n, src, ts[1..]);
      }
    }
  }

  /** The nested loops go through every entry of the all-pairs result, in order. */
  lemma {:induction false} FillAllIsFillW(w: Table, g: Weights, n: nat, ps: AllPairs)
    ensures FillAll(w, g, n, ps) == FillW(w, g, n, Flat(ps))
    decreases |ps|
  {
    if ps != [] {
      FillTargetsIsFillW(w, g, n, ps[0].0, ps[0].1);
      FillWAppend(w, g, n, Row(ps[0].0, ps[0].1), Flat(ps[1..]));
      var filled := FillTargets(w, g, n, ps[0].0, ps[0].1);
      if filled.Success? {
        FillAllIsFillW(filled.value, g, n, ps[1..]);
      }
    }
  }

  /** After the nested loops, W holds for every listed pair `compute_w` of its path with the
      source in front, and, beyond the entries it started with, nothing else. */
  lemma FillAllMeaning(w: Table, g: Weights, n: nat, ps: AllPairs)
    requires Unique(Flat(ps)) && FillAll(w, g, n, ps).Success?
    ensures forall e :: e in Flat(ps) ==>
      (e.src in FillAll(w, g, n, ps).value && e.target in FillAll(w, g, n, ps).value[e.src]
       && Success(FillAll(w, g, n, ps).value[e.src][e.target]) == ComputeW(g, n, [e.src] + e.path))
    ensures forall s, t :: s in FillAll(w, g, n, ps).value && t in FillAll(w, g, n, ps).value[s] ==>
      ((s in w && t in w[s]) || exists e :: e in Flat(ps) && e.src == s && e.target == t)
  {
    FillAllIsFillW(w, g, n, ps);
    FillWListed(w, g, n, Flat(ps));
    FillWOnly(w, g, n, Flat(ps));
  }

  /** Creating the inner dict first, then setting the entry, is `Put`. */
  lemma PutAfterCreate(before: Table, w: Table, src: nat, target: nat, x: int)
    requires var created := if src in before then before else before[src := map[]];
      w == created[src := created[src][target := x]]
    ensures w == Put(before, src, target, x)
  {
  }

  /** The inner loop of `compute_wd` for one source: each target in turn gets the source put
      in front of its path and W[src][target] set to `compute_w` of that path, the inner dict
      being created on the first target; returns W and the paths as the loop leaves them. */
  method FillRow(w0: Table, g: Weights, n: nat, src: nat, ts: seq<(nat, seq<nat>)>)
    returns (r: Result<()>, w: Table, row: seq<(nat, seq<nat>)>)
    ensures FillTargets(w0, g, n, src, ts).Failure? ==> r == Failure(FillTargets(w0, g, n, src, ts).fault)
    ensures FillTargets(w0, g, n, src, ts).Success? ==> r.Success? && w == FillTargets(w0, g, n, src, ts).value
    ensures r.Success? ==> row == PrependTargets(src, ts)
  {
    w, row := w0, ts;
    var j := 0;
    assert ts[0..] == ts;
    while j < |row|
      invariant 0 <= j <= |ts| && |row| == |ts|
      invariant forall k :: 0 <= k < j ==> row[k] == (ts[k].0, [src] + ts[k].1)
      invariant forall k :: j <= k < |ts| ==> row[k] == ts[k]
      invariant FillTargets(w, g, n, src, ts[j..]) == FillTargets(w0, g, n, src, ts)
    {
      var target := row[j].0;
      ghost var before := w;
      if src !in w {
        w := w[src := map[]];
      }
      var path := [src] + row[j].1;
      row := row[j := (target, path)];
      var x := ComputeW(g, n, path);
      assert ts[j..][0] == ts[j] && ts[j..][1..] == ts[j + 1..];
      if x.Failure? {
        return Failure(x.fault), w, row;
      }
      w := w[src := w[src][target := x.value]];
      PutAfterCreate(before, w, src, target, x.value);
      j := j + 1;
    }
    assert row == PrependTargets(src, ts);
    r := Success(());
  }

  class Wd {
    const n: nat
    const graph: seq<Edge>
    /** The `component_delay` of every node. */
    const delay: seq<int>
    /** `_weighted_graph`: its arcs and their `weight` pairs, on nodes 0..n-1. */
    var weighted: Weights
    /** `_max_component_delay` (0 until `_weight_edges` sets it). */
    var maxDelay: int
    var w: Table
    var d: Table
    /** `all_pairs`, the paths the all-pairs shortest-path search returns. */
    var allPairs: AllPairs

    predicate Valid() {
      WellFormed(n, graph) && |delay| == n
    }

    /** `__init__`, with the all-pairs paths given: empty W and D, no arcs weighted yet. */
    constructor (n: nat, graph: seq<Edge>, delay: seq<int>, paths: AllPairs)
      requires WellFormed(n, graph) && |delay| == n
      ensures Valid() && this.n == n && this.graph == graph && this.delay == delay
      ensures weighted == map[] && maxDelay == 0 && w == map[] && d == map[] && allPairs == paths
    {
      this.n, this.graph, this.delay := n, graph, delay;
      weighted, maxDelay, w, d, allPairs := map[], 0, map[], map[], paths;
    }

    /** `_weight_edges`: M is the largest component delay (`max` of no delays raises), and
        every wire u -> v becomes an arc weighted (w, -d(u)). */
    method WeightEdges() returns (r: Result<()>)
      requires Valid()
      modifies this`weighted, this`maxDelay
      ensures n == 0 ==> r == Failure(EmptyMax) && weighted == old(weighted) && maxDelay == old(maxDelay)
      ensures n > 0 ==> r.Success? && maxDelay in delay && forall v :: 0 <= v < n ==> delay[v] <= maxDelay
      ensures n > 0 ==> weighted == WeightsOf(graph, delay)
      ensures n > 0 ==> forall k :: k in weighted <==> exists i :: 0 <= i < |graph| && (graph[i].u, graph[i].v) == k
      ensures n > 0 ==> forall i :: 0 <= i < |graph| ==> weighted[(graph[i].u, graph[i].v)] == (graph[i].w, -delay[graph[i].u])
    {
      if n == 0 {
        return Failure(EmptyMax);
      }
      maxDelay := CriticalPath.MaxOf(delay);
      weighted := WeightsOf(graph, delay);
      WeightsOfArcs(graph, delay);
      WeightsOfValues(graph, delay);
      r := Success(());
    }

    /** The inner loop of `compute_wd` for the i-th source (`FillRow`), its paths and W
        written back. */
    method ComputeRow(i: nat) returns (r: Result<()>)
      requires i < |allPairs|
      modifies this`w, this`allPairs
      ensures FillTargets(old(w), weighted, n, old(allPairs)[i].0, old(allPairs)[i].1).Failure? ==>
        r == Failure(FillTargets(old(w), weighted, n, old(allPairs)[i].0, old(allPairs)[i].1).fault)
      ensures FillTargets(old(w), weighted, n, old(allPairs)[i].0, old(allPairs)[i].1).Success? ==>
        r.Success? && w == FillTargets(old(w), weighted, n, old(allPairs)[i].0, old(allPairs)[i].1).value
      ensures r.Success? ==> allPairs == old(allPairs)[i := (old(allPairs)[i].0, PrependTargets(old(allPairs)[i].0, old(allPairs)[i].1))]
    {
      var src := allPairs[i].0;
      var row, filled;
      r, filled, row := FillRow(w, weighted, n, src, allPairs[i].1);
      w, allPairs := filled, allPairs[i := (src, row)];
    }

    /** `compute_wd`: every source's targets in turn (`ComputeRow`); the first `compute_w` that
        raises stops it. D is never written. */
    method ComputeWd() returns (r: Result<()>)
      modifies this`w, this`allPairs
      ensures d == old(d)
      ensures FillAll(old(w), weighted, n, old(allPairs)).Failure? ==>
        r == Failure(FillAll(old(w), weighted, n, old(allPairs)).fault)
      ensures FillAll(old(w), weighted, n, old(allPairs)).Success? ==>
        r.Success? && w == FillAll(old(w), weighted, n, old(allPairs)).value && allPairs == PrependAll(old(allPairs))
    {
      ghost var ps, goal := allPairs, FillAll(w, weighted, n, allPairs);
      var i := 0;
      assert ps[0..] == ps;
      while i < |allPairs|
        invariant 0 <= i <= |ps| && |allPairs| == |ps|
        invariant forall k :: 0 <= k < i ==> allPairs[k] == PrependAll(ps)[k]
        invariant forall k :: i <= k < |ps| ==> allPairs[k] == ps[k]
        invariant FillAll(w, weighted, n, ps[i..]) == goal
      {
        assert ps[i..][0] == ps[i] && ps[i..][1..] == ps[i + 1..];
        r := ComputeRow(i);
        if r.Failure? {
          return;
        }
        i := i + 1;
      }
      assert allPairs == PrependAll(ps);
      r := Success(());
    }

    /** `wd`: weight the wires, then fill W from the given all-pairs paths. */
    method Compute() returns (r: Result<()>)
      requires Valid()
      modifies this`weighted, this`maxDelay, this`w, this`allPairs
      ensures n == 0 ==> r == Failure(EmptyMax)
      ensures n > 0 ==> (r.Success? <==> FillAll(old(w), WeightsOf(graph, delay), n, old(allPairs)).Success?)
      ensures n > 0 && r.Failure? ==> r == Failure(FillAll(old(w), WeightsOf(graph, delay), n, old(allPairs)).fault)
      ensures r.Success? ==> maxDelay in delay && forall v :: 0 <= v < n ==> delay[v] <= maxDelay
      ensures r.Success? ==> weighted == WeightsOf(graph, delay)
      ensures r.Success? ==> FillAll(old(w), weighted, n, old(allPairs)).Success?
      ensures r.Success? ==> w == FillAll(old(w), weighted, n, old(allPairs)).value
      ensures r.Success? ==> allPairs == PrependAll(old(allPairs))
    {
      r := WeightEdges();
      if r.Failure? {
        return;
      }
      r := ComputeWd();
    }
  }
}
