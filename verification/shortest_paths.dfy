/** Single-source shortest paths with negative-cycle detection on a weighted DiGraph
    given as a matrix: the contract of networkx's `single_source_bellman_ford_path_length`,
    which returns the distances when no negative cycle is reachable from the source and
    raises otherwise. The library call is foreign; the textbook Bellman-Ford below stands
    in for it and is proved to meet that contract. */
module ShortestPaths {
  import opened CircuitGraph

  /** A weighted DiGraph on nodes 0..|g|-1: g[a][b] is the weight of the arc a -> b, if any. */
  type Matrix = seq<seq<Option<int>>>

  predicate IsMatrix(g: Matrix) {
    forall a :: 0 <= a < |g| ==> |g[a]| == |g|
  }

  /** A walk of g: a non-empty sequence of nodes, each joined to the next by an arc. */
  ghost predicate IsWalkIn(g: Matrix, p: seq<nat>)
    requires IsMatrix(g)
  {
    && |p| > 0
    && (forall k :: 0 <= k < |p| ==> p[k] < |g|)
    && (forall k :: 0 <= k < |p| - 1 ==> g[p[k]][p[k + 1]].Some?)
  }

  /** A walk from x to y. */
  ghost predicate IsPath(g: Matrix, p: seq<nat>, x: nat, y: nat)
    requires IsMatrix(g)
  {
    IsWalkIn(g, p) && p[0] == x && p[|p| - 1] == y
  }

  /** The total weight of the arcs along a walk. */
  ghost function Weight(g: Matrix, p: seq<nat>): int
    requires IsMatrix(g) && IsWalkIn(g, p)
    decreases |p|
  {
    if |p| == 1 then 0
    else
      assert IsWalkIn(g, p[..|p| - 1]);
      Weight(g, p[..|p| - 1]) + g[p[|p| - 2]][p[|p| - 1]].value
  }

  /** A closed walk of negative total weight. */
  ghost predicate HasNegativeCycle(g: Matrix)
    requires IsMatrix(g)
  {
    exists p :: IsWalkIn(g, p) && |p| >= 2 && p[0] == p[|p| - 1] && Weight(g, p) < 0
  }

  /** A potential for g: every arc a -> b of weight x satisfies d(b) <= d(a) + x. */
  ghost predicate Satisfies(g: Matrix, d: seq<int>)
    requires IsMatrix(g)
  {
    |d| == |g| &&
    forall a, b :: 0 <= a < |g| && 0 <= b < |g| && g[a][b].Some? ==> d[b] <= d[a] + g[a][b].value
  }

  /** x is the distance from s to v: the weight of some walk, and no walk weighs less. */
  ghost predicate IsDistance(g: Matrix, s: nat, v: nat, x: int)
    requires IsMatrix(g)
  {
    && (exists p :: IsPath(g, p, s, v) && Weight(g, p) == x)
    && (forall p :: IsPath(g, p, s, v) ==> x <= Weight(g, p))
  }

  /** Extending a walk by one arc adds that arc's weight. */
  lemma Extend(g: Matrix, p: seq<nat>, b: nat)
    requires IsMatrix(g) && IsWalkIn(g, p) && b < |g| && g[p[|p| - 1]][b].Some?
    ensures IsWalkIn(g, p + [b])
    ensures Weight(g, p + [b]) == Weight(g, p) + g[p[|p| - 1]][b].value
  {
    var q := p + [b];
    AppendWalk(g, p, b);
    assert q[..|q| - 1] == p;
  }

  /** A walk extended by an arc leaving its last node is a walk. */
  lemma AppendWalk(g: Matrix, p: seq<nat>, b: nat)
    requires IsMatrix(g) && IsWalkIn(g, p) && b < |g| && g[p[|p| - 1]][b].Some?
    ensures IsWalkIn(g, p + [b])
  {
    var q := p + [b];
    forall k | 0 <= k < |q| ensures q[k] < |g| {
      if k < |p| {
        assert q[k] == p[k];
      }
    }
    forall k | 0 <= k < |q| - 1 ensures g[q[k]][q[k + 1]].Some? {
      if k < |p| - 1 {
        assert q[k] == p[k] && q[k + 1] == p[k + 1];
        assert g[p[k]][p[k + 1]].Some?;
      } else {
        assert q[k] == p[|p| - 1] && q[k + 1] == b;
      }
    }
  }

  /** Along a walk, the potential rises by at most the walk's weight. */
  lemma {:induction false} PotentialBound(g: Matrix, d: seq<int>, p: seq<nat>)
    requires IsMatrix(g) && Satisfies(g, d) && IsWalkIn(g, p)
    ensures d[p[|p| - 1]] <= d[p[0]] + Weight(g, p)
    decreases |p|
  {
    if |p| > 1 {
      var q := p[..|p| - 1];
      assert IsWalkIn(g, q);
      PotentialBound(g, d, q);
    }
  }

  /** A graph with a potential has no negative cycle. */
  lemma SatisfiesNoNegativeCycle(g: Matrix, d: seq<int>)
    requires IsMatrix(g) && Satisfies(g, d)
    ensures !HasNegativeCycle(g)
  {
    forall p | IsWalkIn(g, p) && |p| >= 2 && p[0] == p[|p| - 1]
      ensures Weight(g, p) >= 0
    {
      PotentialBound(g, d, p);
    }
  }

  /** The weight of a walk is the weight up to position k plus the weight from there on. */
  lemma {:induction false} WeightSplit(g: Matrix, p: seq<nat>, k: nat)
    requires IsMatrix(g) && IsWalkIn(g, p) && k < |p|
    ensures IsWalkIn(g, p[..k + 1]) && IsWalkIn(g, p[k..])
    ensures Weight(g, p) == Weight(g, p[..k + 1]) + Weight(g, p[k..])
    decreases |p|
  {
    assert IsWalkIn(g, p[..k + 1]);
    assert IsWalkIn(g, p[k..]);
    if k == |p| - 1 {
      assert p[..k + 1] == p;
    } else {
      var q := p[..|p| - 1];
      assert IsWalkIn(g, q);
      WeightSplit(g, q, k);
      assert q[..k + 1] == p[..k + 1];
      var t := p[k..];
      assert t[..|t| - 1] == q[k..];
      assert t[|t| - 2] == p[|p| - 2] && t[|t| - 1] == p[|p| - 1];
      assert Weight(g, t) == Weight(g, q[k..]) + g[p[|p| - 2]][p[|p| - 1]].value;
    }
  }

  /** The set of the entries of a sequence. */
  function Elements(p: seq<nat>): set<nat>
  {
    set k | 0 <= k < |p| :: p[k]
  }

  lemma {:induction false} DistinctCard(p: seq<nat>)
    requires forall i, j :: 0 <= i < j < |p| ==> p[i] != p[j]
    ensures |Elements(p)| == |p|
    decreases |p|
  {
    if |p| > 0 {
      var q := p[..|p| - 1];
      DistinctCard(q);
      assert Elements(p) == Elements(q) + {p[|p| - 1]};
      assert p[|p| - 1] !in Elements(q);
    }
  }

  lemma {:induction false} RangeCard(s: set<nat>, n: nat)
    requires forall x :: x in s ==> x < n
    ensures |s| <= n
    decreases n
  {
    if n > 0 {
      RangeCard(s - {n - 1}, n - 1);
    } else {
      assert s == {};
    }
  }

  /** More than n entries below n repeat one. */
  lemma Pigeonhole(p: seq<nat>, n: nat)
    requires forall k :: 0 <= k < |p| ==> p[k] < n
    requires |p| > n
    ensures exists i, j :: 0 <= i < j < |p| && p[i] == p[j]
  {
    if forall i, j :: 0 <= i < j < |p| ==> p[i] != p[j] {
      DistinctCard(p);
      RangeCard(Elements(p), n);
      assert false;
    }
  }

  /** Joining a walk that ends at x to a walk that starts at x gives a walk. */
  lemma JoinWalk(g: Matrix, p: seq<nat>, q: seq<nat>)
    requires IsMatrix(g) && IsWalkIn(g, p) && IsWalkIn(g, q) && p[|p| - 1] == q[0]
    ensures IsWalkIn(g, p[..|p| - 1] + q)
  {
    var r := p[..|p| - 1] + q;
    forall k | 0 <= k < |r| - 1 ensures g[r[k]][r[k + 1]].Some? {
      if k < |p| - 1 {
        assert r[k] == p[k] && r[k + 1] == p[k + 1];
      } else {
        assert r[k] == q[k - |p| + 1] && r[k + 1] == q[k + 1 - |p| + 1];
      }
    }
  }

  /** ... and its weight is the sum of theirs. */
  lemma Join(g: Matrix, p: seq<nat>, q: seq<nat>)
    requires IsMatrix(g) && IsWalkIn(g, p) && IsWalkIn(g, q) && p[|p| - 1] == q[0]
    ensures IsWalkIn(g, p[..|p| - 1] + q)
    ensures Weight(g, p[..|p| - 1] + q) == Weight(g, p) + Weight(g, q)
  {
    JoinWalk(g, p, q);
    var r := p[..|p| - 1] + q;
    WeightSplit(g, r, |p| - 1);
    assert r[..|p|] == p;
    assert r[|p| - 1..] == q;
  }

  /** The weight of a walk split at positions i <= j into three pieces. */
  lemma Split3(g: Matrix, p: seq<nat>, i: nat, j: nat)
    requires IsMatrix(g) && IsWalkIn(g, p) && i <= j < |p|
    ensures IsWalkIn(g, p[..i + 1]) && IsWalkIn(g, p[i..j + 1]) && IsWalkIn(g, p[j..])
    ensures Weight(g, p) == Weight(g, p[..i + 1]) + Weight(g, p[i..j + 1]) + Weight(g, p[j..])
  {
    WeightSplit(g, p, i);
    var rest := p[i..];
    WeightSplit(g, rest, j - i);
    assert rest[..j - i + 1] == p[i..j + 1];
    assert rest[j - i..] == p[j..];
  }

  /** Cutting the closed stretch p[i..j] out of a walk, where p[i] == p[j], leaves a walk
      with the same ends whose weight is smaller by that closed stretch's weight. */
  lemma CutCycle(g: Matrix, p: seq<nat>, i: nat, j: nat)
    requires IsMatrix(g) && IsWalkIn(g, p) && i < j < |p| && p[i] == p[j]
    ensures IsWalkIn(g, p[i..j + 1]) && IsWalkIn(g, p[..i] + p[j..])
    ensures Weight(g, p) == Weight(g, p[..i] + p[j..]) + Weight(g, p[i..j + 1])
  {
    Split3(g, p, i, j);
    Join(g, p[..i + 1], p[j..]);
    assert p[..i + 1][..i] == p[..i];
  }

  /** Cutting p[i..j) out of p, where p[i] == p[j], keeps both ends. */
  lemma CutEnds(p: seq<nat>, i: nat, j: nat)
    requires i < j < |p| && p[i] == p[j]
    ensures var r := p[..i] + p[j..]; r[0] == p[0] && r[|r| - 1] == p[|p| - 1]
  {
    var tail := p[j..];
    var r := p[..i] + tail;
    assert r[|r| - 1] == tail[|tail| - 1];
    if i == 0 {
      assert r[0] == tail[0];
    }
  }

  /** A walk with more than |g| nodes repeats a node; without negative cycles, cutting out
      the closed stretch between the repeats leaves a shorter walk with the same ends and no
      greater weight. */
  lemma CutRepeat(g: Matrix, p: seq<nat>) returns (r: seq<nat>)
    requires IsMatrix(g) && IsWalkIn(g, p) && !HasNegativeCycle(g) && |p| > |g|
    ensures IsPath(g, r, p[0], p[|p| - 1]) && |r| < |p| && Weight(g, r) <= Weight(g, p)
  {
    Pigeonhole(p, |g|);
    var i, j :| 0 <= i < j < |p| && p[i] == p[j];
    CutCycle(g, p, i, j);
    var c := p[i..j + 1];
    assert c[0] == c[|c| - 1];
    assert !(IsWalkIn(g, c) && |c| >= 2 && c[0] == c[|c| - 1] && Weight(g, c) < 0);
    r := p[..i] + p[j..];
    CutEnds(p, i, j);
  }

  /** Without negative cycles, every walk has one with the same ends, at most |g| nodes
      and no greater weight. */
  lemma {:induction false} Shorten(g: Matrix, p: seq<nat>) returns (q: seq<nat>)
    requires IsMatrix(g) && IsWalkIn(g, p) && !HasNegativeCycle(g)
    ensures IsPath(g, q, p[0], p[|p| - 1]) && |q| <= |g| && Weight(g, q) <= Weight(g, p)
    decreases |p|
  {
    if |p| <= |g| {
      return p;
    }
    var r := CutRepeat(g, p);
    q := Shorten(g, r);
  }

  /** Each distance is witnessed by a walk from s of exactly that weight. */
  ghost predicate Witnessed(g: Matrix, s: nat, dist: seq<int>, walks: seq<seq<nat>>)
    requires IsMatrix(g)
  {
    && |dist| == |g| && |walks| == |g|
    && forall v :: 0 <= v < |g| ==> IsPath(g, walks[v], s, v) && Weight(g, walks[v]) == dist[v]
  }

  /** No walk from s with at most len nodes weighs less than the distance recorded for its end. */
  ghost predicate BoundsWalks(g: Matrix, s: nat, d: seq<int>, len: nat)
    requires IsMatrix(g)
  {
    |d| == |g| &&
    forall p :: IsWalkIn(g, p) && p[0] == s && |p| <= len ==> d[p[|p| - 1]] <= Weight(g, p)
  }

  /** One round that relaxed every arc against the distances at its start lengthens the
      bounded walks by one node. */
  lemma RoundExtends(g: Matrix, s: nat, start: seq<int>, dist: seq<int>, len: nat)
    requires IsMatrix(g) && len >= 1 && BoundsWalks(g, s, start, len)
    requires |dist| == |g| && forall v :: 0 <= v < |g| ==> dist[v] <= start[v]
    requires forall a, b :: 0 <= a < |g| && 0 <= b < |g| && g[a][b].Some? ==> dist[b] <= start[a] + g[a][b].value
    ensures BoundsWalks(g, s, dist, len + 1)
  {
    forall p | IsWalkIn(g, p) && p[0] == s && |p| <= len + 1
      ensures dist[p[|p| - 1]] <= Weight(g, p)
    {
      if |p| > len {
        var q := p[..|p| - 1];
        assert IsWalkIn(g, q);
        assert start[q[|q| - 1]] <= Weight(g, q);
      }
    }
  }

  /** Without a negative cycle, after enough rounds no arc can be relaxed further. */
  lemma ViolationMeansNegativeCycle(g: Matrix, s: nat, dist: seq<int>, walks: seq<seq<nat>>, a: nat, b: nat)
    requires IsMatrix(g) && Witnessed(g, s, dist, walks) && BoundsWalks(g, s, dist, |g|)
    requires a < |g| && b < |g| && g[a][b].Some? && dist[a] + g[a][b].value < dist[b]
    ensures HasNegativeCycle(g)
  {
    if !HasNegativeCycle(g) {
      Extend(g, walks[a], b);
      var q := Shorten(g, walks[a] + [b]);
      assert false;
    }
  }

  /** Lowering the distance of b to that of a plus the weight of the arc a -> b keeps every
      distance witnessed: the walk to a extended by that arc weighs exactly the new distance. */
  lemma RelaxKeepsWitnessed(g: Matrix, s: nat, dist: seq<int>, walks: seq<seq<nat>>, a: nat, b: nat)
    requires IsMatrix(g) && Witnessed(g, s, dist, walks) && a < |g| && b < |g| && g[a][b].Some?
    ensures Witnessed(g, s, dist[b := dist[a] + g[a][b].value], walks[b := walks[a] + [b]])
  {
    Extend(g, walks[a], b);
    var dist', walks' := dist[b := dist[a] + g[a][b].value], walks[b := walks[a] + [b]];
    forall v | 0 <= v < |g| ensures IsPath(g, walks'[v], s, v) && Weight(g, walks'[v]) == dist'[v] {
      if v != b {
        assert walks'[v] == walks[v] && dist'[v] == dist[v];
      }
    }
  }

  /** The arcs leaving a, in order: each lowers the distance of its end to that of a plus
      the arc's weight when that is smaller. */
  method RelaxRow(g: Matrix, s: nat, start: seq<int>, a: nat, dist0: seq<int>, ghost walks0: seq<seq<nat>>)
    returns (dist: seq<int>, ghost walks: seq<seq<nat>>)
    requires IsMatrix(g) && s < |g| && a < |g| && forall x :: 0 <= x < |g| ==> g[x][s].None?
    requires Witnessed(g, s, dist0, walks0) && dist0[s] == 0 && |start| == |g| && dist0[a] <= start[a]
    ensures Witnessed(g, s, dist, walks) && dist[s] == 0
    ensures forall v :: 0 <= v < |g| ==> dist[v] <= dist0[v]
    ensures forall y :: 0 <= y < |g| && g[a][y].Some? ==> dist[y] <= start[a] + g[a][y].value
  {
    var n := |g|;
    dist, walks := dist0, walks0;
    var b := 0;
    while b < n
      invariant 0 <= b <= n
      invariant Witnessed(g, s, dist, walks) && dist[s] == 0
      invariant forall v :: 0 <= v < n ==> dist[v] <= dist0[v]
      invariant forall y :: 0 <= y < b && g[a][y].Some? ==> dist[y] <= start[a] + g[a][y].value
    {
      if g[a][b].Some? && dist[a] + g[a][b].value < dist[b] {
        RelaxKeepsWitnessed(g, s, dist, walks, a, b);
        walks := walks[b := walks[a] + [b]];
        dist := dist[b := dist[a] + g[a][b].value];
      }
      b := b + 1;
    }
  }

  /** One round of relaxation: every arc a -> b, in order, lowers the distance of b to
      that of a plus the arc's weight when that is smaller. */
  method RelaxRound(g: Matrix, s: nat, start: seq<int>, ghost walks: seq<seq<nat>>)
    returns (dist: seq<int>, ghost walks': seq<seq<nat>>)
    requires IsMatrix(g) && s < |g| && forall a :: 0 <= a < |g| ==> g[a][s].None?
    requires Witnessed(g, s, start, walks) && start[s] == 0
    ensures Witnessed(g, s, dist, walks') && dist[s] == 0
    ensures forall v :: 0 <= v < |g| ==> dist[v] <= start[v]
    ensures forall a, b :: 0 <= a < |g| && 0 <= b < |g| && g[a][b].Some? ==> dist[b] <= start[a] + g[a][b].value
  {
    var n := |g|;
    dist, walks' := start, walks;
    var a := 0;
    while a < n
      invariant 0 <= a <= n
      invariant Witnessed(g, s, dist, walks') && dist[s] == 0
      invariant forall v :: 0 <= v < n ==> dist[v] <= start[v]
      invariant forall x, y :: 0 <= x < a && 0 <= y < n && g[x][y].Some? ==> dist[y] <= start[x] + g[x][y].value
    {
      var before := dist;
      dist, walks' := RelaxRow(g, s, start, a, dist, walks');
      forall x, y | 0 <= x < a + 1 && 0 <= y < n && g[x][y].Some? ensures dist[y] <= start[x] + g[x][y].value {
        if x < a {
          assert dist[y] <= before[y];
        }
      }
      a := a + 1;
    }
  }

  /** The distances Bellman-Ford starts from, all 0, are witnessed by the walk [s] and the
      arcs s -> v of weight 0. */
  lemma InitialWalks(g: Matrix, s: nat) returns (walks: seq<seq<nat>>)
    requires IsMatrix(g) && s < |g|
    requires forall v :: 0 <= v < |g| && v != s ==> g[s][v] == Some(0)
    ensures Witnessed(g, s, seq(|g|, _ => 0), walks)
  {
    var n := |g|;
    walks := seq(n, v requires 0 <= v < n => if v == s then [s] else [s, v]);
    var dist: seq<int> := seq(n, _ => 0);
    forall v | 0 <= v < n ensures IsPath(g, walks[v], s, v) && Weight(g, walks[v]) == dist[v] {
      if v != s {
        assert [s, v][..1] == [s];
      }
    }
  }

  /** Witnessed distances that form a potential are the distances: each is the weight of a
      walk from s, and no walk from s weighs less. */
  lemma WitnessedPotentialIsDistance(g: Matrix, s: nat, dist: seq<int>, walks: seq<seq<nat>>)
    requires IsMatrix(g) && Witnessed(g, s, dist, walks) && Satisfies(g, dist) && s < |g| && dist[s] == 0
    ensures forall v :: 0 <= v < |g| ==> IsDistance(g, s, v, dist[v])
  {
    forall v | 0 <= v < |g| ensures IsDistance(g, s, v, dist[v]) {
      assert IsPath(g, walks[v], s, v);
      forall p | IsPath(g, p, s, v) ensures dist[v] <= Weight(g, p) {
        PotentialBound(g, dist, p);
      }
    }
  }

  /** Whether dist is a potential for g: no arc can be relaxed any further. */
  method IsPotential(g: Matrix, dist: seq<int>) returns (ok: bool)
    requires IsMatrix(g) && |dist| == |g|
    ensures ok <==> Satisfies(g, dist)
  {
    var n := |g|;
    ok := true;
    var a := 0;
    while a < n
      invariant 0 <= a <= n
      invariant ok <==> forall x, y :: 0 <= x < a && 0 <= y < n && g[x][y].Some? ==> dist[y] <= dist[x] + g[x][y].value
    {
      var b := 0;
      var rowOk := true;
      while b < n
        invariant 0 <= b <= n
        invariant rowOk <==> forall y :: 0 <= y < b && g[a][y].Some? ==> dist[y] <= dist[a] + g[a][y].value
      {
        if g[a][b].Some? && dist[a] + g[a][b].value < dist[b] {
          rowOk := false;
        }
        b := b + 1;
      }
      ok := ok && rowOk;
      a := a + 1;
    }
  }

  /** Bellman-Ford from s. Every distance starts at 0, which is what relaxing s's own arcs
      of weight 0 gives; then |g| - 1 rounds relax every arc, and a final pass reports
      whether any arc could still be relaxed. */
  method BellmanFord(g: Matrix, s: nat) returns (ok: bool, dist: seq<int>)
    requires IsMatrix(g) && s < |g|
    requires forall a :: 0 <= a < |g| ==> g[a][s].None?
    requires forall v :: 0 <= v < |g| && v != s ==> g[s][v] == Some(0)
    ensures |dist| == |g|
    ensures ok <==> !HasNegativeCycle(g)
    ensures ok ==> dist[s] == 0
    ensures ok ==> Satisfies(g, dist) && forall v :: 0 <= v < |g| ==> IsDistance(g, s, v, dist[v])
  {
    var n := |g|;
    dist := seq(n, _ => 0);
    ghost var walks := InitialWalks(g, s);
    var round := 0;
    while round < n - 1
      invariant 0 <= round <= n - 1
      invariant Witnessed(g, s, dist, walks) && dist[s] == 0
      invariant BoundsWalks(g, s, dist, round + 1)
    {
      var start := dist;
      dist, walks := RelaxRound(g, s, start, walks);
      RoundExtends(g, s, start, dist, round + 1);
      round := round + 1;
    }
    ok := IsPotential(g, dist);
    if ok {
      SatisfiesNoNegativeCycle(g, dist);
      WitnessedPotentialIsDistance(g, s, dist, walks);
    } else {
      var x, y :| 0 <= x < n && 0 <= y < n && g[x][y].Some? && dist[x] + g[x][y].value < dist[y];
      ViolationMeansNegativeCycle(g, s, dist, walks, x, y);
    }
  }
}
