/** What the critical-path pass CP of src/opt/opt.py computes, stated on values: the delay
    array after the pass, in terms of the array before it and the zero-register wires. */
module CriticalPath {
  import opened CircuitGraph
  import opened Topo

  /** Every wire starts at an index of d. */
  predicate SourcesIn(es: seq<Edge>, d: seq<int>) {
    forall i :: 0 <= i < |es| ==> es[i].u < |d|
  }

  /** Among the zero-register wires of es[..k] that end at v, the source with the largest
      entry of d (the earliest such wire on ties); None when no such wire exists. */
  function BestPred(es: seq<Edge>, d: seq<int>, v: nat, k: nat): (r: Option<nat>)
    requires k <= |es| && SourcesIn(es, d)
    ensures r.Some? ==> r.value < |d|
  {
    if k == 0 then None
    else
      var r := BestPred(es, d, v, k - 1);
      var e := es[k - 1];
      if e.v == v && e.w == 0 && (r.None? || d[e.u] > d[r.value]) then Some(e.u) else r
  }

  /** BestPred finds a zero-register predecessor of v among es[..k] whenever there is one,
      and none has a larger entry of d than the one it finds. */
  lemma {:induction false} BestPredIsBest(es: seq<Edge>, d: seq<int>, v: nat, k: nat)
    requires k <= |es| && SourcesIn(es, d)
    ensures var r := BestPred(es, d, v, k);
      && (r.Some? ==> exists i :: 0 <= i < k && es[i].u == r.value && es[i].v == v && es[i].w == 0)
      && (forall i :: 0 <= i < k && es[i].v == v && es[i].w == 0 ==> r.Some? && d[es[i].u] <= d[r.value])
  {
    if k > 0 {
      BestPredIsBest(es, d, v, k - 1);
      var r := BestPred(es, d, v, k - 1);
      if r.Some? {
        var i :| 0 <= i < k - 1 && es[i].u == r.value && es[i].v == v && es[i].w == 0;
      }
    }
  }

  /** The amount CP adds to node v: the largest delay among v's zero-register
      predecessors, or nothing when v has none. */
  function PredDelay(es: seq<Edge>, d: seq<int>, v: nat): int
    requires SourcesIn(es, d)
  {
    match BestPred(es, d, v, |es|)
    case None => 0
    case Some(u) => d[u]
  }

  /** best is the largest entry of d among v's zero-register predecessors, None when v has none. */
  ghost predicate MaxPred(es: seq<Edge>, d: seq<int>, v: nat, best: Option<int>)
    requires SourcesIn(es, d)
  {
    && (best.None? <==> forall i :: 0 <= i < |es| && es[i].v == v ==> es[i].w != 0)
    && (best.Some? ==> exists i :: 0 <= i < |es| && es[i].v == v && es[i].w == 0 && best.value == d[es[i].u])
    && (best.Some? ==> forall i :: 0 <= i < |es| && es[i].v == v && es[i].w == 0 ==> d[es[i].u] <= best.value)
  }

  /** The largest predecessor entry is what CP adds, 0 when there is none. */
  lemma MaxPredIsPredDelay(es: seq<Edge>, d: seq<int>, v: nat, best: Option<int>)
    requires SourcesIn(es, d) && MaxPred(es, d, v, best)
    ensures PredDelay(es, d, v) == if best.None? then 0 else best.value
  {
    var r := BestPred(es, d, v, |es|);
    BestPredIsBest(es, d, v, |es|);
    if best.Some? {
      var i :| 0 <= i < |es| && es[i].v == v && es[i].w == 0 && best.value == d[es[i].u];
      var j :| 0 <= j < |es| && es[j].u == r.value && es[j].v == v && es[j].w == 0;
      assert d[es[j].u] <= best.value;
    }
  }

  /** d is what CP leaves behind when it starts from base: each node's entry is its
      entry in base plus the largest final entry among its zero-register predecessors. */
  ghost predicate CPFixpoint(es: seq<Edge>, base: seq<int>, d: seq<int>) {
    |d| == |base| && SourcesIn(es, d) &&
    forall v :: 0 <= v < |d| ==> d[v] == base[v] + PredDelay(es, d, v)
  }

  /** BestPred only looks at the entries of v's zero-register predecessors. */
  lemma {:induction false} BestPredFrame(es: seq<Edge>, d1: seq<int>, d2: seq<int>, v: nat, k: nat)
    requires k <= |es| && SourcesIn(es, d1) && SourcesIn(es, d2)
    requires forall i :: 0 <= i < |es| && es[i].v == v && es[i].w == 0 ==> d1[es[i].u] == d2[es[i].u]
    ensures BestPred(es, d1, v, k) == BestPred(es, d2, v, k)
  {
    if k > 0 {
      BestPredFrame(es, d1, d2, v, k - 1);
      BestPredIsBest(es, d1, v, k - 1);
      var r := BestPred(es, d1, v, k - 1);
      var e := es[k - 1];
      var pick1 := e.v == v && e.w == 0 && (r.None? || d1[e.u] > d1[r.value]);
      var r2 := BestPred(es, d2, v, k - 1);
      var pick2 := e.v == v && e.w == 0 && (r2.None? || d2[e.u] > d2[r2.value]);
      assert BestPred(es, d1, v, k) == if pick1 then Some(e.u) else r;
      assert BestPred(es, d2, v, k) == if pick2 then Some(e.u) else r2;
      assert r2 == r;
      if e.v == v && e.w == 0 && r.Some? {
        assert d1[e.u] == d2[e.u];
        var i :| 0 <= i < k - 1 && es[i].u == r.value && es[i].v == v && es[i].w == 0;
        assert d1[r.value] == d2[r.value];
      }
      assert pick1 == pick2;
    }
  }

  /** Updating the entry of order[k] changes what CP adds to none of order[0..k]: in a
      closed prefix their zero-register predecessors all come before them, and no node
      is its own zero-register predecessor. */
  lemma StepFrame(es: seq<Edge>, n: nat, order: seq<nat>, d: seq<int>, k: nat, x: int)
    requires ClosedPrefix(es, n, order) && k < |order| && |d| == n && SourcesIn(es, d)
    ensures SourcesIn(es, d[order[k] := x])
    ensures forall j :: 0 <= j <= k ==> PredDelay(es, d[order[k] := x], order[j]) == PredDelay(es, d, order[j])
  {
    var d' := d[order[k] := x];
    forall j | 0 <= j <= k ensures PredDelay(es, d', order[j]) == PredDelay(es, d, order[j]) {
      var v := order[j];
      forall i | 0 <= i < |es| && es[i].v == v && es[i].w == 0 ensures d'[es[i].u] == d[es[i].u] {
        var u := es[i].u;
        assert ZeroArc(es, u, v);
        assert u in order[..j];
        var p :| 0 <= p < j && order[p] == u;
      }
      BestPredFrame(es, d', d, v, |es|);
      BestPredIsBest(es, d, v, |es|);
    }
  }

  /** The pass has handled order[..k]: those entries hold base plus what CP adds to them,
      the others still hold base. */
  ghost predicate CPPrefix(es: seq<Edge>, order: seq<nat>, base: seq<int>, d: seq<int>, k: nat)
    requires SourcesIn(es, d)
  {
    && k <= |order| && (forall j :: 0 <= j < |order| ==> order[j] < |base| && order[j] < |d|)
    && (forall j :: 0 <= j < k ==> d[order[j]] == base[order[j]] + PredDelay(es, d, order[j]))
    && (forall j :: k <= j < |order| ==> d[order[j]] == base[order[j]])
  }

  /** d is what CP leaves when it runs from base along the closed prefix `order` and stops
      there: each listed node holds base plus what CP adds to it, every other node still
      holds base. */
  ghost predicate CPOver(es: seq<Edge>, order: seq<nat>, base: seq<int>, d: seq<int>) {
    && |d| == |base| && SourcesIn(es, d) && CPPrefix(es, order, base, d, |order|)
    && forall v :: 0 <= v < |d| && v !in order ==> d[v] == base[v]
  }

  /** One step of the pass: setting the entry of order[k] to base plus what CP adds to it
      extends the handled prefix by one. */
  lemma CPStep(es: seq<Edge>, n: nat, order: seq<nat>, base: seq<int>, d: seq<int>, d': seq<int>, k: nat)
    requires ClosedPrefix(es, n, order) && k < |order| && |d| == n && |base| == n && SourcesIn(es, d)
    requires CPPrefix(es, order, base, d, k)
    requires d' == d[order[k] := d[order[k]] + PredDelay(es, d, order[k])]
    ensures SourcesIn(es, d') && CPPrefix(es, order, base, d', k + 1)
  {
    var x := base[order[k]] + PredDelay(es, d, order[k]);
    assert d' == d[order[k] := x];
    StepFrame(es, n, order, d, k, x);
    forall j | k < j < |order| ensures d'[order[j]] == base[order[j]] {
      assert order[j] != order[k];
    }
    forall j | 0 <= j < k ensures d'[order[j]] == base[order[j]] + PredDelay(es, d', order[j]) {
      assert order[j] != order[k];
    }
  }

  /** Once a whole topological order is handled, the array is CP's fixpoint. */
  lemma CPDone(es: seq<Edge>, n: nat, order: seq<nat>, base: seq<int>, d: seq<int>)
    requires IsTopoOrder(es, n, order) && |d| == n && |base| == n
    requires CPOver(es, order, base, d)
    ensures CPFixpoint(es, base, d)
  {
    forall v | 0 <= v < n ensures d[v] == base[v] + PredDelay(es, d, v) {
      assert v in order;
    }
  }

  /** A walk of zero-register wires: consecutive nodes are joined by a wire carrying 0 registers. */
  ghost predicate IsZeroWalk(es: seq<Edge>, p: seq<nat>) {
    |p| > 0 && forall k :: 0 <= k < |p| - 1 ==> ZeroArc(es, p[k], p[k + 1])
  }

  /** The total of base over the nodes of a walk. */
  function DelaySum(base: seq<int>, p: seq<nat>): int
    requires forall k :: 0 <= k < |p| ==> p[k] < |base|
  {
    if p == [] then 0 else DelaySum(base, p[..|p| - 1]) + base[p[|p| - 1]]
  }

  /** Along a zero-register walk, CP's result grows at least by the base delays of the
      nodes after the first. */
  lemma {:induction false} CPDominatesWalks(es: seq<Edge>, base: seq<int>, d: seq<int>, p: seq<nat>)
    requires CPFixpoint(es, base, d) && IsZeroWalk(es, p)
    requires forall k :: 0 <= k < |p| ==> p[k] < |d|
    ensures d[p[|p| - 1]] >= d[p[0]] - base[p[0]] + DelaySum(base, p)
    decreases |p|
  {
    if |p| == 1 {
      assert p[..0] == [];
    } else {
      var q := p[..|p| - 1];
      var u, v := p[|p| - 2], p[|p| - 1];
      assert IsZeroWalk(es, q) by {
        forall k | 0 <= k < |q| - 1 ensures ZeroArc(es, q[k], q[k + 1]) {
          assert ZeroArc(es, p[k], p[k + 1]);
        }
      }
      CPDominatesWalks(es, base, d, q);
      assert ZeroArc(es, u, v);
      var i :| 0 <= i < |es| && es[i].u == u && es[i].v == v && es[i].w == 0;
      BestPredIsBest(es, d, v, |es|);
      assert d[u] <= PredDelay(es, d, v);
    }
  }

  /** A node with no zero-register predecessor. */
  ghost predicate IsZeroSource(es: seq<Edge>, x: nat) {
    forall i :: 0 <= i < |es| && es[i].v == x ==> es[i].w != 0
  }

  /** A zero-register walk that starts at a node with no zero-register predecessor and
      ends at v, whose base delays add up to d[v]. */
  ghost predicate CriticalWalk(es: seq<Edge>, base: seq<int>, d: seq<int>, v: nat, p: seq<nat>)
    requires |base| == |d|
  {
    && IsZeroWalk(es, p) && (forall k :: 0 <= k < |p| ==> p[k] < |d|)
    && IsZeroSource(es, p[0]) && p[|p| - 1] == v && v < |d| && DelaySum(base, p) == d[v]
  }

  /** Along a topological order, every node's entry in CP's result is attained by a
      critical walk. */
  lemma {:induction false} CPAttained(es: seq<Edge>, n: nat, order: seq<nat>, base: seq<int>, d: seq<int>, j: nat)
    returns (p: seq<nat>)
    requires IsTopoOrder(es, n, order) && CPFixpoint(es, base, d) && |d| == n && j < |order|
    ensures CriticalWalk(es, base, d, order[j], p)
    decreases j
  {
    var v := order[j];
    var r := BestPred(es, d, v, |es|);
    BestPredIsBest(es, d, v, |es|);
    if r.None? {
      p := [v];
      assert p[..0] == [];
    } else {
      var u := r.value;
      var i :| 0 <= i < |es| && es[i].u == u && es[i].v == v && es[i].w == 0;
      assert ZeroArc(es, u, v);
      assert u in order;
      var ju :| 0 <= ju < |order| && order[ju] == u;
      var q := CPAttained(es, n, order, base, d, ju);
      p := q + [v];
      assert p[..|p| - 1] == q;
      assert IsZeroWalk(es, p) by {
        forall k | 0 <= k < |p| - 1 ensures ZeroArc(es, p[k], p[k + 1]) {
          if k < |q| - 1 {
            assert ZeroArc(es, q[k], q[k + 1]);
          }
        }
      }
    }
  }

  /** p is a zero-register walk over nodes below n, from a node no zero-register wire enters, to v. */
  ghost predicate StartsAtSource(es: seq<Edge>, n: nat, p: seq<nat>, v: nat) {
    IsZeroWalk(es, p) && (forall k :: 0 <= k < |p| ==> p[k] < n) && IsZeroSource(es, p[0]) && p[|p| - 1] == v
  }

  /** CP's result at v is the largest total base delay over the zero-register walks that
      end at v and start where no zero-register wire enters: attained by one walk and
      exceeded by none. */
  lemma CPIsLongestPath(es: seq<Edge>, n: nat, order: seq<nat>, base: seq<int>, d: seq<int>, v: nat)
    requires IsTopoOrder(es, n, order) && CPFixpoint(es, base, d) && |d| == n && v < n
    ensures exists p :: CriticalWalk(es, base, d, v, p)
    ensures forall p :: StartsAtSource(es, n, p, v) ==> DelaySum(base, p) <= d[v]
  {
    assert v in order;
    var j :| 0 <= j < |order| && order[j] == v;
    var p := CPAttained(es, n, order, base, d, j);
    forall q | StartsAtSource(es, n, q, v)
      ensures DelaySum(base, q) <= d[v]
    {
      CPDominatesWalks(es, base, d, q);
      BestPredIsBest(es, d, q[0], |es|);
      assert BestPred(es, d, q[0], |es|).None?;
    }
  }

  /** Two fixpoints over the same base agree on the first k nodes of a topological order. */
  lemma {:induction false} FixpointsAgree(es: seq<Edge>, n: nat, order: seq<nat>, base: seq<int>, d1: seq<int>, d2: seq<int>, k: nat)
    requires IsTopoOrder(es, n, order) && CPFixpoint(es, base, d1) && CPFixpoint(es, base, d2) && |d1| == n
    requires k <= |order|
    ensures forall j :: 0 <= j < k ==> d1[order[j]] == d2[order[j]]
  {
    if k > 0 {
      FixpointsAgree(es, n, order, base, d1, d2, k - 1);
      var v := order[k - 1];
      forall i | 0 <= i < |es| && es[i].v == v && es[i].w == 0 ensures d1[es[i].u] == d2[es[i].u] {
        var u := es[i].u;
        assert ZeroArc(es, u, v);
        assert u in order;
        var p :| 0 <= p < |order| && order[p] == u;
        assert p < k - 1;
      }
      BestPredFrame(es, d1, d2, v, |es|);
      BestPredIsBest(es, d1, v, |es|);
      assert PredDelay(es, d1, v) == PredDelay(es, d2, v);
      assert d1[v] == d2[v];
    }
  }

  /** On a circuit whose zero-register wires form no cycle, CP's result is determined by
      the array it starts from: two fixpoints over the same base are equal. */
  lemma CPFixpointUnique(es: seq<Edge>, n: nat, order: seq<nat>, base: seq<int>, d1: seq<int>, d2: seq<int>)
    requires IsTopoOrder(es, n, order) && CPFixpoint(es, base, d1) && CPFixpoint(es, base, d2) && |d1| == n
    ensures d1 == d2
  {
    FixpointsAgree(es, n, order, base, d1, d2, |order|);
    forall v | 0 <= v < n ensures d1[v] == d2[v] {
      assert v in order;
    }
  }

  /** The largest entry of a non-empty sequence (np.max). */
  function MaxOf(s: seq<int>): (m: int)
    requires |s| > 0
    ensures m in s && forall k :: 0 <= k < |s| ==> s[k] <= m
  {
    if |s| == 1 then s[0]
    else
      var m := MaxOf(s[..|s| - 1]);
      assert forall k :: 0 <= k < |s| - 1 ==> s[..|s| - 1][k] == s[k];
      if s[|s| - 1] > m then s[|s| - 1] else m
  }
}
