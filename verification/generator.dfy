/** The deterministic circuit builders of src/utils/generator.py: the correlator chain and
    the ring used for performance runs. Nodes are numbered in the order they are added, so
    the node named str(i) is node i and `delay[i]` is its `component_delay`. */
module Generator {
  import opened CircuitGraph

  /** No ordered pair of nodes occurs twice. */
  predicate DistinctPairs(es: seq<Edge>) {
    forall i, j :: 0 <= i < j < |es| ==> (es[i].u, es[i].v) != (es[j].u, es[j].v)
  }

  /** `DiGraph.add_edge`: the wire u -> v gets weight w, replacing the one already there. */
  function AddArc(es: seq<Edge>, e: Edge): seq<Edge>
  {
    if es == [] then [e]
    else if (es[0].u, es[0].v) == (e.u, e.v) then [e] + es[1..]
    else [es[0]] + AddArc(es[1..], e)
  }

  /** A wire in front of distinct wires keeps them distinct exactly when its pair is new. */
  lemma DistinctCons(x: Edge, rest: seq<Edge>)
    ensures DistinctPairs([x] + rest) <==> DistinctPairs(rest) && forall y :: y in rest ==> (y.u, y.v) != (x.u, x.v)
  {
    var r := [x] + rest;
    if DistinctPairs([x] + rest) {
      forall i, j | 0 <= i < j < |rest|
        ensures (rest[i].u, rest[i].v) != (rest[j].u, rest[j].v)
      {
        assert r[i + 1] == rest[i] && r[j + 1] == rest[j];
      }
      forall y | y in rest
        ensures (y.u, y.v) != (x.u, x.v)
      {
        var j :| 0 <= j < |rest| && rest[j] == y;
        assert r[0] == x && r[j + 1] == y;
      }
    }
    if DistinctPairs(rest) && forall y :: y in rest ==> (y.u, y.v) != (x.u, x.v) {
      forall i, j | 0 <= i < j < |r|
        ensures (r[i].u, r[i].v) != (r[j].u, r[j].v)
      {
        if i == 0 {
          assert r[j] in rest;
        } else {
          assert r[i] == rest[i - 1] && r[j] == rest[j - 1];
        }
      }
    }
  }

  /** After adding, the graph holds the new wire and every other wire it held, and still no
      pair twice. */
  lemma {:induction false} AddArcMeaning(es: seq<Edge>, e: Edge)
    requires DistinctPairs(es)
    ensures forall x :: x in AddArc(es, e) <==> x == e || (x in es && (x.u, x.v) != (e.u, e.v))
    ensures DistinctPairs(AddArc(es, e))
  {
    if es == [] {
      assert AddArc(es, e) == [e];
    } else {
      var rest := es[1..];
      assert es == [es[0]] + rest;
      DistinctCons(es[0], rest);
      if (es[0].u, es[0].v) != (e.u, e.v) {
        AddArcMeaning(rest, e);
        DistinctCons(es[0], AddArc(rest, e));
      } else {
        DistinctCons(e, rest);
      }
    }
  }

  /** The number of loop rounds of `generate_from_correlator`: one per odd i with 3 <= i < nodes. */
  function Rounds(nodes: int): nat {
    if nodes <= 3 then 0 else (nodes - 2) / 2
  }

  /** The wires after k rounds of the loop: the base triangle 0 -> 1 (1 register), 1 -> 2 and
      2 -> 0 (none); for each round's odd node a = 2j - 1 the wires a -> a + 2 (1) and
      a -> a + 1 (0); and for each round's even node b = 2j + 2 the wire b -> b - 2 (0). */
  predicate LoopArc(k: nat, x: Edge) {
    || x == Edge(0, 1, 1) || x == Edge(1, 2, 0) || x == Edge(2, 0, 0)
    || (x.u % 2 == 1 && 1 <= x.u <= 2 * k - 1
        && ((x.v == x.u + 2 && x.w == 1) || (x.v == x.u + 1 && x.w == 0)))
    || (x.u % 2 == 0 && 4 <= x.u <= 2 * k + 2 && x.v == x.u - 2 && x.w == 0)
  }

  /** The wires of the finished correlator after k rounds: the tail joins the last odd node
      2k + 1 to the new node 2k + 3 (1 register) and to 2k + 2 (none), and 2k + 3 to 2k + 2
      (none). */
  predicate CorrelatorArc(k: nat, x: Edge) {
    || LoopArc(k, x)
    || x == Edge(2 * k + 1, 2 * k + 3, 1) || x == Edge(2 * k + 1, 2 * k + 2, 0)
    || x == Edge(2 * k + 3, 2 * k + 2, 0)
  }

  /** The component delay of node v of the correlator whose last node is `last`: 7 on the even
      nodes from 2 on and on the last node, 3 elsewhere. */
  function CorrelatorDelay(last: nat, v: nat): int {
    if v == last || (v >= 2 && v % 2 == 0) then 7 else 3
  }

  /** Every endpoint is below n. */
  predicate Within(n: nat, es: seq<Edge>) {
    forall x :: x in es ==> x.u < n && x.v < n
  }

  /** The loop runs while 2k + 3 < nodes, k rounds done. */
  lemma RoundsMeaning(nodes: int, k: nat)
    ensures 2 * k + 3 < nodes <==> k < Rounds(nodes)
  {
    if nodes > 3 {
      var q := (nodes - 2) / 2;
      assert nodes - 2 == 2 * q + (nodes - 2) % 2;
    }
  }

  /** Round k + 1 adds node 2k + 3 with delay 3 and node 2k + 4 with delay 7. */
  lemma DelayRound(k: nat, delay: seq<int>)
    requires |delay| == 2 * k + 3
    requires forall v :: 0 <= v < 2 * k + 3 ==> delay[v] == CorrelatorDelay(2 * k + 4, v)
    ensures forall v :: 0 <= v < 2 * k + 5 ==> (delay + [3, 7])[v] == CorrelatorDelay(2 * k + 6, v)
  {
    forall v | 0 <= v < 2 * k + 5
      ensures (delay + [3, 7])[v] == CorrelatorDelay(2 * k + 6, v)
    {
      if v == 2 * k + 3 {
        assert v % 2 == 1;
      } else if v == 2 * k + 4 {
        assert v % 2 == 0;
      }
    }
  }

  /** The tail adds the last node, 2k + 3, with delay 7. */
  lemma DelayTail(k: nat, delay: seq<int>)
    requires |delay| == 2 * k + 3
    requires forall v :: 0 <= v < 2 * k + 3 ==> delay[v] == CorrelatorDelay(2 * k + 4, v)
    ensures forall v :: 0 <= v < 2 * k + 4 ==> (delay + [7])[v] == CorrelatorDelay(2 * k + 3, v)
  {
  }

  /** Round k + 1 adds exactly the wires 2k + 1 -> 2k + 3, 2k + 1 -> 2k + 2 and
      2k + 4 -> 2k + 2. */
  lemma LoopArcNext(k: nat, x: Edge)
    ensures LoopArc(k + 1, x) <==>
      || LoopArc(k, x)
      || x == Edge(2 * k + 1, 2 * k + 3, 1) || x == Edge(2 * k + 1, 2 * k + 2, 0) || x == Edge(2 * k + 4, 2 * k + 2, 0)
  {
  }

  /** After k rounds the only wire leaving 2k + 1 is the base wire 1 -> 2 (when k = 0). */
  lemma LoopArcFromDown(k: nat, x: Edge)
    requires LoopArc(k, x) && x.u == 2 * k + 1
    ensures x == Edge(1, 2, 0) && k == 0
  {
  }

  /** The graph after k rounds of the loop: nodes 0..2k + 2 and the wires `LoopArc` names. */
  ghost predicate LoopGraph(k: nat, es: seq<Edge>) {
    DistinctPairs(es) && Within(2 * k + 3, es) && forall x :: x in es <==> LoopArc(k, x)
  }

  /** Adding three wires on three different pairs: the graph holds them and every wire it
      held on another pair, still with no pair twice. */
  lemma AddThree(es: seq<Edge>, a: Edge, b: Edge, c: Edge)
    requires DistinctPairs(es)
    requires (a.u, a.v) != (b.u, b.v) && (a.u, a.v) != (c.u, c.v) && (b.u, b.v) != (c.u, c.v)
    ensures DistinctPairs(AddArc(AddArc(AddArc(es, a), b), c))
    ensures forall x :: x in AddArc(AddArc(AddArc(es, a), b), c) <==>
      x == a || x == b || x == c
      || (x in es && (x.u, x.v) != (a.u, a.v) && (x.u, x.v) != (b.u, b.v) && (x.u, x.v) != (c.u, c.v))
  {
    AddArcMeaning(es, a);
    AddArcMeaning(AddArc(es, a), b);
    AddArcMeaning(AddArc(AddArc(es, a), b), c);
  }

  /** The wires of k rounds on the pairs the next three wires use: only 1 -> 2, which the
      first round adds again unchanged. */
  lemma LoopArcClash(k: nat, es: seq<Edge>, a: Edge, b: Edge, c: Edge, x: Edge)
    requires LoopGraph(k, es) && x in es
    requires a == Edge(2 * k + 1, 2 * k + 3, 1) && b == Edge(2 * k + 1, 2 * k + 2, 0) && c.u == 2 * k + 3
    ensures (x.u, x.v) != (a.u, a.v) && (x.u, x.v) != (c.u, c.v)
    ensures (x.u, x.v) == (b.u, b.v) ==> x == b
  {
    if x.u == 2 * k + 1 {
      LoopArcFromDown(k, x);
    }
  }

  /** The base triangle is the graph of no rounds. */
  lemma BaseTriangle()
    ensures LoopGraph(0, AddArc(AddArc(AddArc([], Edge(1, 2, 0)), Edge(2, 0, 0)), Edge(0, 1, 1)))
  {
    AddThree([], Edge(1, 2, 0), Edge(2, 0, 0), Edge(0, 1, 1));
  }

  /** One round of the loop, at i = 2k + 3 with down = 2k + 1 and up = 2k + 2, turns the wires
      of k rounds into the wires of k + 1. */
  lemma LoopRound(k: nat, es: seq<Edge>, a: Edge, b: Edge, c: Edge)
    requires LoopGraph(k, es)
    requires a == Edge(2 * k + 1, 2 * k + 3, 1) && b == Edge(2 * k + 1, 2 * k + 2, 0) && c == Edge(2 * k + 4, 2 * k + 2, 0)
    ensures LoopGraph(k + 1, AddArc(AddArc(AddArc(es, a), b), c))
  {
    var es3 := AddArc(AddArc(AddArc(es, a), b), c);
    AddThree(es, a, b, c);
    forall x
      ensures x in es3 <==> LoopArc(k + 1, x)
    {
      LoopArcNext(k, x);
      if x in es {
        LoopArcClash(k, es, a, b, Edge(2 * k + 3, 2 * k + 2, 0), x);
      }
    }
  }

  /** The tail after k rounds turns the wires of the loop into the correlator's. */
  lemma Tail(k: nat, es: seq<Edge>, a: Edge, b: Edge, c: Edge)
    requires LoopGraph(k, es)
    requires a == Edge(2 * k + 1, 2 * k + 3, 1) && b == Edge(2 * k + 1, 2 * k + 2, 0) && c == Edge(2 * k + 3, 2 * k + 2, 0)
    ensures var es' := AddArc(AddArc(AddArc(es, a), b), c);
      WellFormed(2 * k + 4, es') && forall x :: x in es' <==> CorrelatorArc(k, x)
  {
    var es3 := AddArc(AddArc(AddArc(es, a), b), c);
    AddThree(es, a, b, c);
    forall x
      ensures x in es3 <==> CorrelatorArc(k, x)
    {
      if x in es {
        LoopArcClash(k, es, a, b, c, x);
      }
    }
    WithinWellFormed(2 * k + 4, es3);
  }

  lemma WithinWellFormed(n: nat, es: seq<Edge>)
    requires DistinctPairs(es) && Within(n, es)
    ensures WellFormed(n, es)
  {
    forall i | 0 <= i < |es|
      ensures es[i].u < n && es[i].v < n
    {
      assert es[i] in es;
    }
  }

  /** The first part of `generate_from_correlator`: the base triangle, then for each odd i
      from 3 below `nodes` a round adding nodes i (delay 3) and i + 1 (delay 7) and the wires
      down -> i (1 register), down -> up and i + 1 -> up (none), after which down = i and
      up = i + 1. */
  method CorrelatorRounds(nodes: int) returns (es: seq<Edge>, delay: seq<int>, up: nat, down: nat, ghost k: nat)
    ensures k == Rounds(nodes) && up == 2 * k + 2 && down == 2 * k + 1 && |delay| == 2 * k + 3
    ensures forall v :: 0 <= v < 2 * k + 3 ==> delay[v] == CorrelatorDelay(2 * k + 4, v)
    ensures LoopGraph(k, es)
  {
    delay := [3, 3, 7];
    BaseTriangle();
    es := AddArc([], Edge(1, 2, 0));
    es := AddArc(es, Edge(2, 0, 0));
    es := AddArc(es, Edge(0, 1, 1));
    up, down := 2, 1;
    var i := up + 1;
    k := 0;
    RoundsMeaning(nodes, 0);
    while i < nodes
      invariant i == 2 * k + 3 && up == i - 1 && down == i - 2 && |delay| == i
      invariant k <= Rounds(nodes) && (i < nodes <==> k < Rounds(nodes))
      invariant forall v :: 0 <= v < i ==> delay[v] == CorrelatorDelay(i + 1, v)
      invariant LoopGraph(k, es)
    {
      DelayRound(k, delay);
      delay := delay + [3, 7];
      LoopRound(k, es, Edge(down, i, 1), Edge(down, up, 0), Edge(i + 1, up, 0));
      es := AddArc(es, Edge(down, i, 1));
      es := AddArc(es, Edge(down, up, 0));
      es := AddArc(es, Edge(i + 1, up, 0));
      up, down := i + 1, i;
      i, k := i + 2, k + 1;
      RoundsMeaning(nodes, k);
    }
  }

  /** `generate_from_correlator`: the rounds, then the tail node up + 1 (delay 7) with the
      wires down -> up + 1 (1 register), down -> up and up + 1 -> up (none). */
  method GenerateFromCorrelator(nodes: int) returns (n: nat, es: seq<Edge>, delay: seq<int>)
    ensures n == 2 * Rounds(nodes) + 4 && |delay| == n
    ensures forall v :: 0 <= v < n ==> delay[v] == CorrelatorDelay(n - 1, v)
    ensures WellFormed(n, es)
    ensures forall x :: x in es <==> CorrelatorArc(Rounds(nodes), x)
  {
    var up, down;
    ghost var k;
    es, delay, up, down, k := CorrelatorRounds(nodes);
    DelayTail(k, delay);
    delay := delay + [7];
    Tail(k, es, Edge(down, up + 1, 1), Edge(down, up, 0), Edge(up + 1, up, 0));
    es := AddArc(es, Edge(down, up + 1, 1));
    es := AddArc(es, Edge(down, up, 0));
    es := AddArc(es, Edge(up + 1, up, 0));
    n := |delay|;
  }

  /** The correlator has nodes + 1 nodes, as its doc-comment says, only for odd `nodes` from 3
      on; for even `nodes` from 4 on it has nodes + 2. */
  lemma CorrelatorNodeCount(nodes: int)
    requires nodes >= 3
    ensures 2 * Rounds(nodes) + 4 == (if nodes % 2 == 1 then nodes + 1 else nodes + 2)
  {
  }

  /** The ring of `performance_generator` on n nodes: each node i has one wire, to
      (i + 1) mod n, with one register. */
  predicate RingArc(n: nat, x: Edge) {
    x.u < n && x.v == (x.u + 1) % n && x.w == 1
  }

  /** `nx.set_edge_attributes(graph, w, 'wire_delay')`: every wire gets w registers. */
  function SetRegisters(es: seq<Edge>, w: int): (r: seq<Edge>)
    ensures |r| == |es|
  {
    seq(|es|, k requires 0 <= k < |es| => es[k].(w := w))
  }

  /** Keeping one more wire of a graph without repeated pairs keeps the kept ones distinct. */
  lemma KeepOne(es: seq<Edge>, j: nat, kept: seq<Edge>)
    requires DistinctPairs(es) && j < |es| && DistinctPairs(kept)
    requires forall x :: x in kept ==> x in es[..j]
    ensures DistinctPairs(kept + [es[j]])
  {
    forall x | x in kept
      ensures (x.u, x.v) != (es[j].u, es[j].v)
    {
      var m :| 0 <= m < j && es[m] == x;
    }
    var r := kept + [es[j]];
    forall a, b | 0 <= a < b < |r|
      ensures (r[a].u, r[a].v) != (r[b].u, r[b].v)
    {
      if b == |kept| {
        assert r[a] in kept;
      } else {
        assert r[a] == kept[a] && r[b] == kept[b];
      }
    }
  }

  /** The successor of u on the ring of n nodes. */
  lemma NextMod(n: nat, u: nat)
    requires u < n
    ensures (u + 1) % n == if u == n - 1 then 0 else u + 1
  {
  }

  /** The forward path wires and n - 1 -> 0, given one register each, make the ring. */
  lemma RingRegisters(n: nat, es: seq<Edge>)
    requires n >= 1 && DistinctPairs(es)
    requires forall x :: x in es <==> x.w == 0 && ((x.u + 1 < n && x.v == x.u + 1) || (x.u == n - 1 && x.v == 0))
    ensures WellFormed(n, SetRegisters(es, 1))
    ensures forall x :: x in SetRegisters(es, 1) <==> RingArc(n, x)
  {
    var ws := SetRegisters(es, 1);
    forall i | 0 <= i < |ws|
      ensures ws[i].u < n && ws[i].v < n && RingArc(n, ws[i])
    {
      assert es[i] in es;
      NextMod(n, es[i].u);
    }
    forall x | RingArc(n, x)
      ensures x in ws
    {
      NextMod(n, x.u);
      var e := Edge(x.u, x.v, 0);
      assert e in es;
      var k :| 0 <= k < |es| && es[k] == e;
      assert ws[k] == x;
    }
  }

  /** `performance_generator`: the directed path graph on n nodes (both directions of every
      i -- i + 1), the backward wires i + 1 -> i removed, the wire max(nodes) -> 0 added, every
      delay 3 and every register count 1; `max` of no nodes raises. */
  method PerformanceGenerator(size: int) returns (r: Result<(nat, seq<Edge>, seq<int>)>)
    ensures size <= 0 <==> r.Failure?
    ensures r.Failure? ==> r.fault == EmptyMax
    ensures r.Success? ==> r.value.0 == size && |r.value.2| == size
    ensures r.Success? ==> forall v :: 0 <= v < size ==> r.value.2[v] == 3
    ensures r.Success? ==> WellFormed(r.value.0, r.value.1)
    ensures r.Success? ==> forall x :: x in r.value.1 <==> RingArc(r.value.0, x)
  {
    if size <= 0 {
      return Failure(EmptyMax);
    }
    var n: nat := size;
    var es: seq<Edge> := [];
    var i := 0;
    while i < n - 1
      invariant 0 <= i <= n - 1 && DistinctPairs(es)
      invariant forall x :: x in es <==> x.w == 0 && x.u < i + 1 && x.v < i + 1 && (x.v == x.u + 1 || x.u == x.v + 1)
    {
      AddArcMeaning(es, Edge(i, i + 1, 0));
      es := AddArc(es, Edge(i, i + 1, 0));
      AddArcMeaning(es, Edge(i + 1, i, 0));
      es := AddArc(es, Edge(i + 1, i, 0));
      i := i + 1;
    }
    var kept: seq<Edge> := [];
    var j := 0;
    while j < |es|
      invariant 0 <= j <= |es| && DistinctPairs(kept)
      invariant forall x :: x in kept <==> x in es[..j] && x.u != x.v + 1
    {
      if es[j].u != es[j].v + 1 {
        KeepOne(es, j, kept);
        kept := kept + [es[j]];
      }
      assert es[..j + 1] == es[..j] + [es[j]];
      j := j + 1;
    }
    assert es[..j] == es;
    AddArcMeaning(kept, Edge(n - 1, 0, 0));
    es := AddArc(kept, Edge(n - 1, 0, 0));
    var ws := SetRegisters(es, 1);
    RingRegisters(n, es);
    var delay := seq(n, _ => 3);
    r := Success((n, ws, delay));
  }
}
