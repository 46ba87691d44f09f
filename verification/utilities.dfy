/** The register movers of src/utils/utilities.py: `pick_from_back` moves the smallest
    register count of the wires entering a node onto the wires leaving it,
    `pick_from_front` does the mirror image, and `node_randomizer` applies one of the two
    to every node in turn. Each move is a retiming of that one node, so it keeps the
    register count around every directed cycle. */
module Utilities {
  import opened CircuitGraph

  /** Every wire joins two of the nodes 0..n-1. */
  predicate EndsBelow(n: nat, es: seq<Edge>) {
    forall i :: 0 <= i < |es| ==> es[i].u < n && es[i].v < n
  }

  /** The wire enters x (into) or leaves x (not into). */
  predicate Touches(e: Edge, x: nat, into: bool) {
    if into then e.v == x else e.u == x
  }

  /** The smallest register count among the wires entering (into) or leaving x; None when
      there is no such wire (`min` of an empty list). */
  function MinWhere(es: seq<Edge>, x: nat, into: bool): (m: Option<int>)
    decreases |es|
  {
    if es == [] then None
    else
      var rest := MinWhere(es[1..], x, into);
      if !Touches(es[0], x, into) then rest
      else if rest.None? || es[0].w <= rest.value then Some(es[0].w)
      else rest
  }

  /** MinWhere is None exactly when no wire enters (leaves) x, and otherwise the count of
      one such wire that no other such wire undercuts. */
  lemma {:induction false} MinWhereIsMin(es: seq<Edge>, x: nat, into: bool)
    ensures var m := MinWhere(es, x, into);
      && (m.None? <==> forall i :: 0 <= i < |es| ==> !Touches(es[i], x, into))
      && (m.Some? ==> exists i :: 0 <= i < |es| && Touches(es[i], x, into) && es[i].w == m.value)
      && (m.Some? ==> forall i :: 0 <= i < |es| && Touches(es[i], x, into) ==> m.value <= es[i].w)
    decreases |es|
  {
    if es != [] {
      MinWhereIsMin(es[1..], x, into);
      assert forall i :: 1 <= i < |es| ==> es[i] == es[1..][i - 1];
      var rest := MinWhere(es[1..], x, into);
      if rest.Some? {
        var j :| 0 <= j < |es[1..]| && Touches(es[1..][j], x, into) && es[1..][j].w == rest.value;
        assert es[j + 1] == es[1..][j];
      }
    }
  }

  /** Every wire entering x gets k more registers; the others keep theirs. */
  function ShiftIn(es: seq<Edge>, x: nat, k: int): seq<Edge>
  {
    seq(|es|, i requires 0 <= i < |es| => if es[i].v == x then es[i].(w := es[i].w + k) else es[i])
  }

  /** Every wire leaving x gets k more registers; the others keep theirs. */
  function ShiftOut(es: seq<Edge>, x: nat, k: int): seq<Edge>
  {
    seq(|es|, i requires 0 <= i < |es| => if es[i].u == x then es[i].(w := es[i].w + k) else es[i])
  }

  /** How many registers a pick moves across x: the smallest count on the wires entering
      (into) or leaving it, when there is one and it is positive; 0 otherwise. */
  function Moved(es: seq<Edge>, x: nat, into: bool): (m: int)
    ensures m >= 0
  {
    match MinWhere(es, x, into)
    case None => 0
    case Some(k) => if k > 0 then k else 0
  }

  /** The wires after `pick_from_back` on x: the entering wires lose the amount moved, then
      the leaving wires gain it. */
  function Back(es: seq<Edge>, x: nat): seq<Edge>
  {
    var m := Moved(es, x, true);
    if m > 0 then ShiftOut(ShiftIn(es, x, -m), x, m) else es
  }

  /** The wires after `pick_from_front` on x: the leaving wires lose the amount moved, then
      the entering wires gain it. */
  function Front(es: seq<Edge>, x: nat): seq<Edge>
  {
    var m := Moved(es, x, false);
    if m > 0 then ShiftIn(ShiftOut(es, x, -m), x, m) else es
  }

  /** `pick_from_back` is the retiming of x alone by minus the amount moved; in particular
      a wire from x to itself ends with its own count. */
  lemma BackIsRetime(n: nat, es: seq<Edge>, x: nat)
    requires EndsBelow(n, es) && x < n
    ensures LagFits(es, NodeLag(n, x, -Moved(es, x, true)))
    ensures Back(es, x) == Retime(es, NodeLag(n, x, -Moved(es, x, true)))
  {
    var m := Moved(es, x, true);
    var r := NodeLag(n, x, -m);
    forall i | 0 <= i < |es| ensures Back(es, x)[i] == RetimeEdge(es[i], r) {
    }
  }

  /** `pick_from_front` is the retiming of x alone by the amount moved. */
  lemma FrontIsRetime(n: nat, es: seq<Edge>, x: nat)
    requires EndsBelow(n, es) && x < n
    ensures LagFits(es, NodeLag(n, x, Moved(es, x, false)))
    ensures Front(es, x) == Retime(es, NodeLag(n, x, Moved(es, x, false)))
  {
    var m := Moved(es, x, false);
    var r := NodeLag(n, x, m);
    forall i | 0 <= i < |es| ensures Front(es, x)[i] == RetimeEdge(es[i], r) {
    }
  }

  /** A pick never takes a wire below 0: the wires it lowers held at least the amount moved. */
  lemma BackLowersToNonNegative(es: seq<Edge>, x: nat)
    ensures |Back(es, x)| == |es|
    ensures forall i :: 0 <= i < |es| && Back(es, x)[i].w < es[i].w ==> Back(es, x)[i].w >= 0
    ensures forall i :: 0 <= i < |es| ==> Back(es, x)[i].u == es[i].u && Back(es, x)[i].v == es[i].v
  {
    MinWhereIsMin(es, x, true);
    forall i | 0 <= i < |es| && Back(es, x)[i].w < es[i].w ensures Back(es, x)[i].w >= 0 {
      assert Touches(es[i], x, true);
    }
  }

  lemma FrontLowersToNonNegative(es: seq<Edge>, x: nat)
    ensures |Front(es, x)| == |es|
    ensures forall i :: 0 <= i < |es| && Front(es, x)[i].w < es[i].w ==> Front(es, x)[i].w >= 0
    ensures forall i :: 0 <= i < |es| ==> Front(es, x)[i].u == es[i].u && Front(es, x)[i].v == es[i].v
  {
    MinWhereIsMin(es, x, false);
    forall i | 0 <= i < |es| && Front(es, x)[i].w < es[i].w ensures Front(es, x)[i].w >= 0 {
      assert Touches(es[i], x, false);
    }
  }

  /** One `set_edge_attributes` pass over the wires entering x: each gets k more registers,
      computed from its count when the pass starts. */
  method ShiftInPass(g: array<Edge>, x: nat, k: int)
    modifies g
    ensures g[..] == ShiftIn(old(g[..]), x, k)
  {
    ghost var before := g[..];
    var i := 0;
    while i < g.Length
      invariant 0 <= i <= g.Length
      invariant forall j :: 0 <= j < i ==> g[j] == ShiftIn(before, x, k)[j]
      invariant forall j :: i <= j < g.Length ==> g[j] == before[j]
    {
      if g[i].v == x {
        g[i] := g[i].(w := g[i].w + k);
      }
      i := i + 1;
    }
  }

  /** The same pass over the wires leaving x. */
  method ShiftOutPass(g: array<Edge>, x: nat, k: int)
    modifies g
    ensures g[..] == ShiftOut(old(g[..]), x, k)
  {
    ghost var before := g[..];
    var i := 0;
    while i < g.Length
      invariant 0 <= i <= g.Length
      invariant forall j :: 0 <= j < i ==> g[j] == ShiftOut(before, x, k)[j]
      invariant forall j :: i <= j < g.Length ==> g[j] == before[j]
    {
      if g[i].u == x {
        g[i] := g[i].(w := g[i].w + k);
      }
      i := i + 1;
    }
  }

  /** The list comprehension and `min` of the picks: the smallest count on the wires
      entering (into) or leaving x, None for an empty list. */
  method MinRegisters(g: array<Edge>, x: nat, into: bool) returns (m: Option<int>)
    ensures m == MinWhere(g[..], x, into)
  {
    m := None;
    var i := g.Length;
    while i > 0
      invariant 0 <= i <= g.Length
      invariant m == MinWhere(g[i..], x, into)
    {
      i := i - 1;
      assert g[i..][1..] == g[i + 1..];
      if Touches(g[i], x, into) && (m.None? || g[i].w <= m.value) {
        m := Some(g[i].w);
      }
    }
    assert g[0..] == g[..];
  }

  /** `pick_from_back`: nothing happens when no wire enters x or the smallest count on them
      is not positive; otherwise the entering wires lose it, then the leaving wires gain it. */
  method PickFromBack(g: array<Edge>, x: nat)
    modifies g
    ensures g[..] == Back(old(g[..]), x)
  {
    var arcs := MinRegisters(g, x, true);
    if arcs.Some? {
      var m := arcs.value;
      if m != 0 && m > 0 {
        ShiftInPass(g, x, -m);
        ShiftOutPass(g, x, m);
      }
    }
  }

  /** `pick_from_front`: the mirror image of `pick_from_back`. */
  method PickFromFront(g: array<Edge>, x: nat)
    modifies g
    ensures g[..] == Front(old(g[..]), x)
  {
    var arcs := MinRegisters(g, x, false);
    if arcs.Some? {
      var m := arcs.value;
      if m != 0 && m > 0 {
        ShiftOutPass(g, x, -m);
        ShiftInPass(g, x, m);
      }
    }
  }

  /** The pick on node x that choices[x] selects. */
  function Pick(es: seq<Edge>, x: nat, back: bool): seq<Edge>
  {
    if back then Back(es, x) else Front(es, x)
  }

  /** The wires after the picks on nodes 0..k-1, choices[x] telling whether node x gets
      `pick_from_back` (the coin came out below one half) or `pick_from_front`. */
  function Randomized(es: seq<Edge>, choices: seq<bool>, k: nat): seq<Edge>
    requires k <= |choices|
  {
    if k == 0 then es else Pick(Randomized(es, choices, k - 1), k - 1, choices[k - 1])
  }

  /** Either pick is a retiming of x alone. */
  lemma PickIsRetime(n: nat, es: seq<Edge>, x: nat, back: bool) returns (step: seq<int>)
    requires EndsBelow(n, es) && x < n
    ensures |step| == n && LagFits(es, step) && Pick(es, x, back) == Retime(es, step)
  {
    if back {
      step := NodeLag(n, x, -Moved(es, x, true));
      BackIsRetime(n, es, x);
    } else {
      step := NodeLag(n, x, Moved(es, x, false));
      FrontIsRetime(n, es, x);
    }
  }

  /** Either pick keeps every wire's endpoints. */
  lemma PickEndsBelow(n: nat, es: seq<Edge>, x: nat, back: bool)
    requires EndsBelow(n, es)
    ensures EndsBelow(n, Pick(es, x, back))
  {
    var after := Pick(es, x, back);
    assert forall i :: 0 <= i < |es| ==> after[i].u == es[i].u && after[i].v == es[i].v;
  }

  /** Either pick leaves no negative wire in a circuit that had none. */
  lemma PickKeepsNonNegative(es: seq<Edge>, x: nat, back: bool)
    requires NonNegative(es)
    ensures NonNegative(Pick(es, x, back))
  {
    if back {
      BackLowersToNonNegative(es, x);
    } else {
      FrontLowersToNonNegative(es, x);
    }
  }

  lemma {:induction false} RandomizedEndsBelow(n: nat, es: seq<Edge>, choices: seq<bool>, k: nat)
    requires EndsBelow(n, es) && k <= |choices|
    ensures EndsBelow(n, Randomized(es, choices, k))
  {
    if k > 0 {
      RandomizedEndsBelow(n, es, choices, k - 1);
      PickEndsBelow(n, Randomized(es, choices, k - 1), k - 1, choices[k - 1]);
    }
  }

  /** Randomizing leaves no negative wire in a circuit that had none. */
  lemma {:induction false} RandomizedKeepsNonNegative(es: seq<Edge>, choices: seq<bool>, k: nat)
    requires NonNegative(es) && k <= |choices|
    ensures NonNegative(Randomized(es, choices, k))
  {
    if k > 0 {
      RandomizedKeepsNonNegative(es, choices, k - 1);
      PickKeepsNonNegative(Randomized(es, choices, k - 1), k - 1, choices[k - 1]);
    }
  }

  /** Randomizing is a retiming of the circuit. */
  lemma {:induction false} RandomizedIsRetime(n: nat, es: seq<Edge>, choices: seq<bool>, k: nat) returns (lags: seq<int>)
    requires EndsBelow(n, es) && k <= |choices| && k <= n
    ensures |lags| == n && LagFits(es, lags) && Randomized(es, choices, k) == Retime(es, lags)
  {
    if k == 0 {
      lags := Zeros(n);
      RetimeZeros(es, n);
    } else {
      var prev := Randomized(es, choices, k - 1);
      var before := RandomizedIsRetime(n, es, choices, k - 1);
      RandomizedEndsBelow(n, es, choices, k - 1);
      var step := PickIsRetime(n, prev, k - 1, choices[k - 1]);
      RetimeTwice(es, before, step);
      lags := Add(before, step);
    }
  }

  /** Randomizing keeps the register count around every directed cycle, as the doc comment
      of `node_randomizer` promises. */
  lemma RandomizedKeepsCycles(n: nat, es: seq<Edge>, choices: seq<bool>, p: seq<nat>)
    requires EndsBelow(n, es) && n <= |choices| && IsCycle(es, p)
    ensures IsCycle(Randomized(es, choices, n), p)
    ensures WalkSum(Randomized(es, choices, n), p) == WalkSum(es, p)
  {
    var lags := RandomizedIsRetime(n, es, choices, n);
    RetimeCycleSum(es, lags, p);
  }

  /** `node_randomizer`: every node in turn gets one of the two picks, choices[x] standing
      for node x's coin flips; the graph object itself is returned. */
  method NodeRandomizer(g: array<Edge>, n: nat, choices: seq<bool>) returns (out: array<Edge>)
    requires n <= |choices|
    modifies g
    ensures out == g && g[..] == Randomized(old(g[..]), choices, n)
  {
    ghost var es := g[..];
    var x := 0;
    while x < n
      invariant 0 <= x <= n
      invariant g[..] == Randomized(es, choices, x)
    {
      if choices[x] {
        PickFromBack(g, x);
      } else {
        PickFromFront(g, x);
      }
      x := x + 1;
    }
    out := g;
  }
}
