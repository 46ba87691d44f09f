/** The register movers of src/utils/randomizer.py: the same moves as in
    src/utils/utilities.py, but without the guard for a node with no entering (leaving)
    wire, where `min` of the empty list raises. */
module Randomizer {
  import opened CircuitGraph
  import opened Utilities

  /** `pick_from_back`: fails when no wire enters x; otherwise, when the smallest count on
      the entering wires is positive, they lose it and the leaving wires gain it. */
  method PickFromBack(g: array<Edge>, x: nat) returns (r: Result<()>)
    modifies g
    ensures r.Failure? <==> MinWhere(old(g[..]), x, true).None?
    ensures r.Failure? ==> r.fault == EmptyMax && g[..] == old(g[..])
    ensures r.Success? ==> g[..] == Back(old(g[..]), x)
  {
    var arcs := MinRegisters(g, x, true);
    if arcs.None? {
      return Failure(EmptyMax);
    }
    var m := arcs.value;
    if m > 0 {
      ShiftInPass(g, x, -m);
      ShiftOutPass(g, x, m);
    }
    r := Success(());
  }

  /** `pick_from_front`: the mirror image, failing when no wire leaves x. */
  method PickFromFront(g: array<Edge>, x: nat) returns (r: Result<()>)
    modifies g
    ensures r.Failure? <==> MinWhere(old(g[..]), x, false).None?
    ensures r.Failure? ==> r.fault == EmptyMax && g[..] == old(g[..])
    ensures r.Success? ==> g[..] == Front(old(g[..]), x)
  {
    var arcs := MinRegisters(g, x, false);
    if arcs.None? {
      return Failure(EmptyMax);
    }
    var m := arcs.value;
    if m > 0 {
      ShiftOutPass(g, x, -m);
      ShiftInPass(g, x, m);
    }
    r := Success(());
  }

  /** The picks on nodes 0..k-1 as randomizer.py makes them: the first node whose chosen
      side has no wire stops the run. */
  function RandomizedStrict(es: seq<Edge>, choices: seq<bool>, k: nat): Result<seq<Edge>>
    requires k <= |choices|
  {
    if k == 0 then Success(es)
    else match RandomizedStrict(es, choices, k - 1)
      case Failure(f) => Failure(f)
      case Success(prev) =>
        if MinWhere(prev, k - 1, choices[k - 1]).None? then Failure(EmptyMax)
        else Success(Pick(prev, k - 1, choices[k - 1]))
  }

  /** A pick keeps which wires enter and leave each node, so it keeps whether a node has a
      wire on either side. */
  lemma PickKeepsSides(es: seq<Edge>, x: nat, back: bool, y: nat, into: bool)
    ensures MinWhere(Pick(es, x, back), y, into).None? <==> MinWhere(es, y, into).None?
  {
    var after := Pick(es, x, back);
    assert |after| == |es| && forall i :: 0 <= i < |es| ==> after[i].u == es[i].u && after[i].v == es[i].v;
    MinWhereIsMin(es, y, into);
    MinWhereIsMin(after, y, into);
    if MinWhere(es, y, into).Some? {
      var i :| 0 <= i < |es| && Touches(es[i], y, into) && es[i].w == MinWhere(es, y, into).value;
      assert Touches(after[i], y, into);
    }
  }

  /** The runs of the two modules are the same picks in the same order, which keeps which
      wires touch each node. */
  lemma {:induction false} RandomizedSides(es: seq<Edge>, choices: seq<bool>, k: nat, y: nat, into: bool)
    requires k <= |choices|
    ensures MinWhere(Utilities.Randomized(es, choices, k), y, into).None? <==> MinWhere(es, y, into).None?
  {
    if k > 0 {
      RandomizedSides(es, choices, k - 1, y, into);
      PickKeepsSides(Utilities.Randomized(es, choices, k - 1), k - 1, choices[k - 1], y, into);
    }
  }

  /** Every node below k has a wire on the side its coin chose. */
  predicate Covered(es: seq<Edge>, choices: seq<bool>, k: nat)
    requires k <= |choices|
  {
    forall j :: 0 <= j < k ==> MinWhere(es, j, choices[j]).Some?
  }

  /** randomizer.py's run completes exactly when every node has a wire on the side its coin
      chose, and then it does what utilities.py's run does. */
  lemma {:induction false} StrictIsRandomized(es: seq<Edge>, choices: seq<bool>, k: nat)
    requires k <= |choices|
    ensures RandomizedStrict(es, choices, k)
      == if Covered(es, choices, k) then Success(Utilities.Randomized(es, choices, k)) else Failure(EmptyMax)
  {
    if k > 0 {
      StrictIsRandomized(es, choices, k - 1);
      if Covered(es, choices, k - 1) {
        RandomizedSides(es, choices, k - 1, k - 1, choices[k - 1]);
      } else {
        var j :| 0 <= j < k - 1 && MinWhere(es, j, choices[j]).None?;
        assert !Covered(es, choices, k);
      }
    }
  }

  /** A node without a wire on its chosen side stops the whole run, and the picks before it
      are the ones utilities.py's run makes. */
  lemma StopsAt(es: seq<Edge>, choices: seq<bool>, n: nat, x: nat)
    requires x < n <= |choices|
    requires RandomizedStrict(es, choices, x).Success?
    requires MinWhere(RandomizedStrict(es, choices, x).value, x, choices[x]).None?
    ensures RandomizedStrict(es, choices, n).Failure?
    ensures RandomizedStrict(es, choices, x).value == Utilities.Randomized(es, choices, x)
  {
    StrictIsRandomized(es, choices, x);
    RandomizedSides(es, choices, x, x, choices[x]);
    StrictIsRandomized(es, choices, n);
  }

  /** `node_randomizer`: every node in turn gets the pick its coin chose (choices[x]); the
      first node without a wire on that side raises, leaving the picks made so far in place. */
  method NodeRandomizer(g: array<Edge>, n: nat, choices: seq<bool>) returns (r: Result<array<Edge>>)
    requires n <= |choices|
    modifies g
    ensures r.Success? <==> RandomizedStrict(old(g[..]), choices, n).Success?
    ensures r.Success? ==> r.value == g && g[..] == RandomizedStrict(old(g[..]), choices, n).value
    ensures r.Failure? ==> r.fault == EmptyMax
    ensures r.Failure? ==> exists j :: (0 <= j < n && RandomizedStrict(old(g[..]), choices, j) == Success(g[..])
      && MinWhere(g[..], j, choices[j]).None? && g[..] == Utilities.Randomized(old(g[..]), choices, j))
  {
    ghost var es := g[..];
    var x := 0;
    while x < n
      invariant 0 <= x <= n
      invariant RandomizedStrict(es, choices, x) == Success(g[..])
    {
      StrictIsRandomized(es, choices, x);
      var step;
      if choices[x] {
        step := PickFromBack(g, x);
      } else {
        step := PickFromFront(g, x);
      }
      if step.Failure? {
        StopsAt(es, choices, n, x);
        assert RandomizedStrict(es, choices, x) == Success(g[..]) && MinWhere(g[..], x, choices[x]).None?;
        return Failure(EmptyMax);
      }
      x := x + 1;
    }
    r := Success(g);
  }
}
