/** The zero-register subgraph that the critical-path pass works on, and a topological
    order of it (networkx's `topological_sort`, written out as Kahn's algorithm). The
    order fails to exist exactly when some non-empty set of nodes has, for each of its
    members, a zero-register predecessor inside the set -- which a zero-register cycle gives;
    the sort then yields the nodes outside the largest such set before it raises. */
module Topo {
  import opened CircuitGraph

  /** The adjacency entry the source marks with 1: a wire a -> b carrying exactly 0 registers. */
  predicate ZeroArc(es: seq<Edge>, a: nat, b: nat) {
    exists i :: 0 <= i < |es| && es[i].u == a && es[i].v == b && es[i].w == 0
  }

  /** x has no zero-register predecessor among `rem`. */
  predicate IsSource(es: seq<Edge>, rem: set<nat>, x: nat) {
    forall y :: y in rem ==> !ZeroArc(es, y, x)
  }

  /** x has a zero-register predecessor in s. */
  ghost predicate HasPredIn(es: seq<Edge>, s: set<nat>, x: nat) {
    exists y :: y in s && ZeroArc(es, y, x)
  }

  /** Every member of s has a zero-register predecessor in s. */
  ghost predicate Blocked(es: seq<Edge>, s: set<nat>) {
    forall x {:trigger HasPredIn(es, s, x)} :: x in s ==> HasPredIn(es, s, x)
  }

  /** s is a non-empty blocked set of nodes below n: no topological order can place its first member. */
  ghost predicate IsCore(es: seq<Edge>, n: nat, s: set<nat>) {
    (forall x :: x in s ==> x < n) && s != {} && Blocked(es, s)
  }

  /** The zero-register subgraph on 0..n-1 has a cyclic core. */
  ghost predicate HasCyclicCore(es: seq<Edge>, n: nat) {
    exists s: set<nat> :: IsCore(es, n, s)
  }

  /** The node set 0..n-1. */
  function AllNodes(n: nat): (s: set<nat>)
    ensures forall x: int :: x in s <==> 0 <= x < n
  {
    if n == 0 then {} else AllNodes(n - 1) + {n - 1}
  }

  /** A topological order of the zero-register subgraph on nodes 0..n-1. */
  ghost predicate IsTopoOrder(es: seq<Edge>, n: nat, order: seq<nat>) {
    && (forall i :: 0 <= i < |order| ==> order[i] < n)
    && (forall v :: 0 <= v < n ==> v in order)
    && (forall i, j :: 0 <= i < j < |order| ==> order[i] != order[j])
    && (forall i, j :: 0 <= i < |order| && 0 <= j < |order| && ZeroArc(es, order[j], order[i]) ==> j < i)
  }

  /** The smallest node k.. n-1 of rem with no zero-register predecessor in rem. */
  function FirstSource(es: seq<Edge>, n: nat, rem: set<nat>, k: nat): (r: Option<nat>)
    ensures r.Some? ==> k <= r.value < n && r.value in rem && IsSource(es, rem, r.value)
    ensures r.None? ==> forall x :: k <= x < n && x in rem ==> !IsSource(es, rem, x)
    decreases n - k
  {
    if k >= n then None
    else if k in rem && IsSource(es, rem, k) then Some(k)
    else FirstSource(es, n, rem, k + 1)
  }

  /** order lists the nodes of rem, each once, every zero-register arc between them pointing forward. */
  ghost predicate OrdersSet(es: seq<Edge>, rem: set<nat>, order: seq<nat>) {
    && (forall i :: 0 <= i < |order| ==> order[i] in rem)
    && (forall x :: x in rem ==> x in order)
    && (forall i, j :: 0 <= i < j < |order| ==> order[i] != order[j])
    && (forall i, j :: 0 <= i < |order| && 0 <= j < |order| && ZeroArc(es, order[j], order[i]) ==> j < i)
  }

  /** order lists distinct nodes below n, and every zero-register predecessor below n of a
      listed node is listed before it. */
  ghost predicate ClosedPrefix(es: seq<Edge>, n: nat, order: seq<nat>) {
    && (forall i :: 0 <= i < |order| ==> order[i] < n)
    && (forall i, j :: 0 <= i < j < |order| ==> order[i] != order[j])
    && (forall i, y: nat :: 0 <= i < |order| && y < n && ZeroArc(es, y, order[i]) ==> y in order[..i])
  }

  /** A topological order is a closed prefix that lists every node. */
  lemma TopoOrderIsClosed(es: seq<Edge>, n: nat, order: seq<nat>)
    requires IsTopoOrder(es, n, order)
    ensures ClosedPrefix(es, n, order)
  {
    forall i, y: nat | 0 <= i < |order| && y < n && ZeroArc(es, y, order[i]) ensures y in order[..i] {
      assert y in order;
      var j :| 0 <= j < |order| && order[j] == y;
      assert order[..i][j] == y;
    }
  }

  /** What Kahn's algorithm leaves: the nodes it emitted, in order, and the nodes it could
      not emit because each of them still has a zero-register predecessor among them. */
  datatype Sorted = Sorted(order: seq<nat>, blocked: set<nat>)

  /** Kahn's algorithm on the nodes of `rem`: repeatedly emit a node with no zero-register
      predecessor left, until none remains or every remaining node still has one. */
  function Kahn(es: seq<Edge>, n: nat, rem: set<nat>): (r: Sorted)
    requires forall x :: x in rem ==> x < n
    ensures r.blocked <= rem && OrdersSet(es, rem - r.blocked, r.order)
    ensures Blocked(es, r.blocked)
    ensures forall i, y :: 0 <= i < |r.order| && y in r.blocked ==> !ZeroArc(es, y, r.order[i])
    decreases |rem|
  {
    if rem == {} then Sorted([], {})
    else
      match FirstSource(es, n, rem, 0)
      case None =>
        assert Blocked(es, rem) by {
          forall x | x in rem ensures HasPredIn(es, rem, x) {
            assert !IsSource(es, rem, x);
          }
        }
        Sorted([], rem)
      case Some(x) =>
        var rest := Kahn(es, n, rem - {x});
        assert (rem - rest.blocked) - {x} == (rem - {x}) - rest.blocked;
        PrependSource(es, rem - rest.blocked, x, rest.order);
        var r := Sorted([x] + rest.order, rest.blocked);
        assert forall i, y :: 0 <= i < |r.order| && y in r.blocked ==> !ZeroArc(es, y, r.order[i]) by {
          forall i, y | 0 <= i < |r.order| && y in r.blocked ensures !ZeroArc(es, y, r.order[i]) {
            if i > 0 {
              assert r.order[i] == rest.order[i - 1];
            }
          }
        }
        r
  }

  /** A source in front of an order of the rest orders the whole set. */
  lemma PrependSource(es: seq<Edge>, rem: set<nat>, x: nat, rest: seq<nat>)
    requires x in rem && IsSource(es, rem, x) && OrdersSet(es, rem - {x}, rest)
    ensures OrdersSet(es, rem, [x] + rest)
  {
    var order := [x] + rest;
    forall i, j | 0 <= i < |order| && 0 <= j < |order| && ZeroArc(es, order[j], order[i]) ensures j < i {
      if i > 0 && j > 0 {
        assert order[j] == rest[j - 1] && order[i] == rest[i - 1];
      }
    }
    forall i, j | 0 <= i < j < |order| ensures order[i] != order[j] {
      if i > 0 {
        assert order[j] == rest[j - 1] && order[i] == rest[i - 1];
      } else {
        assert order[j] == rest[j - 1];
      }
    }
    forall y | y in rem ensures y in order {
      if y != x {
        assert y in rem - {x};
      }
    }
  }

  /** `nx.topological_sort` of the zero-register subgraph on nodes 0..n-1, a generator: the
      nodes it yields, in order, and the nodes left when it raises NetworkXUnfeasible (none
      when it completes). What it yields is a closed prefix; it completes exactly when there
      is no cyclic core, and its order is then a topological order. */
  function TopoSort(es: seq<Edge>, n: nat): (r: Sorted)
    ensures ClosedPrefix(es, n, r.order)
    ensures forall v :: 0 <= v < n ==> (v in r.order <==> v !in r.blocked)
    ensures r.blocked == {} ==> IsTopoOrder(es, n, r.order)
    ensures r.blocked != {} ==> IsCore(es, n, r.blocked)
    ensures r.blocked == {} <==> !HasCyclicCore(es, n)
  {
    var r := Kahn(es, n, AllNodes(n));
    SortedPrefix(es, n, r);
    r
  }

  lemma SortedPrefix(es: seq<Edge>, n: nat, r: Sorted)
    requires r == Kahn(es, n, AllNodes(n))
    ensures ClosedPrefix(es, n, r.order)
    ensures forall v :: 0 <= v < n ==> (v in r.order <==> v !in r.blocked)
    ensures r.blocked == {} ==> IsTopoOrder(es, n, r.order)
    ensures r.blocked != {} ==> IsCore(es, n, r.blocked)
    ensures r.blocked == {} <==> !HasCyclicCore(es, n)
  {
    var done := AllNodes(n) - r.blocked;
    forall i, y: nat | 0 <= i < |r.order| && y < n && ZeroArc(es, y, r.order[i]) ensures y in r.order[..i] {
      assert y in done;
      var j :| 0 <= j < |r.order| && r.order[j] == y;
      assert r.order[..i][j] == y;
    }
    if r.blocked == {} {
      assert done == AllNodes(n);
      if HasCyclicCore(es, n) {
        CoreHasNoOrder(es, n, r.order);
      }
    } else {
      assert IsCore(es, n, r.blocked);
    }
  }

  /** Every blocked set of nodes is left over by the sort, so the nodes it yields are the
      same for every order Kahn's algorithm may pick: those outside the largest blocked set. */
  lemma BlockedIsLargest(es: seq<Edge>, n: nat, s: set<nat>)
    requires (forall x :: x in s ==> x < n) && Blocked(es, s)
    ensures s <= TopoSort(es, n).blocked
  {
    var r := TopoSort(es, n);
    forall x | x in s ensures x in r.blocked {
      if x in r.order {
        var i :| 0 <= i < |r.order| && r.order[i] == x;
        FirstMember(r.order, s, i);
        var k :| 0 <= k <= i && r.order[k] in s && forall j :: 0 <= j < k ==> r.order[j] !in s;
        FirstListedHasNoPred(es, n, r.order, s, k);
        assert false;
      }
    }
  }

  /** In a closed prefix, the first listed member of s has no zero-register predecessor in s. */
  lemma FirstListedHasNoPred(es: seq<Edge>, n: nat, order: seq<nat>, s: set<nat>, k: nat)
    requires ClosedPrefix(es, n, order) && (forall x :: x in s ==> x < n)
    requires k < |order| && forall j :: 0 <= j < k ==> order[j] !in s
    ensures !HasPredIn(es, s, order[k])
  {
    forall y | y in s ensures !ZeroArc(es, y, order[k]) {
      assert y !in order[..k];
    }
  }

  /** Some member of s sits at a position of the order before which no member of s occurs. */
  lemma {:induction false} FirstMember(order: seq<nat>, s: set<nat>, i: nat)
    requires i < |order| && order[i] in s
    ensures exists k :: 0 <= k <= i && order[k] in s && forall j :: 0 <= j < k ==> order[j] !in s
    decreases i
  {
    if exists j :: 0 <= j < i && order[j] in s {
      var j :| 0 <= j < i && order[j] in s;
      FirstMember(order, s, j);
    }
  }

  /** Under a topological order, the member of s placed first has no zero-register predecessor in s. */
  lemma FirstHasNoPred(es: seq<Edge>, n: nat, order: seq<nat>, s: set<nat>)
    requires IsTopoOrder(es, n, order)
    requires (forall x :: x in s ==> x < n) && s != {}
    ensures exists x :: x in s && !HasPredIn(es, s, x)
  {
    var x :| x in s;
    assert x in order;
    var i :| 0 <= i < |order| && order[i] == x;
    FirstMember(order, s, i);
    var k :| 0 <= k <= i && order[k] in s && forall j :: 0 <= j < k ==> order[j] !in s;
    forall y | y in s ensures !ZeroArc(es, y, order[k]) {
      assert y in order;
      var j :| 0 <= j < |order| && order[j] == y;
      assert j >= k;
    }
    assert !HasPredIn(es, s, order[k]);
  }

  /** A blocked set rules out every topological order: its member placed first would need
      a zero-register predecessor placed earlier. */
  lemma CoreHasNoOrder(es: seq<Edge>, n: nat, order: seq<nat>)
    requires HasCyclicCore(es, n)
    ensures !IsTopoOrder(es, n, order)
  {
    var s: set<nat> :| IsCore(es, n, s);
    if IsTopoOrder(es, n, order) {
      FirstHasNoPred(es, n, order, s);
    }
  }

  /** A directed cycle of zero-register wires blocks its own nodes. */
  lemma ZeroCycleIsCore(es: seq<Edge>, n: nat, p: seq<nat>)
    requires WellFormed(n, es) && IsCycle(es, p)
    requires forall k :: 0 <= k < |p| ==> es[p[k]].w == 0
    ensures HasCyclicCore(es, n)
  {
    var s := set k | 0 <= k < |p| :: es[p[k]].v;
    assert es[p[0]].v in s;
    forall x | x in s ensures HasPredIn(es, s, x) {
      var k :| 0 <= k < |p| && es[p[k]].v == x;
      var prev := if k == 0 then |p| - 1 else k - 1;
      assert es[p[prev]].v == es[p[k]].u;
      assert ZeroArc(es, es[p[k]].u, x);
    }
    assert IsCore(es, n, s);
  }

  /** A zero-register cycle makes the topological sort fail. */
  lemma ZeroCycleFailsSort(es: seq<Edge>, n: nat, p: seq<nat>)
    requires WellFormed(n, es) && IsCycle(es, p)
    requires forall k :: 0 <= k < |p| ==> es[p[k]].w == 0
    ensures TopoSort(es, n).blocked != {}
  {
    ZeroCycleIsCore(es, n, p);
  }

  /** A member of s whose lag is largest. */
  lemma {:induction false} LargestLagIn(s: set<nat>, d: seq<int>) returns (x: nat)
    requires s != {} && forall y :: y in s ==> y < |d|
    ensures x in s && forall y :: y in s ==> d[y] <= d[x]
    decreases s
  {
    var z :| z in s;
    if s == {z} {
      x := z;
    } else {
      var x' := LargestLagIn(s - {z}, d);
      x := if d[z] > d[x'] then z else x';
    }
  }

  /** Retiming a circuit with no negative wire creates no cyclic core. In a core of the
      retimed circuit, take the members of largest lag: a retimed wire y -> x with no
      register had d[y] - d[x] >= 0 registers before, so its source has the largest lag too
      and the wire carried none. Those members form a core of the circuit itself. */
  lemma RetimedCoreIsCore(es: seq<Edge>, n: nat, d: seq<int>)
    requires NonNegative(es) && |d| == n && LagFits(es, d) && HasCyclicCore(Retime(es, d), n)
    ensures HasCyclicCore(es, n)
  {
    var rs := Retime(es, d);
    var s :| IsCore(rs, n, s);
    var top := LargestLagIn(s, d);
    var s' := set x | x in s && x < |d| && d[x] == d[top];
    assert top in s';
    forall x | x in s' ensures HasPredIn(es, s', x) {
      assert HasPredIn(rs, s, x);
      var y :| y in s && ZeroArc(rs, y, x);
      var i :| 0 <= i < |rs| && rs[i].u == y && rs[i].v == x && rs[i].w == 0;
      assert es[i].w >= 0 && rs[i].w == es[i].w + d[x] - d[y];
      assert ZeroArc(es, y, x);
      assert y in s';
    }
    assert IsCore(es, n, s');
  }
}
