/** The circuit graph shared by every component: nodes 0..n-1, one wire per ordered
    pair of nodes, each wire carrying a register count, and the retiming of those
    counts by a lag vector. */
module CircuitGraph {

  datatype Option<T> = None | Some(value: T)

  /** The exceptions the source raises, as values. */
  datatype Fault =
    | CombinationalCycle   // networkx topological sort on a zero-register cycle
    | EmptyMax             // max() / np.max of an empty collection
    | IndexOutOfRange      // indexing a list or array past its end
    | KeyMissing           // dictionary lookup of an absent key
    | NotComparable        // comparing an int with None
    | NotSubscriptable     // indexing None
    | RecursionLimit       // Python's recursion limit

  datatype Result<T> = Success(value: T) | Failure(fault: Fault)

  /** A wire u -> v carrying w registers (the source's `wire_delay` attribute). */
  datatype Edge = Edge(u: nat, v: nat, w: int)

  /** Every endpoint is a node 0..n-1 and no ordered pair occurs twice, as in a DiGraph. */
  predicate WellFormed(n: nat, es: seq<Edge>) {
    && (forall i :: 0 <= i < |es| ==> es[i].u < n && es[i].v < n)
    && (forall i, j :: 0 <= i < j < |es| ==> (es[i].u, es[i].v) != (es[j].u, es[j].v))
  }

  /** The lag vector has an entry for both endpoints of every wire. */
  predicate LagFits(es: seq<Edge>, r: seq<int>) {
    forall i :: 0 <= i < |es| ==> es[i].u < |r| && es[i].v < |r|
  }

  /** No wire carries a negative register count. */
  predicate NonNegative(es: seq<Edge>) {
    forall i :: 0 <= i < |es| ==> es[i].w >= 0
  }

  /** The wire after retiming by r: w + r(v) - r(u). */
  function RetimeEdge(e: Edge, r: seq<int>): Edge
    requires e.u < |r| && e.v < |r|
  {
    e.(w := e.w + r[e.v] - r[e.u])
  }

  /** Every wire retimed by r, each from its own count before the update. */
  function Retime(es: seq<Edge>, r: seq<int>): seq<Edge>
    requires LagFits(es, r)
  {
    seq(|es|, i requires 0 <= i < |es| => RetimeEdge(es[i], r))
  }

  /** The all-zero lag vector (np.zeros). */
  function Zeros(n: nat): (z: seq<int>)
  {
    seq(n, _ => 0)
  }

  /** Element-wise sum of two lag vectors (np.add). */
  function Add(a: seq<int>, b: seq<int>): seq<int>
    requires |a| == |b|
  {
    seq(|a|, i requires 0 <= i < |a| => a[i] + b[i])
  }

  /** The lag vector that retimes the single node x by k and leaves every other node alone. */
  function NodeLag(n: nat, x: nat, k: int): seq<int>
  {
    seq(n, i => if i == x then k else 0)
  }

  /** A walk is a non-empty sequence of wire indices, each wire starting where the previous ends. */
  ghost predicate IsWalk(es: seq<Edge>, p: seq<nat>) {
    && |p| > 0
    && (forall k :: 0 <= k < |p| ==> p[k] < |es|)
    && (forall k :: 0 <= k < |p| - 1 ==> es[p[k]].v == es[p[k + 1]].u)
  }

  /** A directed cycle: a walk that ends where it started. */
  ghost predicate IsCycle(es: seq<Edge>, p: seq<nat>) {
    IsWalk(es, p) && es[p[|p| - 1]].v == es[p[0]].u
  }

  /** Total register count along a sequence of wires. */
  ghost function WalkSum(es: seq<Edge>, p: seq<nat>): int
    requires forall k :: 0 <= k < |p| ==> p[k] < |es|
  {
    if p == [] then 0 else es[p[0]].w + WalkSum(es, p[1..])
  }

  /** Retiming a walk changes its register count by r(end) - r(start), and nothing else. */
  lemma {:induction false} RetimeWalkSum(es: seq<Edge>, r: seq<int>, p: seq<nat>)
    requires LagFits(es, r) && IsWalk(es, p)
    ensures WalkSum(Retime(es, r), p) == WalkSum(es, p) + r[es[p[|p| - 1]].v] - r[es[p[0]].u]
  {
    if |p| > 1 {
      RetimeWalkSum(es, r, p[1..]);
      assert p[1..][0] == p[1];
      assert p[1..][|p[1..]| - 1] == p[|p| - 1];
    }
  }

  /** Retiming preserves the register count around every directed cycle. */
  lemma RetimeCycleSum(es: seq<Edge>, r: seq<int>, p: seq<nat>)
    requires LagFits(es, r) && IsCycle(es, p)
    ensures WalkSum(Retime(es, r), p) == WalkSum(es, p)
  {
    RetimeWalkSum(es, r, p);
  }

  /** Retiming by the zero vector is the identity. */
  lemma RetimeZeros(es: seq<Edge>, n: nat)
    requires LagFits(es, Zeros(n))
    ensures Retime(es, Zeros(n)) == es
  {
    assert forall i :: 0 <= i < |es| ==> Retime(es, Zeros(n))[i] == es[i];
  }

  /** Retiming twice is retiming once by the sum of the two lag vectors. */
  lemma RetimeTwice(es: seq<Edge>, a: seq<int>, b: seq<int>)
    requires |a| == |b| && LagFits(es, a)
    ensures LagFits(Retime(es, a), b) && LagFits(es, Add(a, b))
    ensures Retime(Retime(es, a), b) == Retime(es, Add(a, b))
  {
    assert forall i :: 0 <= i < |es| ==> Retime(Retime(es, a), b)[i] == Retime(es, Add(a, b))[i];
  }

  /** A retiming keeps every count non-negative exactly when it satisfies r(u) - r(v) <= w(u,v) on every wire. */
  lemma RetimeLegal(es: seq<Edge>, r: seq<int>)
    requires LagFits(es, r)
    ensures NonNegative(Retime(es, r)) <==> forall i :: 0 <= i < |es| ==> r[es[i].u] - r[es[i].v] <= es[i].w
  {
    if NonNegative(Retime(es, r)) {
      forall i | 0 <= i < |es| ensures r[es[i].u] - r[es[i].v] <= es[i].w {
        assert Retime(es, r)[i].w >= 0;
      }
    }
  }

  /** Retiming keeps every wire's endpoints, so it keeps the graph well formed. */
  lemma RetimeKeepsWires(n: nat, es: seq<Edge>, r: seq<int>)
    requires WellFormed(n, es) && |r| == n
    ensures LagFits(es, r) && |Retime(es, r)| == |es| && WellFormed(n, Retime(es, r))
    ensures forall i :: 0 <= i < |es| ==> Retime(es, r)[i].u == es[i].u && Retime(es, r)[i].v == es[i].v
  {
  }
}
