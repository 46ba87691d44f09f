/** The older engine of src/opt/opt.py's predecessor, src/opt/opt1.py (class OPT1): W and D
    are dicts of dicts keyed by node, the search list holds two-field slots, the
    feasibility check is the constraint graph with Bellman-Ford, and the retiming is
    written as attributes of a copy of the circuit. */
module Opt1Engine {
  import opened CircuitGraph
  import opened ShortestPaths
  import opened Constraints
  import opened Candidates

  /** A Python value held in a slot: an int, a bool, or None. */
  datatype PyVal = Int(i: int) | Bool(b: bool) | NoneVal

  /** A slot of the search list: a pair `(first, second)`. */
  datatype Pair = Pair(first: PyVal, second: PyVal)

  /** W or D: a dict of dicts keyed by node. */
  type Table = map<nat, map<nat, int>>

  /** The number Python compares a value as: a bool counts as 0 or 1; None is no number. */
  function Numeric(x: PyVal): Option<int> {
    match x
    case Int(i) => Some(i)
    case Bool(b) => Some(if b then 1 else 0)
    case NoneVal => None
  }

  /** The clock the constraints are built for (any value when there is no pair to compare). */
  function ClockValue(x: PyVal): int {
    if Numeric(x).Some? then Numeric(x).value else 0
  }

  /** `m[a][b]`, raising KeyError for a missing key. */
  function Lookup(m: Table, a: nat, b: nat): Result<int> {
    if a in m && b in m[a] then Success(m[a][b]) else Failure(KeyMissing)
  }

  /** The table has an entry for every ordered pair of nodes. */
  predicate Total(m: Table, n: nat) {
    forall a :: 0 <= a < n ==> a in m && forall b :: 0 <= b < n ==> b in m[a]
  }

  /** The table as an n x n matrix; a pair without an entry reads 0. */
  function Dense(m: Table, n: nat): (r: seq<seq<int>>)
    ensures Square(r, n)
  {
    seq(n, a => seq(n, b => if a in m && b in m[a] then m[a][b] else 0))
  }

  /** Every value stored in the dict of dicts. */
  function Values(m: Table): set<int> {
    set a, b | a in m && b in m[a] :: m[a][b]
  }

  /** `_create_d_range`: the values of D, sorted, each once. */
  function DRange(D: Table): (r: seq<int>)
    ensures StrictlyIncreasing(r)
    ensures forall x :: x in r <==> exists a, b :: a in D && b in D[a] && D[a][b] == x
  {
    var vals := Values(D);
    var r := SortedDistinct(vals);
    assert forall x :: x in vals <==> exists a, b :: a in D && b in D[a] && D[a][b] == x;
    r
  }

  /** The pair loop at (src, t): D[src][t] is looked up and compared with the clock; only
      when it exceeds the clock is W[src][t] looked up and the arc t -> src added. */
  function PairStep(W: Table, D: Table, clock: PyVal, src: nat, t: nat): Result<seq<Arc>> {
    match Lookup(D, src, t)
    case Failure(f) => Failure(f)
    case Success(delay) =>
      match Numeric(clock)
      case None => Failure(NotComparable)
      case Some(c) =>
        if delay > c then
          match Lookup(W, src, t)
          case Failure(f) => Failure(f)
          case Success(w) => Success([Arc(t, src, w - 1)])
        else Success([])
  }

  /** The pair loop for source src and targets 0..t-1; the first raising pair stops it. */
  function PairRow(W: Table, D: Table, clock: PyVal, src: nat, t: nat): Result<seq<Arc>> {
    if t == 0 then Success([])
    else match PairRow(W, D, clock, src, t - 1)
      case Failure(f) => Failure(f)
      case Success(pre) =>
        match PairStep(W, D, clock, src, t - 1)
        case Failure(f) => Failure(f)
        case Success(x) => Success(pre + x)
  }

  /** The pair loop over `itertools.product(nodes, nodes)` for sources 0..s-1. */
  function PairArcs(W: Table, D: Table, clock: PyVal, n: nat, s: nat): Result<seq<Arc>> {
    if s == 0 then Success([])
    else match PairArcs(W, D, clock, n, s - 1)
      case Failure(f) => Failure(f)
      case Success(pre) =>
        match PairRow(W, D, clock, s - 1, n)
        case Failure(f) => Failure(f)
        case Success(row) => Success(pre + row)
  }

  /** A row that raises nothing adds the arcs of the matrix construction. */
  lemma {:induction false} PairRowMeaning(W: Table, D: Table, clock: PyVal, n: nat, src: nat, t: nat)
    requires src < n && t <= n && PairRow(W, D, clock, src, t).Success?
    ensures PairRow(W, D, clock, src, t).value == RowArcs(Dense(W, n), Dense(D, n), n, ClockValue(clock), src, t)
  {
    if t > 0 {
      PairRowMeaning(W, D, clock, n, src, t - 1);
    }
  }

  /** With both tables total and a numeric clock no row raises. */
  lemma {:induction false} PairRowTotal(W: Table, D: Table, clock: PyVal, n: nat, src: nat, t: nat)
    requires src < n && t <= n && Total(W, n) && Total(D, n) && Numeric(clock).Some?
    ensures PairRow(W, D, clock, src, t).Success?
  {
    if t > 0 {
      PairRowTotal(W, D, clock, n, src, t - 1);
    }
  }

  /** The pair arcs of opt1.py, when nothing raises, are those of the matrix construction. */
  lemma {:induction false} PairArcsMeaning(W: Table, D: Table, clock: PyVal, n: nat, s: nat)
    requires s <= n && PairArcs(W, D, clock, n, s).Success?
    ensures PairArcs(W, D, clock, n, s).value == ProductArcs(Dense(W, n), Dense(D, n), n, ClockValue(clock), s)
  {
    if s > 0 {
      PairArcsMeaning(W, D, clock, n, s - 1);
      PairRowMeaning(W, D, clock, n, s - 1, n);
    }
  }

  /** With both tables total and a numeric clock the pair loop raises nothing. */
  lemma {:induction false} PairArcsTotal(W: Table, D: Table, clock: PyVal, n: nat, s: nat)
    requires s <= n && Total(W, n) && Total(D, n) && Numeric(clock).Some?
    ensures PairArcs(W, D, clock, n, s).Success?
  {
    if s > 0 {
      PairArcsTotal(W, D, clock, n, s - 1);
      PairRowTotal(W, D, clock, n, s - 1, n);
    }
  }

  /** A row over a D with all its keys, probed with None, raises at its first comparison. */
  lemma {:induction false} NoneRowFails(W: Table, D: Table, n: nat, src: nat, t: nat)
    requires Total(D, n) && src < n && 0 < t <= n
    ensures PairRow(W, D, NoneVal, src, t) == Failure(NotComparable)
  {
    if t > 1 {
      NoneRowFails(W, D, n, src, t - 1);
    }
  }

  /** Checking the clock None raises TypeError as soon as there is a node. */
  lemma NoneClockFails(W: Table, D: Table, n: nat)
    requires Total(D, n) && n > 0
    ensures PairArcs(W, D, NoneVal, n, n) == Failure(NotComparable)
  {
    NoneRowFails(W, D, n, 0, n);
    assert PairArcs(W, D, NoneVal, n, 1) == Failure(NotComparable);
    NoneStaysFailed(W, D, n, n);
  }

  lemma {:induction false} NoneStaysFailed(W: Table, D: Table, n: nat, s: nat)
    requires 0 < s <= n && PairArcs(W, D, NoneVal, n, 1) == Failure(NotComparable)
    ensures PairArcs(W, D, NoneVal, n, s) == Failure(NotComparable)
  {
    if s > 1 {
      NoneStaysFailed(W, D, n, s - 1);
    }
  }

  /** The node attribute `lag`: `retimings[node]` for every node, which raises TypeError on
      None and KeyError on a node the dict lacks (a dict with keys 0..|s|-1 is Some(s)). */
  function NodeLags(retimings: Option<seq<int>>, n: nat): (r: Result<seq<int>>)
  {
    match retimings
    case None => if n == 0 then Success([]) else Failure(NotSubscriptable)
    case Some(s) => if n <= |s| then Success(s[..n]) else Failure(KeyMissing)
  }

  /** The edge attribute `registers` of each wire u -> v: W[u][v] + r(v) - r(u), the first
      wire without a W entry raising KeyError. */
  function RegisterCounts(es: seq<Edge>, W: Table, lags: seq<int>): Result<seq<int>>
    requires LagFits(es, lags)
  {
    if es == [] then Success([])
    else
      var e := es[|es| - 1];
      match RegisterCounts(es[..|es| - 1], W, lags)
      case Failure(f) => Failure(f)
      case Success(pre) =>
        match Lookup(W, e.u, e.v)
        case Failure(f) => Failure(f)
        case Success(w) => Success(pre + [w + lags[e.v] - lags[e.u]])
  }

  /** The counts written have W[u][v] where the retimed wire has its own count: each
      differs from the retimed wire's count by W[u][v] - w(u, v), and the counts are
      written exactly when W has an entry for every wire. */
  lemma {:induction false} RegistersAgainstRetime(es: seq<Edge>, W: Table, lags: seq<int>)
    requires LagFits(es, lags)
    ensures RegisterCounts(es, W, lags).Success? <==> forall i :: 0 <= i < |es| ==> Lookup(W, es[i].u, es[i].v).Success?
    ensures RegisterCounts(es, W, lags).Success? ==>
      var counts := RegisterCounts(es, W, lags).value;
      |counts| == |es| && forall i :: 0 <= i < |es| ==>
        counts[i] == Retime(es, lags)[i].w + W[es[i].u][es[i].v] - es[i].w
  {
    if es != [] {
      var pre := es[..|es| - 1];
      assert forall i :: 0 <= i < |pre| ==> pre[i] == es[i];
      RegistersAgainstRetime(pre, W, lags);
    }
  }

  /** The circuit 0 -> 1 (2 registers), 0 -> 2 and 2 -> 1 (none), whose W[0][1] is 0 through
      node 2: with zero lags the wire 0 -> 1 is written with 0 registers although the
      retimed circuit keeps its 2. */
  lemma PathRegistersMisreported()
    ensures var es := [Edge(0, 1, 2), Edge(0, 2, 0), Edge(2, 1, 0)];
      var W := map[0 := map[1 := 0, 2 := 0], 2 := map[1 := 0]];
      RegisterCounts(es, W, [0, 0, 0]) == Success([0, 0, 0]) && Retime(es, [0, 0, 0])[0].w == 2
  {
    var es, W, lags := [Edge(0, 1, 2), Edge(0, 2, 0), Edge(2, 1, 0)], map[0 := map[1 := 0, 2 := 0], 2 := map[1 := 0]], [0, 0, 0];
    FirstTwoMisreported();
    assert es[..2] == [Edge(0, 1, 2), Edge(0, 2, 0)];
    assert RegisterCounts(es, W, lags).value == [0, 0] + [W[2][1] + lags[1] - lags[2]] == [0, 0, 0];
  }

  lemma FirstTwoMisreported()
    ensures RegisterCounts([Edge(0, 1, 2), Edge(0, 2, 0)], map[0 := map[1 := 0, 2 := 0], 2 := map[1 := 0]], [0, 0, 0]) == Success([0, 0])
  {
    var W, lags := map[0 := map[1 := 0, 2 := 0], 2 := map[1 := 0]], [0, 0, 0];
    var one, two := [Edge(0, 1, 2)], [Edge(0, 1, 2), Edge(0, 2, 0)];
    assert one[..0] == [] && two[..1] == one;
    assert RegisterCounts(one, W, lags).Success? && RegisterCounts(one, W, lags).value == [] + [W[0][1] + lags[1] - lags[0]] == [0];
    assert RegisterCounts(two, W, lags).value == [0] + [W[0][2] + lags[2] - lags[0]] == [0, 0];
  }

  /** The probe at index mid (Python's, a negative index counting from the end) found its
      clock feasible, and the slot at index mid - 1 holds False. */
  predicate ProbeWon(s: seq<Pair>, mid: int) {
    -|s| < mid < |s| && s[mid % |s|].second == Bool(true) && s[(mid - 1) % |s|].second == Bool(false)
  }

  /** No slot holds an int in its second field. */
  predicate NoIntSeconds(s: seq<Pair>) {
    forall i :: 0 <= i < |s| ==> !s[i].second.Int?
  }

  class Opt1 {
    const n: nat
    const graph: seq<Edge>
    const W: Table
    const D: Table
    var minClock: PyVal
    var dRange: seq<int>
    /** The result map of the last check kept: None, or a dict keyed by 0..|s|-1 as Some(s). */
    var retimings: Option<seq<int>>
    /** Node attribute `lag` of `retimed_graph` (empty before it is written). */
    var lag: seq<int>
    /** Edge attribute `registers` of `retimed_graph`, one per wire of `graph`. */
    var registers: seq<int>

    /** A DiGraph on nodes 0..n-1. */
    predicate Valid() {
      WellFormed(n, graph)
    }

    /** `__init__`: clock 0, no candidates, an empty retiming dict. */
    constructor (n: nat, graph: seq<Edge>, W: Table, D: Table)
      requires WellFormed(n, graph)
      ensures Valid() && this.n == n && this.graph == graph && this.W == W && this.D == D
      ensures minClock == Int(0) && dRange == [] && retimings == Some([]) && lag == [] && registers == []
    {
      this.n, this.graph, this.W, this.D := n, graph, W, D;
      minClock, dRange, retimings, lag, registers := Int(0), [], Some([]), [], [];
    }

    /** `_check_clock_feasibility`: the constraint graph of the clock, then Bellman-Ford from
        the extra node. A lookup or comparison the pair loop cannot make raises; otherwise
        the verdict is whether the clock admits a retiming, and the lags are the distances. */
    method CheckClockFeasibility(clock: PyVal) returns (r: Result<(bool, Option<seq<int>>)>)
      requires Valid()
      ensures r.Failure? <==> PairArcs(W, D, clock, n, n).Failure?
      ensures r.Failure? ==> r.fault == PairArcs(W, D, clock, n, n).fault
      ensures Total(W, n) && Total(D, n) && Numeric(clock).Some? ==> r.Success?
      ensures r.Success? ==> (r.value.0 <==> ClockFeasible(n, graph, Dense(W, n), Dense(D, n), ClockValue(clock)))
      ensures r.Success? && r.value.0 ==> r.value.1.Some? && |r.value.1.value| == n
      ensures r.Success? && r.value.0 && r.value.1.Some? && |r.value.1.value| == n ==>
        ClockConstraints(n, graph, Dense(W, n), Dense(D, n), ClockValue(clock), r.value.1.value, 0)
      ensures r.Success? && !r.value.0 ==> r.value.1.None?
    {
      var arcs := PairArcs(W, D, clock, n, n);
      if Total(W, n) && Total(D, n) && Numeric(clock).Some? {
        PairArcsTotal(W, D, clock, n, n);
      }
      if arcs.Failure? {
        return Failure(arcs.fault);
      }
      PairArcsMeaning(W, D, clock, n, n);
      var feasible, lags := SolveConstraints(n, graph, Dense(W, n), Dense(D, n), ClockValue(clock), arcs.value);
      r := Success((feasible, lags));
    }

    /** What `_check_clock_feasibility` decides for a clock: the fault of the pair loop when
        it raises, otherwise whether the clock admits a retiming. */
    ghost function Verdict(clock: PyVal): Result<bool>
      requires Valid()
    {
      match PairArcs(W, D, clock, n, n)
      case Failure(f) => Failure(f)
      case Success(_) => Success(ClockFeasible(n, graph, Dense(W, n), Dense(D, n), ClockValue(clock)))
    }

    /** One probe of `binary_search_recursive` at index mid (Python wrapping a negative index
        to the end): slot mid is overwritten with (its second field, the verdict of its first);
        when the predecessor slot mid - 1 has None second, its first field is checked and slot
        mid is overwritten again with (its second field, that verdict). An index outside the
        list raises IndexError. */
    method Probe(a: array<Pair>, mid: int) returns (r: Result<(bool, Option<seq<int>>)>)
      requires Valid()
      modifies a
      ensures r.Success? ==> -a.Length < mid < a.Length
      ensures !(-a.Length <= mid < a.Length) ==> r == Failure(IndexOutOfRange) && a[..] == old(a[..])
      ensures -a.Length <= mid < a.Length ==>
        var at, before := mid % a.Length, (mid - 1) % a.Length;
        var v := Verdict(old(a[at]).first);
        && (v.Failure? ==> r == Failure(v.fault) && a[..] == old(a[..]))
        && (v.Success? ==>
          var written := old(a[..])[at := Pair(old(a[at]).second, Bool(v.value))];
          if mid == -a.Length then r == Failure(IndexOutOfRange) && a[..] == written
          else if written[before].second != NoneVal then r.Success? && r.value.0 == v.value && a[..] == written
          else
            var p := Verdict(written[before].first);
            && (p.Failure? ==> r == Failure(p.fault) && a[..] == written)
            && (p.Success? ==> r.Success? && r.value.0 == v.value && a[..] == written[at := Pair(Bool(v.value), Bool(p.value))]))
      ensures r.Success? && r.value.0 ==> r.value.1.Some?
      ensures r.Success? && a[(mid - 1) % a.Length].second == Bool(false) ==> a[mid % a.Length].second == Bool(r.value.0)
      ensures NoIntSeconds(old(a[..])) ==> NoIntSeconds(a[..])
      ensures NoIntSeconds(old(a[..])) && r.Success? ==> !a[mid % a.Length].first.Int?
    {
      if !(-a.Length <= mid < a.Length) {
        return Failure(IndexOutOfRange);
      }
      var at := mid % a.Length;
      var probe := CheckClockFeasibility(a[at].first);
      if probe.Failure? {
        return Failure(probe.fault);
      }
      a[at] := Pair(a[at].second, Bool(probe.value.0));
      if !(-a.Length <= mid - 1 < a.Length) {
        return Failure(IndexOutOfRange);
      }
      var before := (mid - 1) % a.Length;
      if a[before].second == NoneVal {
        var pred := CheckClockFeasibility(a[before].first);
        if pred.Failure? {
          return Failure(pred.fault);
        }
        a[at] := Pair(a[at].second, Bool(pred.value.0));
      }
      r := probe;
    }

    /** `binary_search_recursive` as written. It returns True, recording slot mid's first
        field as the clock and the probe's lags, only from a feasible probe whose predecessor
        slot holds False; since a probe moves the slot's old second field into its first,
        the recorded clock is never one of the candidates. */
    method BinarySearchRecursive(a: array<Pair>, start: int, end: int) returns (r: Result<bool>)
      requires Valid()
      modifies a, this`minClock, this`retimings
      ensures start > end ==> r == Success(false) && a[..] == old(a[..])
      ensures r != Success(true) ==> minClock == old(minClock) && retimings == old(retimings)
      ensures r == Success(true) ==> retimings.Some? && exists i :: ProbeWon(a[..], i) && minClock == a[i % a.Length].first
      ensures NoIntSeconds(old(a[..])) ==> NoIntSeconds(a[..]) && (r == Success(true) ==> !minClock.Int?)
      decreases if start > end then 0 else end - start + 1
    {
      if start > end {
        return Success(false);
      }
      var mid := (start + end) / 2;
      var probe := Probe(a, mid);
      if probe.Failure? {
        return Failure(probe.fault);
      }
      var feasible, at, before := probe.value.0, mid % a.Length, (mid - 1) % a.Length;
      if feasible {
        if a[before].second == Bool(false) {
          minClock := a[at].first;
          retimings := probe.value.1;
          assert ProbeWon(a[..], mid);
          return Success(true);
        }
        r := BinarySearchRecursive(a, start, mid - 1);
      } else {
        r := BinarySearchRecursive(a, mid + 1, end);
      }
    }

    /** `_search_min_clock`: a slot (clock, None) per candidate, the search over [0, len],
        whose outcome is dropped, then the retimings of the check at clock 13. */
    method SearchMinClock() returns (r: Result<()>)
      requires Valid()
      modifies this`minClock, this`retimings
      ensures minClock == old(minClock) || !minClock.Int?
      ensures r.Success? ==> PairArcs(W, D, Int(13), n, n).Success?
      ensures r.Success? ==> (retimings.Some? <==> ClockFeasible(n, graph, Dense(W, n), Dense(D, n), 13))
      ensures r.Success? && retimings.Some? ==> |retimings.value| == n
      ensures r.Success? && retimings.Some? && |retimings.value| == n ==>
        ClockConstraints(n, graph, Dense(W, n), Dense(D, n), 13, retimings.value, 0)
    {
      var cands := dRange;
      var init := seq(|cands|, i requires 0 <= i < |cands| => Pair(Int(cands[i]), NoneVal));
      var slots := new Pair[|init|](i requires 0 <= i < |init| => init[i]);
      assert NoIntSeconds(slots[..]);
      var found := BinarySearchRecursive(slots, 0, slots.Length);
      if found.Failure? {
        return Failure(found.fault);
      }
      var check := CheckClockFeasibility(Int(13));
      if check.Failure? {
        return Failure(check.fault);
      }
      retimings := check.value.1;
      r := Success(());
    }

    /** `_apply_retiming` on the copy `retimed_graph`: first every node's `lag`, then every
        wire's `registers` count, with W[u][v] as its base; `graph` is left as it was. */
    method ApplyRetiming() returns (r: Result<()>)
      requires Valid()
      modifies this`lag, this`registers
      ensures NodeLags(retimings, n).Failure? ==> r == Failure(NodeLags(retimings, n).fault) && lag == old(lag) && registers == old(registers)
      ensures NodeLags(retimings, n).Success? ==> lag == NodeLags(retimings, n).value
      ensures r.Failure? ==> registers == old(registers)
      ensures r.Success? ==> |lag| == n && LagFits(graph, lag) && |registers| == |graph|
      ensures r.Success? && LagFits(graph, lag) && |registers| == |graph| ==> forall i :: 0 <= i < |graph| ==>
        Lookup(W, graph[i].u, graph[i].v).Success?
        && registers[i] == Retime(graph, lag)[i].w + Lookup(W, graph[i].u, graph[i].v).value - graph[i].w
      ensures NodeLags(retimings, n).Success? ==>
        (r.Success? <==> forall i :: 0 <= i < |graph| ==> Lookup(W, graph[i].u, graph[i].v).Success?)
    {
      var lags := NodeLags(retimings, n);
      if lags.Failure? {
        return Failure(lags.fault);
      }
      lag := lags.value;
      var counts := RegisterCounts(graph, W, lag);
      RegistersAgainstRetime(graph, W, lag);
      if counts.Failure? {
        return Failure(counts.fault);
      }
      registers := counts.value;
      r := Success(());
    }

    /** `opt`: the candidates, the search, and the retiming written to the copy. */
    method Opt() returns (r: Result<()>)
      requires Valid()
      modifies this
      ensures dRange == DRange(D)
      ensures minClock == old(minClock) || !minClock.Int?
      ensures r.Success? ==> (retimings.Some? <==> ClockFeasible(n, graph, Dense(W, n), Dense(D, n), 13))
      ensures r.Success? ==> NodeLags(retimings, n) == Success(lag) && LagFits(graph, lag) && |registers| == |graph|
      ensures r.Success? && LagFits(graph, lag) && |registers| == |graph| ==> forall i :: 0 <= i < |graph| ==>
        Lookup(W, graph[i].u, graph[i].v).Success?
        && registers[i] == Retime(graph, lag)[i].w + Lookup(W, graph[i].u, graph[i].v).value - graph[i].w
    {
      dRange := DRange(D);
      r := SearchMinClock();
      if r.Failure? {
        return;
      }
      r := ApplyRetiming();
    }
  }
}
