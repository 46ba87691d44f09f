/** The binary search of src/opt/opt.py over a fixed table of verdicts: v[i] is the
    feasibility of the i-th candidate clock. With a checker whose verdict for a clock
    never changes, the slot memo holds exactly these table entries, so this function
    is the search's outcome. */
module Search {
  import opened CircuitGraph

  /** Feasibility never turns off as the clock grows. */
  predicate Monotone(v: seq<bool>) {
    forall i, j :: 0 <= i <= j < |v| && v[i] ==> v[j]
  }

  /** What the recursion keeps true of its window [start, end]: everything left of it was
      probed infeasible, the entry at its right end (unless it is the last) probed feasible. */
  predicate Window(v: seq<bool>, start: int, end: int) {
    && 0 <= start <= end < |v|
    && (start == 0 || !v[start - 1])
    && (end == |v| - 1 || v[end])
  }

  /** `_binary_search_recursive`: the index of the reported clock, or -1 for (False, None). */
  function BinarySearch(v: seq<bool>, start: int, end: int): (k: int)
    requires Window(v, start, end)
    ensures k == -1 || start <= k <= end
    ensures k >= 0 ==> v[k] && (k == 0 || !v[k - 1])
    ensures k == -1 ==> !v[|v| - 1]
    decreases end - start
  {
    var mid := (start + end) / 2;
    if mid == 0 && v[mid] then mid
    else if mid == |v| - 1 && !v[mid] then -1
    else if v[mid] then
      if !v[mid - 1] then mid else BinarySearch(v, start, mid - 1)
    else BinarySearch(v, mid + 1, end)
  }

  /** k is the first feasible entry of the table. */
  predicate IsLeast(v: seq<bool>, k: int) {
    0 <= k < |v| && v[k] && forall j :: 0 <= j < k ==> !v[j]
  }

  /** The first entry of a monotone table whose predecessor is infeasible is its least feasible entry. */
  lemma FoundIsLeast(v: seq<bool>, k: int)
    requires Monotone(v) && 0 <= k < |v| && v[k] && (k == 0 || !v[k - 1])
    ensures forall i :: 0 <= i < |v| && v[i] ==> k <= i
  {
  }

  /** With a monotone checker the search returns the smallest feasible candidate,
      and reports (False, None) exactly when no candidate is feasible. */
  lemma SearchFindsLeast(v: seq<bool>)
    requires |v| > 0 && Monotone(v)
    ensures var k := BinarySearch(v, 0, |v| - 1);
      && (k >= 0 ==> v[k] && forall i :: 0 <= i < |v| && v[i] ==> k <= i)
      && (k == -1 <==> forall i :: 0 <= i < |v| ==> !v[i])
  {
    var k := BinarySearch(v, 0, |v| - 1);
    if k >= 0 {
      FoundIsLeast(v, k);
    }
  }

  /** How many nested calls the search makes at most on a window of `size` slots: each
      call halves the window. */
  function Depth(size: int): (d: nat)
    ensures d >= 1
    decreases size
  {
    if size <= 1 then 1 else 1 + Depth(size / 2)
  }

  lemma {:induction false} DepthMonotone(a: int, b: int)
    requires a <= b
    ensures Depth(a) <= Depth(b)
    decreases b
  {
    if a > 1 {
      DepthMonotone(a / 2, b / 2);
    }
  }

  /** Each recursive call works on at most half of the window, so it needs one call less. */
  lemma Halves(start: int, end: int, mid: int, start': int, end': int)
    requires start < end && mid == (start + end) / 2
    requires (start' == start && end' == mid - 1) || (start' == mid + 1 && end' == end)
    ensures Depth(end' - start' + 1) < Depth(end - start + 1)
  {
    var size := end - start + 1;
    assert end' - start' + 1 <= size / 2;
    DepthMonotone(end' - start' + 1, size / 2);
  }

  /** The recursive call on [lo, hi] keeps the window's invariant and needs one call less than the call on [start, end]. */
  predicate Progress(v: seq<bool>, start: int, end: int, lo: int, hi: int) {
    Window(v, lo, hi) && Depth(hi - lo + 1) < Depth(end - start + 1)
  }

  /** The search moves left when the middle entry and its predecessor are feasible, to a
      window that needs one call less. */
  lemma StepLeft(v: seq<bool>, start: int, end: int, mid: int)
    requires Window(v, start, end) && mid == (start + end) / 2
    requires !(mid == 0 && v[mid]) && v[mid] && v[mid - 1]
    ensures Progress(v, start, end, start, mid - 1)
  {
    Halves(start, end, mid, start, mid - 1);
  }

  /** The search moves right when the middle entry is infeasible and not the last, to a
      window that needs one call less. */
  lemma StepRight(v: seq<bool>, start: int, end: int, mid: int)
    requires Window(v, start, end) && mid == (start + end) / 2
    requires !(mid == |v| - 1 && !v[mid]) && !v[mid]
    ensures Progress(v, start, end, mid + 1, end)
  {
    Halves(start, end, mid, mid + 1, end);
  }

  /** CPython compares two ints with `is` by object identity, and only the ints from -5
      to 256 are shared objects; a computed int outside that range is a fresh object. */
  predicate IsSameInt(a: int, b: int) {
    a == b && -5 <= a <= 256
  }

  /** `_binary_search_recursive` as written, with `mid is len(clocks) - 1` an identity test,
      over a fixed table; the fuel is Python's recursion limit. */
  function SearchAsWritten(v: seq<bool>, start: int, end: int, fuel: nat): (r: Option<int>)
    requires 0 <= start <= |v| && 0 <= end < |v|
    decreases fuel
  {
    if fuel == 0 then None
    else
      var mid := (start + end) / 2;
      if mid == 0 && v[mid] then Some(mid)
      else if IsSameInt(mid, |v| - 1) && !v[mid] then Some(-1)
      else if v[mid] then
        if !v[mid - 1] then Some(mid) else SearchAsWritten(v, start, mid - 1, fuel - 1)
      else SearchAsWritten(v, mid + 1, end, fuel - 1)
  }

  /** With more than 257 candidates none of which is feasible, the search as written
      never reports (False, None): once it probes the last slot it keeps probing it
      until the recursion limit. */
  lemma {:induction false} AllInfeasibleNeverEnds(v: seq<bool>, start: int, fuel: nat)
    requires |v| > 257 && 0 <= start <= |v| && forall i :: 0 <= i < |v| ==> !v[i]
    ensures SearchAsWritten(v, start, |v| - 1, fuel) == None
    decreases fuel
  {
    if fuel > 0 {
      var mid := (start + |v| - 1) / 2;
      AllInfeasibleNeverEnds(v, mid + 1, fuel - 1);
    }
  }
}
