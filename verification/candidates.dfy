/** The candidate clock periods: the distinct values of D, in increasing order
    (np.sort(np.unique(...)) in opt.py, sorted(list(set(...))) in opt1.py). */
module Candidates {

  predicate StrictlyIncreasing(s: seq<int>) {
    forall i, j :: 0 <= i < j < |s| ==> s[i] < s[j]
  }

  /** A smallest element exists in every non-empty finite set of integers. */
  lemma {:induction false} HasLeast(s: set<int>)
    requires s != {}
    ensures exists m :: m in s && forall y :: y in s ==> m <= y
    decreases |s|
  {
    if forall y :: y !in s {
      assert false;
    }
    var x :| x in s;
    var rest := s - {x};
    if rest == {} {
      assert s == {x};
    } else {
      HasLeast(rest);
      var m :| m in rest && forall y :: y in rest ==> m <= y;
      var best := if x < m then x else m;
      assert forall y :: y in s ==> y == x || y in rest;
      assert best in s && forall y :: y in s ==> best <= y;
    }
  }

  /** The least element of a non-empty set (uniquely determined). */
  function Least(s: set<int>): (m: int)
    requires s != {}
    ensures m in s && forall y :: y in s ==> m <= y
  {
    HasLeast(s);
    var m :| m in s && forall y :: y in s ==> m <= y; m
  }

  /** The elements of s, each once, in increasing order. */
  function SortedDistinct(s: set<int>): (r: seq<int>)
    ensures StrictlyIncreasing(r)
    ensures forall x :: x in r <==> x in s
    ensures |r| == |s|
    decreases |s|
  {
    if s == {} then []
    else
      var m := Least(s);
      var rest := SortedDistinct(s - {m});
      assert forall x :: x in rest ==> m < x;
      [m] + rest
  }

  /** Every entry of a (possibly ragged) matrix, as a set. */
  function MatrixValues(d: seq<seq<int>>): (vals: set<int>)
  {
    set i, j | 0 <= i < |d| && 0 <= j < |d[i]| :: d[i][j]
  }
}
