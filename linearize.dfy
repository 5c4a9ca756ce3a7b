/**
 * linearize_section and reduce_sections from server/img_to_points.py: a
 * section is thinned to the points where the line through the last kept
 * point and the current point fits the points in between badly, and a
 * bisection on the error threshold aims the total point count at a budget.
 */
module Linearize {
  import opened Grid
  import opened Wrappers

  /** Python's error when indexing an empty list. */
  datatype PyError = IndexError

  /** The sum over pts of (a*x + b - y)^2. */
  function SumSquares(pts: seq<Cell>, a: real, b: real): (r: real)
    ensures r >= 0.0
  {
    if pts == [] then 0.0
    else
      var p := pts[|pts| - 1];
      var e := a * (p.0 as real) + b - (p.1 as real);
      SumSquares(pts[..|pts| - 1], a, b) + e * e
  }

  /** The slope of the line through p and q. */
  function Slope(p: Cell, q: Cell): real
    requires p.0 != q.0
  {
    ((q.1 - p.1) as real) / ((q.0 - p.0) as real)
  }

  /** The intercept of the line of slope a through p. */
  function Intercept(p: Cell, a: real): real {
    (p.1 as real) - a * (p.0 as real)
  }

  /** np.mean of the squared residuals. */
  function MeanSquaredError(pts: seq<Cell>, a: real, b: real): (err: real)
    requires pts != []
    ensures err >= 0.0
  {
    SumSquares(pts, a, b) / (|pts| as real)
  }

  /**
   * The mean squared error of section[from..to] against the line through
   * section[from] and section[to] (to itself excluded, as the slice is).
   */
  function SegmentError(section: seq<Cell>, from: nat, to: nat): real
    requires from < to < |section| && section[from].0 != section[to].0
  {
    var a := Slope(section[from], section[to]);
    MeanSquaredError(section[from..to], a, Intercept(section[from], a))
  }

  /** Whether point `to` is kept when `from` is the last kept point. */
  predicate Keeps(section: seq<Cell>, threshold: real, from: nat, to: nat)
    requires from < to < |section|
  {
    section[from].0 != section[to].0 && SegmentError(section, from, to) >= threshold
  }

  /**
   * out is section thinned at threshold, kept at indices idx: the first and
   * last points are kept; each interior point is kept exactly when it Keeps
   * against the previously kept point.
   */
  ghost predicate Simplification(section: seq<Cell>, threshold: real, idx: seq<nat>, out: seq<Cell>)
  {
    |section| >= 2 && |idx| == |out| >= 2 &&
    idx[0] == 0 && idx[|idx| - 1] == |section| - 1 &&
    (forall k :: 0 <= k < |idx| - 1 ==> idx[k] < idx[k + 1]) &&
    (forall k :: 0 <= k < |idx| ==> idx[k] < |section| && out[k] == section[idx[k]]) &&
    (forall k :: 0 < k < |idx| - 1 ==> idx[k - 1] < idx[k] < |section| && Keeps(section, threshold, idx[k - 1], idx[k])) &&
    (forall k, j :: 0 <= k < |idx| - 1 && idx[k] < j < idx[k + 1] ==> idx[k] < j < |section| && !Keeps(section, threshold, idx[k], j))
  }

  ghost predicate IsSimplification(section: seq<Cell>, threshold: real, out: seq<Cell>) {
    exists idx :: Simplification(section, threshold, idx, out)
  }

  /** What linearize_section returns for a non-empty section. */
  ghost predicate Linearized(section: seq<Cell>, threshold: real, out: seq<Cell>) {
    (|section| == 1 && out == [section[0], section[0]]) ||
    (|section| >= 2 && IsSimplification(section, threshold, out))
  }

  /**
   * The state of linearize_section before interior index i: the points kept
   * so far at indices idx, the last of them at lastAdded, and every index
   * between it and i skipped.
   */
  ghost predicate Progress(section: seq<Cell>, threshold: real, idx: seq<nat>, reduced: seq<Cell>, lastAdded: nat, i: nat)
  {
    lastAdded < i <= |section| &&
    |idx| == |reduced| >= 1 && idx[0] == 0 && idx[|idx| - 1] == lastAdded &&
    (forall k :: 0 <= k < |idx| - 1 ==> idx[k] < idx[k + 1]) &&
    (forall k :: 0 <= k < |idx| ==> idx[k] <= lastAdded && reduced[k] == section[idx[k]]) &&
    (forall k :: 0 < k < |idx| ==> idx[k - 1] < idx[k] < |section| && Keeps(section, threshold, idx[k - 1], idx[k])) &&
    (forall k, j :: 0 <= k < |idx| - 1 && idx[k] < j < idx[k + 1] ==> idx[k] < j < |section| && !Keeps(section, threshold, idx[k], j)) &&
    (forall j :: lastAdded < j < i ==> !Keeps(section, threshold, lastAdded, j))
  }

  lemma ProgressSkip(section: seq<Cell>, threshold: real, idx: seq<nat>, reduced: seq<Cell>, lastAdded: nat, i: nat)
    requires Progress(section, threshold, idx, reduced, lastAdded, i) && i < |section|
    requires !Keeps(section, threshold, lastAdded, i)
    ensures Progress(section, threshold, idx, reduced, lastAdded, i + 1)
  {
  }

  lemma ProgressKeep(section: seq<Cell>, threshold: real, idx: seq<nat>, reduced: seq<Cell>, lastAdded: nat, i: nat)
    requires Progress(section, threshold, idx, reduced, lastAdded, i) && i < |section|
    requires Keeps(section, threshold, lastAdded, i)
    ensures Progress(section, threshold, idx + [i], reduced + [section[i]], i, i + 1)
  {
    var idx' := idx + [i];
    forall k, j | 0 <= k < |idx'| - 1 && idx'[k] < j < idx'[k + 1]
      ensures idx'[k] < j < |section| && !Keeps(section, threshold, idx'[k], j)
    {
      if k == |idx| - 1 {
        assert idx'[k] == lastAdded;
      }
    }
  }

  lemma ProgressSingle(section: seq<Cell>, threshold: real, idx: seq<nat>, reduced: seq<Cell>, lastAdded: nat, i: nat)
    requires |section| == 1 && i <= 1 && Progress(section, threshold, idx, reduced, lastAdded, i)
    ensures reduced == [section[0]]
  {
    SimplificationIndexBound(idx, |idx| - 1);
  }

  lemma ProgressFinish(section: seq<Cell>, threshold: real, idx: seq<nat>, reduced: seq<Cell>, lastAdded: nat)
    requires |section| >= 2 && Progress(section, threshold, idx, reduced, lastAdded, |section| - 1)
    ensures Simplification(section, threshold, idx + [|section| - 1], reduced + [section[|section| - 1]])
  {
    var idx' := idx + [|section| - 1];
    forall k, j | 0 <= k < |idx'| - 1 && idx'[k] < j < idx'[k + 1]
      ensures idx'[k] < j < |section| && !Keeps(section, threshold, idx'[k], j)
    {
      if k == |idx| - 1 {
        assert idx'[k] == lastAdded;
      }
    }
  }

  /**
   * One iteration of linearize_section's loop: skip point i if it has the
   * x of the last kept point, else keep it when the mean squared error of
   * the points from the last kept one up to i reaches the threshold.
   */
  method ConsiderPoint(section: seq<Cell>, mseThreshold: real, reduced: seq<Cell>, ghost idx: seq<nat>, lastAdded: nat, i: nat)
    returns (reduced': seq<Cell>, ghost idx': seq<nat>, lastAdded': nat)
    requires i < |section| && Progress(section, mseThreshold, idx, reduced, lastAdded, i)
    ensures Progress(section, mseThreshold, idx', reduced', lastAdded', i + 1)
    ensures if Keeps(section, mseThreshold, lastAdded, i) then reduced' == reduced + [section[i]] && lastAdded' == i
            else reduced' == reduced && lastAdded' == lastAdded
  {
    var prev := section[lastAdded];
    var cur := section[i];
    if prev.0 == cur.0 {
      ProgressSkip(section, mseThreshold, idx, reduced, lastAdded, i);
      return reduced, idx, lastAdded;
    }
    var a := Slope(prev, cur);
    var b := Intercept(prev, a);
    var err := MeanSquaredError(section[lastAdded..i], a, b);
    if err >= mseThreshold {
      ProgressKeep(section, mseThreshold, idx, reduced, lastAdded, i);
      return reduced + [cur], idx + [i], i;
    }
    ProgressSkip(section, mseThreshold, idx, reduced, lastAdded, i);
    return reduced, idx, lastAdded;
  }

  /**
   * linearize_section: walk the interior points, skip any with the same x
   * as the last kept point, keep a point when the segment's mean squared
   * error reaches the threshold; then append the last point. An empty
   * section raises IndexError.
   */
  method LinearizeSection(section: seq<Cell>, mseThreshold: real) returns (r: Result<seq<Cell>, PyError>)
    ensures r.Failure? <==> section == []
    ensures r.Success? ==> Linearized(section, mseThreshold, r.value)
  {
    if |section| == 0 {
      return Failure(IndexError);
    }
    var reduced := [section[0]];
    ghost var idx: seq<nat> := [0];
    var lastAdded := 0;
    var i := 1;
    while i < |section| - 1
      invariant |section| >= 2 ==> i <= |section| - 1
      invariant Progress(section, mseThreshold, idx, reduced, lastAdded, i)
    {
      reduced, idx, lastAdded := ConsiderPoint(section, mseThreshold, reduced, idx, lastAdded, i);
      i := i + 1;
    }
    if |section| == 1 {
      ProgressSingle(section, mseThreshold, idx, reduced, lastAdded, i);
    } else {
      ProgressFinish(section, mseThreshold, idx, reduced, lastAdded);
    }
    reduced := reduced + [section[|section| - 1]];
    return Success(reduced);
  }

  /** The kept indices are strictly increasing, so the result is a subsequence. */
  lemma {:induction false} IndicesIncrease(idx: seq<nat>, k: nat, l: nat)
    requires forall m :: 0 <= m < |idx| - 1 ==> idx[m] < idx[m + 1]
    requires k < l < |idx|
    ensures idx[k] < idx[l]
    decreases l - k
  {
    if k + 1 < l {
      IndicesIncrease(idx, k + 1, l);
    }
  }

  /**
   * A simplification keeps the first and the last point, takes its points
   * from the section in order, and never keeps an interior point with the
   * same x as the point kept before it.
   */
  lemma SimplificationShape(section: seq<Cell>, threshold: real, out: seq<Cell>)
    requires IsSimplification(section, threshold, out)
    ensures 2 <= |out| <= |section|
    ensures out[0] == section[0] && out[|out| - 1] == section[|section| - 1]
    ensures forall p :: p in out ==> p in section
    ensures forall k :: 0 < k < |out| - 1 ==> out[k].0 != out[k - 1].0
  {
    var idx :| Simplification(section, threshold, idx, out);
    if |out| > |section| {
      IndicesIncrease(idx, 0, |section|);
      SimplificationIndexBound(idx, |section|);
    }
    forall p | p in out
      ensures p in section
    {
      var k :| 0 <= k < |out| && out[k] == p;
    }
  }

  lemma {:induction false} SimplificationIndexBound(idx: seq<nat>, k: nat)
    requires k < |idx| && idx[0] == 0
    requires forall m :: 0 <= m < |idx| - 1 ==> idx[m] < idx[m + 1]
    ensures idx[k] >= k
  {
    if k > 0 {
      SimplificationIndexBound(idx, k - 1);
    }
  }

  /**
   * The characterisation is complete: at one threshold a section has only
   * one simplification.
   */
  lemma SimplificationUnique(section: seq<Cell>, threshold: real, idx1: seq<nat>, out1: seq<Cell>, idx2: seq<nat>, out2: seq<Cell>)
    requires Simplification(section, threshold, idx1, out1)
    requires Simplification(section, threshold, idx2, out2)
    ensures idx1 == idx2 && out1 == out2
  {
    var n := if |idx1| < |idx2| then |idx1| else |idx2|;
    SameIndices(section, threshold, idx1, out1, idx2, out2, n - 1);
    if |idx1| < |idx2| {
      IndicesIncrease(idx2, n - 1, n);
    } else if |idx2| < |idx1| {
      IndicesIncrease(idx1, n - 1, n);
    }
  }

  lemma {:induction false} SameIndices(section: seq<Cell>, threshold: real, idx1: seq<nat>, out1: seq<Cell>, idx2: seq<nat>, out2: seq<Cell>, k: nat)
    requires Simplification(section, threshold, idx1, out1)
    requires Simplification(section, threshold, idx2, out2)
    requires k < |idx1| && k < |idx2|
    ensures forall m :: 0 <= m <= k ==> idx1[m] == idx2[m]
  {
    if k > 0 {
      SameIndices(section, threshold, idx1, out1, idx2, out2, k - 1);
      var p := idx1[k - 1];
      assert p == idx2[k - 1];
      assert idx1[k] == |section| - 1 || Keeps(section, threshold, p, idx1[k]);
      assert idx2[k] == |section| - 1 || Keeps(section, threshold, p, idx2[k]);
    }
  }

  /** The number of points over all sections. */
  function TotalPoints(ss: seq<seq<Cell>>): nat
  {
    if ss == [] then 0 else TotalPoints(ss[..|ss| - 1]) + |ss[|ss| - 1]|
  }

  /** The list comprehension [linearize_section(section, t) for section in sections]. */
  method LinearizeAll(sections: seq<seq<Cell>>, threshold: real) returns (r: Result<seq<seq<Cell>>, PyError>)
    ensures r.Failure? <==> exists k :: 0 <= k < |sections| && sections[k] == []
    ensures r.Success? ==> (|r.value| == |sections| &&
              forall k :: 0 <= k < |sections| ==> Linearized(sections[k], threshold, r.value[k]))
  {
    var out: seq<seq<Cell>> := [];
    for k := 0 to |sections|
      invariant |out| == k
      invariant forall m :: 0 <= m < k ==> sections[m] != [] && Linearized(sections[m], threshold, out[m])
    {
      var one := LinearizeSection(sections[k], threshold);
      if one.Failure? {
        return Failure(one.error);
      }
      out := out + [one.value];
    }
    return Success(out);
  }

  /**
   * reduce_sections: at most 100 bisection steps on the threshold in
   * [0, 10]; fewer points than the budget lowers the upper bound, more
   * raises the lower bound, and an exact hit stops. The result is the
   * linearization at the last threshold tried.
   */
  method ReduceSections(sections: seq<seq<Cell>>, pointsLimit: int)
    returns (r: Result<seq<seq<Cell>>, PyError>, ghost threshold: real, ghost lo: real, ghost hi: real, ghost steps: nat)
    ensures r.Failure? <==> exists k :: 0 <= k < |sections| && sections[k] == []
    ensures r.Success? ==> 0.0 <= lo <= threshold <= hi <= 10.0
    ensures r.Success? ==> (|r.value| == |sections| &&
              forall k :: 0 <= k < |sections| ==> Linearized(sections[k], threshold, r.value[k]))
    ensures r.Success? ==> 1 <= steps <= 100 && (steps < 100 ==> TotalPoints(r.value) == pointsLimit)
  {
    threshold, lo, hi, steps := 0.0, 0.0, 0.0, 0;
    var loBound: real := 0.0;
    var hiBound: real := 10.0;
    var mseThreshold: real := 5.0;
    var linearizedSections: seq<seq<Cell>> := [];
    var i := 0;
    while i < 100
      invariant 0 <= i <= 100
      invariant 0.0 <= loBound <= hiBound <= 10.0
      invariant i > 0 ==> loBound <= mseThreshold <= hiBound
      invariant i > 0 ==> (|linearizedSections| == |sections| &&
                  forall k :: 0 <= k < |sections| ==> Linearized(sections[k], mseThreshold, linearizedSections[k]))
      invariant i > 0 ==> forall k :: 0 <= k < |sections| ==> sections[k] != []
    {
      mseThreshold := (loBound + hiBound) / 2.0;
      var attempt := LinearizeAll(sections, mseThreshold);
      if attempt.Failure? {
        r := Failure(attempt.error);
        return;
      }
      linearizedSections := attempt.value;
      var nPoints := TotalPoints(linearizedSections);
      if nPoints < pointsLimit {
        hiBound := mseThreshold;
      } else if nPoints > pointsLimit {
        loBound := mseThreshold;
      } else {
        i := i + 1;
        break;
      }
      i := i + 1;
    }
    if |sections| == 0 {
      assert i > 0;
    }
    r := Success(linearizedSections);
    threshold, lo, hi, steps := mseThreshold, loBound, hiBound, i;
  }
}
