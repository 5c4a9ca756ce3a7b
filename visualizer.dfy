/**
 * Fit-to-window scaling of the debugging visualizer
 * (server/visualizer.py, scale_points): one factor, chosen so that the
 * larger of the two maxima fills the window, scales both coordinates.
 * The pygame event loop of that script is not part of this model.
 */
module Visualizer {
  import opened Wrappers

  type Point = (real, real)

  /** Python's exceptions on the error paths: max() of nothing, and float division by zero. */
  datatype PyError = EmptyMaxArgument | ZeroDivision

  /** Python's max over a non-empty sequence. */
  function Max(xs: seq<real>): (m: real)
    requires |xs| > 0
    ensures m in xs
    ensures forall k :: 0 <= k < |xs| ==> xs[k] <= m
  {
    if |xs| == 1 then xs[0]
    else
      var rest := Max(xs[1..]);
      if xs[0] >= rest then xs[0] else rest
  }

  function Xs(points: seq<Point>): (r: seq<real>)
    ensures |r| == |points|
  {
    seq(|points|, k requires 0 <= k < |points| => points[k].0)
  }

  function Ys(points: seq<Point>): (r: seq<real>)
    ensures |r| == |points|
  {
    seq(|points|, k requires 0 <= k < |points| => points[k].1)
  }

  function Min(a: real, b: real): real {
    if a <= b then a else b
  }

  /** Python's int() of a float: truncation toward zero. */
  function Trunc(r: real): (n: int)
    ensures 0.0 <= r ==> n as real <= r < n as real + 1.0
    ensures r < 0.0 ==> n as real - 1.0 < r <= n as real
  {
    if r >= 0.0 then r.Floor else -((-r).Floor)
  }

  /** One output point: both coordinates scaled by the same factor and truncated. */
  function Scaled(p: Point, s: real): (int, int) {
    (Trunc(p.0 * s), Trunc(p.1 * s))
  }

  /** The factor min(w / max_x, w / max_y); both maxima are non-zero here. */
  function ScaleFactor(points: seq<Point>, windowWidth: int): real
    requires |points| > 0 && Max(Xs(points)) != 0.0 && Max(Ys(points)) != 0.0
  {
    Min(windowWidth as real / Max(Xs(points)), windowWidth as real / Max(Ys(points)))
  }

  /**
   * scale_points. max() of an empty list raises, and so does dividing by a
   * zero maximum; otherwise every point, in order, is scaled by the one
   * factor and truncated toward zero.
   */
  function ScalePoints(points: seq<Point>, windowWidth: int): (r: Result<seq<(int, int)>, PyError>)
    ensures points == [] ==> r == Failure(EmptyMaxArgument)
    ensures points != [] ==> (r == Failure(ZeroDivision) <==> Max(Xs(points)) == 0.0 || Max(Ys(points)) == 0.0)
    ensures r.Success? ==> |r.value| == |points|
    ensures r.Success? ==> forall k :: 0 <= k < |points| ==>
              r.value[k] == Scaled(points[k], ScaleFactor(points, windowWidth))
  {
    if points == [] then Failure(EmptyMaxArgument)
    else
      var maxX := Max(Xs(points));
      var maxY := Max(Ys(points));
      if maxX == 0.0 || maxY == 0.0 then Failure(ZeroDivision)
      else
        var s := Min(windowWidth as real / maxX, windowWidth as real / maxY);
        Success(seq(|points|, k requires 0 <= k < |points| => Scaled(points[k], s)))
  }

  lemma MulMonotone(a: real, b: real, c: real)
    requires 0.0 <= c && a <= b
    ensures a * c <= b * c
  {
  }

  /** x * s stays within [0, w] when 0 <= x <= m, m > 0 and 0 <= s <= w / m. */
  lemma ScaledWithin(x: real, m: real, s: real, w: real)
    requires 0.0 <= x <= m && 0.0 < m && 0.0 <= w && 0.0 <= s <= w / m
    ensures 0.0 <= x * s <= w
  {
    MulMonotone(x, m, s);
    MulMonotone(s, w / m, m);
    assert (w / m) * m == w;
  }

  /** One non-negative point within the maxima lands inside the window. */
  lemma ScaledPointWithin(p: Point, maxX: real, maxY: real, s: real, windowWidth: int)
    requires 0.0 <= p.0 <= maxX && 0.0 <= p.1 <= maxY && 0.0 < maxX && 0.0 < maxY && 0 <= windowWidth
    requires 0.0 <= s <= windowWidth as real / maxX && s <= windowWidth as real / maxY
    ensures 0 <= Scaled(p, s).0 <= windowWidth && 0 <= Scaled(p, s).1 <= windowWidth
  {
    ScaledWithin(p.0, maxX, s, windowWidth as real);
    ScaledWithin(p.1, maxY, s, windowWidth as real);
  }

  /** The factor is non-negative and at most w / m for both maxima. */
  lemma FactorBounds(maxX: real, maxY: real, w: real)
    requires 0.0 < maxX && 0.0 < maxY && 0.0 <= w
    ensures 0.0 <= Min(w / maxX, w / maxY) <= w / maxX
    ensures Min(w / maxX, w / maxY) <= w / maxY
  {
  }

  /**
   * For points with non-negative coordinates (and positive maxima) and a
   * non-negative window width, every scaled coordinate lies in [0, w].
   */
  lemma ScalePointsWithinWindow(points: seq<Point>, windowWidth: int)
    requires windowWidth >= 0
    requires forall k :: 0 <= k < |points| ==> 0.0 <= points[k].0 && 0.0 <= points[k].1
    requires ScalePoints(points, windowWidth).Success?
    ensures forall k :: 0 <= k < |points| ==>
              0 <= ScalePoints(points, windowWidth).value[k].0 <= windowWidth &&
              0 <= ScalePoints(points, windowWidth).value[k].1 <= windowWidth
  {
    var w := windowWidth as real;
    var maxX := Max(Xs(points));
    var maxY := Max(Ys(points));
    assert Xs(points)[0] == points[0].0 && Ys(points)[0] == points[0].1;
    var s := ScaleFactor(points, windowWidth);
    FactorBounds(maxX, maxY, w);
    var r := ScalePoints(points, windowWidth).value;
    forall k | 0 <= k < |points|
      ensures 0 <= r[k].0 <= windowWidth && 0 <= r[k].1 <= windowWidth
    {
      assert Xs(points)[k] == points[k].0 && Ys(points)[k] == points[k].1;
      ScaledPointWithin(points[k], maxX, maxY, s, windowWidth);
      assert r[k] == Scaled(points[k], s);
    }
  }

  /** A coordinate equal to the maximum m, scaled by w / m, truncates back to w. */
  lemma ScaledAtMaximum(p: Point, m: real, s: real, windowWidth: int)
    requires m != 0.0 && s == windowWidth as real / m
    ensures p.0 == m ==> Scaled(p, s).0 == windowWidth
    ensures p.1 == m ==> Scaled(p, s).1 == windowWidth
  {
    assert m * (windowWidth as real / m) == windowWidth as real;
  }

  /**
   * The window is filled: some coordinate of some point maps to exactly the
   * window width (the one whose maximum decides the factor).
   */
  lemma ScalePointsFillsWindow(points: seq<Point>, windowWidth: int, r: seq<(int, int)>)
    requires ScalePoints(points, windowWidth) == Success(r)
    ensures exists k :: 0 <= k < |points| && (r[k].0 == windowWidth || r[k].1 == windowWidth)
  {
    var w := windowWidth as real;
    var maxX := Max(Xs(points));
    var maxY := Max(Ys(points));
    var s := ScaleFactor(points, windowWidth);
    if w / maxX <= w / maxY {
      var k :| 0 <= k < |points| && Xs(points)[k] == maxX;
      assert s == w / maxX;
      ScaledAtMaximum(points[k], maxX, s, windowWidth);
      assert r[k] == Scaled(points[k], s);
      assert r[k].0 == windowWidth;
    } else {
      var k :| 0 <= k < |points| && Ys(points)[k] == maxY;
      assert s == w / maxY;
      ScaledAtMaximum(points[k], maxY, s, windowWidth);
      assert r[k] == Scaled(points[k], s);
      assert r[k].1 == windowWidth;
    }
  }
}
