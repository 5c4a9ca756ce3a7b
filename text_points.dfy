/**
 * Text-to-polyline generation of the server (server/main.py, generate_points):
 * the text is upper-cased, and the glyph of the character at position i is
 * emitted shifted right by i, so each character occupies its own unit cell.
 */
module TextPoints {
  import opened Wrappers
  import opened Glyphs

  type Point = (real, real)

  /** A glyph table: the emitting functions take it as a parameter, GeneratePoints passes TextPts. */
  type Table = map<char, seq<GlyphPoint>>

  /** Python's str.upper restricted to ASCII: 'a'..'z' become 'A'..'Z'. */
  function UpperChar(c: char): (u: char)
    ensures 'a' <= c <= 'z' ==> 'A' <= u <= 'Z' && u as int == c as int - 32
    ensures !('a' <= c <= 'z') ==> u == c
  {
    if 'a' <= c <= 'z' then (c as int - 32) as char else c
  }

  function Upper(s: string): (u: string)
    ensures |u| == |s|
  {
    seq(|s|, i requires 0 <= i < |s| => UpperChar(s[i]))
  }

  /** A non-space character with no glyph: looking it up raises KeyError. */
  predicate Missing(table: Table, c: char) {
    c != ' ' && c !in table
  }

  /** The glyph points shifted right by the character position i. */
  function Shift(glyph: seq<GlyphPoint>, i: nat): (r: seq<Point>)
    ensures |r| == |glyph|
  {
    seq(|glyph|, k requires 0 <= k < |glyph| => (glyph[k].0 + i as real, glyph[k].1))
  }

  /**
   * What the loop has produced after the (already upper-cased) prefix u:
   * the points so far, or the KeyError of the first character without a glyph.
   */
  function Emit(table: Table, u: string): Result<seq<Point>, char>
  {
    if u == [] then Success([])
    else
      var n := |u| - 1;
      match Emit(table, u[..n])
      case Failure(c) => Failure(c)
      case Success(pts) =>
        if u[n] == ' ' then Success(pts)
        else if u[n] !in table then Failure(u[n])
        else Success(pts + Shift(table[u[n]], n))
  }

  /** The number of glyph points of the non-space characters of u. */
  function GlyphTotal(table: Table, u: string): nat
  {
    if u == [] then 0
    else
      var n := |u| - 1;
      GlyphTotal(table, u[..n]) + (if u[n] != ' ' && u[n] in table then |table[u[n]]| else 0)
  }

  /** generate_points, with the KeyError as a Failure carrying the offending character. */
  method GeneratePoints(text: string) returns (r: Result<seq<Point>, char>)
    ensures r == Emit(TextPts, Upper(text))
  {
    r := EmitPoints(TextPts, Upper(text));
  }

  /** The loop of generate_points over the upper-cased text u, with the glyph table as a parameter. */
  method EmitPoints(table: Table, u: string) returns (r: Result<seq<Point>, char>)
    ensures r == Emit(table, u)
  {
    var pts: seq<Point> := [];
    var i := 0;
    while i < |u|
      invariant 0 <= i <= |u|
      invariant Emit(table, u[..i]) == Success(pts)
    {
      assert u[..i + 1][..i] == u[..i];
      var ch := u[i];
      if ch == ' ' {
        i := i + 1;
        continue;
      }
      if ch !in table {
        FailureIsFinal(table, u, i + 1);
        return Failure(ch);
      }
      pts := pts + Shift(table[ch], i);
      i := i + 1;
    }
    assert u[..i] == u;
    return Success(pts);
  }

  /** Once a prefix fails, the whole text fails with the same character. */
  lemma {:induction false} FailureIsFinal(table: Table, u: string, m: nat)
    requires m <= |u|
    requires Emit(table, u[..m]).Failure?
    ensures Emit(table, u) == Emit(table, u[..m])
    decreases |u| - m
  {
    if m == |u| {
      assert u[..m] == u;
    } else {
      var p := u[..m + 1];
      assert p[..m] == u[..m];
      FailureIsFinal(table, u, m + 1);
    }
  }

  /** The result fails exactly when some non-space character has no glyph, and then names the first one. */
  lemma {:induction false} EmitFails(table: Table, u: string)
    ensures Emit(table, u).Failure? <==> exists i :: 0 <= i < |u| && Missing(table, u[i])
    ensures Emit(table, u).Failure? ==>
              exists i :: 0 <= i < |u| && Missing(table, u[i]) && u[i] == Emit(table, u).error
                          && forall j :: 0 <= j < i ==> !Missing(table, u[j])
  {
    if u != [] {
      var n := |u| - 1;
      var pre := u[..n];
      EmitFails(table, pre);
      assert forall i :: 0 <= i < n ==> pre[i] == u[i];
    }
  }

  /** With the server's table, exactly the characters other than letters, in either case, and space raise. */
  lemma GenerateFails(text: string)
    ensures Emit(TextPts, Upper(text)).Failure? <==>
              exists i :: 0 <= i < |text| && text[i] != ' ' && !('A' <= text[i] <= 'Z') && !('a' <= text[i] <= 'z')
  {
    var u := Upper(text);
    EmitFails(TextPts, u);
    TableKeys();
    assert forall i :: 0 <= i < |u| ==> (Missing(TextPts, u[i]) <==>
      text[i] != ' ' && !('A' <= text[i] <= 'Z') && !('a' <= text[i] <= 'z'));
  }

  /** GlyphTotal only grows along prefixes. */
  lemma {:induction false} GlyphTotalMonotone(table: Table, u: string, m: nat)
    requires m <= |u|
    ensures GlyphTotal(table, u[..m]) <= GlyphTotal(table, u)
    decreases |u| - m
  {
    if m < |u| {
      var p := u[..m + 1];
      assert p[..m] == u[..m];
      GlyphTotalMonotone(table, u, m + 1);
      assert u[..|u|] == u;
    } else {
      assert u[..m] == u;
    }
  }

  /** Whether the j-th point of the character at position k is emitted at all. */
  predicate Emitted(table: Table, u: string, k: int, j: int) {
    0 <= k < |u| && u[k] != ' ' && u[k] in table && 0 <= j < |table[u[k]]|
  }

  /**
   * Order and placement: the j-th glyph point of the character at position k
   * comes right after the points of the characters before it, shifted right
   * by k with y unchanged. The output has exactly GlyphTotal points.
   */
  lemma {:induction false} EmitAt(table: Table, u: string, pts: seq<Point>)
    requires Emit(table, u) == Success(pts)
    ensures |pts| == GlyphTotal(table, u)
    ensures forall k, j | Emitted(table, u, k, j) ::
              GlyphTotal(table, u[..k]) + j < |pts| &&
              pts[GlyphTotal(table, u[..k]) + j] == (table[u[k]][j].0 + k as real, table[u[k]][j].1)
  {
    if u != [] {
      var n := |u| - 1;
      var pre := u[..n];
      var prePts := Emit(table, pre).value;
      EmitAt(table, pre, prePts);
      forall k, j | Emitted(table, u, k, j)
        ensures GlyphTotal(table, u[..k]) + j < |pts|
        ensures pts[GlyphTotal(table, u[..k]) + j] == (table[u[k]][j].0 + k as real, table[u[k]][j].1)
      {
        if k < n {
          assert pre[k] == u[k];
          assert pre[..k] == u[..k];
          assert Emitted(table, pre, k, j);
          var q := pre[..k + 1];
          assert q[..k] == u[..k];
          assert q[k] == u[k];
          GlyphTotalMonotone(table, pre, k + 1);
        } else {
          assert u[..k] == pre;
        }
      }
    }
  }

  /** The point emitted for glyph point j of the character at position k. */
  function EmittedPoint(table: Table, u: string, pts: seq<Point>, k: int, j: int): Point
    requires Emit(table, u) == Success(pts) && Emitted(table, u, k, j)
  {
    EmitAt(table, u, pts);
    pts[GlyphTotal(table, u[..k]) + j]
  }

  /**
   * With the server's table every emitted point lies in the unit cell of its
   * character, matching "each line of text is about 1 unit tall": for
   * position k, x in [k, k+1) and y in [0, 1).
   */
  lemma EmitBounds(u: string, pts: seq<Point>)
    requires Emit(TextPts, u) == Success(pts)
    ensures forall k, j | Emitted(TextPts, u, k, j) ::
              k as real <= EmittedPoint(TextPts, u, pts, k, j).0 < k as real + 1.0 &&
              0.0 <= EmittedPoint(TextPts, u, pts, k, j).1 < 1.0
  {
    EmitAt(TextPts, u, pts);
    GlyphsInUnitSquare();
  }

  /** A trailing space emits nothing (EmitAt places each later character by its own position). */
  lemma SpaceEmitsNothing(table: Table, u: string)
    ensures Emit(table, u + " ") == Emit(table, u)
    ensures GlyphTotal(table, u + " ") == GlyphTotal(table, u)
  {
    assert (u + " ")[..|u|] == u;
  }

  /** Lower- and upper-case input give the same points. */
  lemma CaseInsensitive(text: string)
    ensures Emit(TextPts, Upper(Upper(text))) == Emit(TextPts, Upper(text))
  {
    assert Upper(Upper(text)) == Upper(text);
  }

  /** Empty text yields no points. */
  lemma EmptyText(table: Table)
    ensures Emit(table, Upper("")) == Success([])
  {
    assert Upper("") == [];
  }
}
