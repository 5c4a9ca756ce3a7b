/**
 * Unit-scaling placement of the server (server/src/matrix.py): a unit
 * offset is a fixed number of degrees of latitude and of longitude, and a
 * shape given in those units is placed at a starting point. The map-fitting
 * loop that uses these (osmnx lookups) is not part of this model.
 */
module Placement {
  import opened Wrappers

  type Row = (real, real)

  /** Degrees of latitude / longitude per unit offset. */
  const LatScalingFactor: real := 0.014492753623188406
  const LonScalingFactor: real := 0.018315018315018316

  /** Miles per degree of latitude / longitude used when measuring distances. */
  const MilesPerDegreeLat: real := 69.0
  const MilesPerDegreeLon: real := 54.6

  /** The degree factors are the reciprocals of the miles-per-degree factors, up to double rounding. */
  lemma ScalingFactorsAreReciprocals()
    ensures -0.000000000000001 < LatScalingFactor * MilesPerDegreeLat - 1.0 < 0.000000000000001
    ensures -0.000000000000001 < LonScalingFactor * MilesPerDegreeLon - 1.0 < 0.000000000000001
  {
  }

  /** Where one unit-offset row lands. */
  function Place(c: Row, start: Row): (g: Row)
  {
    (c.0 * LatScalingFactor + start.0, c.1 * LonScalingFactor + start.1)
  }

  /** The inverse map: the unit offset of a placed point from the start. */
  function Unplace(g: Row, start: Row): (c: Row)
  {
    ((g.0 - start.0) / LatScalingFactor, (g.1 - start.1) / LonScalingFactor)
  }

  /** Placing and then measuring the offset gives back the input row. */
  lemma UnplacePlace(c: Row, start: Row)
    ensures Unplace(Place(c, start), start) == c
  {
    var g := Place(c, start);
    assert g.0 - start.0 == c.0 * LatScalingFactor;
    assert g.1 - start.1 == c.1 * LonScalingFactor;
  }

  /** Every geographic point is the placement of exactly its offset. */
  lemma PlaceUnplace(g: Row, start: Row)
    ensures Place(Unplace(g, start), start) == g
  {
    var c := Unplace(g, start);
    assert c.0 * LatScalingFactor == g.0 - start.0;
    assert c.1 * LonScalingFactor == g.1 - start.1;
  }

  /** The origin lands exactly on the starting point; one unit north-east is one factor away in each axis. */
  lemma PlaceAnchors(start: Row)
    ensures Place((0.0, 0.0), start) == start
    ensures Place((1.0, 1.0), start) == (start.0 + LatScalingFactor, start.1 + LonScalingFactor)
  {
  }

  /** numpy's error when indexing a column of an empty (one-dimensional) array. */
  datatype PyError = IndexError

  /** matrix[:, col] = matrix[:, col] * factor */
  method ScaleColumn(matrix: array2<real>, col: nat, factor: real)
    requires col < matrix.Length1
    modifies matrix
    ensures forall i, j :: 0 <= i < matrix.Length0 && 0 <= j < matrix.Length1 ==>
              matrix[i, j] == if j == col then old(matrix[i, j]) * factor else old(matrix[i, j])
  {
    forall i | 0 <= i < matrix.Length0 {
      matrix[i, col] := matrix[i, col] * factor;
    }
  }

  /** The broadcast addition of one component of the starting point to column col. */
  method ShiftColumn(matrix: array2<real>, col: nat, offset: real)
    requires col < matrix.Length1
    modifies matrix
    ensures forall i, j :: 0 <= i < matrix.Length0 && 0 <= j < matrix.Length1 ==>
              matrix[i, j] == if j == col then old(matrix[i, j]) + offset else old(matrix[i, j])
  {
    forall i | 0 <= i < matrix.Length0 {
      matrix[i, col] := matrix[i, col] + offset;
    }
  }

  /**
   * scale_and_place: copy the rows into a fresh n-by-2 array, scale column 0
   * by the latitude factor and column 1 by the longitude factor, then add the
   * starting point to every row. An empty list raises IndexError, because
   * numpy makes it a one-dimensional array.
   */
  method ScaleAndPlace(coordinates: seq<Row>, start: Row) returns (r: Result<array2<real>, PyError>)
    ensures r.Failure? <==> coordinates == []
    ensures r.Success? ==> fresh(r.value)
    ensures r.Success? ==> r.value.Length0 == |coordinates| && r.value.Length1 == 2
    ensures r.Success? ==> forall i :: 0 <= i < |coordinates| ==>
              r.value[i, 0] == Place(coordinates[i], start).0 &&
              r.value[i, 1] == Place(coordinates[i], start).1
  {
    var n := |coordinates|;
    if n == 0 {
      return Failure(IndexError);
    }
    var matrix := new real[n, 2]((i, j) requires 0 <= i < n && 0 <= j < 2 =>
      if j == 0 then coordinates[i].0 else coordinates[i].1);
    ScaleColumn(matrix, 0, LatScalingFactor);
    ScaleColumn(matrix, 1, LonScalingFactor);
    // matrix + start_array: numpy broadcasts the start point over every row
    ShiftColumn(matrix, 0, start.0);
    ShiftColumn(matrix, 1, start.1);
    return Success(matrix);
  }

  /** get_loss_vector: the column sums of a two-column loss matrix. */
  function LossVector(rows: seq<Row>): (r: Row)
    ensures |rows| == 1 ==> r == rows[0]
    ensures (forall i :: 0 <= i < |rows| ==> rows[i].0 >= 0.0 && rows[i].1 >= 0.0) ==> r.0 >= 0.0 && r.1 >= 0.0
  {
    if rows == [] then (0.0, 0.0)
    else
      var s := LossVector(rows[..|rows| - 1]);
      var last := rows[|rows| - 1];
      (s.0 + last.0, s.1 + last.1)
  }

  /** The sum over two blocks of rows is the sum of the two sums. */
  lemma {:induction false} LossVectorAppend(a: seq<Row>, b: seq<Row>)
    ensures LossVector(a + b) == (LossVector(a).0 + LossVector(b).0, LossVector(a).1 + LossVector(b).1)
    decreases |b|
  {
    if b != [] {
      var b' := b[..|b| - 1];
      assert (a + b)[..|a + b| - 1] == a + b';
      LossVectorAppend(a, b');
    } else {
      assert a + b == a;
    }
  }
}
