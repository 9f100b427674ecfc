/**
 * `MeshFactory` (PDEMesh.swift): the initial index grid of unknown
 * points from which every problem starts. The extents `Int(width / h)`
 * and friends are taken as integers.
 */
module Grid {
  import opened Wrappers
  import opened Points
  import opened Mesh

  /** The grid point at `(i, j, k)` for step size `h`: no ordinal yet. */
  function GridPoint(i: int, j: int, k: int, h: real): (p: UnknownPoint)
    requires InInt32(i) && InInt32(j) && InInt32(k)
    ensures Ijk(p.indices) == (i, j, k)
    ensures p.location == Vec3(h * i as real, h * j as real, h * k as real)
    ensures p.ordinal == None
  {
    UnknownPoint(Of(i, j, k), Vec3(h * i as real, h * j as real, h * k as real), None)
  }

  /** The extents `make3DGrid` accepts: its closed ranges need them non-negative, `Int32(_)` in range. */
  predicate GridExtents(maxI: int, maxJ: int, maxK: int) {
    0 <= maxI < 0x8000_0000 && 0 <= maxJ < 0x8000_0000 && 0 <= maxK < 0x8000_0000
  }

  /** The innermost loop of `make3DGrid`: column `(i, j, _)`. */
  method GridColumn(i: int, j: int, maxK: int, h: real) returns (columnJ: seq<UnknownPoint>)
    requires InInt32(i) && InInt32(j) && 0 <= maxK < 0x8000_0000
    ensures |columnJ| == maxK + 1
    ensures forall k :: 0 <= k <= maxK ==> columnJ[k] == GridPoint(i, j, k, h)
  {
    columnJ := [];
    var k := 0;
    while k <= maxK
      invariant 0 <= k <= maxK + 1 && |columnJ| == k
      invariant forall c :: 0 <= c < k ==> columnJ[c] == GridPoint(i, j, c, h)
    {
      var location := Vec3(h * i as real, h * j as real, h * k as real);
      columnJ := columnJ + [UnknownPoint(Of(i, j, k), location, None)];
      k := k + 1;
    }
  }

  /** The middle loop of `make3DGrid`: row `(i, _, _)`. */
  method GridRow(i: int, maxJ: int, maxK: int, h: real) returns (rowI: seq<seq<UnknownPoint>>)
    requires InInt32(i) && 0 <= maxJ < 0x8000_0000 && 0 <= maxK < 0x8000_0000
    ensures |rowI| == maxJ + 1
    ensures forall j :: 0 <= j <= maxJ ==> |rowI[j]| == maxK + 1
    ensures forall j, k :: 0 <= j <= maxJ && 0 <= k <= maxK ==> rowI[j][k] == GridPoint(i, j, k, h)
  {
    rowI := [];
    var j := 0;
    while j <= maxJ
      invariant 0 <= j <= maxJ + 1 && |rowI| == j
      invariant forall b :: 0 <= b < j ==> |rowI[b]| == maxK + 1
      invariant forall b, k :: 0 <= b < j && 0 <= k <= maxK ==> rowI[b][k] == GridPoint(i, b, k, h)
    {
      var columnJ := GridColumn(i, j, maxK, h);
      rowI := rowI + [columnJ];
      j := j + 1;
    }
  }

  /**
   * `make3DGrid`: a `(maxI+1) x (maxJ+1) x (maxK+1)` box of unknown
   * points, each at its own indices and at location `h * (i, j, k)`,
   * none with an ordinal; the known box is `[[[]]]` and the dimensions
   * are the three extents.
   */
  method Make3DGrid(maxI: int, maxJ: int, maxK: int, h: real) returns (m: UnsolvedMesh)
    requires GridExtents(maxI, maxJ, maxK)
    ensures m.knowns == [[[]]]
    ensures Ijk(m.dimensions) == (maxI, maxJ, maxK)
    ensures Shaped(m.unknowns, m.dimensions)
    ensures forall i, j, k :: InShape(m.dimensions, i, j, k) ==> m.unknowns[i][j][k] == GridPoint(i, j, k, h)
  {
    var meshPoints: seq<seq<seq<UnknownPoint>>> := [];
    var i := 0;
    while i <= maxI
      invariant 0 <= i <= maxI + 1 && |meshPoints| == i
      invariant forall a :: 0 <= a < i ==> |meshPoints[a]| == maxJ + 1
      invariant forall a, b :: 0 <= a < i && 0 <= b <= maxJ ==> |meshPoints[a][b]| == maxK + 1
      invariant forall a, b, c :: 0 <= a < i && 0 <= b <= maxJ && 0 <= c <= maxK ==>
                  meshPoints[a][b][c] == GridPoint(a, b, c, h)
    {
      var rowI := GridRow(i, maxJ, maxK, h);
      meshPoints := meshPoints + [rowI];
      i := i + 1;
    }
    m := UnsolvedMesh([[[]]], meshPoints, Of(maxI, maxJ, maxK));
  }

  /**
   * `make2DGrid`: the 3D grid of depth 0, so every column holds a single
   * point, in the z = 0 layer.
   */
  method Make2DGrid(maxI: int, maxJ: int, h: real) returns (m: UnsolvedMesh)
    requires GridExtents(maxI, maxJ, 0)
    ensures m.knowns == [[[]]]
    ensures Ijk(m.dimensions) == (maxI, maxJ, 0)
    ensures Shaped(m.unknowns, m.dimensions)
    ensures forall i, j :: 0 <= i <= maxI && 0 <= j <= maxJ ==>
              |m.unknowns[i][j]| == 1 && m.unknowns[i][j][0] == GridPoint(i, j, 0, h)
  {
    m := Make3DGrid(maxI, maxJ, 0, h);
    forall i, j | 0 <= i <= maxI && 0 <= j <= maxJ
      ensures |m.unknowns[i][j]| == 1 && m.unknowns[i][j][0] == GridPoint(i, j, 0, h)
    {
      assert InShape(m.dimensions, i, j, 0);
    }
  }

  /**
   * A grid point's indices name its own cell, and the grid has no
   * ordinals, so it fits the box of its own dimensions cell for cell.
   */
  lemma GridIndicesAreCells(m: UnsolvedMesh, maxI: int, maxJ: int, maxK: int, h: real)
    requires GridExtents(maxI, maxJ, maxK)
    requires Ijk(m.dimensions) == (maxI, maxJ, maxK) && Shaped(m.unknowns, m.dimensions)
    requires forall i, j, k :: InShape(m.dimensions, i, j, k) ==> m.unknowns[i][j][k] == GridPoint(i, j, k, h)
    ensures ValidDimensions(m.dimensions) && FitsIn(m.unknowns, m.dimensions)
    ensures forall i, j, k :: InBox(m.unknowns, i, j, k) ==>
              Ijk(m.unknowns[i][j][k].indices) == (i, j, k) && m.unknowns[i][j][k].ordinal == None
  {
    ShapedCells(m.unknowns, m.dimensions);
  }
}
