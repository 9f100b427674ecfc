/**
 * Cross sections of a solved mesh (VisualizationKit/Axis.swift): the
 * number of slices along an axis, the dimensions of a slice, and the
 * 2D array of known points at a given depth along the axis.
 */
module CrossSection {
  import opened Points
  import opened Mesh

  /** An axis along which a mesh is sliced. */
  datatype Axis = Z | Y | X

  /** The component of `(i, j, k)` along `axis`. */
  function Along(axis: Axis, c: (int, int, int)): int {
    match axis
    case X => c.0
    case Y => c.1
    case Z => c.2
  }

  /** The cell `(i, j, k)` at row `a` and column `b` of the slice at depth `level` along `axis`. */
  function Site(axis: Axis, level: int, a: int, b: int): (int, int, int) {
    match axis
    case X => (level, a, b)
    case Y => (a, level, b)
    case Z => (a, b, level)
  }

  /** `maxDepth(_:)`: the mesh dimension along the axis, the deepest level of a slice. */
  function MaxDepth(axis: Axis, mesh: SolvedMesh): (depth: int)
    ensures depth == Along(axis, Ijk(mesh.dimensions))
  {
    match axis
    case X => mesh.dimensions.x as int
    case Y => mesh.dimensions.y as int
    case Z => mesh.dimensions.z as int
  }

  /** `imageDimensions(_:)`: the two mesh dimensions across the axis, in i-j-k order. */
  function ImageDimensions(axis: Axis, mesh: SolvedMesh): (dims: (int, int))
    ensures Site(axis, MaxDepth(axis, mesh), dims.0, dims.1) == Ijk(mesh.dimensions)
  {
    var (x, y, z) := Ijk(mesh.dimensions);
    match axis
    case X => (y, z)
    case Y => (x, z)
    case Z => (x, y)
  }

  /** Every row has a column at depth `level`: `row[level]` does not trap. */
  predicate RowsReach(knowns: seq<seq<seq<KnownPoint>>>, level: int) {
    (|knowns| > 0 ==> 0 <= level) && forall i :: 0 <= i < |knowns| ==> level < |knowns[i]|
  }

  /** Every column of `row` has a point at depth `level`: `column[level]` does not trap. */
  predicate ColumnsReach(row: seq<seq<KnownPoint>>, level: int) {
    (|row| > 0 ==> 0 <= level) && forall j :: 0 <= j < |row| ==> level < |row[j]|
  }

  /**
   * Extracting at `level` indexes without trapping: `knowns[level]`
   * along x, `row[level]` of every row along y, and `column[level]` of
   * every column along z.
   */
  predicate LevelInRange(axis: Axis, knowns: seq<seq<seq<KnownPoint>>>, level: int) {
    match axis
    case X => 0 <= level < |knowns|
    case Y => RowsReach(knowns, level)
    case Z => forall i :: 0 <= i < |knowns| ==> ColumnsReach(knowns[i], level)
  }

  /** The slice of `knowns` at depth `level` along `axis`. */
  function Slice(axis: Axis, knowns: seq<seq<seq<KnownPoint>>>, level: int): seq<seq<KnownPoint>>
    requires LevelInRange(axis, knowns, level)
  {
    match axis
    case X => knowns[level]
    case Y => seq(|knowns|, i requires 0 <= i < |knowns| => knowns[i][level])
    case Z => seq(|knowns|, i requires 0 <= i < |knowns| => ColumnsAt(knowns[i], level))
  }

  /** The points at depth `level` of each column of a row. */
  function ColumnsAt(row: seq<seq<KnownPoint>>, level: int): seq<KnownPoint>
    requires ColumnsReach(row, level)
  {
    seq(|row|, j requires 0 <= j < |row| => row[j][level])
  }

  /** `extract(_:level:)`: dispatch on the axis. */
  method Extract(axis: Axis, mesh: SolvedMesh, level: int) returns (results: seq<seq<KnownPoint>>)
    requires LevelInRange(axis, mesh.knowns, level)
    ensures results == Slice(axis, mesh.knowns, level)
  {
    match axis {
      case X => results := ExtractYZ(mesh, level);
      case Y => results := ExtractXZ(mesh, level);
      case Z => results := ExtractXY(mesh, level);
    }
  }

  /** `extractXY(_:level:)`: for every row, the point at depth `level` of each of its columns. */
  method ExtractXY(mesh: SolvedMesh, level: int) returns (results: seq<seq<KnownPoint>>)
    requires LevelInRange(Z, mesh.knowns, level)
    ensures results == Slice(Z, mesh.knowns, level)
  {
    results := [];
    var i := 0;
    while i < |mesh.knowns|
      invariant 0 <= i <= |mesh.knowns|
      invariant |results| == i
      invariant forall r :: 0 <= r < i ==> results[r] == ColumnsAt(mesh.knowns[r], level)
    {
      var row := mesh.knowns[i];
      var yLevel: seq<KnownPoint> := [];
      var j := 0;
      while j < |row|
        invariant 0 <= j <= |row|
        invariant |yLevel| == j
        invariant forall c :: 0 <= c < j ==> yLevel[c] == row[c][level]
      {
        yLevel := yLevel + [row[j][level]];
        j := j + 1;
      }
      assert yLevel == ColumnsAt(row, level);
      results := results + [yLevel];
      i := i + 1;
    }
    assert results == Slice(Z, mesh.knowns, level);
  }

  /** `extractXZ(_:level:)`: for every row, a copy of its column at depth `level`. */
  method ExtractXZ(mesh: SolvedMesh, level: int) returns (results: seq<seq<KnownPoint>>)
    requires LevelInRange(Y, mesh.knowns, level)
    ensures results == Slice(Y, mesh.knowns, level)
  {
    results := [];
    var i := 0;
    while i < |mesh.knowns|
      invariant 0 <= i <= |mesh.knowns|
      invariant |results| == i
      invariant forall r :: 0 <= r < i ==> results[r] == mesh.knowns[r][level]
    {
      var column := mesh.knowns[i][level];
      var zLevel: seq<KnownPoint> := [];
      var k := 0;
      while k < |column|
        invariant 0 <= k <= |column|
        invariant zLevel == column[..k]
      {
        zLevel := zLevel + [column[k]];
        k := k + 1;
      }
      assert zLevel == column;
      results := results + [zLevel];
      i := i + 1;
    }
    assert results == Slice(Y, mesh.knowns, level);
  }

  /** `extractYZ(_:level:)`: the row at depth `level`. */
  method ExtractYZ(mesh: SolvedMesh, level: int) returns (results: seq<seq<KnownPoint>>)
    requires LevelInRange(X, mesh.knowns, level)
    ensures results == Slice(X, mesh.knowns, level)
  {
    results := mesh.knowns[level];
  }

  // ---------------------------------------------------------------------
  // What a slice of a well-shaped mesh is
  // ---------------------------------------------------------------------

  /** Every point of the mesh carries its own cell as its indices. */
  ghost predicate Indexed(mesh: SolvedMesh) {
    forall i, j, k :: InBox(mesh.knowns, i, j, k) ==> Ijk(mesh.knowns[i][j][k].indices) == (i, j, k)
  }

  /**
   * In a non-empty shaped mesh, extracting at `level` indexes within
   * bounds exactly when `0 <= level <= maxDepth`.
   */
  lemma LevelsAlongAxis(axis: Axis, mesh: SolvedMesh, level: int)
    requires Shaped(mesh.knowns, mesh.dimensions)
    requires mesh.dimensions.x >= 0 && mesh.dimensions.y >= 0 && mesh.dimensions.z >= 0
    ensures LevelInRange(axis, mesh.knowns, level) <==> 0 <= level <= MaxDepth(axis, mesh)
  {
    var knowns := mesh.knowns;
    assert |knowns[0]| == mesh.dimensions.y as int + 1;
    assert |knowns[0][0]| == mesh.dimensions.z as int + 1;
  }

  /**
   * A slice of a shaped mesh at a depth within `maxDepth` has
   * `imageDimensions` + 1 rows and columns, and row `a`, column `b`
   * holds the mesh's point at the cell whose axis component is `level`.
   */
  lemma SliceCells(axis: Axis, mesh: SolvedMesh, level: int)
    requires ValidDimensions(mesh.dimensions) && Shaped(mesh.knowns, mesh.dimensions)
    requires 0 <= level <= MaxDepth(axis, mesh)
    ensures LevelInRange(axis, mesh.knowns, level)
    ensures var (rows, columns) := ImageDimensions(axis, mesh);
            var slice := Slice(axis, mesh.knowns, level);
            && |slice| == rows + 1
            && (forall a :: 0 <= a <= rows ==> |slice[a]| == columns + 1)
            && forall a, b :: 0 <= a <= rows && 0 <= b <= columns ==>
                 var (i, j, k) := Site(axis, level, a, b);
                 InShape(mesh.dimensions, i, j, k) && slice[a][b] == mesh.knowns[i][j][k]
  {
    var knowns := mesh.knowns;
    if axis == Z {
      forall a | 0 <= a < |knowns|
        ensures ColumnsAt(knowns[a], level) == Slice(Z, knowns, level)[a]
      {
      }
    }
  }

  /**
   * Every point of a slice at `level` of an indexed mesh lies at depth
   * `level` along the axis, and is a point of the mesh, value included.
   */
  lemma SliceAtLevel(axis: Axis, mesh: SolvedMesh, level: int)
    requires ValidDimensions(mesh.dimensions) && Shaped(mesh.knowns, mesh.dimensions) && Indexed(mesh)
    requires 0 <= level <= MaxDepth(axis, mesh)
    ensures LevelInRange(axis, mesh.knowns, level)
    ensures var slice := Slice(axis, mesh.knowns, level);
            forall a, b :: 0 <= a < |slice| && 0 <= b < |slice[a]| ==>
              var p := slice[a][b];
              && Along(axis, Ijk(p.indices)) == level
              && InShape(mesh.dimensions, Ijk(p.indices).0, Ijk(p.indices).1, Ijk(p.indices).2)
              && p == mesh.knowns[Ijk(p.indices).0][Ijk(p.indices).1][Ijk(p.indices).2]
  {
    SliceCells(axis, mesh, level);
  }
}
