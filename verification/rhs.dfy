/**
 * `ParabolicPDE.bVector` (ParabolicPDE.swift): the `b` vector of `Ax = b`
 * for one time step, one entry per unknown with an ordinal, met in the
 * same i-j-k walk as the rows of `A`.
 */
module RightHandSide {
  import opened Wrappers
  import opened Points
  import opened Ordinals
  import opened Mesh
  import opened Discretization
  import opened Traversal

  /**
   * The entry for the unknown in cell `p`: the right-hand constant, plus
   * the right-hand stencil folded over the previous solved mesh, minus
   * the left-hand stencil folded over the unsolved mesh's known values
   * (0.0 for a cell that is not there or whose stencils cannot be read;
   * the walk meets no such cell).
   */
  function BEntry(u: UnsolvedMesh, current: SolvedMesh, lhs: LHS, rhs: RHS, d: Index, p: Position): real {
    if InBox(u.unknowns, p.0, p.1, p.2) then
      var indices := At(u.unknowns, p).indices;
      var (value, coefficients) := rhs(indices);
      if Readable(coefficients, d, current.knowns) && Readable(lhs(indices), d, u.knowns) then
        value + Reduce(0.0, coefficients, d, current.knowns) - Reduce(0.0, lhs(indices), d, u.knowns)
      else 0.0
    else 0.0
  }

  /** The entries of the cells `rows`, in order. */
  function BEntries(u: UnsolvedMesh, current: SolvedMesh, lhs: LHS, rhs: RHS, d: Index, rows: seq<Position>): (r: seq<real>)
    ensures |r| == |rows|
  {
    if rows == [] then []
    else BEntries(u, current, lhs, rhs, d, rows[..|rows| - 1]) + [BEntry(u, current, lhs, rhs, d, rows[|rows| - 1])]
  }

  /** The vector `bVector` returns: one entry per unknown of the walk. */
  function BValues(u: UnsolvedMesh, current: SolvedMesh, lhs: LHS, rhs: RHS, d: Index): seq<real> {
    BEntries(u, current, lhs, rhs, d, PresentPositions(u.unknowns))
  }

  /** Entry `r` is the entry of the `r`-th cell. */
  lemma {:induction false} BEntriesIndex(u: UnsolvedMesh, current: SolvedMesh, lhs: LHS, rhs: RHS, d: Index, rows: seq<Position>)
    ensures forall r :: 0 <= r < |rows| ==> BEntries(u, current, lhs, rhs, d, rows)[r] == BEntry(u, current, lhs, rhs, d, rows[r])
  {
    if rows != [] {
      BEntriesIndex(u, current, lhs, rhs, d, rows[..|rows| - 1]);
    }
  }

  /** The entries of two stretches of cells, one after the other. */
  lemma BEntriesAppend(u: UnsolvedMesh, current: SolvedMesh, lhs: LHS, rhs: RHS, d: Index,
                        rows: seq<Position>, more: seq<Position>)
    ensures BEntries(u, current, lhs, rhs, d, rows + more) == BEntries(u, current, lhs, rhs, d, rows) + BEntries(u, current, lhs, rhs, d, more)
  {
    BEntriesIndex(u, current, lhs, rhs, d, rows);
    BEntriesIndex(u, current, lhs, rhs, d, more);
    BEntriesIndex(u, current, lhs, rhs, d, rows + more);
    var all, front, back := BEntries(u, current, lhs, rhs, d, rows + more), BEntries(u, current, lhs, rhs, d, rows), BEntries(u, current, lhs, rhs, d, more);
    forall r | 0 <= r < |rows + more|
      ensures all[r] == (front + back)[r]
    {
      if r >= |rows| {
        assert (rows + more)[r] == more[r - |rows|];
      }
    }
  }

  /** Both stencils of every unknown with an ordinal can be folded. */
  ghost predicate StencilsFold(u: UnsolvedMesh, current: SolvedMesh, lhs: LHS, rhs: RHS, d: Index) {
    forall a, b, c :: InBox(u.unknowns, a, b, c) && u.unknowns[a][b][c].ordinal.Some? ==>
      Readable(rhs(u.unknowns[a][b][c].indices).1, d, current.knowns) && Readable(lhs(u.unknowns[a][b][c].indices), d, u.knowns)
  }

  /** Known boxes of the mesh's shape can fold any stencil. */
  lemma ShapedStencilsFold(u: UnsolvedMesh, current: SolvedMesh, lhs: LHS, rhs: RHS, d: Index)
    requires Shaped(u.knowns, d) && Shaped(current.knowns, d)
    ensures StencilsFold(u, current, lhs, rhs, d)
  {
    forall a, b, c | InBox(u.unknowns, a, b, c) && u.unknowns[a][b][c].ordinal.Some?
      ensures Readable(rhs(u.unknowns[a][b][c].indices).1, d, current.knowns)
      ensures Readable(lhs(u.unknowns[a][b][c].indices), d, u.knowns)
    {
      ShapedReadable(rhs(u.unknowns[a][b][c].indices).1, d, current.knowns);
      ShapedReadable(lhs(u.unknowns[a][b][c].indices), d, u.knowns);
    }
  }

  /** Walking column `(i, j, _)` up to cell `k + 1` adds cell `k` when it holds an unknown. */
  lemma ColumnEntries(u: UnsolvedMesh, current: SolvedMesh, lhs: LHS, rhs: RHS, d: Index, i: int, j: int, k: int)
    requires 0 <= i < |u.unknowns| && 0 <= j < |u.unknowns[i]| && 0 <= k < |u.unknowns[i][j]|
    ensures var before := BEntries(u, current, lhs, rhs, d, ColumnPositions(u.unknowns, i, j, k));
            BEntries(u, current, lhs, rhs, d, ColumnPositions(u.unknowns, i, j, k + 1)) ==
              if u.unknowns[i][j][k].ordinal.Some? then before + [BEntry(u, current, lhs, rhs, d, (i, j, k))] else before
  {
    var cols := ColumnPositions(u.unknowns, i, j, k);
    if u.unknowns[i][j][k].ordinal.Some? {
      assert (cols + [(i, j, k)])[..|cols|] == cols;
    } else {
      assert cols + [] == cols;
    }
  }

  /** The innermost loop of `bVector`: column `(i, j, _)`, skipping points without an ordinal. */
  method BColumn(u: UnsolvedMesh, current: SolvedMesh, lhs: LHS, rhs: RHS, d: Index, i: int, j: int, b0: seq<real>)
    returns (bValues: seq<real>)
    requires 0 <= i < |u.unknowns| && 0 <= j < |u.unknowns[i]| && StencilsFold(u, current, lhs, rhs, d)
    ensures bValues == b0 + BEntries(u, current, lhs, rhs, d, ColumnPositions(u.unknowns, i, j, |u.unknowns[i][j]|))
  {
    bValues := b0;
    var k := 0;
    assert b0 + [] == b0;
    while k < |u.unknowns[i][j]|
      invariant 0 <= k <= |u.unknowns[i][j]|
      invariant bValues == b0 + BEntries(u, current, lhs, rhs, d, ColumnPositions(u.unknowns, i, j, k))
    {
      ColumnEntries(u, current, lhs, rhs, d, i, j, k);
      var point := u.unknowns[i][j][k];
      if point.ordinal.Some? {
        assert InBox(u.unknowns, i, j, k);
        var (value, coefficients) := rhs(point.indices);
        var rhsValue := value + Reduce(0.0, coefficients, d, current.knowns);
        var lhsValue := Reduce(0.0, lhs(point.indices), d, u.knowns);
        bValues := bValues + [rhsValue - lhsValue];
      }
      k := k + 1;
    }
  }

  /** The middle loop of `bVector`: row `(i, _, _)`. */
  method BRow(u: UnsolvedMesh, current: SolvedMesh, lhs: LHS, rhs: RHS, d: Index, i: int, b0: seq<real>)
    returns (bValues: seq<real>)
    requires 0 <= i < |u.unknowns| && StencilsFold(u, current, lhs, rhs, d)
    ensures bValues == b0 + BEntries(u, current, lhs, rhs, d, RowPositions(u.unknowns, i, |u.unknowns[i]|))
  {
    bValues := b0;
    var j := 0;
    assert b0 + [] == b0;
    while j < |u.unknowns[i]|
      invariant 0 <= j <= |u.unknowns[i]|
      invariant bValues == b0 + BEntries(u, current, lhs, rhs, d, RowPositions(u.unknowns, i, j))
    {
      var cols := ColumnPositions(u.unknowns, i, j, |u.unknowns[i][j]|);
      BEntriesAppend(u, current, lhs, rhs, d, RowPositions(u.unknowns, i, j), cols);
      bValues := BColumn(u, current, lhs, rhs, d, i, j, bValues);
      j := j + 1;
    }
  }

  /**
   * `bVector(_:currentMesh:)`: walks the unknowns in i-j-k order and
   * appends, for each point with an ordinal, its right-hand value minus
   * its left-hand value.
   */
  method BVector(u: UnsolvedMesh, current: SolvedMesh, lhs: LHS, rhs: RHS, d: Index) returns (bValues: seq<real>)
    requires StencilsFold(u, current, lhs, rhs, d)
    ensures bValues == BValues(u, current, lhs, rhs, d)
  {
    bValues := [];
    var i := 0;
    while i < |u.unknowns|
      invariant 0 <= i <= |u.unknowns|
      invariant bValues == BEntries(u, current, lhs, rhs, d, Positions(u.unknowns, i))
    {
      BEntriesAppend(u, current, lhs, rhs, d, Positions(u.unknowns, i), RowPositions(u.unknowns, i, |u.unknowns[i]|));
      bValues := BRow(u, current, lhs, rhs, d, i, bValues);
      i := i + 1;
    }
  }

  // ---------------------------------------------------------------------
  // What the entries are
  // ---------------------------------------------------------------------

  /**
   * Entry `r` of `b` belongs to the `r`-th unknown of the walk and equals
   * its right-hand constant, plus the sum of coefficient times value of
   * its right-hand stencil over the previous solved mesh, minus that of
   * its left-hand stencil over the unsolved mesh's known values.
   */
  lemma BValuesMeaning(u: UnsolvedMesh, current: SolvedMesh, lhs: LHS, rhs: RHS, d: Index, r: int)
    requires StencilsFold(u, current, lhs, rhs, d)
    requires 0 <= r < |PresentPositions(u.unknowns)|
    ensures var p := PresentPositions(u.unknowns)[r];
            var indices := At(u.unknowns, p).indices;
            && |BValues(u, current, lhs, rhs, d)| == |PresentPositions(u.unknowns)|
            && Readable(rhs(indices).1, d, current.knowns) && Readable(lhs(indices), d, u.knowns)
            && BValues(u, current, lhs, rhs, d)[r] ==
                 rhs(indices).0 + Combination(rhs(indices).1, d, current.knowns) - Combination(lhs(indices), d, u.knowns)
  {
    var rows := PresentPositions(u.unknowns);
    var p := rows[r];
    var indices := At(u.unknowns, p).indices;
    BEntriesIndex(u, current, lhs, rhs, d, rows);
  }

  /**
   * Over a boundary partition with `N` unknown cells, `b` has `N`
   * entries and entry `o` belongs to the cell holding ordinal `o`.
   */
  lemma PartitionedBValues<P>(points: seq<seq<seq<P>>>, d: Index, bc: BoundaryCondition, access: PointAccess<P>,
                              current: SolvedMesh, lhs: LHS, rhs: RHS, a: int, b: int, c: int)
    requires ValidDimensions(d) && FitsIn(points, d) && UnknownCount(points, bc) < 0x8000_0000
    requires Shaped(current.knowns, d)
    requires InBox(points, a, b, c) && bc(a, b, c).None?
    ensures var u := Partitioned(points, d, bc, access);
            var o := OrdinalAt(points, bc, a, b, c);
            var indices := access.indices(points[a][b][c]);
            && |BValues(u, current, lhs, rhs, d)| == UnknownCount(points, bc)
            && 0 <= o < UnknownCount(points, bc)
            && Readable(rhs(indices).1, d, current.knowns) && Readable(lhs(indices), d, u.knowns)
            && BValues(u, current, lhs, rhs, d)[o] ==
                 rhs(indices).0 + Combination(rhs(indices).1, d, current.knowns) - Combination(lhs(indices), d, u.knowns)
  {
    var u := Partitioned(points, d, bc, access);
    PartitionWalkOrdinals(points, d, bc, access);
    PartitionWalkPosition(points, d, bc, access, a, b, c);
    PartitionSplitsCells(points, d, bc, access, a, b, c);
    ShapedStencilsFold(u, current, lhs, rhs, d);
    BValuesMeaning(u, current, lhs, rhs, d, OrdinalAt(points, bc, a, b, c));
  }

  /**
   * A left-hand stencil term at a contained cell that became unknown
   * adds nothing: that cell holds the value-0.0 placeholder in the known
   * box of the partition.
   */
  lemma UnknownTermAddsNothing<P>(points: seq<seq<seq<P>>>, d: Index, bc: BoundaryCondition, access: PointAccess<P>, t: Term)
    requires ValidDimensions(d) && FitsIn(points, d) && UnknownCount(points, bc) < 0x8000_0000
    requires Contains(d, t.location)
    requires Partitioned(points, d, bc, access).unknowns[Ijk(t.location).0][Ijk(t.location).1][Ijk(t.location).2].ordinal.Some?
    ensures InBox(Partitioned(points, d, bc, access).knowns, Ijk(t.location).0, Ijk(t.location).1, Ijk(t.location).2)
    ensures Contribution(t, d, Partitioned(points, d, bc, access).knowns) == 0.0
  {
    var m := Partitioned(points, d, bc, access);
    var (i, j, k) := Ijk(t.location);
    ShapedCells(m.knowns, d);
    assert InShape(d, i, j, k);
    if InBox(points, i, j, k) {
      PartitionSplitsCells(points, d, bc, access, i, j, k);
    }
  }
}
