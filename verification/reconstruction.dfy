/**
 * Turning an unsolved mesh back into a solved one (UnsolvedMesh.swift):
 * `solve` writes the solution vector into the cells that carry an
 * ordinal and copies the boundary values elsewhere, and
 * `applyInitialCondition` gives every cell a value of its own.
 */
module Reconstruction {
  import opened Wrappers
  import opened Points
  import opened Ordinals
  import opened Mesh

  // ---------------------------------------------------------------------
  // solve(_:bValues:)
  // ---------------------------------------------------------------------

  /**
   * What `solve` demands of its mesh and of the solution vector `x`:
   * every unknown cell fits in a box of the mesh's dimensions, every
   * present ordinal indexes `x`, and every cell without an ordinal has a
   * known point to copy.
   */
  ghost predicate CanReconstruct(m: UnsolvedMesh, x: seq<real>) {
    && ValidDimensions(m.dimensions)
    && FitsIn(m.unknowns, m.dimensions)
    && forall i, j, k :: InBox(m.unknowns, i, j, k) ==>
         match m.unknowns[i][j][k].ordinal
         case Some(o) => 0 <= o as int < |x|
         case None => InBox(m.knowns, i, j, k)
  }

  /** Cell `(i, j, k)` of the solved mesh that `solve` produces. */
  function SolvedCell(m: UnsolvedMesh, x: seq<real>, i: int, j: int, k: int): KnownPoint {
    if !InBox(m.unknowns, i, j, k) then KnownEmpty
    else match m.unknowns[i][j][k].ordinal
      case Some(o) => if 0 <= o as int < |x| then KnownFrom(UnknownAccess, m.unknowns[i][j][k], x[o]) else KnownEmpty
      case None => if InBox(m.knowns, i, j, k) then m.knowns[i][j][k] else KnownEmpty
  }

  /** The solved mesh's cells as a function of the cell position. */
  function SolvedCells(m: UnsolvedMesh, x: seq<real>): (int, int, int) -> KnownPoint {
    (i, j, k) => SolvedCell(m, x, i, j, k)
  }

  /** The mesh that `solve` returns for the solution vector `x`. */
  function Reconstructed(m: UnsolvedMesh, x: seq<real>): (s: SolvedMesh)
    requires ValidDimensions(m.dimensions)
    ensures s.dimensions == m.dimensions && s.time == 0.0 && Shaped(s.knowns, m.dimensions)
    ensures forall i, j, k :: InShape(m.dimensions, i, j, k) ==> s.knowns[i][j][k] == SolvedCell(m, x, i, j, k)
  {
    NewSolvedMesh(Tabulate(m.dimensions, SolvedCells(m, x)), m.dimensions)
  }

  /** The innermost loop of `solve`: one column `(i, j, _)`. */
  method ReconstructColumn(m: UnsolvedMesh, x: seq<real>, i: int, j: int, known0: seq<seq<seq<KnownPoint>>>)
    returns (knownPoints: seq<seq<seq<KnownPoint>>>)
    requires CanReconstruct(m, x)
    requires 0 <= i < |m.unknowns| && 0 <= j < |m.unknowns[i]|
    requires FilledBefore(known0, m.dimensions, SolvedCells(m, x), KnownEmpty, i, j, 0)
    ensures FilledBefore(knownPoints, m.dimensions, SolvedCells(m, x), KnownEmpty, i, j + 1, 0)
  {
    ghost var cell := SolvedCells(m, x);
    knownPoints := known0;
    var k := 0;
    while k < |m.unknowns[i][j]|
      invariant 0 <= k <= |m.unknowns[i][j]|
      invariant FilledBefore(knownPoints, m.dimensions, cell, KnownEmpty, i, j, k)
    {
      assert InBox(m.unknowns, i, j, k);
      FillCell(knownPoints, m.dimensions, cell, KnownEmpty, i, j, k);
      var point := m.unknowns[i][j][k];
      match point.ordinal {
        case Some(ordinal) =>
          knownPoints := SetCell(knownPoints, i, j, k, KnownFrom(UnknownAccess, m.unknowns[i][j][k], x[ordinal]));
        case None =>
          knownPoints := SetCell(knownPoints, i, j, k, m.knowns[i][j][k]);
      }
      k := k + 1;
    }
    FillEndColumn(knownPoints, m.dimensions, cell, KnownEmpty, i, j, k);
  }

  /** The middle loop of `solve`: one row `(i, _, _)`. */
  method ReconstructRow(m: UnsolvedMesh, x: seq<real>, i: int, known0: seq<seq<seq<KnownPoint>>>)
    returns (knownPoints: seq<seq<seq<KnownPoint>>>)
    requires CanReconstruct(m, x)
    requires 0 <= i < |m.unknowns|
    requires FilledBefore(known0, m.dimensions, SolvedCells(m, x), KnownEmpty, i, 0, 0)
    ensures FilledBefore(knownPoints, m.dimensions, SolvedCells(m, x), KnownEmpty, i + 1, 0, 0)
  {
    knownPoints := known0;
    var j := 0;
    while j < |m.unknowns[i]|
      invariant 0 <= j <= |m.unknowns[i]|
      invariant FilledBefore(knownPoints, m.dimensions, SolvedCells(m, x), KnownEmpty, i, j, 0)
    {
      knownPoints := ReconstructColumn(m, x, i, j, knownPoints);
      j := j + 1;
    }
    FillEndRow(knownPoints, m.dimensions, SolvedCells(m, x), KnownEmpty, i, j);
  }

  /**
   * `solve(_:bValues:)` once the linear system has produced the
   * solution vector `x`: a fresh box of the mesh's dimensions, filled
   * cell by cell from `x` or from the known boundary points.
   */
  method Reconstruct(m: UnsolvedMesh, x: seq<real>) returns (s: SolvedMesh)
    requires CanReconstruct(m, x)
    ensures s == Reconstructed(m, x)
  {
    var d := m.dimensions;
    var knownPoints := Box(d, KnownEmpty);
    FillStart(d, SolvedCells(m, x), KnownEmpty);
    var i := 0;
    while i < |m.unknowns|
      invariant 0 <= i <= |m.unknowns|
      invariant FilledBefore(knownPoints, d, SolvedCells(m, x), KnownEmpty, i, 0, 0)
    {
      knownPoints := ReconstructRow(m, x, i, knownPoints);
      i := i + 1;
    }
    FillDone(knownPoints, d, SolvedCells(m, x), KnownEmpty, i);
    BoxesEqual(knownPoints, Reconstructed(m, x).knowns, d);
    s := NewSolvedMesh(knownPoints, d);
  }

  /**
   * Reconstruction puts `x[o]` exactly where ordinal `o` lives, keeping
   * that unknown's indices and location, and copies the known point
   * unchanged into every cell without an ordinal.
   */
  lemma ReconstructedCells(m: UnsolvedMesh, x: seq<real>, i: int, j: int, k: int)
    requires CanReconstruct(m, x) && InBox(m.unknowns, i, j, k)
    ensures var s := Reconstructed(m, x);
      && InBox(s.knowns, i, j, k)
      && match m.unknowns[i][j][k].ordinal
         case Some(o) =>
           && s.knowns[i][j][k].value == x[o]
           && s.knowns[i][j][k].indices == m.unknowns[i][j][k].indices
           && s.knowns[i][j][k].location == m.unknowns[i][j][k].location
         case None => s.knowns[i][j][k] == m.knowns[i][j][k]
  {
    assert InShape(m.dimensions, i, j, k);
    ShapedCells(Reconstructed(m, x).knowns, m.dimensions);
  }

  /** Cells of the box that the unknowns do not reach keep the placeholder. */
  lemma ReconstructedOutsideEmpty(m: UnsolvedMesh, x: seq<real>, i: int, j: int, k: int)
    requires ValidDimensions(m.dimensions)
    requires InShape(m.dimensions, i, j, k) && !InBox(m.unknowns, i, j, k)
    ensures Reconstructed(m, x).knowns[i][j][k] == KnownEmpty
  {
  }

  /**
   * A boundary partition followed by reconstruction: every cell the
   * partition walked keeps its indices and location, a cell where the
   * boundary condition gave `v` keeps value `v`, and every other cell
   * receives the solution entry at its own ordinal.
   */
  lemma PartitionThenReconstruct<P>(points: seq<seq<seq<P>>>, d: Index, bc: BoundaryCondition, access: PointAccess<P>,
                                    x: seq<real>, a: int, b: int, c: int)
    requires ValidDimensions(d) && FitsIn(points, d) && UnknownCount(points, bc) < 0x8000_0000
    requires UnknownCount(points, bc) <= |x|
    requires InBox(points, a, b, c)
    ensures CanReconstruct(Partitioned(points, d, bc, access), x)
    ensures var s := Reconstructed(Partitioned(points, d, bc, access), x);
      && InShape(d, a, b, c)
      && s.knowns[a][b][c].indices == access.indices(points[a][b][c])
      && s.knowns[a][b][c].location == access.location(points[a][b][c])
      && s.knowns[a][b][c].value == match bc(a, b, c)
           case Some(v) => v
           case None => x[OrdinalAt(points, bc, a, b, c)]
  {
    PartitionCanReconstruct(points, d, bc, access, x);
    assert InShape(d, a, b, c);
    var u := Partitioned(points, d, bc, access);
    ShapedCells(u.unknowns, d);
    if bc(a, b, c).None? {
      OrdinalInRange(points, bc, a, b, c);
    }
  }

  /**
   * The unsolved mesh of a boundary partition meets what `solve` needs
   * of it whenever `x` holds at least one entry per unknown.
   */
  lemma PartitionCanReconstruct<P>(points: seq<seq<seq<P>>>, d: Index, bc: BoundaryCondition, access: PointAccess<P>,
                                   x: seq<real>)
    requires ValidDimensions(d) && FitsIn(points, d) && UnknownCount(points, bc) < 0x8000_0000
    requires UnknownCount(points, bc) <= |x|
    ensures CanReconstruct(Partitioned(points, d, bc, access), x)
  {
    var u := Partitioned(points, d, bc, access);
    ShapedCells(u.unknowns, d);
    ShapedCells(u.knowns, d);
    PartitionOrdinalsInRange(points, d, bc, access);
    forall i, j, k | InBox(u.unknowns, i, j, k) && u.unknowns[i][j][k].ordinal.Some?
      ensures 0 <= u.unknowns[i][j][k].ordinal.value as int < |x|
    {
      assert InShape(d, i, j, k);
    }
  }

  // ---------------------------------------------------------------------
  // applyInitialCondition
  // ---------------------------------------------------------------------

  /** An initial condition: the value at every cell at the initial time. */
  type InitialCondition = (int, int, int) -> real

  /** Cell `(i, j, k)` of the solved mesh that `applyInitialCondition` produces. */
  function InitialCell(m: UnsolvedMesh, ic: InitialCondition, i: int, j: int, k: int): KnownPoint {
    if InBox(m.unknowns, i, j, k) then KnownFrom(UnknownAccess, m.unknowns[i][j][k], ic(i, j, k)) else KnownEmpty
  }

  /** The initial mesh's cells as a function of the cell position. */
  function InitialCells(m: UnsolvedMesh, ic: InitialCondition): (int, int, int) -> KnownPoint {
    (i, j, k) => InitialCell(m, ic, i, j, k)
  }

  /** The mesh that `applyInitialCondition` returns. */
  function Initialized(m: UnsolvedMesh, ic: InitialCondition): (s: SolvedMesh)
    requires ValidDimensions(m.dimensions)
    ensures s.dimensions == m.dimensions && s.time == 0.0 && Shaped(s.knowns, m.dimensions)
    ensures forall i, j, k :: InShape(m.dimensions, i, j, k) ==> s.knowns[i][j][k] == InitialCell(m, ic, i, j, k)
  {
    NewSolvedMesh(Tabulate(m.dimensions, InitialCells(m, ic)), m.dimensions)
  }

  /** The innermost loop of `applyInitialCondition`. */
  method InitializeColumn(m: UnsolvedMesh, ic: InitialCondition, i: int, j: int, known0: seq<seq<seq<KnownPoint>>>)
    returns (tempKnowns: seq<seq<seq<KnownPoint>>>)
    requires ValidDimensions(m.dimensions) && FitsIn(m.unknowns, m.dimensions)
    requires 0 <= i < |m.unknowns| && 0 <= j < |m.unknowns[i]|
    requires FilledBefore(known0, m.dimensions, InitialCells(m, ic), KnownEmpty, i, j, 0)
    ensures FilledBefore(tempKnowns, m.dimensions, InitialCells(m, ic), KnownEmpty, i, j + 1, 0)
  {
    ghost var cell := InitialCells(m, ic);
    tempKnowns := known0;
    var k := 0;
    while k < |m.unknowns[i][j]|
      invariant 0 <= k <= |m.unknowns[i][j]|
      invariant FilledBefore(tempKnowns, m.dimensions, cell, KnownEmpty, i, j, k)
    {
      assert InBox(m.unknowns, i, j, k);
      FillCell(tempKnowns, m.dimensions, cell, KnownEmpty, i, j, k);
      var unknown := m.unknowns[i][j][k];
      var initialValue := ic(i, j, k);
      tempKnowns := SetCell(tempKnowns, i, j, k, KnownFrom(UnknownAccess, unknown, initialValue));
      k := k + 1;
    }
    FillEndColumn(tempKnowns, m.dimensions, cell, KnownEmpty, i, j, k);
  }

  /** The middle loop of `applyInitialCondition`. */
  method InitializeRow(m: UnsolvedMesh, ic: InitialCondition, i: int, known0: seq<seq<seq<KnownPoint>>>)
    returns (tempKnowns: seq<seq<seq<KnownPoint>>>)
    requires ValidDimensions(m.dimensions) && FitsIn(m.unknowns, m.dimensions)
    requires 0 <= i < |m.unknowns|
    requires FilledBefore(known0, m.dimensions, InitialCells(m, ic), KnownEmpty, i, 0, 0)
    ensures FilledBefore(tempKnowns, m.dimensions, InitialCells(m, ic), KnownEmpty, i + 1, 0, 0)
  {
    tempKnowns := known0;
    var j := 0;
    while j < |m.unknowns[i]|
      invariant 0 <= j <= |m.unknowns[i]|
      invariant FilledBefore(tempKnowns, m.dimensions, InitialCells(m, ic), KnownEmpty, i, j, 0)
    {
      tempKnowns := InitializeColumn(m, ic, i, j, tempKnowns);
      j := j + 1;
    }
    FillEndRow(tempKnowns, m.dimensions, InitialCells(m, ic), KnownEmpty, i, j);
  }

  /**
   * `applyInitialCondition`: a fresh box of the mesh's dimensions in
   * which every unknown cell becomes a known point with the initial
   * condition's value there.
   */
  method ApplyInitialCondition(m: UnsolvedMesh, ic: InitialCondition) returns (s: SolvedMesh)
    requires ValidDimensions(m.dimensions) && FitsIn(m.unknowns, m.dimensions)
    ensures s == Initialized(m, ic)
  {
    var d := m.dimensions;
    var tempKnowns := Box(d, KnownEmpty);
    FillStart(d, InitialCells(m, ic), KnownEmpty);
    var i := 0;
    while i < |m.unknowns|
      invariant 0 <= i <= |m.unknowns|
      invariant FilledBefore(tempKnowns, d, InitialCells(m, ic), KnownEmpty, i, 0, 0)
    {
      tempKnowns := InitializeRow(m, ic, i, tempKnowns);
      i := i + 1;
    }
    FillDone(tempKnowns, d, InitialCells(m, ic), KnownEmpty, i);
    BoxesEqual(tempKnowns, Initialized(m, ic).knowns, d);
    s := NewSolvedMesh(tempKnowns, d);
  }

  /**
   * Every cell of the unknowns gets the initial condition's value there
   * and keeps its indices and location.
   */
  lemma InitializedCells(m: UnsolvedMesh, ic: InitialCondition, i: int, j: int, k: int)
    requires ValidDimensions(m.dimensions) && FitsIn(m.unknowns, m.dimensions)
    requires InBox(m.unknowns, i, j, k)
    ensures var s := Initialized(m, ic);
      && InBox(s.knowns, i, j, k)
      && s.knowns[i][j][k].value == ic(i, j, k)
      && s.knowns[i][j][k].indices == m.unknowns[i][j][k].indices
      && s.knowns[i][j][k].location == m.unknowns[i][j][k].location
  {
    assert InShape(m.dimensions, i, j, k);
  }
}
