/**
 * Meshes (SolvedMesh.swift, UnsolvedMesh.swift, PDEMesh.swift): the
 * containment test and the boundary partitioning that splits every cell
 * of a mesh into a known point or an unknown point with an ordinal.
 */
module Mesh {
  import opened Wrappers
  import opened Points
  import opened Ordinals

  /** A mesh whose every value is known, at a point in time. */
  datatype SolvedMesh = SolvedMesh(knowns: seq<seq<seq<KnownPoint>>>, dimensions: Index, time: real)

  /**
   * A mesh split by a boundary condition into two parallel boxes: known
   * boundary values and unknown points awaiting a solution.
   */
  datatype UnsolvedMesh = UnsolvedMesh(
    knowns: seq<seq<seq<KnownPoint>>>,
    unknowns: seq<seq<seq<UnknownPoint>>>,
    dimensions: Index)

  /** The memberwise `SolvedMesh(knowns:dimensions:)`; `time` takes its default. */
  function NewSolvedMesh(knowns: seq<seq<seq<KnownPoint>>>, dimensions: Index): (m: SolvedMesh)
    ensures m.knowns == knowns && m.dimensions == dimensions && m.time == 0.0
  {
    SolvedMesh(knowns, dimensions, 0.0)
  }

  /** `mesh.time = t`: `time` is the one field that may be reassigned. */
  function WithTime(m: SolvedMesh, t: real): (r: SolvedMesh)
    ensures r.knowns == m.knowns && r.dimensions == m.dimensions && r.time == t
  {
    m.(time := t)
  }

  /** `contains`: the inclusive bounds check against the mesh dimensions. */
  predicate Contains(d: Index, location: Index)
    ensures Contains(d, location) <==> InShape(d, Ijk(location).0, Ijk(location).1, Ijk(location).2)
  {
    var (i, j, k) := Ijk(location);
    0 <= i && i <= d.x as int && 0 <= j && j <= d.y as int && 0 <= k && k <= d.z as int
  }

  /**
   * A location is contained exactly when it indexes a cell of any box
   * of the mesh's dimensions, so indexing after `contains` never traps.
   */
  lemma ContainsIndexesBox<T>(b: seq<seq<seq<T>>>, d: Index, location: Index)
    requires Shaped(b, d)
    ensures Contains(d, location) <==> InBox(b, Ijk(location).0, Ijk(location).1, Ijk(location).2)
  {
    ShapedCells(b, d);
  }

  // ---------------------------------------------------------------------
  // applyBoundaryCondition
  // ---------------------------------------------------------------------

  /** Cell `(i, j, k)` of the known box after partitioning. */
  function KnownCell<P>(points: seq<seq<seq<P>>>, bc: BoundaryCondition, access: PointAccess<P>,
                        i: int, j: int, k: int): KnownPoint
  {
    if InBox(points, i, j, k) && bc(i, j, k).Some? then KnownFrom(access, points[i][j][k], bc(i, j, k).value)
    else KnownEmpty
  }

  /** Cell `(i, j, k)` of the unknown box after partitioning. */
  function UnknownCell<P>(points: seq<seq<seq<P>>>, bc: BoundaryCondition, access: PointAccess<P>,
                          i: int, j: int, k: int): UnknownPoint
    requires UnknownCount(points, bc) < 0x8000_0000
  {
    if InBox(points, i, j, k) && bc(i, j, k).None? then
      OrdinalInRange(points, bc, i, j, k);
      UnknownFrom(access, points[i][j][k], OrdinalAt(points, bc, i, j, k) as int32)
    else UnknownEmpty
  }

  /** The known box's cells as a function of the cell position. */
  function KnownCells<P>(points: seq<seq<seq<P>>>, bc: BoundaryCondition, access: PointAccess<P>): (int, int, int) -> KnownPoint {
    (i, j, k) => KnownCell(points, bc, access, i, j, k)
  }

  /** The unknown box's cells as a function of the cell position. */
  function UnknownCells<P>(points: seq<seq<seq<P>>>, bc: BoundaryCondition, access: PointAccess<P>): (int, int, int) -> UnknownPoint
    requires UnknownCount(points, bc) < 0x8000_0000
  {
    (i, j, k) => UnknownCell(points, bc, access, i, j, k)
  }

  /** The mesh that `applyBoundaryCondition` produces from `points`. */
  function Partitioned<P>(points: seq<seq<seq<P>>>, d: Index, bc: BoundaryCondition, access: PointAccess<P>): (m: UnsolvedMesh)
    requires ValidDimensions(d) && UnknownCount(points, bc) < 0x8000_0000
    ensures m.dimensions == d && Shaped(m.knowns, d) && Shaped(m.unknowns, d)
    ensures forall i, j, k :: InShape(d, i, j, k) ==> m.knowns[i][j][k] == KnownCell(points, bc, access, i, j, k)
    ensures forall i, j, k :: InShape(d, i, j, k) ==> m.unknowns[i][j][k] == UnknownCell(points, bc, access, i, j, k)
  {
    UnsolvedMesh(Tabulate(d, KnownCells(points, bc, access)), Tabulate(d, UnknownCells(points, bc, access)), d)
  }

  /** Cells outside `points` stay empty in both boxes. */
  lemma CellsOutsideEmpty<P>(points: seq<seq<seq<P>>>, bc: BoundaryCondition, access: PointAccess<P>)
    requires UnknownCount(points, bc) < 0x8000_0000
    ensures forall a, b, c :: !InBox(points, a, b, c) ==>
      KnownCells(points, bc, access)(a, b, c) == KnownEmpty && UnknownCells(points, bc, access)(a, b, c) == UnknownEmpty
  {
  }

  /** The state of the partitioning loops once every cell before `(i, j, k)` is visited. */
  ghost predicate PartitionedBefore<P>(points: seq<seq<seq<P>>>, d: Index, bc: BoundaryCondition, access: PointAccess<P>,
                                       tempKnowns: seq<seq<seq<KnownPoint>>>, tempUnknowns: seq<seq<seq<UnknownPoint>>>,
                                       i: int, j: int, k: int)
    requires UnknownCount(points, bc) < 0x8000_0000
  {
    && FilledBefore(tempKnowns, d, KnownCells(points, bc, access), KnownEmpty, i, j, k)
    && FilledBefore(tempUnknowns, d, UnknownCells(points, bc, access), UnknownEmpty, i, j, k)
  }

  /** The innermost loop of `applyBoundaryCondition`: one column `(i, j, _)`. */
  method PartitionColumn<P>(points: seq<seq<seq<P>>>, d: Index, bc: BoundaryCondition, access: PointAccess<P>,
                            i: int, j: int, knowns0: seq<seq<seq<KnownPoint>>>, unknowns0: seq<seq<seq<UnknownPoint>>>,
                            ordinal0: int32)
    returns (tempKnowns: seq<seq<seq<KnownPoint>>>, tempUnknowns: seq<seq<seq<UnknownPoint>>>, ordinal: int32)
    requires FitsIn(points, d) && UnknownCount(points, bc) < 0x8000_0000
    requires 0 <= i < |points| && 0 <= j < |points[i]|
    requires PartitionedBefore(points, d, bc, access, knowns0, unknowns0, i, j, 0)
    requires ordinal0 as int == CountRows(points, bc, i) + CountCols(points, bc, i, j)
    ensures PartitionedBefore(points, d, bc, access, tempKnowns, tempUnknowns, i, j + 1, 0)
    ensures ordinal as int == CountRows(points, bc, i) + CountCols(points, bc, i, j + 1)
  {
    ghost var knownCell, unknownCell := KnownCells(points, bc, access), UnknownCells(points, bc, access);
    tempKnowns, tempUnknowns, ordinal := knowns0, unknowns0, ordinal0;
    var k := 0;
    while k < |points[i][j]|
      invariant 0 <= k <= |points[i][j]|
      invariant ordinal as int == CountRows(points, bc, i) + CountCols(points, bc, i, j) + CountCells(bc, i, j, k)
      invariant PartitionedBefore(points, d, bc, access, tempKnowns, tempUnknowns, i, j, k)
    {
      assert InBox(points, i, j, k);
      var point := points[i][j][k];
      match bc(i, j, k) {
        case Some(boundaryValue) =>
          FillCell(tempKnowns, d, knownCell, KnownEmpty, i, j, k);
          FillSkip(tempUnknowns, d, unknownCell, UnknownEmpty, i, j, k);
          tempKnowns := SetCell(tempKnowns, i, j, k, KnownFrom(access, point, boundaryValue));
        case None =>
          FillSkip(tempKnowns, d, knownCell, KnownEmpty, i, j, k);
          FillCell(tempUnknowns, d, unknownCell, UnknownEmpty, i, j, k);
          tempUnknowns := SetCell(tempUnknowns, i, j, k, UnknownFrom(access, point, ordinal));
          OrdinalInRange(points, bc, i, j, k);
          ordinal := ordinal + 1;
      }
      k := k + 1;
    }
    CellsOutsideEmpty(points, bc, access);
    FillEndColumn(tempKnowns, d, knownCell, KnownEmpty, i, j, k);
    FillEndColumn(tempUnknowns, d, unknownCell, UnknownEmpty, i, j, k);
  }

  /** The middle loop of `applyBoundaryCondition`: one row `(i, _, _)`. */
  method PartitionRow<P>(points: seq<seq<seq<P>>>, d: Index, bc: BoundaryCondition, access: PointAccess<P>,
                         i: int, knowns0: seq<seq<seq<KnownPoint>>>, unknowns0: seq<seq<seq<UnknownPoint>>>,
                         ordinal0: int32)
    returns (tempKnowns: seq<seq<seq<KnownPoint>>>, tempUnknowns: seq<seq<seq<UnknownPoint>>>, ordinal: int32)
    requires FitsIn(points, d) && UnknownCount(points, bc) < 0x8000_0000
    requires 0 <= i < |points|
    requires PartitionedBefore(points, d, bc, access, knowns0, unknowns0, i, 0, 0)
    requires ordinal0 as int == CountRows(points, bc, i)
    ensures PartitionedBefore(points, d, bc, access, tempKnowns, tempUnknowns, i + 1, 0, 0)
    ensures ordinal as int == CountRows(points, bc, i + 1)
  {
    tempKnowns, tempUnknowns, ordinal := knowns0, unknowns0, ordinal0;
    var j := 0;
    while j < |points[i]|
      invariant 0 <= j <= |points[i]|
      invariant ordinal as int == CountRows(points, bc, i) + CountCols(points, bc, i, j)
      invariant PartitionedBefore(points, d, bc, access, tempKnowns, tempUnknowns, i, j, 0)
    {
      tempKnowns, tempUnknowns, ordinal := PartitionColumn(points, d, bc, access, i, j, tempKnowns, tempUnknowns, ordinal);
      j := j + 1;
    }
    CellsOutsideEmpty(points, bc, access);
    FillEndRow(tempKnowns, d, KnownCells(points, bc, access), KnownEmpty, i, j);
    FillEndRow(tempUnknowns, d, UnknownCells(points, bc, access), UnknownEmpty, i, j);
  }

  /**
   * `applyBoundaryCondition`, shared by both mesh types: walks `points`
   * in i-j-k order, storing a known point where the boundary condition
   * gives a value and an unknown point with the next ordinal elsewhere.
   * The boxes have the mesh's dimensions, so `points` must fit in them;
   * the Int32 ordinal counter traps once it passes Int32.max.
   */
  method Partition<P>(points: seq<seq<seq<P>>>, d: Index, bc: BoundaryCondition, access: PointAccess<P>)
    returns (m: UnsolvedMesh)
    requires ValidDimensions(d) && FitsIn(points, d)
    requires UnknownCount(points, bc) < 0x8000_0000
    ensures m == Partitioned(points, d, bc, access)
  {
    var tempKnowns, tempUnknowns := Box(d, KnownEmpty), Box(d, UnknownEmpty);
    FillStart(d, KnownCells(points, bc, access), KnownEmpty);
    FillStart(d, UnknownCells(points, bc, access), UnknownEmpty);
    var ordinal: int32 := 0;
    var i := 0;
    while i < |points|
      invariant 0 <= i <= |points|
      invariant ordinal as int == CountRows(points, bc, i)
      invariant PartitionedBefore(points, d, bc, access, tempKnowns, tempUnknowns, i, 0, 0)
    {
      tempKnowns, tempUnknowns, ordinal := PartitionRow(points, d, bc, access, i, tempKnowns, tempUnknowns, ordinal);
      i := i + 1;
    }
    CellsOutsideEmpty(points, bc, access);
    FillDone(tempKnowns, d, KnownCells(points, bc, access), KnownEmpty, i);
    FillDone(tempUnknowns, d, UnknownCells(points, bc, access), UnknownEmpty, i);
    var spec := Partitioned(points, d, bc, access);
    BoxesEqual(tempKnowns, spec.knowns, d);
    BoxesEqual(tempUnknowns, spec.unknowns, d);
    m := UnsolvedMesh(tempKnowns, tempUnknowns, d);
  }

  /** `applyBoundaryCondition` on a `SolvedMesh`, whose `points` are its `knowns`. */
  method ApplyBoundaryConditionToSolved(mesh: SolvedMesh, bc: BoundaryCondition) returns (u: UnsolvedMesh)
    requires ValidDimensions(mesh.dimensions) && FitsIn(mesh.knowns, mesh.dimensions)
    requires UnknownCount(mesh.knowns, bc) < 0x8000_0000
    ensures u == Partitioned(mesh.knowns, mesh.dimensions, bc, KnownAccess)
  {
    u := Partition(mesh.knowns, mesh.dimensions, bc, KnownAccess);
  }

  /** `applyBoundaryCondition` on an `UnsolvedMesh`, whose `points` are its `unknowns`. */
  method ApplyBoundaryConditionToUnsolved(mesh: UnsolvedMesh, bc: BoundaryCondition) returns (u: UnsolvedMesh)
    requires ValidDimensions(mesh.dimensions) && FitsIn(mesh.unknowns, mesh.dimensions)
    requires UnknownCount(mesh.unknowns, bc) < 0x8000_0000
    ensures u == Partitioned(mesh.unknowns, mesh.dimensions, bc, UnknownAccess)
  {
    u := Partition(mesh.unknowns, mesh.dimensions, bc, UnknownAccess);
  }

  // ---------------------------------------------------------------------
  // Properties of the partition
  // ---------------------------------------------------------------------

  /**
   * A cell of `points` where the boundary condition gives `v` becomes a
   * known point with value `v` and the cell's indices and location, and
   * keeps the ordinal-less placeholder in the unknown box; any other cell
   * becomes an unknown point with the cell's indices and location and its
   * ordinal, and keeps the value-0.0 placeholder in the known box.
   */
  lemma PartitionSplitsCells<P>(points: seq<seq<seq<P>>>, d: Index, bc: BoundaryCondition, access: PointAccess<P>,
                                a: int, b: int, c: int)
    requires ValidDimensions(d) && FitsIn(points, d) && UnknownCount(points, bc) < 0x8000_0000
    requires InBox(points, a, b, c)
    ensures var m := Partitioned(points, d, bc, access);
      match bc(a, b, c)
      case Some(v) =>
        && m.knowns[a][b][c].value == v
        && m.knowns[a][b][c].indices == access.indices(points[a][b][c])
        && m.knowns[a][b][c].location == access.location(points[a][b][c])
        && m.unknowns[a][b][c].ordinal == None
      case None =>
        && m.knowns[a][b][c].value == 0.0
        && m.unknowns[a][b][c].indices == access.indices(points[a][b][c])
        && m.unknowns[a][b][c].location == access.location(points[a][b][c])
        && m.unknowns[a][b][c].ordinal.Some?
        && m.unknowns[a][b][c].ordinal.value as int == OrdinalAt(points, bc, a, b, c)
  {
    assert InShape(d, a, b, c);
  }

  /** Every ordinal present in `u` lies in `0 .. n-1`. */
  ghost predicate OrdinalsInRange(u: seq<seq<seq<UnknownPoint>>>, d: Index, n: int)
    requires Shaped(u, d)
  {
    forall a, b, c :: InShape(d, a, b, c) && u[a][b][c].ordinal.Some? ==> 0 <= u[a][b][c].ordinal.value as int < n
  }

  /** No two cells of `u` share an ordinal. */
  ghost predicate OrdinalsInjective(u: seq<seq<seq<UnknownPoint>>>, d: Index)
    requires Shaped(u, d)
  {
    forall a, b, c, a', b', c' ::
      InShape(d, a, b, c) && InShape(d, a', b', c') &&
      u[a][b][c].ordinal.Some? && u[a][b][c].ordinal == u[a'][b'][c'].ordinal ==>
      a == a' && b == b' && c == c'
  }

  /** Some cell of `u` holds ordinal `o`. */
  ghost predicate HasOrdinal(u: seq<seq<seq<UnknownPoint>>>, d: Index, o: int)
    requires Shaped(u, d)
  {
    exists a, b, c :: InShape(d, a, b, c) && u[a][b][c].ordinal.Some? && u[a][b][c].ordinal.value as int == o
  }

  /**
   * The ordinals of a box of unknowns are a bijection onto `0 .. n-1`:
   * each is in range, no two cells share one, and each number is used.
   */
  ghost predicate OrdinalsBijective(u: seq<seq<seq<UnknownPoint>>>, d: Index, n: int) {
    && Shaped(u, d)
    && OrdinalsInRange(u, d, n)
    && OrdinalsInjective(u, d)
    && (forall o :: 0 <= o < n ==> HasOrdinal(u, d, o))
  }

  lemma PartitionOrdinalsInRange<P>(points: seq<seq<seq<P>>>, d: Index, bc: BoundaryCondition, access: PointAccess<P>)
    requires ValidDimensions(d) && FitsIn(points, d) && UnknownCount(points, bc) < 0x8000_0000
    ensures OrdinalsInRange(Partitioned(points, d, bc, access).unknowns, d, UnknownCount(points, bc))
  {
    var u: seq<seq<seq<UnknownPoint>>> := Partitioned(points, d, bc, access).unknowns;
    forall a, b, c | InShape(d, a, b, c) && u[a][b][c].ordinal.Some?
      ensures 0 <= u[a][b][c].ordinal.value as int < UnknownCount(points, bc)
    {
      OrdinalInRange(points, bc, a, b, c);
    }
  }

  lemma PartitionOrdinalsInjective<P>(points: seq<seq<seq<P>>>, d: Index, bc: BoundaryCondition, access: PointAccess<P>)
    requires ValidDimensions(d) && FitsIn(points, d) && UnknownCount(points, bc) < 0x8000_0000
    ensures OrdinalsInjective(Partitioned(points, d, bc, access).unknowns, d)
  {
    var u: seq<seq<seq<UnknownPoint>>> := Partitioned(points, d, bc, access).unknowns;
    forall a, b, c, a', b', c' |
      InShape(d, a, b, c) && InShape(d, a', b', c') &&
      u[a][b][c].ordinal.Some? && u[a][b][c].ordinal == u[a'][b'][c'].ordinal
      ensures a == a' && b == b' && c == c'
    {
      OrdinalInjective(points, bc, a, b, c, a', b', c');
    }
  }

  lemma PartitionOrdinalsOnto<P>(points: seq<seq<seq<P>>>, d: Index, bc: BoundaryCondition, access: PointAccess<P>)
    requires ValidDimensions(d) && FitsIn(points, d) && UnknownCount(points, bc) < 0x8000_0000
    ensures forall o :: 0 <= o < UnknownCount(points, bc) ==> HasOrdinal(Partitioned(points, d, bc, access).unknowns, d, o)
  {
    var u: seq<seq<seq<UnknownPoint>>> := Partitioned(points, d, bc, access).unknowns;
    forall o | 0 <= o < UnknownCount(points, bc)
      ensures HasOrdinal(u, d, o)
    {
      var a, b, c := OrdinalOnto(points, bc, o);
      assert InShape(d, a, b, c) && u[a][b][c].ordinal.Some? && u[a][b][c].ordinal.value as int == o;
    }
  }

  /**
   * Partitioning gives exactly the unknown cells an ordinal, and those
   * ordinals are a bijection onto `0 .. N-1`, `N` the number of unknown cells.
   */
  lemma PartitionOrdinalsBijective<P>(points: seq<seq<seq<P>>>, d: Index, bc: BoundaryCondition, access: PointAccess<P>)
    requires ValidDimensions(d) && FitsIn(points, d) && UnknownCount(points, bc) < 0x8000_0000
    ensures var u := Partitioned(points, d, bc, access).unknowns;
      && (forall a, b, c :: InShape(d, a, b, c) ==>
            (u[a][b][c].ordinal.Some? <==> InBox(points, a, b, c) && bc(a, b, c).None?))
      && OrdinalsBijective(u, d, UnknownCount(points, bc))
  {
    PartitionOrdinalsInRange(points, d, bc, access);
    PartitionOrdinalsInjective(points, d, bc, access);
    PartitionOrdinalsOnto(points, d, bc, access);
  }

  /**
   * Partitioning is deterministic: meshes of the same shape under the same
   * boundary condition get the same known/unknown split, the same known
   * values and the same ordinals.
   */
  lemma PartitionDeterministic<P, Q>(p: seq<seq<seq<P>>>, q: seq<seq<seq<Q>>>, d: Index, bc: BoundaryCondition,
                                     accessP: PointAccess<P>, accessQ: PointAccess<Q>)
    requires ValidDimensions(d) && SameShape(p, q) && UnknownCount(p, bc) < 0x8000_0000
    ensures UnknownCount(q, bc) == UnknownCount(p, bc)
    ensures forall a, b, c :: InShape(d, a, b, c) ==>
      && Partitioned(p, d, bc, accessP).unknowns[a][b][c].ordinal == Partitioned(q, d, bc, accessQ).unknowns[a][b][c].ordinal
      && Partitioned(p, d, bc, accessP).knowns[a][b][c].value == Partitioned(q, d, bc, accessQ).knowns[a][b][c].value
  {
    SameShapeOrdinals(p, q, bc);
  }

  /** `p` and `q` have the same shape and the same indices and location in every cell. */
  ghost predicate SameSites<P, Q>(p: seq<seq<seq<P>>>, q: seq<seq<seq<Q>>>, accessP: PointAccess<P>, accessQ: PointAccess<Q>) {
    && SameShape(p, q)
    && forall a, b, c :: InBox(p, a, b, c) ==>
         accessP.indices(p[a][b][c]) == accessQ.indices(q[a][b][c]) &&
         accessP.location(p[a][b][c]) == accessQ.location(q[a][b][c])
  }

  /** Meshes with the same sites partition into the very same unsolved mesh. */
  lemma PartitionSameSites<P, Q>(p: seq<seq<seq<P>>>, q: seq<seq<seq<Q>>>, d: Index, bc: BoundaryCondition,
                                 accessP: PointAccess<P>, accessQ: PointAccess<Q>)
    requires ValidDimensions(d) && SameSites(p, q, accessP, accessQ) && UnknownCount(p, bc) < 0x8000_0000
    ensures UnknownCount(q, bc) == UnknownCount(p, bc)
    ensures Partitioned(p, d, bc, accessP) == Partitioned(q, d, bc, accessQ)
  {
    SameShapeOrdinals(p, q, bc);
    var mp, mq := Partitioned(p, d, bc, accessP), Partitioned(q, d, bc, accessQ);
    BoxesEqual(mp.knowns, mq.knowns, d);
    BoxesEqual(mp.unknowns, mq.unknowns, d);
  }
}
