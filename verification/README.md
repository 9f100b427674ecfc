# NumericalPDEKit core in Dafny

This project models the numerical core of NumericalPDEKit, a Swift package. The package solves linear partial differential equations by finite differences on a 3D grid of mesh points.

- **Meshes.** A mesh is a triple-nested array of points indexed `i`, `j`, `k`.
  - A `SolvedMesh` holds known points.
  - An `UnsolvedMesh` holds a box of known points and a box of unknown points, plus its `dimensions`. These are the largest valid indices, so a box has `(X+1)(Y+1)(Z+1)` cells.
- **Boundary condition.** Applying a boundary condition partitions a mesh. Each cell becomes known with the condition's value, or unknown with the next *ordinal*. An ordinal is the unknown's row in the linear system.
- **Discretization.** A discretized PDE gives two stencils for each unknown:
  - a left-hand stencil of `(location, coefficient)` pairs;
  - a right-hand value and stencil.
- **Linear system.**
  - `LinearSystem.from` walks the unknowns in `i`-`j`-`k` order and assembles the sparse matrix. The matrix is a compressed-column triple of entries, column starts and row indices.
  - The `b` vector is built in the same order.
  - The solution vector is written back into the mesh.
- **Parabolic driver.** `ParabolicPDE` steps a mesh through time. It reuses one lazily built system. It stamps step `n` with time `deltaTime * n` and emits the initial mesh followed by each step.
- **Cross sections.** `Axis`, from the visualisation module, takes 2D cross sections of a solved mesh.

## Modules

- `Points` (points.dfy):
  - the point types and `simd_int3` conversions (`Index`, with `int32` components);
  - `box(of:)`;
  - the shaped-box vocabulary;
  - a small framework (`FilledBefore`, `FillCell`, …) for proving that the source's triple loops fill a box cell by cell.
- `Ordinals` (ordinals.dfy): the number of unknown cells before a cell in `i`-`j`-`k` order, and its properties.
- `Mesh` (mesh.dfy): mesh records, `contains`, and `applyBoundaryCondition`. The partition loop is a method, proved equal to the function `Partitioned`.
- `Grid` (grid.dfy): `MeshFactory.make3DGrid` and `make2DGrid`.
- `Reconstruction` (reconstruction.dfy): `UnsolvedMesh.solve`, which writes a solution vector back, and `applyInitialCondition`.
- `Discretization` (discretization.dfy): `getAdjacentCoefficients`, `getNextKnownValue` and `coefficientReducer`.
- `Traversal` (traversal.dfy): the order in which the source's loops visit unknown cells.
- `Assembly` (linear_system.dfy) and `SystemShape` (system_shape.dfy): `LinearSystem.from`, the shape of the system it assembles, and `LinearSystem.solve`.
- `RightHandSide` (rhs.dfy): `bVector`.
- `Parabolic` (parabolic.dfy): the `ParabolicPDE` class.
- `CrossSection` (axis.dfy): `Axis`.
- `Wrappers` (wrappers.dfy): `Option`.

The imperative loops of the source are methods with `while` loops. Each method is proved equal to a specification function. The properties the source relies on are lemmas about those functions. For example:

- the ordinals are a bijection onto `0 ..< unknownCount`;
- the walk of `from` meets the unknowns in ordinal order;
- the system's row count equals the number of unknowns, and its row indices lie in `[0, rowCount)`;
- entry `o` of the `b` vector belongs to the unknown with ordinal `o`;
- every step of the parabolic driver keeps the initial partition, so the cached system fits every step.

## Model

| member | source | states |
|---|---|---|
| Points.Of | Sources/NumericalPDEKit/PDEMeshPoint.swift:47-49 | `simd_int3.of` on components within Int32 gives a vector whose `ijk` is the given triple. |
| Points.Ijk | Sources/NumericalPDEKit/PDEMeshPoint.swift:43-45 | `ijk` widens every component to an integer within the Int32 range. |
| Points.OfIjk | Sources/NumericalPDEKit/PDEMeshPoint.swift:43-49 | Round trip: `of(ijk(p)) == p` for every vector. |
| Points.KnownFrom | Sources/NumericalPDEKit/KnownPoint.swift:20-24 | `KnownPoint(point, value:)` takes the indices and location of any point kind and stores the given value. |
| Points.UnknownFrom | Sources/NumericalPDEKit/UnknownPoint.swift:21-25 | `UnknownPoint(point, ordinal:)` takes the indices and location of any point kind and stores the given ordinal. |
| Points.ConstructorsRoundTrip | Sources/NumericalPDEKit/UnknownPoint.swift:21-25 | Converting a point to the other kind and back keeps its indices and location. Re-initializing a point from itself with its own payload gives the same point. |
| Points.EmptyPoints | Sources/NumericalPDEKit/KnownPoint.swift:32-34 | `KnownPoint.empty` and `UnknownPoint.empty` (UnknownPoint.swift:32-34) both sit at index `(0, 0, 0)` and the origin. The known one has value 0.0, and the unknown one has no ordinal, so a placeholder is never taken for an unknown. |
| Points.Box | Sources/NumericalPDEKit/PDEMeshPoint.swift:31-38 | `box(of:)` is shaped `(X+1)(Y+1)(Z+1)` and every cell is the empty point. |
| Points.ShapedCells | Sources/NumericalPDEKit/PDEMeshPoint.swift:31-38 | In a box of the mesh's dimensions, a triple indexes a cell exactly when it lies within the dimensions. |
| Points.BoxesEqual | Sources/NumericalPDEKit/PDEMeshPoint.swift:31-38 | Two boxes of the same dimensions that agree on every cell are equal. |
| Points.FillDone | Sources/NumericalPDEKit/UnsolvedMesh.swift:35-47 | A box whose cells were written in `i`-`j`-`k` order up to the last row is shaped, and each cell holds what the loop writes there. The mesh loops use this to state their result. |
| Ordinals.OrdinalInRange | Sources/NumericalPDEKit/PDEMesh.swift:50-60 | The ordinal given to an unknown cell is below the number of unknown cells. |
| Ordinals.OrdinalIncreasing | Sources/NumericalPDEKit/PDEMesh.swift:52-60 | An unknown cell earlier in `i`-`j`-`k` order gets a smaller ordinal than any later cell. |
| Ordinals.OrdinalInjective | Sources/NumericalPDEKit/PDEMesh.swift:52-60 | Two unknown cells with the same ordinal are the same cell. |
| Ordinals.OrdinalOnto | Sources/NumericalPDEKit/PDEMesh.swift:52-60 | Every number below the unknown count is the ordinal of some unknown cell. |
| Ordinals.SameShapeOrdinals | Sources/NumericalPDEKit/PDEMesh.swift:52-60 | Ordinals depend only on the shape of the point array and on the boundary condition, not on the points. |
| Mesh.NewSolvedMesh | Sources/NumericalPDEKit/SolvedMesh.swift:12-26 | The memberwise `SolvedMesh` keeps its knowns and dimensions, and its time defaults to 0. |
| Mesh.WithTime | Sources/NumericalPDEKit/ParabolicPDE.swift:71 | Setting `time` changes the time and nothing else. |
| Mesh.Contains | Sources/NumericalPDEKit/PDEMesh.swift:38-43 | `contains` holds exactly when `ijk` of the location lies in `0 ... X`, `0 ... Y`, `0 ... Z`, the cells of a box of the mesh's dimensions. |
| Mesh.ContainsIndexesBox | Sources/NumericalPDEKit/PDEMesh.swift:38-43 | `contains(location)` holds exactly when `ijk` of the location indexes a cell of a box of the mesh's dimensions. The inclusive bounds `0 <= i <= X` mean `knowns[i][j][k]` does not trap. |
| Mesh.Partitioned | Sources/NumericalPDEKit/PDEMesh.swift:48-65 | The partitioned mesh keeps the dimensions. Both boxes are shaped by them. Every cell holds what the loop writes there: a known point with the condition's value, or an unknown point with the ordinal counter, or the empty point where the loop writes nothing. |
| Mesh.Partition | Sources/NumericalPDEKit/PDEMesh.swift:48-65 | The triple loop with its Int32 ordinal counter returns `Partitioned`. |
| Mesh.PartitionRow | Sources/NumericalPDEKit/PDEMesh.swift:52-63 | One pass of the row loop extends the filled prefix by a row and advances the counter by that row's unknown cells. |
| Mesh.PartitionColumn | Sources/NumericalPDEKit/PDEMesh.swift:53-62 | One pass of the column loop extends the filled prefix by a column and advances the counter by that column's unknown cells. |
| Mesh.ApplyBoundaryConditionToSolved | Sources/NumericalPDEKit/SolvedMesh.swift:14-16 | On a solved mesh, `applyBoundaryCondition` partitions its knowns. |
| Mesh.ApplyBoundaryConditionToUnsolved | Sources/NumericalPDEKit/UnsolvedMesh.swift:14-16 | On an unsolved mesh, `applyBoundaryCondition` partitions its unknowns. |
| Mesh.PartitionSplitsCells | Sources/NumericalPDEKit/PDEMesh.swift:55-60 | A cell with a boundary value becomes known with that value and the point's site, and has no ordinal. Any other cell becomes unknown with the point's site and its ordinal. |
| Mesh.CellsOutsideEmpty | Sources/NumericalPDEKit/PDEMesh.swift:49 | Cells of the box that the points do not reach keep the empty placeholders. |
| Mesh.PartitionOrdinalsInRange | Sources/NumericalPDEKit/PDEMesh.swift:50-60 | Every ordinal in the unknown box lies in `0 ..< unknownCount`. |
| Mesh.PartitionOrdinalsInjective | Sources/NumericalPDEKit/PDEMesh.swift:50-60 | No two cells of the unknown box carry the same ordinal. |
| Mesh.PartitionOrdinalsOnto | Sources/NumericalPDEKit/PDEMesh.swift:50-60 | Every number in `0 ..< unknownCount` is carried by some cell. |
| Mesh.PartitionOrdinalsBijective | Sources/NumericalPDEKit/PDEMesh.swift:50-60 | A cell has an ordinal exactly when it is a point without a boundary value. The ordinals are a bijection onto `0 ..< unknownCount`. |
| Mesh.PartitionDeterministic | Sources/NumericalPDEKit/PDEMesh.swift:48-65 | Partitioning two point arrays of the same shape gives the same ordinals and the same known values. |
| Mesh.PartitionSameSites | Sources/NumericalPDEKit/PDEMesh.swift:48-65 | Point arrays with the same indices and locations partition into the same unsolved mesh. So re-deriving the unsolved form of a solved mesh is idempotent. |
| Grid.GridPoint | Sources/NumericalPDEKit/PDEMesh.swift:99-100 | The grid point at `(i, j, k)` has those indices, location `h * (i, j, k)` and no ordinal. |
| Grid.GridColumn | Sources/NumericalPDEKit/PDEMesh.swift:97-101 | The `k` loop builds `maxK + 1` grid points, point `k` at `(i, j, k)`. |
| Grid.GridRow | Sources/NumericalPDEKit/PDEMesh.swift:95-103 | The `j` loop builds `maxJ + 1` columns of `maxK + 1` grid points. |
| Grid.Make3DGrid | Sources/NumericalPDEKit/PDEMesh.swift:91-107 | The grid has dimensions `(maxI, maxJ, maxK)`, knowns `[[[]]]`, and an unknown box of that shape holding the grid point of every cell. |
| Grid.Make2DGrid | Sources/NumericalPDEKit/PDEMesh.swift:78-80 | A 2D grid is a 3D grid of depth 0: one point per column, at `k = 0`. |
| Grid.GridIndicesAreCells | Sources/NumericalPDEKit/PDEMesh.swift:94-106 | Every grid point's indices are its own cell, and no grid point has an ordinal. |
| Reconstruction.Reconstructed | Sources/NumericalPDEKit/UnsolvedMesh.swift:33-49 | The solved mesh keeps the dimensions, has time 0 and is shaped by them. Every cell holds the solved point of that cell. |
| Reconstruction.Reconstruct | Sources/NumericalPDEKit/UnsolvedMesh.swift:35-48 | The triple loop returns `Reconstructed` for the solution vector. |
| Reconstruction.ReconstructRow | Sources/NumericalPDEKit/UnsolvedMesh.swift:37-47 | One pass of the row loop extends the filled prefix by a row. |
| Reconstruction.ReconstructColumn | Sources/NumericalPDEKit/UnsolvedMesh.swift:38-46 | One pass of the column loop extends the filled prefix by a column. |
| Reconstruction.ReconstructedCells | Sources/NumericalPDEKit/UnsolvedMesh.swift:40-44 | An unknown with ordinal `o` gets value `x[o]` and keeps its indices and location. Any other cell keeps the mesh's known point. |
| Reconstruction.ReconstructedOutsideEmpty | Sources/NumericalPDEKit/UnsolvedMesh.swift:35 | Cells of the box beyond the unknown array stay empty. |
| Reconstruction.PartitionThenReconstruct | Sources/NumericalPDEKit/UnsolvedMesh.swift:37-47 | Partitioning and then writing back a long enough `x` gives each point its site back. Its value is the boundary value if it has one, else `x` at its ordinal. |
| Reconstruction.PartitionCanReconstruct | Sources/NumericalPDEKit/UnsolvedMesh.swift:40-41 | After partitioning, `xValues[Int(ordinal)]` never traps for an `x` as long as the unknown count. |
| Reconstruction.Initialized | Sources/NumericalPDEKit/UnsolvedMesh.swift:54-66 | The initial mesh keeps the dimensions, has time 0, is shaped, and holds the initial point of every cell. |
| Reconstruction.ApplyInitialCondition | Sources/NumericalPDEKit/UnsolvedMesh.swift:54-66 | The triple loop returns `Initialized`. |
| Reconstruction.InitializeRow | Sources/NumericalPDEKit/UnsolvedMesh.swift:56-63 | One pass of the row loop extends the filled prefix by a row. |
| Reconstruction.InitializeColumn | Sources/NumericalPDEKit/UnsolvedMesh.swift:57-62 | One pass of the column loop extends the filled prefix by a column. |
| Reconstruction.InitializedCells | Sources/NumericalPDEKit/UnsolvedMesh.swift:58-62 | Every unknown cell becomes known with value `initialCondition(i, j, k)` and keeps its indices and location. |
| Discretization.ShapedReadable | Sources/NumericalPDEKit/DiscretizedPDE.swift:51-53 | On a box shaped by the dimensions, the `contains` guard makes every stencil lookup safe. |
| Discretization.Kept | Sources/NumericalPDEKit/DiscretizedPDE.swift:49-57 | The filter keeps at most one pair per stencil entry. |
| Discretization.KeptSound | Sources/NumericalPDEKit/DiscretizedPDE.swift:50-56 | Every kept pair comes from a stencil entry inside the mesh whose cell is unknown: its ordinal with the entry's coefficient. |
| Discretization.KeptComplete | Sources/NumericalPDEKit/DiscretizedPDE.swift:50-56 | Every stencil entry inside the mesh whose cell has an ordinal yields a kept pair. |
| Discretization.Insert | Sources/NumericalPDEKit/DiscretizedPDE.swift:58 | The insertion step of the sort puts the pair before the first pair whose ordinal is not below it, giving a list one pair longer. `InsertPermutes` shows it adds exactly that pair, and `InsertSorted` shows it keeps the order. |
| Discretization.SortByOrdinal | Sources/NumericalPDEKit/DiscretizedPDE.swift:58 | `sorted { $0.0 < $1.0 }` keeps the number of pairs. `SortPermutes` shows it is a permutation, and `SortSorted` shows the result ascends by ordinal. |
| Discretization.InsertPermutes | Sources/NumericalPDEKit/DiscretizedPDE.swift:58 | Inserting into the sorted list adds exactly that pair. |
| Discretization.SortPermutes | Sources/NumericalPDEKit/DiscretizedPDE.swift:58 | `sorted` is a permutation. |
| Discretization.InsertSorted | Sources/NumericalPDEKit/DiscretizedPDE.swift:58 | Inserting into a list sorted by ordinal keeps it sorted. |
| Discretization.InsertStrictlySorted | Sources/NumericalPDEKit/DiscretizedPDE.swift:58 | Inserting a new ordinal into a strictly sorted list keeps it strictly sorted. |
| Discretization.SortSorted | Sources/NumericalPDEKit/DiscretizedPDE.swift:58 | `sorted { $0.0 < $1.0 }` orders by ordinal, strictly when the ordinals are distinct. |
| Discretization.AdjacentCoefficients | Sources/NumericalPDEKit/DiscretizedPDE.swift:47-59 | The result has as many pairs as the filter keeps. |
| Discretization.GetAdjacentCoefficients | Sources/NumericalPDEKit/DiscretizedPDE.swift:47-59 | The loop over the stencil followed by the sort returns `AdjacentCoefficients`. |
| Discretization.AdjacentCoefficientsSpec | Sources/NumericalPDEKit/DiscretizedPDE.swift:47-59 | The result is sorted by ordinal. It holds exactly the pairs of the stencil entries inside the mesh whose cell is unknown: sound and complete. |
| Discretization.IjkInjective | Sources/NumericalPDEKit/PDEMeshPoint.swift:43-45 | Distinct locations have distinct `ijk`. |
| Discretization.KeptDistinct | Sources/NumericalPDEKit/DiscretizedPDE.swift:50-57 | A stencil with distinct locations over a mesh with injective ordinals yields distinct ordinals. |
| Discretization.AdjacentStrictlySorted | Sources/NumericalPDEKit/DiscretizedPDE.swift:47-59 | The same conditions give a strictly increasing ordinal list, so no ties. |
| Discretization.KnownValue | Sources/NumericalPDEKit/DiscretizedPDE.swift:61-68 | A contained location reads `knowns[i][j][k].value` at its `ijk`. A location outside the mesh reads 0.0. |
| Discretization.ReducerStep | Sources/NumericalPDEKit/DiscretizedPDE.swift:70-76 | One reducer step adds `coefficient * knowns[i][j][k].value` for a contained location. It leaves the result unchanged for a location outside the mesh. |
| Discretization.Reduce | Sources/NumericalPDEKit/DiscretizedPDE.swift:70-76 | `reduce(acc, coefficientReducer(knowns))` is `acc` plus the sum of `coefficient * value` over the stencil. |
| Discretization.CombinationAppend | Sources/NumericalPDEKit/DiscretizedPDE.swift:70-76 | The combination of two concatenated stencils is the sum of their combinations. |
| Discretization.OutsideTermIgnored | Sources/NumericalPDEKit/DiscretizedPDE.swift:61-68 | A stencil entry outside the mesh adds nothing to the combination. |
| Discretization.CombinationOrderFree | Sources/NumericalPDEKit/DiscretizedPDE.swift:70-76 | The combination does not depend on the order of the stencil's entries. |
| Traversal.PresentPositions | Sources/NumericalPDEKit/LinearSystem.swift:92-94 | Every cell the `where point.ordinal != nil` walk visits holds an unknown. |
| Traversal.PresentPositionsSpec | Sources/NumericalPDEKit/LinearSystem.swift:92-94 | The walk is in strict `i`-`j`-`k` order and visits exactly the cells that hold an ordinal. |
| Traversal.WalkOrdinals | Sources/NumericalPDEKit/LinearSystem.swift:92-95 | The walk's ordinal sequence has one entry per visited cell, that cell's ordinal. |
| Traversal.PartitionedOrdinal | Sources/NumericalPDEKit/PDEMesh.swift:55-59 | A cell with an ordinal in the partitioned mesh is a point without a boundary value, and carries its ordinal. |
| Traversal.PartitionWalkIncreasing | Sources/NumericalPDEKit/LinearSystem.swift:92-96 | Over a partitioned mesh the walk meets strictly increasing ordinals. |
| Traversal.PartitionWalkInRange | Sources/NumericalPDEKit/LinearSystem.swift:92-96 | Every ordinal the walk meets lies in `0 ..< unknownCount`. |
| Traversal.PartitionWalkCovers | Sources/NumericalPDEKit/LinearSystem.swift:92-96 | The walk meets every ordinal below the unknown count. |
| Traversal.PartitionWalkOrdinals | Sources/NumericalPDEKit/LinearSystem.swift:92-96 | The walk has one step per unknown, and its `r`-th cell has ordinal `r`. So row `r` of the system is the unknown with ordinal `r`. |
| Traversal.PartitionWalkPosition | Sources/NumericalPDEKit/LinearSystem.swift:92-96 | The unknown cell with ordinal `o` is the `o`-th cell of the walk. |
| Assembly.NonNegativeMembers | Sources/NumericalPDEKit/LinearSystem.swift:97 | `where ordinal >= 0` keeps exactly the pairs with a non-negative ordinal. |
| Assembly.NonNegativeKeepsAll | Sources/NumericalPDEKit/LinearSystem.swift:97 | When every ordinal is non-negative, the filter keeps the row unchanged. |
| Assembly.NonNegativeStrictlySorted | Sources/NumericalPDEKit/LinearSystem.swift:97 | The filter keeps a strictly sorted row strictly sorted. |
| Assembly.Assembled | Sources/NumericalPDEKit/LinearSystem.swift:89-112 | The reference system `from` returns has one row per walked unknown and `rowCount + 1` column starts. Its last start is the common length of `entries` and `rowIndices`. `AssembledShape` and `AssembledRows` state the rest. |
| Assembly.WalkFromStart | Sources/NumericalPDEKit/LinearSystem.swift:90-103 | After the loop has visited some cells: `entries` and `rowIndices` hold the coefficients and ordinals of their rows in order; `columnStarts` holds each row's start; `entryCounter == columnStart` is the number of pairs; `rowCount` is the number of cells. |
| Assembly.WalkBuildsAssembled | Sources/NumericalPDEKit/LinearSystem.swift:89-112 | The loop over all unknowns followed by the final sentinel yields `Assembled`, and the Int32 row counter does not overflow. |
| Assembly.WalkAppend | Sources/NumericalPDEKit/LinearSystem.swift:92-103 | Walking two runs of cells one after the other is walking their concatenation. |
| Assembly.AssembleUnknown | Sources/NumericalPDEKit/LinearSystem.swift:95-100 | The body for one unknown appends its row start, advances the row count, and appends the kept pairs. |
| Assembly.AssembleColumn | Sources/NumericalPDEKit/LinearSystem.swift:94-101 | The `k` loop performs the walk over the unknowns of one column. |
| Assembly.AssembleRow | Sources/NumericalPDEKit/LinearSystem.swift:93-102 | The `j` loop performs the walk over the unknowns of one row. |
| Assembly.From | Sources/NumericalPDEKit/LinearSystem.swift:89-112 | `LinearSystem.from` returns `Assembled`. Its shape and contents are stated by the `SystemShape` lemmas. |
| SystemShape.StartsCount | Sources/NumericalPDEKit/LinearSystem.swift:96 | The start marker of row `r` is the number of pairs in the rows before it. |
| SystemShape.StartsShape | Sources/NumericalPDEKit/LinearSystem.swift:96-104 | The starts with the sentinel begin at 0, end at the pair count and never decrease. Consecutive starts differ by the length of that row. |
| SystemShape.RowStretch | Sources/NumericalPDEKit/LinearSystem.swift:96-100 | Row `r`'s pairs sit contiguously between its start and the next start. |
| SystemShape.AssembledShape | Sources/NumericalPDEKit/LinearSystem.swift:89-112 | The system has one row per unknown and `rowCount + 1` column starts, from 0 to `count(entries) == count(rowIndices)`. Each gap is that row's pair count. |
| SystemShape.AssembledRows | Sources/NumericalPDEKit/LinearSystem.swift:92-100 | Between the starts of row `r` lie exactly the ordinals and coefficients of the filtered adjacent coefficients of the walk's `r`-th unknown. |
| SystemShape.ShapedStencilsReadable | Sources/NumericalPDEKit/DiscretizedPDE.swift:51-53 | On a shaped unknown box, every stencil of every unknown can be read. |
| SystemShape.RowOrdinalsIncreasing | Sources/NumericalPDEKit/LinearSystem.swift:95-97 | For a stencil with distinct locations, the row's ordinals strictly increase. |
| SystemShape.AssembledRowsIncreasing | Sources/NumericalPDEKit/LinearSystem.swift:95-100 | Within each row of the assembled system, the row indices strictly increase. |
| SystemShape.AdjacentOrdinalsInRange | Sources/NumericalPDEKit/DiscretizedPDE.swift:53-54 | Over a box whose ordinals lie in `0 ..< n`, every adjacent ordinal does too. |
| SystemShape.PartitionedSystem | Sources/NumericalPDEKit/LinearSystem.swift:89-112 | For a partitioned mesh: `rowCount` equals the number of unknowns; row `r` belongs to the unknown with ordinal `r` and holds all of its adjacent coefficients, none filtered; every row index lies in `[0, rowCount)`. |
| SystemShape.Solve | Sources/NumericalPDEKit/LinearSystem.swift:65-75 | The solution vector has `rowCount` entries. |
| RightHandSide.BEntriesIndex | Sources/NumericalPDEKit/ParabolicPDE.swift:92-99 | Entry `r` of the entries for a run of cells is the entry of its `r`-th cell. |
| RightHandSide.BEntriesAppend | Sources/NumericalPDEKit/ParabolicPDE.swift:92-99 | The entries of two runs of cells concatenate. |
| RightHandSide.ShapedStencilsFold | Sources/NumericalPDEKit/DiscretizedPDE.swift:61-68 | On shaped boxes, both reductions read the knowns without trapping. |
| RightHandSide.BColumn | Sources/NumericalPDEKit/ParabolicPDE.swift:94-99 | The `k` loop appends one entry per unknown of the column, in order. |
| RightHandSide.BRow | Sources/NumericalPDEKit/ParabolicPDE.swift:93-100 | The `j` loop appends one entry per unknown of the row, in order. |
| RightHandSide.BVector | Sources/NumericalPDEKit/ParabolicPDE.swift:90-103 | `bVector` returns one entry per visited unknown, in walk order. |
| RightHandSide.BValuesMeaning | Sources/NumericalPDEKit/ParabolicPDE.swift:94-98 | Entry `r` is the right-hand value plus the right-hand stencil's combination over the current knowns, minus the left-hand stencil's combination over the new knowns, at the walk's `r`-th unknown. |
| RightHandSide.PartitionedBValues | Sources/NumericalPDEKit/ParabolicPDE.swift:90-103 | For a partitioned mesh, the `b` vector has one entry per unknown, and entry `o` is the entry of the unknown with ordinal `o`. |
| RightHandSide.UnknownTermAddsNothing | Sources/NumericalPDEKit/ParabolicPDE.swift:97 | A left-hand stencil entry at an unknown cell reads the zero placeholder of the known box, so the `b` vector only moves known values to the right. |
| Parabolic.NextUnsolved | Sources/NumericalPDEKit/ParabolicPDE.swift:111-113 | The next unsolved mesh keeps the dimensions, and both of its boxes are shaped by them. |
| Parabolic.CachedSystem | Sources/NumericalPDEKit/ParabolicPDE.swift:52-55 | The lazily built system has one row per unknown of the initial partition. |
| Parabolic.Advance | Sources/NumericalPDEKit/ParabolicPDE.swift:69-71 | One step keeps the dimensions and stamps the given time. |
| Parabolic.AdvanceKeepsPartition | Sources/NumericalPDEKit/ParabolicPDE.swift:69-73 | Writing any long enough solution into the initial partition gives a well-posed mesh that partitions into the same unsolved mesh. |
| Parabolic.SameSitesAfterReconstruct | Sources/NumericalPDEKit/UnsolvedMesh.swift:37-47 | Writing a solution back keeps every cell's indices and location. |
| Parabolic.StepFrom | Sources/NumericalPDEKit/ParabolicPDE.swift:69-71 | A step of the run keeps the initial mesh's dimensions and has the given time. |
| Parabolic.MeshAt | Sources/NumericalPDEKit/ParabolicPDE.swift:64-74 | Mesh `m` of a run keeps the dimensions. Its time is the initial mesh's time for `m = 0` and `deltaTime * m` after that. |
| Parabolic.MeshAtKeepsPartition | Sources/NumericalPDEKit/ParabolicPDE.swift:67-73 | Every mesh of a run is well posed and partitions into the initial unsolved mesh, so the one cached system is the system of every step. |
| Parabolic.StepFromKeepsPartition | Sources/NumericalPDEKit/ParabolicPDE.swift:69-73 | A single step keeps the initial partition. |
| Parabolic.RunSnoc | Sources/NumericalPDEKit/ParabolicPDE.swift:68-74 | Emitting the next mesh of a run extends the emitted prefix of that run. |
| Parabolic.ClosedRange | Sources/NumericalPDEKit/ParabolicPDE.swift:68 | `lo...hi` exists exactly when `lo <= hi`, and then lists `lo` to `hi` in order. |
| Parabolic.NoStepsTraps | Sources/NumericalPDEKit/ParabolicPDE.swift:66-68 | With fewer than one step, the range `1...timeSteps` cannot be formed. |
| Parabolic.ParabolicPDE.constructor | Sources/NumericalPDEKit/ParabolicPDE.swift:37-47 | The initializer stores the stencils, initial mesh and boundary condition, and the lazy system is unbuilt. |
| Parabolic.ParabolicPDE.Contains | Sources/NumericalPDEKit/ParabolicPDE.swift:77-79 | `contains` holds exactly when the location lies within the initial mesh's inclusive bounds. |
| Parabolic.ParabolicPDE.NextUnsolvedMesh | Sources/NumericalPDEKit/ParabolicPDE.swift:111-113 | `nextUnsolvedMesh` applies the boundary condition to the solved mesh. |
| Parabolic.ParabolicPDE.GetLinearSystem | Sources/NumericalPDEKit/ParabolicPDE.swift:52-55 | The first read builds the system of the initial partition with `from` and caches it. Later reads return the cache unchanged. |
| Parabolic.ParabolicPDE.Step | Sources/NumericalPDEKit/ParabolicPDE.swift:69-73 | The loop body for step `n` turns mesh `n - 1` of the run into mesh `n`. It leaves the system cached, and the next unsolved mesh is again the initial partition. |
| Parabolic.ParabolicPDE.Solve | Sources/NumericalPDEKit/ParabolicPDE.swift:64-75 | The corrected driver emits `timeSteps + 1` meshes, or just the initial mesh when `timeSteps < 1`. Mesh `m` is mesh `m` of the run, at time `deltaTime * m`. The system is cached once any step ran. |
| Parabolic.ParabolicPDE.SolveAsWritten | Sources/NumericalPDEKit/ParabolicPDE.swift:64-75 | The driver as written traps exactly when `timeSteps < 1`, after emitting only the initial mesh. Otherwise it emits the run's `timeSteps + 1` meshes. |
| CrossSection.MaxDepth | Sources/VisualizationKit/Axis.swift:18-27 | `maxDepth` is the mesh dimension along the axis: X for x, Y for y, Z for z. |
| CrossSection.ImageDimensions | Sources/VisualizationKit/Axis.swift:32-41 | `imageDimensions` gives the other two dimensions in `i`-`j`-`k` order: x gives `(Y, Z)`, y gives `(X, Z)`, z gives `(X, Y)`. Put back at the axis's position with `maxDepth`, they give the mesh's dimensions. |
| CrossSection.Extract | Sources/VisualizationKit/Axis.swift:48-57 | `extract` at an in-range level returns the slice of the knowns along the axis. |
| CrossSection.ExtractXY | Sources/VisualizationKit/Axis.swift:64-74 | For each row, the loop collects the point at depth `level` of each column: the slice along z. |
| CrossSection.ExtractXZ | Sources/VisualizationKit/Axis.swift:81-91 | For each row, the loop copies its column at depth `level`: the slice along y. |
| CrossSection.ExtractYZ | Sources/VisualizationKit/Axis.swift:98-100 | The row at depth `level` is the slice along x. |
| CrossSection.LevelsAlongAxis | Sources/VisualizationKit/Axis.swift:18-27 | On a shaped mesh, extraction indexes within bounds exactly for levels `0 ... maxDepth`. |
| CrossSection.SliceCells | Sources/VisualizationKit/Axis.swift:32-41 | A slice at a level within `maxDepth` has `imageDimensions + 1` rows and columns. Row `a`, column `b` is the mesh point at the cell whose component along the axis is `level`. |
| CrossSection.SliceAtLevel | Tests/VisualizationKitTests/AxisTests.swift:29-47 | On a mesh whose points carry their own cell as indices, every point of a slice lies at depth `level` along the axis and is the mesh's point there, value included. |

## Left out

- **Floating point.** `Double` and `simd_double3` are modelled as `real`, so rounding is not modelled. Sums are exact, which is why `CombinationOrderFree` holds.
- **The sparse solver.**
  - Accelerate's sparse QR factorization (`SparseFactor`, `SparseSolve`) is foreign code. It is modelled as a `Solver` function passed in as a parameter.
  - `SystemShape.Solve`: states only the length of the solution, not `Ax ≈ b`, because the factorization is not part of this model.
  - The lazy `matrixStructure` and `qrFactorization` properties of `LinearSystem` are left out.
  - The "degenerate system" failure is left out, because it lives in the foreign solver.
- **Time steps.**
  - The step count `Int(maxTime / deltaTime)` is a parameter `timeSteps`, because it is a floating-point conversion.
  - The `completion` callback is modelled as the returned sequence of emitted meshes, in call order.
- **The lazy `linearSystem`.**
  - It is an `Option` field of the class. Swift's `mutating`/`inout` passing of the struct and of the system is ordinary state.
  - Building the system after its first read is modelled. The factorization cached inside it is not.
- **Well-posedness.** `Parabolic.ParabolicPDE.Solve` requires an initial mesh whose knowns fill exactly the box of its dimensions. This is the requirement documented at Sources/NumericalPDEKit/ParabolicPDE.swift:18-20: initial values known at all spatial coordinates of the mesh.
- **Assembly.From:** requires fewer than 2^31 unknowns. `rowCount += 1` on an Int32 traps beyond that. The traps themselves are not modelled.
- **Mesh.Partition:** requires fewer than 2^31 unknowns, for the same reason. The ordinal `+= 1` on an Int32 traps beyond that.
- **Grid.Make3DGrid:**
  - The source converts `width / h` and the other extents to `Int`. The model takes the resulting `maxI`, `maxJ` and `maxK` as non-negative Int32 values; `0...maxI` traps for negative values.
  - The conversion itself is floating point.
- **Stencil order.** A stencil (a Swift dictionary) is modelled as a sequence in an arbitrary order. `CombinationOrderFree` shows that the reduction does not depend on that order. `sorted` is modelled as an insertion sort. It is a stable sort, whereas Swift's sort is not guaranteed stable. Under `AdjacentStrictlySorted` the ordinals are distinct, so the sorted result is the same either way.
- **Other members left out:**
  - `EllipticalPDE` and the renderers (`ImageMeshRenderer`, `MeshSequenceRenderer`, `MeshRenderer`, `RGBCubeEdge`, `MeshRenderError`) are not part of this model. They are image output and colour mapping.
  - Nor are `Codable` conformances and the raw `String` values of `Axis`.
- **CrossSection.LevelsAlongAxis:** requires non-negative dimensions, meaning a non-empty mesh. With an empty array of points, any level is accepted along y and z, because the Swift loops never index. Along x no level is accepted, because `knowns[level]` traps. `LevelInRange` models both cases.

## Findings

| source | as written | input that shows it | evidently intended | confidence | as-written member | corrected member |
|---|---|---|---|---|---|---|
| Sources/NumericalPDEKit/ParabolicPDE.swift:66-68 | `for timeStep in 1...timeSteps` with `timeSteps = Int(maxTime / deltaTime)` | `maxTime = 0.5`, `deltaTime = 1.0` gives `timeSteps = 0`, and forming `1...0` traps right after the initial mesh was emitted | emit only the initial mesh and return (`timeSteps + 1` meshes in every case) | not executed | Parabolic.ParabolicPDE.SolveAsWritten | Parabolic.ParabolicPDE.Solve |
