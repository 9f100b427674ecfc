/**
 * `ParabolicPDE` (ParabolicPDE.swift): the time-stepping driver. It
 * emits the initial mesh, then, for each time step, solves the one
 * cached linear system for that step's `b` vector, writes the solution
 * into the unsolved mesh and stamps the step's time on the result.
 */
module Parabolic {
  import opened Wrappers
  import opened Points
  import opened Ordinals
  import opened Mesh
  import opened Discretization
  import opened Traversal
  import opened Assembly
  import opened SystemShape
  import opened Reconstruction
  import opened RightHandSide

  /**
   * What the driver needs of its initial mesh: it fills the box of its
   * dimensions, and it has fewer unknown cells than Int32.max so the
   * ordinal and row counters do not trap.
   */
  ghost predicate WellPosed(m: SolvedMesh, bc: BoundaryCondition) {
    && ValidDimensions(m.dimensions)
    && Shaped(m.knowns, m.dimensions)
    && UnknownCount(m.knowns, bc) < 0x8000_0000
  }

  /** `nextUnsolvedMesh`: the boundary condition applied to a solved mesh. */
  function NextUnsolved(m: SolvedMesh, bc: BoundaryCondition): (u: UnsolvedMesh)
    requires WellPosed(m, bc)
    ensures u.dimensions == m.dimensions && Shaped(u.knowns, m.dimensions) && Shaped(u.unknowns, m.dimensions)
  {
    ShapedCells(m.knowns, m.dimensions);
    Partitioned(m.knowns, m.dimensions, bc, KnownAccess)
  }

  /** The system that the lazy `linearSystem` holds once built: assembled from the initial mesh's partition. */
  function CachedSystem(initialMesh: SolvedMesh, bc: BoundaryCondition, lhs: LHS): (sys: LinearSystem)
    requires WellPosed(initialMesh, bc)
    ensures sys.rowCount as int == UnknownCount(initialMesh.knowns, bc)
  {
    ShapedCells(initialMesh.knowns, initialMesh.dimensions);
    PartitionedSystem(initialMesh.knowns, initialMesh.dimensions, bc, KnownAccess, lhs);
    Assembled(NextUnsolved(initialMesh, bc).unknowns, lhs, initialMesh.dimensions)
  }

  /**
   * One time step from the solved mesh `current`: the `b` vector of
   * `u` against `current`, the solution of `sys` for it written into
   * `u`, and the time `t` stamped on the result.
   */
  function Advance(u: UnsolvedMesh, sys: LinearSystem, current: SolvedMesh, lhs: LHS, rhs: RHS, d: Index,
                   solver: Solver, t: real): (next: SolvedMesh)
    requires ValidDimensions(u.dimensions) && sys.rowCount >= 0
    ensures next.dimensions == u.dimensions && next.time == t
  {
    WithTime(Reconstructed(u, Solve(sys, BValues(u, current, lhs, rhs, d), solver)), t)
  }

  /**
   * A step keeps the mesh's sites: writing any long enough solution
   * into the initial partition and stamping a time gives a mesh that
   * is again well posed and whose partition is the initial partition
   * itself, so the cached system fits every step.
   */
  lemma AdvanceKeepsPartition(initialMesh: SolvedMesh, bc: BoundaryCondition, x: seq<real>, t: real)
    requires WellPosed(initialMesh, bc) && UnknownCount(initialMesh.knowns, bc) <= |x|
    ensures CanReconstruct(NextUnsolved(initialMesh, bc), x)
    ensures var next := WithTime(Reconstructed(NextUnsolved(initialMesh, bc), x), t);
            && WellPosed(next, bc)
            && NextUnsolved(next, bc) == NextUnsolved(initialMesh, bc)
  {
    var d := initialMesh.dimensions;
    var points: seq<seq<seq<KnownPoint>>> := initialMesh.knowns;
    ShapedCells(points, d);
    var u := NextUnsolved(initialMesh, bc);
    PartitionCanReconstruct(points, d, bc, KnownAccess, x);
    var next := WithTime(Reconstructed(u, x), t);
    SameSitesAfterReconstruct(initialMesh, bc, x, t);
    PartitionSameSites(points, next.knowns, d, bc, KnownAccess, KnownAccess);
  }

  /** Writing a solution into the initial partition keeps every cell's indices and location. */
  lemma SameSitesAfterReconstruct(initialMesh: SolvedMesh, bc: BoundaryCondition, x: seq<real>, t: real)
    requires WellPosed(initialMesh, bc) && UnknownCount(initialMesh.knowns, bc) <= |x|
    ensures var next := WithTime(Reconstructed(NextUnsolved(initialMesh, bc), x), t);
            SameSites(initialMesh.knowns, next.knowns, KnownAccess, KnownAccess)
  {
    var d := initialMesh.dimensions;
    var points: seq<seq<seq<KnownPoint>>> := initialMesh.knowns;
    ShapedCells(points, d);
    var next := WithTime(Reconstructed(NextUnsolved(initialMesh, bc), x), t);
    ShapedCells(next.knowns, d);
    forall a, b, c | InBox(points, a, b, c)
      ensures points[a][b][c].indices == next.knowns[a][b][c].indices
      ensures points[a][b][c].location == next.knowns[a][b][c].location
    {
      PartitionThenReconstruct(points, d, bc, KnownAccess, x, a, b, c);
    }
  }

  /** The time stamped on step `n`. */
  function TimeOf(deltaTime: real, n: int): real {
    deltaTime * n as real
  }

  /**
   * One step of a run from `current`: advanced with the initial
   * partition and the cached system to time `t`.
   */
  function StepFrom(initialMesh: SolvedMesh, bc: BoundaryCondition, lhs: LHS, rhs: RHS, solver: Solver,
                    current: SolvedMesh, t: real): (next: SolvedMesh)
    requires WellPosed(initialMesh, bc)
    ensures next.dimensions == initialMesh.dimensions && next.time == t
  {
    Advance(NextUnsolved(initialMesh, bc), CachedSystem(initialMesh, bc, lhs), current, lhs, rhs, initialMesh.dimensions, solver, t)
  }

  /**
   * Mesh `m` of a run: the initial mesh for `m = 0`, else mesh `m - 1`
   * advanced to time `deltaTime * m`.
   */
  function MeshAt(initialMesh: SolvedMesh, bc: BoundaryCondition, lhs: LHS, rhs: RHS, solver: Solver,
                  deltaTime: real, m: nat): (mesh: SolvedMesh)
    requires WellPosed(initialMesh, bc)
    ensures mesh.dimensions == initialMesh.dimensions
    ensures mesh.time == if m == 0 then initialMesh.time else TimeOf(deltaTime, m)
  {
    if m == 0 then initialMesh
    else StepFrom(initialMesh, bc, lhs, rhs, solver, MeshAt(initialMesh, bc, lhs, rhs, solver, deltaTime, m - 1), TimeOf(deltaTime, m))
  }

  /**
   * Every mesh of a run is again well posed and partitions into the
   * initial mesh's unsolved mesh, so the system cached from the initial
   * mesh is the system of every step.
   */
  lemma MeshAtKeepsPartition(initialMesh: SolvedMesh, bc: BoundaryCondition, lhs: LHS, rhs: RHS,
                             solver: Solver, deltaTime: real, m: nat)
    requires WellPosed(initialMesh, bc)
    ensures var mesh := MeshAt(initialMesh, bc, lhs, rhs, solver, deltaTime, m);
            WellPosed(mesh, bc) && NextUnsolved(mesh, bc) == NextUnsolved(initialMesh, bc)
  {
    if m > 0 {
      var prev := MeshAt(initialMesh, bc, lhs, rhs, solver, deltaTime, m - 1);
      StepFromKeepsPartition(initialMesh, bc, lhs, rhs, solver, prev, TimeOf(deltaTime, m));
    }
  }

  /** A step of a run gives a well-posed mesh that partitions into the initial mesh's unsolved mesh. */
  lemma StepFromKeepsPartition(initialMesh: SolvedMesh, bc: BoundaryCondition, lhs: LHS, rhs: RHS, solver: Solver,
                               current: SolvedMesh, t: real)
    requires WellPosed(initialMesh, bc)
    ensures var next := StepFrom(initialMesh, bc, lhs, rhs, solver, current, t);
            WellPosed(next, bc) && NextUnsolved(next, bc) == NextUnsolved(initialMesh, bc)
  {
    var u := NextUnsolved(initialMesh, bc);
    var x := Solve(CachedSystem(initialMesh, bc, lhs), BValues(u, current, lhs, rhs, initialMesh.dimensions), solver);
    AdvanceKeepsPartition(initialMesh, bc, x, t);
  }

  /** `emitted` holds the first `|emitted|` meshes of a run, in order. */
  ghost predicate IsRun(initialMesh: SolvedMesh, bc: BoundaryCondition, lhs: LHS, rhs: RHS, solver: Solver,
                        deltaTime: real, emitted: seq<SolvedMesh>)
  {
    && WellPosed(initialMesh, bc)
    && forall m {:trigger emitted[m]} :: 0 <= m < |emitted| ==> emitted[m] == MeshAt(initialMesh, bc, lhs, rhs, solver, deltaTime, m)
  }

  /** A run extended by its next mesh is again a run. */
  lemma RunSnoc(initialMesh: SolvedMesh, bc: BoundaryCondition, lhs: LHS, rhs: RHS, solver: Solver,
                deltaTime: real, emitted: seq<SolvedMesh>, next: SolvedMesh)
    requires IsRun(initialMesh, bc, lhs, rhs, solver, deltaTime, emitted)
    requires next == MeshAt(initialMesh, bc, lhs, rhs, solver, deltaTime, |emitted|)
    ensures IsRun(initialMesh, bc, lhs, rhs, solver, deltaTime, emitted + [next])
  {
    var atPosition := (m: int, mesh: SolvedMesh) =>
      0 <= m && WellPosed(initialMesh, bc) && mesh == MeshAt(initialMesh, bc, lhs, rhs, solver, deltaTime, m);
    AppendKeeps(emitted, next, atPosition);
    forall m | 0 <= m < |emitted| + 1
      ensures (emitted + [next])[m] == MeshAt(initialMesh, bc, lhs, rhs, solver, deltaTime, m)
    {
      assert atPosition(m, (emitted + [next])[m]);
    }
  }

  /** Appending an element that meets `p` at its position keeps every position meeting `p`. */
  lemma AppendKeeps<T>(s: seq<T>, x: T, p: (int, T) -> bool)
    requires forall m :: 0 <= m < |s| ==> p(m, s[m])
    requires p(|s|, x)
    ensures forall m :: 0 <= m < |s| + 1 ==> p(m, (s + [x])[m])
  {
    forall m | 0 <= m < |s| + 1
      ensures p(m, (s + [x])[m])
    {
      if m < |s| {
        assert (s + [x])[m] == s[m];
      }
    }
  }

  // ---------------------------------------------------------------------
  // The closed range of time steps
  // ---------------------------------------------------------------------

  /** Swift's closed range `lo...hi`: its members in order, or `None` where forming it traps (`lo > hi`). */
  function ClosedRange(lo: int, hi: int): (r: Option<seq<int>>)
    ensures r.Some? <==> lo <= hi
    ensures r.Some? ==> |r.value| == hi - lo + 1 && forall n :: 0 <= n < |r.value| ==> r.value[n] == lo + n
  {
    if lo <= hi then Some(seq(hi - lo + 1, n => lo + n)) else None
  }

  /** How a run of the driver ends: it returns, or it traps after emitting `emitted`. */
  datatype Outcome = Returned(emitted: seq<SolvedMesh>) | Trapped(emitted: seq<SolvedMesh>)

  /**
   * A parabolic PDE with its stencils, initial mesh and boundary
   * condition, all fixed at construction; the lazily built linear
   * system is the one thing that changes.
   */
  class ParabolicPDE {
    const lhs: LHS
    const rhs: RHS
    const initialMesh: SolvedMesh
    const boundaryCondition: BoundaryCondition
    /** The lazy `linearSystem`: `None` until first read. */
    var linearSystem: Option<LinearSystem>

    constructor (lhs: LHS, rhs: RHS, initialMesh: SolvedMesh, boundaryCondition: BoundaryCondition)
      ensures this.lhs == lhs && this.rhs == rhs
      ensures this.initialMesh == initialMesh && this.boundaryCondition == boundaryCondition
      ensures linearSystem == None
    {
      this.lhs := lhs;
      this.rhs := rhs;
      this.initialMesh := initialMesh;
      this.boundaryCondition := boundaryCondition;
      linearSystem := None;
    }

    /** `contains` delegates to the initial mesh: the inclusive bounds check against its dimensions. */
    predicate Contains(location: Index)
      ensures Contains(location) <==> InShape(initialMesh.dimensions, Ijk(location).0, Ijk(location).1, Ijk(location).2)
    {
      Mesh.Contains(initialMesh.dimensions, location)
    }

    /** The problem is well posed and the cache, once filled, holds the system of the initial partition. */
    ghost predicate Valid()
      reads this
    {
      && WellPosed(initialMesh, boundaryCondition)
      && (linearSystem.Some? ==> linearSystem.value == CachedSystem(initialMesh, boundaryCondition, lhs))
    }

    /** `nextUnsolvedMesh(_:)`. */
    method NextUnsolvedMesh(solvedMesh: SolvedMesh) returns (u: UnsolvedMesh)
      requires WellPosed(solvedMesh, boundaryCondition)
      ensures u == NextUnsolved(solvedMesh, boundaryCondition)
    {
      ShapedCells(solvedMesh.knowns, solvedMesh.dimensions);
      u := ApplyBoundaryConditionToSolved(solvedMesh, boundaryCondition);
    }

    /** Reading the lazy `linearSystem`: built from the initial mesh on first read, then reused. */
    method GetLinearSystem() returns (sys: LinearSystem)
      requires Valid()
      modifies this
      ensures Valid()
      ensures linearSystem == Some(sys) && sys == CachedSystem(initialMesh, boundaryCondition, lhs)
      ensures old(linearSystem).Some? ==> linearSystem == old(linearSystem)
    {
      if linearSystem.None? {
        var unsolvedMesh := NextUnsolvedMesh(initialMesh);
        ShapedCells(initialMesh.knowns, initialMesh.dimensions);
        PartitionedSystem(initialMesh.knowns, initialMesh.dimensions, boundaryCondition, KnownAccess, lhs);
        var built := From(unsolvedMesh.unknowns, lhs, initialMesh.dimensions);
        linearSystem := Some(built);
      }
      sys := linearSystem.value;
    }

    /**
     * `solve(maxTime:deltaTime:completion:)` with the step count
     * `Int(maxTime / deltaTime)` given as `timeSteps`, the meshes passed to
     * `completion` returned in order, and the range of steps empty when
     * `timeSteps < 1`. It emits the initial mesh, then mesh `n` for
     * `n = 1 … timeSteps`: the previous mesh advanced with the cached
     * system, at time `deltaTime * n`.
     */
    method Solve(timeSteps: int, deltaTime: real, solver: Solver) returns (emitted: seq<SolvedMesh>)
      requires Valid()
      modifies this
      ensures Valid()
      ensures |emitted| == if timeSteps < 1 then 1 else timeSteps + 1
      ensures forall m {:trigger emitted[m]} :: 0 <= m < |emitted| ==> emitted[m] == MeshAt(initialMesh, boundaryCondition, lhs, rhs, solver, deltaTime, m)
      ensures timeSteps >= 1 ==> linearSystem == Some(CachedSystem(initialMesh, boundaryCondition, lhs))
      ensures timeSteps < 1 ==> linearSystem == old(linearSystem)
    {
      emitted := [initialMesh];
      var currentMesh := initialMesh;
      var nextMesh := NextUnsolvedMesh(initialMesh);
      var timeStep := 1;
      while timeStep <= timeSteps
        invariant Valid() && 1 <= timeStep
        invariant if timeSteps >= 1 then timeStep <= timeSteps + 1 else timeStep == 1
        invariant |emitted| == timeStep && currentMesh == emitted[timeStep - 1]
        invariant IsRun(initialMesh, boundaryCondition, lhs, rhs, solver, deltaTime, emitted)
        invariant nextMesh == NextUnsolved(initialMesh, boundaryCondition)
        invariant linearSystem == if timeStep == 1 then old(linearSystem) else Some(CachedSystem(initialMesh, boundaryCondition, lhs))
      {
        currentMesh, nextMesh := Step(currentMesh, nextMesh, timeStep, deltaTime, solver);
        RunSnoc(initialMesh, boundaryCondition, lhs, rhs, solver, deltaTime, emitted, currentMesh);
        emitted := emitted + [currentMesh];
        timeStep := timeStep + 1;
      }
    }

    /**
     * The body of the time loop for step `n`: the `b` vector, the solve
     * of the cached system, the reconstruction, the time stamp, and the
     * next unsolved mesh.
     */
    method Step(currentMesh: SolvedMesh, nextMesh: UnsolvedMesh, n: int, deltaTime: real, solver: Solver)
      returns (solved: SolvedMesh, next: UnsolvedMesh)
      requires Valid() && 1 <= n
      requires currentMesh == MeshAt(initialMesh, boundaryCondition, lhs, rhs, solver, deltaTime, n - 1)
      requires nextMesh == NextUnsolved(initialMesh, boundaryCondition)
      modifies this
      ensures Valid() && linearSystem == Some(CachedSystem(initialMesh, boundaryCondition, lhs))
      ensures solved == MeshAt(initialMesh, boundaryCondition, lhs, rhs, solver, deltaTime, n)
      ensures next == nextMesh
    {
      MeshAtKeepsPartition(initialMesh, boundaryCondition, lhs, rhs, solver, deltaTime, n - 1);
      var d := initialMesh.dimensions;
      ShapedStencilsFold(nextMesh, currentMesh, lhs, rhs, d);
      var bValues := BVector(nextMesh, currentMesh, lhs, rhs, d);
      var sys := GetLinearSystem();
      var xValues := SystemShape.Solve(sys, bValues, solver);
      AdvanceKeepsPartition(initialMesh, boundaryCondition, xValues, TimeOf(deltaTime, n));
      solved := Reconstruct(nextMesh, xValues);
      solved := WithTime(solved, TimeOf(deltaTime, n));
      next := NextUnsolvedMesh(solved);
    }

    /**
     * `solve(maxTime:deltaTime:completion:)` as written: after emitting
     * the initial mesh it forms the closed range `1...timeSteps`, which
     * traps when `timeSteps < 1`.
     */
    method SolveAsWritten(timeSteps: int, deltaTime: real, solver: Solver) returns (outcome: Outcome)
      requires Valid()
      modifies this
      ensures Valid()
      ensures outcome.Trapped? <==> timeSteps < 1
      ensures outcome.Trapped? ==> outcome.emitted == [initialMesh]
      ensures outcome.Returned? ==> |outcome.emitted| == timeSteps + 1
      ensures outcome.Returned? ==> forall m :: 0 <= m < |outcome.emitted| ==>
                outcome.emitted[m] == MeshAt(initialMesh, boundaryCondition, lhs, rhs, solver, deltaTime, m)
    {
      match ClosedRange(1, timeSteps) {
        case None =>
          outcome := Trapped([initialMesh]);
        case Some(_) =>
          var emitted := Solve(timeSteps, deltaTime, solver);
          outcome := Returned(emitted);
      }
    }
  }

  /**
   * With fewer than one step, as when `maxTime < deltaTime`, the closed
   * range of steps cannot be formed, although the intended run emits
   * just the initial mesh.
   */
  lemma NoStepsTraps(timeSteps: int)
    requires timeSteps < 1
    ensures ClosedRange(1, timeSteps) == None
  {
  }
}
