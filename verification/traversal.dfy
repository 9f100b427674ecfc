/**
 * The walk that `LinearSystem.from` and `ParabolicPDE.bVector` share:
 * every cell of the unknowns box whose point carries an ordinal, in
 * i-j-k order (`for row … for column … for point in column where
 * point.ordinal != nil`). Each such cell is one row of `A` and one entry
 * of `b`.
 */
module Traversal {
  import opened Wrappers
  import opened Points
  import opened Ordinals
  import opened Mesh

  type Position = (int, int, int)

  /** Cell `p` exists in `u` and its point carries an ordinal. */
  predicate PresentAt(u: seq<seq<seq<UnknownPoint>>>, p: Position) {
    InBox(u, p.0, p.1, p.2) && u[p.0][p.1][p.2].ordinal.Some?
  }

  /** The point in cell `p`. */
  function At(u: seq<seq<seq<UnknownPoint>>>, p: Position): UnknownPoint
    requires InBox(u, p.0, p.1, p.2)
  {
    u[p.0][p.1][p.2]
  }

  /** Present cells `(i, j, c)` with `c < k`, in order. */
  function ColumnPositions(u: seq<seq<seq<UnknownPoint>>>, i: int, j: int, k: nat): seq<Position>
    requires 0 <= i < |u| && 0 <= j < |u[i]| && k <= |u[i][j]|
  {
    if k == 0 then []
    else ColumnPositions(u, i, j, k - 1) + (if u[i][j][k - 1].ordinal.Some? then [(i, j, k - 1)] else [])
  }

  /** Present cells `(i, b, _)` with `b < j`, in order. */
  function RowPositions(u: seq<seq<seq<UnknownPoint>>>, i: int, j: nat): seq<Position>
    requires 0 <= i < |u| && j <= |u[i]|
  {
    if j == 0 then [] else RowPositions(u, i, j - 1) + ColumnPositions(u, i, j - 1, |u[i][j - 1]|)
  }

  /** Present cells `(a, _, _)` with `a < i`, in order. */
  function Positions(u: seq<seq<seq<UnknownPoint>>>, i: nat): seq<Position>
    requires i <= |u|
  {
    if i == 0 then [] else Positions(u, i - 1) + RowPositions(u, i - 1, |u[i - 1]|)
  }

  /** Every present cell of `u`, in the order the loops visit them. */
  function PresentPositions(u: seq<seq<seq<UnknownPoint>>>): (r: seq<Position>)
    ensures forall p | p in r :: PresentAt(u, p)
    ensures forall n :: 0 <= n < |r| ==> PresentAt(u, r[n])
  {
    PositionsSound(u, |u|);
    Positions(u, |u|)
  }

  // ---------------------------------------------------------------------
  // The walk visits only present cells, in strict i-j-k order, and
  // misses none
  // ---------------------------------------------------------------------

  lemma {:induction false} ColumnSound(u: seq<seq<seq<UnknownPoint>>>, i: int, j: int, k: nat)
    requires 0 <= i < |u| && 0 <= j < |u[i]| && k <= |u[i][j]|
    ensures forall p | p in ColumnPositions(u, i, j, k) :: p.0 == i && p.1 == j && 0 <= p.2 < k && PresentAt(u, p)
  {
    if k > 0 {
      ColumnSound(u, i, j, k - 1);
    }
  }

  lemma {:induction false} RowSound(u: seq<seq<seq<UnknownPoint>>>, i: int, j: nat)
    requires 0 <= i < |u| && j <= |u[i]|
    ensures forall p | p in RowPositions(u, i, j) :: p.0 == i && 0 <= p.1 < j && PresentAt(u, p)
  {
    if j > 0 {
      RowSound(u, i, j - 1);
      ColumnSound(u, i, j - 1, |u[i][j - 1]|);
    }
  }

  lemma {:induction false} PositionsSound(u: seq<seq<seq<UnknownPoint>>>, i: nat)
    requires i <= |u|
    ensures forall p | p in Positions(u, i) :: 0 <= p.0 < i && PresentAt(u, p)
  {
    if i > 0 {
      PositionsSound(u, i - 1);
      RowSound(u, i - 1, |u[i - 1]|);
    }
  }

  predicate LexSorted(ps: seq<Position>) {
    forall a, b :: 0 <= a < b < |ps| ==> LexBefore(ps[a].0, ps[a].1, ps[a].2, ps[b].0, ps[b].1, ps[b].2)
  }

  lemma SortedAppend(s: seq<Position>, t: seq<Position>)
    requires LexSorted(s) && LexSorted(t)
    requires forall x, y | x in s && y in t :: LexBefore(x.0, x.1, x.2, y.0, y.1, y.2)
    ensures LexSorted(s + t)
  {
    forall a, b | 0 <= a < b < |s + t|
      ensures LexBefore((s + t)[a].0, (s + t)[a].1, (s + t)[a].2, (s + t)[b].0, (s + t)[b].1, (s + t)[b].2)
    {
      if b < |s| {
        assert (s + t)[a] == s[a] && (s + t)[b] == s[b];
      } else if a >= |s| {
        assert (s + t)[a] == t[a - |s|] && (s + t)[b] == t[b - |s|];
      } else {
        assert (s + t)[a] in s && (s + t)[b] in t;
      }
    }
  }

  lemma {:induction false} ColumnSorted(u: seq<seq<seq<UnknownPoint>>>, i: int, j: int, k: nat)
    requires 0 <= i < |u| && 0 <= j < |u[i]| && k <= |u[i][j]|
    ensures LexSorted(ColumnPositions(u, i, j, k))
  {
    if k > 0 {
      ColumnSorted(u, i, j, k - 1);
      ColumnSound(u, i, j, k - 1);
      SortedAppend(ColumnPositions(u, i, j, k - 1), if u[i][j][k - 1].ordinal.Some? then [(i, j, k - 1)] else []);
    }
  }

  lemma {:induction false} RowSorted(u: seq<seq<seq<UnknownPoint>>>, i: int, j: nat)
    requires 0 <= i < |u| && j <= |u[i]|
    ensures LexSorted(RowPositions(u, i, j))
  {
    if j > 0 {
      RowSorted(u, i, j - 1);
      ColumnSorted(u, i, j - 1, |u[i][j - 1]|);
      RowSound(u, i, j - 1);
      ColumnSound(u, i, j - 1, |u[i][j - 1]|);
      SortedAppend(RowPositions(u, i, j - 1), ColumnPositions(u, i, j - 1, |u[i][j - 1]|));
    }
  }

  lemma {:induction false} PositionsSorted(u: seq<seq<seq<UnknownPoint>>>, i: nat)
    requires i <= |u|
    ensures LexSorted(Positions(u, i))
  {
    if i > 0 {
      PositionsSorted(u, i - 1);
      RowSorted(u, i - 1, |u[i - 1]|);
      PositionsSound(u, i - 1);
      RowSound(u, i - 1, |u[i - 1]|);
      SortedAppend(Positions(u, i - 1), RowPositions(u, i - 1, |u[i - 1]|));
    }
  }

  lemma {:induction false} ColumnComplete(u: seq<seq<seq<UnknownPoint>>>, i: int, j: int, k: nat)
    requires 0 <= i < |u| && 0 <= j < |u[i]| && k <= |u[i][j]|
    ensures forall c :: 0 <= c < k && u[i][j][c].ordinal.Some? ==> (i, j, c) in ColumnPositions(u, i, j, k)
  {
    if k > 0 {
      ColumnComplete(u, i, j, k - 1);
    }
  }

  lemma {:induction false} RowComplete(u: seq<seq<seq<UnknownPoint>>>, i: int, j: nat)
    requires 0 <= i < |u| && j <= |u[i]|
    ensures forall b, c :: 0 <= b < j && 0 <= c < |u[i][b]| && u[i][b][c].ordinal.Some? ==> (i, b, c) in RowPositions(u, i, j)
  {
    if j > 0 {
      RowComplete(u, i, j - 1);
      ColumnComplete(u, i, j - 1, |u[i][j - 1]|);
    }
  }

  lemma {:induction false} PositionsComplete(u: seq<seq<seq<UnknownPoint>>>, i: nat)
    requires i <= |u|
    ensures forall a, b, c :: 0 <= a < i && PresentAt(u, (a, b, c)) ==> (a, b, c) in Positions(u, i)
  {
    if i > 0 {
      PositionsComplete(u, i - 1);
      RowComplete(u, i - 1, |u[i - 1]|);
    }
  }

  /**
   * The walk lists exactly the present cells of `u`, each once, in strict
   * i-j-k order.
   */
  lemma PresentPositionsSpec(u: seq<seq<seq<UnknownPoint>>>)
    ensures LexSorted(PresentPositions(u))
    ensures forall p :: p in PresentPositions(u) <==> PresentAt(u, p)
  {
    PositionsSound(u, |u|);
    PositionsSorted(u, |u|);
    PositionsComplete(u, |u|);
  }

  // ---------------------------------------------------------------------
  // Lengths of the partial walks
  // ---------------------------------------------------------------------

  lemma {:induction false} ColumnGrows(u: seq<seq<seq<UnknownPoint>>>, i: int, j: int, k: nat)
    requires 0 <= i < |u| && 0 <= j < |u[i]| && k <= |u[i][j]|
    ensures |ColumnPositions(u, i, j, k)| <= |ColumnPositions(u, i, j, |u[i][j]|)|
    decreases |u[i][j]| - k
  {
    if k < |u[i][j]| {
      ColumnGrows(u, i, j, k + 1);
    }
  }

  lemma {:induction false} RowGrows(u: seq<seq<seq<UnknownPoint>>>, i: int, j: nat)
    requires 0 <= i < |u| && j <= |u[i]|
    ensures |RowPositions(u, i, j)| <= |RowPositions(u, i, |u[i]|)|
    decreases |u[i]| - j
  {
    if j < |u[i]| {
      RowGrows(u, i, j + 1);
    }
  }

  lemma {:induction false} PositionsGrow(u: seq<seq<seq<UnknownPoint>>>, i: nat)
    requires i <= |u|
    ensures |Positions(u, i)| <= |PresentPositions(u)|
    decreases |u| - i
  {
    if i < |u| {
      PositionsGrow(u, i + 1);
    }
  }

  // ---------------------------------------------------------------------
  // The walk over a boundary partition meets the ordinals in order
  // ---------------------------------------------------------------------

  /**
   * A strictly increasing sequence inside `0 .. n-1` that contains every
   * number of that range is `0, 1, …, n-1`.
   */
  lemma {:induction false} IncreasingCover(s: seq<int>, n: nat)
    requires forall a, b :: 0 <= a < b < |s| ==> s[a] < s[b]
    requires forall r :: 0 <= r < |s| ==> 0 <= s[r] < n
    requires forall o :: 0 <= o < n ==> o in s
    ensures |s| == n
    ensures forall r :: 0 <= r < |s| ==> s[r] == r
  {
    var r := 0;
    while r < |s|
      invariant 0 <= r <= |s|
      invariant forall q :: 0 <= q < r ==> s[q] == q
    {
      if r > 0 {
        assert s[r - 1] < s[r];
      }
      assert r <= s[r] < n;
      assert r in s;
      var e :| 0 <= e < |s| && s[e] == r;
      assert forall q :: 0 <= q < r ==> s[q] != r;
      assert s[r] <= s[e];
      r := r + 1;
    }
    if |s| > 0 {
      assert s[|s| - 1] == |s| - 1;
      assert |s| <= n;
    }
    if n > 0 {
      assert n - 1 in s;
      var e :| 0 <= e < |s| && s[e] == n - 1;
      assert s[e] == e;
      assert n <= |s|;
    }
  }

  /** The ordinals met along the walk, as numbers. */
  function WalkOrdinals(u: seq<seq<seq<UnknownPoint>>>): (s: seq<int>)
    ensures |s| == |PresentPositions(u)|
    ensures forall r :: 0 <= r < |s| ==> s[r] == At(u, PresentPositions(u)[r]).ordinal.value as int
  {
    var R := PresentPositions(u);
    seq(|R|, r requires 0 <= r < |R| => (assert R[r] in R; At(u, R[r]).ordinal.value as int))
  }

  /** A cell of a partition that carries an ordinal is an unknown cell of `points`, numbered by `OrdinalAt`. */
  lemma PartitionedOrdinal<P>(points: seq<seq<seq<P>>>, d: Index, bc: BoundaryCondition, access: PointAccess<P>,
                              p: Position)
    requires ValidDimensions(d) && FitsIn(points, d) && UnknownCount(points, bc) < 0x8000_0000
    requires PresentAt(Partitioned(points, d, bc, access).unknowns, p)
    ensures InBox(points, p.0, p.1, p.2) && bc(p.0, p.1, p.2).None?
    ensures At(Partitioned(points, d, bc, access).unknowns, p).ordinal.value as int == OrdinalAt(points, bc, p.0, p.1, p.2)
  {
    var u: seq<seq<seq<UnknownPoint>>> := Partitioned(points, d, bc, access).unknowns;
    ShapedCells(u, d);
    assert InShape(d, p.0, p.1, p.2);
  }

  /** The walk over a partitioned mesh meets strictly increasing ordinals. */
  lemma PartitionWalkIncreasing<P>(points: seq<seq<seq<P>>>, d: Index, bc: BoundaryCondition, access: PointAccess<P>)
    requires ValidDimensions(d) && FitsIn(points, d) && UnknownCount(points, bc) < 0x8000_0000
    ensures var s := WalkOrdinals(Partitioned(points, d, bc, access).unknowns);
      forall a, b :: 0 <= a < b < |s| ==> s[a] < s[b]
  {
    var u: seq<seq<seq<UnknownPoint>>> := Partitioned(points, d, bc, access).unknowns;
    var R := PresentPositions(u);
    var s := WalkOrdinals(u);
    PresentPositionsSpec(u);
    forall a, b | 0 <= a < b < |s| ensures s[a] < s[b] {
      assert R[a] in R && R[b] in R;
      PartitionedOrdinal(points, d, bc, access, R[a]);
      PartitionedOrdinal(points, d, bc, access, R[b]);
      OrdinalIncreasing(points, bc, R[a].0, R[a].1, R[a].2, R[b].0, R[b].1, R[b].2);
    }
  }

  /** Along the walk over a partition every ordinal lies in `0 .. N-1`. */
  lemma PartitionWalkInRange<P>(points: seq<seq<seq<P>>>, d: Index, bc: BoundaryCondition, access: PointAccess<P>)
    requires ValidDimensions(d) && FitsIn(points, d) && UnknownCount(points, bc) < 0x8000_0000
    ensures var s := WalkOrdinals(Partitioned(points, d, bc, access).unknowns);
      forall r :: 0 <= r < |s| ==> 0 <= s[r] < UnknownCount(points, bc)
  {
    var u: seq<seq<seq<UnknownPoint>>> := Partitioned(points, d, bc, access).unknowns;
    var R := PresentPositions(u);
    forall r | 0 <= r < |R| ensures 0 <= At(u, R[r]).ordinal.value as int < UnknownCount(points, bc) {
      assert R[r] in R;
      PartitionedOrdinal(points, d, bc, access, R[r]);
      OrdinalInRange(points, bc, R[r].0, R[r].1, R[r].2);
    }
  }

  /** The walk meets the ordinal of every present cell. */
  lemma WalkMeets(u: seq<seq<seq<UnknownPoint>>>, p: Position)
    requires PresentAt(u, p)
    ensures At(u, p).ordinal.value as int in WalkOrdinals(u)
  {
    var R := PresentPositions(u);
    PresentPositionsSpec(u);
    var r :| 0 <= r < |R| && R[r] == p;
    assert WalkOrdinals(u)[r] == At(u, p).ordinal.value as int;
  }

  /** The walk over a partition meets every ordinal `0 .. N-1`. */
  lemma PartitionWalkCovers<P>(points: seq<seq<seq<P>>>, d: Index, bc: BoundaryCondition, access: PointAccess<P>)
    requires ValidDimensions(d) && FitsIn(points, d) && UnknownCount(points, bc) < 0x8000_0000
    ensures var s := WalkOrdinals(Partitioned(points, d, bc, access).unknowns);
      forall o :: 0 <= o < UnknownCount(points, bc) ==> o in s
  {
    var u: seq<seq<seq<UnknownPoint>>> := Partitioned(points, d, bc, access).unknowns;
    PartitionOrdinalsOnto(points, d, bc, access);
    forall o | 0 <= o < UnknownCount(points, bc) ensures o in WalkOrdinals(u) {
      assert HasOrdinal(u, d, o);
      var a: int, b: int, c: int :| InShape(d, a, b, c) && u[a][b][c].ordinal.Some? && u[a][b][c].ordinal.value as int == o;
      assert InBox(u, a, b, c);
      WalkMeets(u, (a, b, c));
    }
  }

  /**
   * Over a boundary partition the walk meets the ordinals `0, 1, …, N-1`
   * in that order, `N` the number of unknown cells: row `r` of the
   * system and entry `r` of `b` belong to ordinal `r`.
   */
  lemma PartitionWalkOrdinals<P>(points: seq<seq<seq<P>>>, d: Index, bc: BoundaryCondition, access: PointAccess<P>)
    requires ValidDimensions(d) && FitsIn(points, d) && UnknownCount(points, bc) < 0x8000_0000
    ensures var u := Partitioned(points, d, bc, access).unknowns;
      && |PresentPositions(u)| == UnknownCount(points, bc)
      && forall r :: 0 <= r < |PresentPositions(u)| ==> At(u, PresentPositions(u)[r]).ordinal == Some(r as int32)
  {
    var u: seq<seq<seq<UnknownPoint>>> := Partitioned(points, d, bc, access).unknowns;
    var R := PresentPositions(u);
    var s := WalkOrdinals(u);
    PartitionWalkIncreasing(points, d, bc, access);
    PartitionWalkInRange(points, d, bc, access);
    PartitionWalkCovers(points, d, bc, access);
    IncreasingCover(s, UnknownCount(points, bc));
    forall r | 0 <= r < |R| ensures At(u, R[r]).ordinal == Some(r as int32) {
      assert R[r] in R;
      assert s[r] == r;
    }
  }

  /** A present cell has a place in the walk. */
  lemma WalkPlace(u: seq<seq<seq<UnknownPoint>>>, p: Position) returns (r: int)
    requires PresentAt(u, p)
    ensures 0 <= r < |PresentPositions(u)| && PresentPositions(u)[r] == p
  {
    PresentPositionsSpec(u);
    r :| 0 <= r < |PresentPositions(u)| && PresentPositions(u)[r] == p;
  }

  /** The unknown cell with ordinal `o` is the `o`-th cell of the walk over a partition. */
  lemma PartitionWalkPosition<P>(points: seq<seq<seq<P>>>, d: Index, bc: BoundaryCondition, access: PointAccess<P>,
                                 a: int, b: int, c: int)
    requires ValidDimensions(d) && FitsIn(points, d) && UnknownCount(points, bc) < 0x8000_0000
    requires InBox(points, a, b, c) && bc(a, b, c).None?
    ensures var R := PresentPositions(Partitioned(points, d, bc, access).unknowns);
            OrdinalAt(points, bc, a, b, c) < |R| && R[OrdinalAt(points, bc, a, b, c)] == (a, b, c)
  {
    var u: seq<seq<seq<UnknownPoint>>> := Partitioned(points, d, bc, access).unknowns;
    PartitionSplitsCells(points, d, bc, access, a, b, c);
    assert InShape(d, a, b, c);
    var r := WalkPlace(u, (a, b, c));
    PartitionWalkOrdinals(points, d, bc, access);
    assert At(u, (a, b, c)).ordinal == Some(r as int32);
  }
}
