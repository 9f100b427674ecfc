/**
 * Counting the cells that a boundary condition leaves unknown, in the
 * i-j-k lexicographic order in which `applyBoundaryCondition` walks a
 * mesh (PDEMesh.swift). The ordinal of an unknown cell is the number of
 * unknown cells visited before it.
 */
module Ordinals {
  import opened Wrappers
  import opened Points

  /** `BoundaryCondition`: a value for a known cell, `nil` for an unknown one. */
  type BoundaryCondition = (int, int, int) -> Option<real>

  /** Cells `(i, j, 0) .. (i, j, k-1)` of one column that are unknown. */
  function CountCells(bc: BoundaryCondition, i: int, j: int, k: nat): nat
    decreases k
  {
    if k == 0 then 0
    else CountCells(bc, i, j, k - 1) + (if bc(i, j, k - 1).None? then 1 else 0)
  }

  /** Unknown cells in the first `j` columns of row `i` of `points`. */
  function CountCols<P>(points: seq<seq<seq<P>>>, bc: BoundaryCondition, i: int, j: nat): nat
    requires 0 <= i < |points| && j <= |points[i]|
    decreases j
  {
    if j == 0 then 0
    else CountCols(points, bc, i, j - 1) + CountCells(bc, i, j - 1, |points[i][j - 1]|)
  }

  /** Unknown cells in the first `i` rows of `points`. */
  function CountRows<P>(points: seq<seq<seq<P>>>, bc: BoundaryCondition, i: nat): nat
    requires i <= |points|
    decreases i
  {
    if i == 0 then 0
    else CountRows(points, bc, i - 1) + CountCols(points, bc, i - 1, |points[i - 1]|)
  }

  /** The number of unknown cells of `points`: the row count of the linear system. */
  function UnknownCount<P>(points: seq<seq<seq<P>>>, bc: BoundaryCondition): nat {
    CountRows(points, bc, |points|)
  }

  /** The number of unknown cells lexicographically before `(i, j, k)`. */
  function OrdinalAt<P>(points: seq<seq<seq<P>>>, bc: BoundaryCondition, i: int, j: int, k: int): nat
    requires InBox(points, i, j, k)
  {
    CountRows(points, bc, i) + CountCols(points, bc, i, j) + CountCells(bc, i, j, k)
  }

  // ---------------------------------------------------------------------
  // Monotonicity of the counts
  // ---------------------------------------------------------------------

  lemma {:induction false} CellsMonotone(bc: BoundaryCondition, i: int, j: int, k: nat, k': nat)
    requires k <= k'
    ensures CountCells(bc, i, j, k) <= CountCells(bc, i, j, k')
    decreases k'
  {
    if k < k' {
      CellsMonotone(bc, i, j, k, k' - 1);
    }
  }

  lemma {:induction false} ColsMonotone<P>(points: seq<seq<seq<P>>>, bc: BoundaryCondition, i: int, j: nat, j': nat)
    requires 0 <= i < |points| && j <= j' <= |points[i]|
    ensures CountCols(points, bc, i, j) <= CountCols(points, bc, i, j')
    decreases j'
  {
    if j < j' {
      ColsMonotone(points, bc, i, j, j' - 1);
    }
  }

  lemma {:induction false} RowsMonotone<P>(points: seq<seq<seq<P>>>, bc: BoundaryCondition, i: nat, i': nat)
    requires i <= i' <= |points|
    ensures CountRows(points, bc, i) <= CountRows(points, bc, i')
    decreases i'
  {
    if i < i' {
      RowsMonotone(points, bc, i, i' - 1);
    }
  }

  /** The position just after an unknown cell is still within its row's count. */
  lemma AfterUnknown<P>(points: seq<seq<seq<P>>>, bc: BoundaryCondition, a: int, b: int, c: int)
    requires InBox(points, a, b, c) && bc(a, b, c).None?
    ensures OrdinalAt(points, bc, a, b, c) + 1 <= CountRows(points, bc, a) + CountCols(points, bc, a, b + 1)
    ensures CountCols(points, bc, a, b + 1) <= CountCols(points, bc, a, |points[a]|)
    ensures CountRows(points, bc, a) + CountCols(points, bc, a, |points[a]|) == CountRows(points, bc, a + 1)
  {
    CellsMonotone(bc, a, b, c + 1, |points[a][b]|);
    ColsMonotone(points, bc, a, b + 1, |points[a]|);
  }

  // ---------------------------------------------------------------------
  // Ordinals are a bijection onto 0 .. UnknownCount - 1
  // ---------------------------------------------------------------------

  /** The ordinal of an unknown cell is below the number of unknown cells. */
  lemma OrdinalInRange<P>(points: seq<seq<seq<P>>>, bc: BoundaryCondition, a: int, b: int, c: int)
    requires InBox(points, a, b, c) && bc(a, b, c).None?
    ensures OrdinalAt(points, bc, a, b, c) < UnknownCount(points, bc)
  {
    AfterUnknown(points, bc, a, b, c);
    RowsMonotone(points, bc, a + 1, |points|);
  }

  /** Ordinals strictly increase along the lexicographic order, from an unknown cell on. */
  lemma OrdinalIncreasing<P>(points: seq<seq<seq<P>>>, bc: BoundaryCondition,
                             a: int, b: int, c: int, a': int, b': int, c': int)
    requires InBox(points, a, b, c) && InBox(points, a', b', c')
    requires bc(a, b, c).None? && LexBefore(a, b, c, a', b', c')
    ensures OrdinalAt(points, bc, a, b, c) < OrdinalAt(points, bc, a', b', c')
  {
    AfterUnknown(points, bc, a, b, c);
    if a < a' {
      RowsMonotone(points, bc, a + 1, a');
    } else if b < b' {
      ColsMonotone(points, bc, a, b + 1, b');
    } else {
      CellsMonotone(bc, a, b, c + 1, c');
    }
  }

  /** Two distinct unknown cells never share an ordinal. */
  lemma OrdinalInjective<P>(points: seq<seq<seq<P>>>, bc: BoundaryCondition,
                            a: int, b: int, c: int, a': int, b': int, c': int)
    requires InBox(points, a, b, c) && InBox(points, a', b', c')
    requires bc(a, b, c).None? && bc(a', b', c').None?
    requires OrdinalAt(points, bc, a, b, c) == OrdinalAt(points, bc, a', b', c')
    ensures a == a' && b == b' && c == c'
  {
    if LexBefore(a, b, c, a', b', c') {
      OrdinalIncreasing(points, bc, a, b, c, a', b', c');
    } else if LexBefore(a', b', c', a, b, c) {
      OrdinalIncreasing(points, bc, a', b', c', a, b, c);
    }
  }

  lemma {:induction false} CellsOnto(bc: BoundaryCondition, a: int, b: int, k: nat, o: nat) returns (c: nat)
    requires o < CountCells(bc, a, b, k)
    ensures c < k && bc(a, b, c).None? && CountCells(bc, a, b, c) == o
    decreases k
  {
    if o < CountCells(bc, a, b, k - 1) {
      c := CellsOnto(bc, a, b, k - 1, o);
    } else {
      c := k - 1;
    }
  }

  lemma {:induction false} ColsOnto<P>(points: seq<seq<seq<P>>>, bc: BoundaryCondition, a: int, j: nat, o: nat)
    returns (b: nat, c: nat)
    requires 0 <= a < |points| && j <= |points[a]|
    requires o < CountCols(points, bc, a, j)
    ensures b < j && InBox(points, a, b, c) && bc(a, b, c).None?
    ensures CountCols(points, bc, a, b) + CountCells(bc, a, b, c) == o
    decreases j
  {
    if o < CountCols(points, bc, a, j - 1) {
      b, c := ColsOnto(points, bc, a, j - 1, o);
    } else {
      b := j - 1;
      c := CellsOnto(bc, a, b, |points[a][b]|, o - CountCols(points, bc, a, b));
    }
  }

  lemma {:induction false} RowsOnto<P>(points: seq<seq<seq<P>>>, bc: BoundaryCondition, i: nat, o: nat)
    returns (a: nat, b: nat, c: nat)
    requires i <= |points| && o < CountRows(points, bc, i)
    ensures a < i && InBox(points, a, b, c) && bc(a, b, c).None?
    ensures OrdinalAt(points, bc, a, b, c) == o
    decreases i
  {
    if o < CountRows(points, bc, i - 1) {
      a, b, c := RowsOnto(points, bc, i - 1, o);
    } else {
      a := i - 1;
      b, c := ColsOnto(points, bc, a, |points[a]|, o - CountRows(points, bc, a));
    }
  }

  /** Every number below the unknown count is the ordinal of some unknown cell. */
  lemma OrdinalOnto<P>(points: seq<seq<seq<P>>>, bc: BoundaryCondition, o: nat)
    returns (a: nat, b: nat, c: nat)
    requires o < UnknownCount(points, bc)
    ensures InBox(points, a, b, c) && bc(a, b, c).None? && OrdinalAt(points, bc, a, b, c) == o
  {
    a, b, c := RowsOnto(points, bc, |points|, o);
  }

  // ---------------------------------------------------------------------
  // Ordinals depend only on the shape of the mesh
  // ---------------------------------------------------------------------

  /** `p` and `q` have the same nested extents. */
  predicate SameShape<P, Q>(p: seq<seq<seq<P>>>, q: seq<seq<seq<Q>>>) {
    && |p| == |q|
    && (forall i :: 0 <= i < |p| ==> |p[i]| == |q[i]|)
    && (forall i, j :: 0 <= i < |p| && 0 <= j < |p[i]| ==> |p[i][j]| == |q[i][j]|)
  }

  lemma {:induction false} SameShapeCols<P, Q>(p: seq<seq<seq<P>>>, q: seq<seq<seq<Q>>>, bc: BoundaryCondition, i: int, j: nat)
    requires SameShape(p, q) && 0 <= i < |p| && j <= |p[i]|
    ensures CountCols(p, bc, i, j) == CountCols(q, bc, i, j)
    decreases j
  {
    if j > 0 {
      SameShapeCols(p, q, bc, i, j - 1);
    }
  }

  lemma {:induction false} SameShapeRows<P, Q>(p: seq<seq<seq<P>>>, q: seq<seq<seq<Q>>>, bc: BoundaryCondition, i: nat)
    requires SameShape(p, q) && i <= |p|
    ensures CountRows(p, bc, i) == CountRows(q, bc, i)
    decreases i
  {
    if i > 0 {
      SameShapeRows(p, q, bc, i - 1);
      SameShapeCols(p, q, bc, i - 1, |p[i - 1]|);
    }
  }

  /** Meshes of the same shape get the same ordinals and the same unknown count. */
  lemma SameShapeOrdinals<P, Q>(p: seq<seq<seq<P>>>, q: seq<seq<seq<Q>>>, bc: BoundaryCondition)
    requires SameShape(p, q)
    ensures UnknownCount(p, bc) == UnknownCount(q, bc)
    ensures forall i, j, k :: InBox(p, i, j, k) ==> InBox(q, i, j, k) && OrdinalAt(p, bc, i, j, k) == OrdinalAt(q, bc, i, j, k)
  {
    SameShapeRows(p, q, bc, |p|);
    forall i, j, k | InBox(p, i, j, k)
      ensures InBox(q, i, j, k) && OrdinalAt(p, bc, i, j, k) == OrdinalAt(q, bc, i, j, k)
    {
      SameShapeRows(p, q, bc, i);
      SameShapeCols(p, q, bc, i, j);
    }
  }
}
