/**
 * Mesh points and the nested-array "box" that holds them
 * (PDEMeshPoint.swift, KnownPoint.swift, UnknownPoint.swift).
 *
 * A mesh is a nested array `[[[P]]]` indexed `[i][j][k]`; here it is a
 * `seq<seq<seq<P>>>`, which has the same value semantics as Swift arrays.
 */
module Points {
  import opened Wrappers

  /** A signed 32-bit integer, the component type of `simd_int3`. */
  newtype int32 = x: int | -0x8000_0000 <= x < 0x8000_0000

  predicate InInt32(n: int) {
    -0x8000_0000 <= n < 0x8000_0000
  }

  /** Grid indices `(i, j, k)`, a `simd_int3`. */
  datatype Index = Index(x: int32, y: int32, z: int32)

  /** A location in R^3, a `simd_double3`; doubles are modelled as reals. */
  datatype Vec3 = Vec3(x: real, y: real, z: real)

  const ZeroIndex: Index := Index(0, 0, 0)
  const Origin: Vec3 := Vec3(0.0, 0.0, 0.0)

  /** `simd_int3.ijk`: the three components widened to `Int`, in x, y, z order. */
  function Ijk(p: Index): (r: (int, int, int))
    ensures InInt32(r.0) && InInt32(r.1) && InInt32(r.2)
  {
    (p.x as int, p.y as int, p.z as int)
  }

  /** `simd_int3.of(i:j:k:)`; the `Int32(_)` conversions trap outside the Int32 range. */
  function Of(i: int, j: int, k: int): (r: Index)
    requires InInt32(i) && InInt32(j) && InInt32(k)
    ensures Ijk(r) == (i, j, k)
  {
    Index(i as int32, j as int32, k as int32)
  }

  /** The other round trip: widening and narrowing back gives the same index. */
  lemma OfIjk(p: Index)
    ensures Of(Ijk(p).0, Ijk(p).1, Ijk(p).2) == p
  {
  }

  /** A point whose value is known (a boundary value or a solved value). */
  datatype KnownPoint = KnownPoint(indices: Index, location: Vec3, value: real)

  /**
   * A point whose value is to be determined. A present `ordinal` is the
   * index of this point's value in the solution vector `x` of `Ax = b`.
   */
  datatype UnknownPoint = UnknownPoint(indices: Index, location: Vec3, ordinal: Option<int32>)

  /** `KnownPoint.empty`: zero indices, zero location, value 0.0. */
  const KnownEmpty: KnownPoint := KnownPoint(ZeroIndex, Origin, 0.0)

  /** `UnknownPoint.empty`: zero indices, zero location, no ordinal. */
  const UnknownEmpty: UnknownPoint := UnknownPoint(ZeroIndex, Origin, None)

  /**
   * The `PDEMeshPoint` conformance of a point type: how to read its
   * indices and its location. The generic initializers
   * `KnownPoint(_:value:)` and `UnknownPoint(_:ordinal:)` take it.
   */
  datatype PointAccess<!P> = PointAccess(indices: P -> Index, location: P -> Vec3)

  const KnownAccess: PointAccess<KnownPoint> :=
    PointAccess((p: KnownPoint) => p.indices, (p: KnownPoint) => p.location)

  const UnknownAccess: PointAccess<UnknownPoint> :=
    PointAccess((p: UnknownPoint) => p.indices, (p: UnknownPoint) => p.location)

  /** `KnownPoint(point, value:)`: the point's site with the given value. */
  function KnownFrom<P>(access: PointAccess<P>, point: P, value: real): (p: KnownPoint)
    ensures p.indices == access.indices(point) && p.location == access.location(point)
    ensures p.value == value
  {
    KnownPoint(access.indices(point), access.location(point), value)
  }

  /** `UnknownPoint(point, ordinal:)`: the point's site with the given ordinal. */
  function UnknownFrom<P>(access: PointAccess<P>, point: P, ordinal: int32): (p: UnknownPoint)
    ensures p.indices == access.indices(point) && p.location == access.location(point)
    ensures p.ordinal == Some(ordinal)
  {
    UnknownPoint(access.indices(point), access.location(point), Some(ordinal))
  }

  /**
   * Converting a point to the other kind and back keeps its site, and
   * re-initializing a point from itself with its own payload gives the
   * same point.
   */
  lemma ConstructorsRoundTrip<P>(access: PointAccess<P>, point: P, value: real, ordinal: int32)
    ensures var k := KnownFrom(UnknownAccess, UnknownFrom(access, point, ordinal), value);
            k.indices == access.indices(point) && k.location == access.location(point) && k.value == value
    ensures var u := UnknownFrom(KnownAccess, KnownFrom(access, point, value), ordinal);
            u.indices == access.indices(point) && u.location == access.location(point) && u.ordinal == Some(ordinal)
    ensures KnownFrom(KnownAccess, KnownFrom(access, point, value), value) == KnownFrom(access, point, value)
    ensures UnknownFrom(UnknownAccess, UnknownFrom(access, point, ordinal), ordinal) == UnknownFrom(access, point, ordinal)
  {
  }

  /**
   * `empty`: both placeholders sit at index `(0, 0, 0)` and the origin;
   * the known one has value 0.0 and the unknown one no ordinal, so a
   * placeholder left in the unknown box is never taken for an unknown.
   */
  lemma EmptyPoints()
    ensures Ijk(KnownEmpty.indices) == (0, 0, 0) && KnownEmpty.location == Vec3(0.0, 0.0, 0.0) && KnownEmpty.value == 0.0
    ensures Ijk(UnknownEmpty.indices) == (0, 0, 0) && UnknownEmpty.location == Vec3(0.0, 0.0, 0.0)
    ensures UnknownEmpty.ordinal.None?
  {
  }

  // ---------------------------------------------------------------------
  // Boxes: nested arrays of extent (X+1) x (Y+1) x (Z+1)
  // ---------------------------------------------------------------------

  /** `0 <= i <= X`, `0 <= j <= Y`, `0 <= k <= Z` for dimensions `d = (X, Y, Z)`. */
  predicate InShape(d: Index, i: int, j: int, k: int) {
    0 <= i <= d.x as int && 0 <= j <= d.y as int && 0 <= k <= d.z as int
  }

  /** `(i, j, k)` can be used to index the nested array `b`. */
  predicate InBox<T>(b: seq<seq<seq<T>>>, i: int, j: int, k: int) {
    0 <= i < |b| && 0 <= j < |b[i]| && 0 <= k < |b[i][j]|
  }

  /** `b` has exactly `X+1` rows, each of `Y+1` columns, each of `Z+1` points. */
  predicate Shaped<T>(b: seq<seq<seq<T>>>, d: Index) {
    && |b| == d.x as int + 1
    && (forall i :: 0 <= i < |b| ==> |b[i]| == d.y as int + 1)
    && (forall i, j :: 0 <= i < |b| && 0 <= j < |b[i]| ==> |b[i][j]| == d.z as int + 1)
  }

  /** Every cell of `b` lies within the dimensions `d`, so a box of `d` can store it. */
  ghost predicate FitsIn<T>(b: seq<seq<seq<T>>>, d: Index) {
    forall i, j, k :: InBox(b, i, j, k) ==> InShape(d, i, j, k)
  }

  /** The repeat counts `X+1`, `Y+1`, `Z+1` of `box(of:)` must not be negative. */
  predicate ValidDimensions(d: Index) {
    d.x >= -1 && d.y >= -1 && d.z >= -1
  }

  /** In a shaped box, being indexable and being within the dimensions coincide. */
  lemma ShapedCells<T>(b: seq<seq<seq<T>>>, d: Index)
    requires Shaped(b, d)
    ensures forall i, j, k :: InBox(b, i, j, k) <==> InShape(d, i, j, k)
    ensures FitsIn(b, d)
  {
  }

  /** Two boxes of the same shape that agree cell by cell are equal. */
  lemma BoxesEqual<T>(b: seq<seq<seq<T>>>, c: seq<seq<seq<T>>>, d: Index)
    requires Shaped(b, d) && Shaped(c, d)
    requires forall i, j, k :: InShape(d, i, j, k) ==> b[i][j][k] == c[i][j][k]
    ensures b == c
  {
    forall i | 0 <= i < |b| ensures b[i] == c[i] {
      forall j | 0 <= j < |b[i]| ensures b[i][j] == c[i][j] {
        assert forall k :: 0 <= k < |b[i][j]| ==> InShape(d, i, j, k);
      }
    }
  }

  /**
   * `box(of:)`: a `(X+1) x (Y+1) x (Z+1)` nested array with every cell
   * holding the type's `empty` placeholder.
   */
  function Box<T>(d: Index, empty: T): (b: seq<seq<seq<T>>>)
    requires ValidDimensions(d)
    ensures Shaped(b, d)
    ensures forall i, j, k :: InShape(d, i, j, k) ==> b[i][j][k] == empty
  {
    var (i, j, k) := Ijk(d);
    var points := seq(k + 1, _ => empty);
    var columns := seq(j + 1, _ => points);
    seq(i + 1, _ => columns)
  }

  /** Column `(i, j, _)` of a tabulated box: `f(i, j, 0), …, f(i, j, n - 1)`. */
  function Cells<T>(f: (int, int, int) -> T, i: int, j: int, n: nat): (r: seq<T>)
    ensures |r| == n
  {
    if n == 0 then [] else Cells(f, i, j, n - 1) + [f(i, j, n - 1)]
  }

  /** Row `i` of a tabulated box: its first `m` columns of `n` cells each. */
  function Columns<T>(f: (int, int, int) -> T, i: int, m: nat, n: nat): (r: seq<seq<T>>)
    ensures |r| == m
  {
    if m == 0 then [] else Columns(f, i, m - 1, n) + [Cells(f, i, m - 1, n)]
  }

  /** The first `l` rows of a tabulated box, of `m` columns of `n` cells each. */
  function Rows<T>(f: (int, int, int) -> T, l: nat, m: nat, n: nat): (r: seq<seq<seq<T>>>)
    ensures |r| == l
  {
    if l == 0 then [] else Rows(f, l - 1, m, n) + [Columns(f, l - 1, m, n)]
  }

  lemma {:induction false} CellsIndex<T>(f: (int, int, int) -> T, i: int, j: int, n: nat)
    ensures forall k :: 0 <= k < n ==> Cells(f, i, j, n)[k] == f(i, j, k)
  {
    if n > 0 {
      CellsIndex(f, i, j, n - 1);
    }
  }

  lemma {:induction false} ColumnsIndex<T>(f: (int, int, int) -> T, i: int, m: nat, n: nat)
    ensures forall j :: 0 <= j < m ==> Columns(f, i, m, n)[j] == Cells(f, i, j, n)
  {
    if m > 0 {
      ColumnsIndex(f, i, m - 1, n);
    }
  }

  lemma {:induction false} RowsIndex<T>(f: (int, int, int) -> T, l: nat, m: nat, n: nat)
    ensures forall i :: 0 <= i < l ==> Rows(f, l, m, n)[i] == Columns(f, i, m, n)
  {
    if l > 0 {
      RowsIndex(f, l - 1, m, n);
    }
  }

  /** Cell `(i, j, k)` of `Rows(f, l, m, n)` holds `f(i, j, k)`. */
  lemma RowsCells<T>(f: (int, int, int) -> T, l: nat, m: nat, n: nat)
    ensures forall i :: 0 <= i < l ==> |Rows(f, l, m, n)[i]| == m
    ensures forall i, j :: 0 <= i < l && 0 <= j < m ==>
              |Rows(f, l, m, n)[i][j]| == n && forall k :: 0 <= k < n ==> Rows(f, l, m, n)[i][j][k] == f(i, j, k)
  {
    RowsIndex(f, l, m, n);
    forall i | 0 <= i < l
      ensures |Rows(f, l, m, n)[i]| == m
      ensures forall j :: 0 <= j < m ==>
                |Rows(f, l, m, n)[i][j]| == n && forall k :: 0 <= k < n ==> Rows(f, l, m, n)[i][j][k] == f(i, j, k)
    {
      ColumnsIndex(f, i, m, n);
      forall j | 0 <= j < m
        ensures Columns(f, i, m, n)[j] == Cells(f, i, j, n)
        ensures forall k :: 0 <= k < n ==> Cells(f, i, j, n)[k] == f(i, j, k)
      {
        CellsIndex(f, i, j, n);
      }
    }
  }

  /** The box of dimensions `d` whose cell `(i, j, k)` holds `f(i, j, k)`. */
  function Tabulate<T>(d: Index, f: (int, int, int) -> T): (b: seq<seq<seq<T>>>)
    requires ValidDimensions(d)
    ensures Shaped(b, d)
    ensures forall i, j, k {:trigger b[i][j][k]} :: InShape(d, i, j, k) ==> b[i][j][k] == f(i, j, k)
  {
    RowsCells(f, d.x as int + 1, d.y as int + 1, d.z as int + 1);
    Rows(f, d.x as int + 1, d.y as int + 1, d.z as int + 1)
  }

  // ---------------------------------------------------------------------
  // Filling a box cell by cell in i-j-k order
  // ---------------------------------------------------------------------

  /** `(a, b, c)` comes strictly before `(i, j, k)` in i-j-k lexicographic order. */
  predicate LexBefore(a: int, b: int, c: int, i: int, j: int, k: int) {
    a < i || (a == i && (b < j || (b == j && c < k)))
  }

  /** `b` with cell `(i, j, k)` overwritten by `v`: `b[i][j][k] = v` on a nested array. */
  function SetCell<T>(b: seq<seq<seq<T>>>, i: int, j: int, k: int, v: T): seq<seq<seq<T>>>
    requires InBox(b, i, j, k)
  {
    b[i := b[i][j := b[i][j][k := v]]]
  }

  /**
   * Loop state of a nested fill: every cell before `(i, j, k)` already
   * holds `cell`, every other cell still holds the placeholder `empty`.
   */
  ghost predicate FilledBefore<T>(t: seq<seq<seq<T>>>, d: Index, cell: (int, int, int) -> T, empty: T,
                                  i: int, j: int, k: int)
  {
    && Shaped(t, d)
    && forall a, b, c :: InShape(d, a, b, c) ==>
         t[a][b][c] == (if LexBefore(a, b, c, i, j, k) then cell(a, b, c) else empty)
  }

  lemma FillStart<T>(d: Index, cell: (int, int, int) -> T, empty: T)
    requires ValidDimensions(d)
    ensures FilledBefore(Box(d, empty), d, cell, empty, 0, 0, 0)
  {
  }

  lemma FillCell<T>(t: seq<seq<seq<T>>>, d: Index, cell: (int, int, int) -> T, empty: T, i: int, j: int, k: int)
    requires FilledBefore(t, d, cell, empty, i, j, k) && InShape(d, i, j, k)
    ensures InBox(t, i, j, k)
    ensures FilledBefore(SetCell(t, i, j, k, cell(i, j, k)), d, cell, empty, i, j, k + 1)
  {
    var t' := SetCell(t, i, j, k, cell(i, j, k));
    forall a, b, c | InShape(d, a, b, c)
      ensures t'[a][b][c] == (if LexBefore(a, b, c, i, j, k + 1) then cell(a, b, c) else empty)
    {
      if (a, b, c) != (i, j, k) {
        assert t'[a][b][c] == t[a][b][c];
      }
    }
  }

  lemma FillSkip<T>(t: seq<seq<seq<T>>>, d: Index, cell: (int, int, int) -> T, empty: T, i: int, j: int, k: int)
    requires FilledBefore(t, d, cell, empty, i, j, k) && cell(i, j, k) == empty
    ensures FilledBefore(t, d, cell, empty, i, j, k + 1)
  {
  }

  lemma FillEndColumn<T>(t: seq<seq<seq<T>>>, d: Index, cell: (int, int, int) -> T, empty: T, i: int, j: int, k: int)
    requires FilledBefore(t, d, cell, empty, i, j, k)
    requires forall c :: k <= c && InShape(d, i, j, c) ==> cell(i, j, c) == empty
    ensures FilledBefore(t, d, cell, empty, i, j + 1, 0)
  {
  }

  lemma FillEndRow<T>(t: seq<seq<seq<T>>>, d: Index, cell: (int, int, int) -> T, empty: T, i: int, j: int)
    requires FilledBefore(t, d, cell, empty, i, j, 0)
    requires forall b, c :: j <= b && InShape(d, i, b, c) ==> cell(i, b, c) == empty
    ensures FilledBefore(t, d, cell, empty, i + 1, 0, 0)
  {
  }

  lemma FillDone<T>(t: seq<seq<seq<T>>>, d: Index, cell: (int, int, int) -> T, empty: T, i: int)
    requires FilledBefore(t, d, cell, empty, i, 0, 0)
    requires forall a, b, c :: i <= a && InShape(d, a, b, c) ==> cell(a, b, c) == empty
    ensures Shaped(t, d)
    ensures forall a, b, c :: InShape(d, a, b, c) ==> t[a][b][c] == cell(a, b, c)
  {
  }
}
