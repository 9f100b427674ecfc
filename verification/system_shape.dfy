/**
 * What the arrays of `LinearSystem.from` (LinearSystem.swift) mean: a
 * well-formed compressed-row layout with one row per unknown, the row of
 * each unknown holding its adjacent coefficients, and, for the unknowns
 * of a boundary partition, every row index a valid row.
 */
module SystemShape {
  import opened Wrappers
  import opened Points
  import opened Ordinals
  import opened Mesh
  import opened Discretization
  import opened Traversal
  import opened Assembly

  // ---------------------------------------------------------------------
  // Prefixes of the walk
  // ---------------------------------------------------------------------

  /** Walking one more row appends that row's pairs. */
  lemma TermsSnoc(u: seq<seq<seq<UnknownPoint>>>, lhs: LHS, d: Index, rows: seq<Position>, r: int)
    requires 0 <= r < |rows|
    ensures Terms(u, lhs, d, rows[..r + 1]) == Terms(u, lhs, d, rows[..r]) + RowTerms(u, lhs, d, rows[r])
  {
    assert rows[..r + 1][..r] == rows[..r];
  }

  /** The pairs of a prefix of the rows are a prefix of the pairs of all rows. */
  lemma {:induction false} TermsPrefix(u: seq<seq<seq<UnknownPoint>>>, lhs: LHS, d: Index, rows: seq<Position>, r: int)
    requires 0 <= r <= |rows|
    ensures |Terms(u, lhs, d, rows[..r])| <= |Terms(u, lhs, d, rows)|
    ensures Terms(u, lhs, d, rows)[..|Terms(u, lhs, d, rows[..r])|] == Terms(u, lhs, d, rows[..r])
    decreases |rows| - r
  {
    if r == |rows| {
      assert rows[..r] == rows;
    } else {
      TermsPrefix(u, lhs, d, rows, r + 1);
      TermsSnoc(u, lhs, d, rows, r);
      var t := Terms(u, lhs, d, rows);
      var before, upto := Terms(u, lhs, d, rows[..r]), Terms(u, lhs, d, rows[..r + 1]);
      assert t[..|upto|] == upto;
      assert t[..|before|] == upto[..|before|];
    }
  }

  /** Row `r`'s start marker counts the pairs of the rows before it. */
  lemma {:induction false} StartsCount(u: seq<seq<seq<UnknownPoint>>>, lhs: LHS, d: Index, rows: seq<Position>)
    ensures forall r :: 0 <= r < |rows| ==> Starts(u, lhs, d, rows)[r] == |Terms(u, lhs, d, rows[..r])|
  {
    if rows != [] {
      var init := rows[..|rows| - 1];
      var s := Starts(u, lhs, d, rows);
      var si := Starts(u, lhs, d, init);
      assert s == si + [|Terms(u, lhs, d, init)|];
      StartsCount(u, lhs, d, init);
      forall r | 0 <= r < |rows|
        ensures s[r] == |Terms(u, lhs, d, rows[..r])|
      {
        if r < |init| {
          assert s[r] == si[r];
          assert init[..r] == rows[..r];
        } else {
          assert rows[..r] == init;
        }
      }
    }
  }

  /**
   * The start markers of `rows` closed by the number of their pairs: one
   * marker per row and a sentinel, starting at 0, rising by the width
   * of each row, the sentinel counting every pair.
   */
  lemma StartsShape(u: seq<seq<seq<UnknownPoint>>>, lhs: LHS, d: Index, rows: seq<Position>)
    ensures var cs := Starts(u, lhs, d, rows) + [|Terms(u, lhs, d, rows)|];
            && |cs| == |rows| + 1
            && cs[0] == 0
            && cs[|rows|] == |Terms(u, lhs, d, rows)|
            && forall r :: 0 <= r < |rows| ==>
                 cs[r] <= cs[r + 1] && cs[r + 1] - cs[r] == |RowTerms(u, lhs, d, rows[r])|
  {
    var cs := Starts(u, lhs, d, rows) + [|Terms(u, lhs, d, rows)|];
    StartsCount(u, lhs, d, rows);
    forall r | 0 <= r < |rows|
      ensures cs[r] <= cs[r + 1] && cs[r + 1] - cs[r] == |RowTerms(u, lhs, d, rows[r])|
    {
      RowStretch(u, lhs, d, rows, r);
      if r + 1 == |rows| {
        assert rows[..r + 1] == rows;
      }
    }
    if rows != [] {
      assert rows[..0] == [];
    }
  }

  /** The stretch of the pairs that row `r` occupies is exactly that row's pairs. */
  lemma RowStretch(u: seq<seq<seq<UnknownPoint>>>, lhs: LHS, d: Index, rows: seq<Position>, r: int)
    requires 0 <= r < |rows|
    ensures var lo, hi := |Terms(u, lhs, d, rows[..r])|, |Terms(u, lhs, d, rows[..r + 1])|;
            && lo <= hi <= |Terms(u, lhs, d, rows)|
            && hi - lo == |RowTerms(u, lhs, d, rows[r])|
            && Terms(u, lhs, d, rows)[lo..hi] == RowTerms(u, lhs, d, rows[r])
  {
    TermsSnoc(u, lhs, d, rows, r);
    TermsPrefix(u, lhs, d, rows, r + 1);
    var t, upto := Terms(u, lhs, d, rows), Terms(u, lhs, d, rows[..r + 1]);
    var lo := |Terms(u, lhs, d, rows[..r])|;
    assert t[lo..|upto|] == upto[lo..];
  }

  /** Slicing the pairs slices their weights and their ordinals. */
  lemma WeightsSlice(ts: seq<Coefficient>, lo: int, hi: int)
    requires 0 <= lo <= hi <= |ts|
    ensures Weights(ts)[lo..hi] == Weights(ts[lo..hi])
    ensures OrdinalsOf(ts)[lo..hi] == OrdinalsOf(ts[lo..hi])
  {
    assert ts == ts[..lo] + ts[lo..hi] + ts[hi..];
    WeightsAppend(ts[..lo] + ts[lo..hi], ts[hi..]);
    WeightsAppend(ts[..lo], ts[lo..hi]);
  }

  // ---------------------------------------------------------------------
  // The compressed-row layout
  // ---------------------------------------------------------------------

  /**
   * The arrays are a well-formed compressed-row layout: one row per
   * unknown with an ordinal, one start marker per row plus a final
   * sentinel, the first marker 0, the sentinel the number of entries
   * (which is also the number of row indices), and the markers rising by
   * the width of each row.
   */
  lemma AssembledShape(u: seq<seq<seq<UnknownPoint>>>, lhs: LHS, d: Index)
    requires StencilsReadable(u, lhs, d) && |PresentPositions(u)| < 0x8000_0000
    ensures var sys, rows := Assembled(u, lhs, d), PresentPositions(u);
            && sys.rowCount as int == |rows|
            && |sys.columnStarts| == |rows| + 1
            && sys.columnStarts[0] == 0
            && sys.columnStarts[|rows|] == |sys.entries| == |sys.rowIndices|
            && forall r :: 0 <= r < |rows| ==>
                 sys.columnStarts[r] <= sys.columnStarts[r + 1] &&
                 sys.columnStarts[r + 1] - sys.columnStarts[r] == |RowTerms(u, lhs, d, rows[r])|
  {
    StartsShape(u, lhs, d, PresentPositions(u));
  }

  /**
   * Row `r` of the system, the stretch `columnStarts[r] ..
   * columnStarts[r+1]` of the entries and of the row indices, holds the
   * coefficients and the ordinals of the pairs with a non-negative
   * ordinal that `getAdjacentCoefficients` gives the `r`-th unknown of
   * the walk, in the order it gives them.
   */
  lemma AssembledRows(u: seq<seq<seq<UnknownPoint>>>, lhs: LHS, d: Index, r: int)
    requires StencilsReadable(u, lhs, d) && |PresentPositions(u)| < 0x8000_0000
    requires 0 <= r < |PresentPositions(u)|
    ensures var sys, p := Assembled(u, lhs, d), PresentPositions(u)[r];
            var lo, hi := sys.columnStarts[r], sys.columnStarts[r + 1];
            && InBox(u, p.0, p.1, p.2) && Readable(lhs(At(u, p).indices), d, u)
            && 0 <= lo <= hi <= |sys.entries| == |sys.rowIndices|
            && sys.rowIndices[lo..hi] == OrdinalsOf(NonNegative(AdjacentCoefficients(lhs, d, At(u, p), u)))
            && sys.entries[lo..hi] == Weights(NonNegative(AdjacentCoefficients(lhs, d, At(u, p), u)))
  {
    var rows := PresentPositions(u);
    var terms := Terms(u, lhs, d, rows);
    StartsCount(u, lhs, d, rows);
    RowStretch(u, lhs, d, rows, r);
    var lo, hi := |Terms(u, lhs, d, rows[..r])|, |Terms(u, lhs, d, rows[..r + 1])|;
    if r + 1 == |rows| {
      assert rows[..r + 1] == rows;
    }
    WeightsSlice(terms, lo, hi);
  }

  /** The ordinals of strictly ascending pairs are strictly increasing. */
  lemma OrdinalsIncreasing(ts: seq<Coefficient>)
    requires StrictlySorted(ts)
    ensures forall a, b :: 0 <= a < b < |OrdinalsOf(ts)| ==> OrdinalsOf(ts)[a] < OrdinalsOf(ts)[b]
  {
    WeightsIndex(ts);
  }

  /** In a box of the mesh's shape every stencil can be read. */
  lemma ShapedStencilsReadable(u: seq<seq<seq<UnknownPoint>>>, lhs: LHS, d: Index)
    requires Shaped(u, d)
    ensures StencilsReadable(u, lhs, d)
  {
    forall a, b, c | InBox(u, a, b, c) && u[a][b][c].ordinal.Some?
      ensures Readable(lhs(u[a][b][c].indices), d, u)
    {
      ShapedReadable(lhs(u[a][b][c].indices), d, u);
    }
  }

  /** The ordinals of one unknown's row strictly increase. */
  lemma RowOrdinalsIncreasing(u: seq<seq<seq<UnknownPoint>>>, lhs: LHS, d: Index, p: Position)
    requires Shaped(u, d) && OrdinalsInjective(u, d) && InBox(u, p.0, p.1, p.2)
    requires DistinctLocations(lhs(At(u, p).indices))
    ensures Readable(lhs(At(u, p).indices), d, u)
    ensures var o := OrdinalsOf(NonNegative(AdjacentCoefficients(lhs, d, At(u, p), u)));
            forall a, b :: 0 <= a < b < |o| ==> o[a] < o[b]
  {
    var cs := AdjacentCoefficients(lhs, d, At(u, p), u);
    AdjacentStrictlySorted(lhs, d, At(u, p), u);
    NonNegativeStrictlySorted(cs);
    OrdinalsIncreasing(NonNegative(cs));
  }

  /**
   * When no two cells share an ordinal and every stencil has distinct
   * locations, the row indices inside each row strictly increase.
   */
  lemma AssembledRowsIncreasing(u: seq<seq<seq<UnknownPoint>>>, lhs: LHS, d: Index, r: int)
    requires Shaped(u, d) && OrdinalsInjective(u, d)
    requires forall a, b, c :: InBox(u, a, b, c) ==> DistinctLocations(lhs(u[a][b][c].indices))
    requires |PresentPositions(u)| < 0x8000_0000 && 0 <= r < |PresentPositions(u)|
    ensures StencilsReadable(u, lhs, d)
    ensures var sys := Assembled(u, lhs, d);
            var lo, hi := sys.columnStarts[r], sys.columnStarts[r + 1];
            && 0 <= lo <= hi <= |sys.rowIndices|
            && forall a, b :: lo <= a < b < hi ==> sys.rowIndices[a] < sys.rowIndices[b]
  {
    ShapedStencilsReadable(u, lhs, d);
    var sys, p := Assembled(u, lhs, d), PresentPositions(u)[r];
    AssembledRows(u, lhs, d, r);
    RowOrdinalsIncreasing(u, lhs, d, p);
    SliceIncreasing(sys.rowIndices, sys.columnStarts[r], sys.columnStarts[r + 1]);
  }

  /** A stretch of `s` that increases as a sequence of its own increases inside `s`. */
  lemma SliceIncreasing(s: seq<int32>, lo: int, hi: int)
    requires 0 <= lo <= hi <= |s|
    requires forall a, b :: 0 <= a < b < |s[lo..hi]| ==> s[lo..hi][a] < s[lo..hi][b]
    ensures forall a, b :: lo <= a < b < hi ==> s[a] < s[b]
  {
    forall a, b | lo <= a < b < hi ensures s[a] < s[b] {
      assert s[a] == s[lo..hi][a - lo] && s[b] == s[lo..hi][b - lo];
    }
  }

  // ---------------------------------------------------------------------
  // The system of a boundary partition
  // ---------------------------------------------------------------------

  /** Pairs of rows whose ordinals all lie in `0 .. n-1` have all their ordinals there. */
  lemma {:induction false} TermsOrdinalsBelow(u: seq<seq<seq<UnknownPoint>>>, lhs: LHS, d: Index, rows: seq<Position>, n: int)
    requires forall r, x :: 0 <= r < |rows| && x in RowTerms(u, lhs, d, rows[r]) ==> 0 <= x.ordinal as int < n
    ensures forall x :: x in Terms(u, lhs, d, rows) ==> 0 <= x.ordinal as int < n
  {
    if rows != [] {
      var init := rows[..|rows| - 1];
      forall r, x | 0 <= r < |init| && x in RowTerms(u, lhs, d, init[r]) ensures 0 <= x.ordinal as int < n {
        assert init[r] == rows[r];
      }
      TermsOrdinalsBelow(u, lhs, d, init, n);
    }
  }

  /** Every pair `getAdjacentCoefficients` gives carries the ordinal of a cell of `u`. */
  lemma AdjacentOrdinalsInRange(lhs: LHS, d: Index, unknown: UnknownPoint, u: seq<seq<seq<UnknownPoint>>>, n: int)
    requires Shaped(u, d) && OrdinalsInRange(u, d, n)
    ensures Readable(lhs(unknown.indices), d, u)
    ensures forall x | x in AdjacentCoefficients(lhs, d, unknown, u) :: 0 <= x.ordinal as int < n
  {
    var s := lhs(unknown.indices);
    ShapedReadable(s, d, u);
    ShapedCells(u, d);
    AdjacentCoefficientsSpec(lhs, d, unknown, u);
    forall x | x in AdjacentCoefficients(lhs, d, unknown, u) ensures 0 <= x.ordinal as int < n {
      var e :| 0 <= e < |s| && Yields(s[e], x, d, u);
      var (a, b, c) := Ijk(s[e].location);
      assert InShape(d, a, b, c);
    }
  }

  /**
   * For the unknowns of a boundary partition with `N` unknown cells: the
   * system has `N` rows, row `r` belongs to the unknown with ordinal `r`
   * and holds all its adjacent coefficients (no ordinal is negative, so
   * the filter drops nothing), and every row index lies in `0 .. N-1`.
   */
  lemma PartitionedSystem<P>(points: seq<seq<seq<P>>>, d: Index, bc: BoundaryCondition, access: PointAccess<P>, lhs: LHS)
    requires ValidDimensions(d) && FitsIn(points, d) && UnknownCount(points, bc) < 0x8000_0000
    ensures var u := Partitioned(points, d, bc, access).unknowns;
            && StencilsReadable(u, lhs, d) && |PresentPositions(u)| < 0x8000_0000
            && var sys := Assembled(u, lhs, d);
               && sys.rowCount as int == UnknownCount(points, bc)
               && (forall r :: 0 <= r < UnknownCount(points, bc) ==>
                     At(u, PresentPositions(u)[r]).ordinal == Some(r as int32) &&
                     RowTerms(u, lhs, d, PresentPositions(u)[r]) == AdjacentCoefficients(lhs, d, At(u, PresentPositions(u)[r]), u))
               && forall n :: 0 <= n < |sys.rowIndices| ==> 0 <= sys.rowIndices[n] < sys.rowCount
  {
    var u: seq<seq<seq<UnknownPoint>>> := Partitioned(points, d, bc, access).unknowns;
    var N := UnknownCount(points, bc);
    var rows := PresentPositions(u);
    PartitionOrdinalsInRange(points, d, bc, access);
    PartitionWalkOrdinals(points, d, bc, access);
    ShapedStencilsReadable(u, lhs, d);
    forall r | 0 <= r < |rows|
      ensures RowTerms(u, lhs, d, rows[r]) == AdjacentCoefficients(lhs, d, At(u, rows[r]), u)
      ensures forall x | x in RowTerms(u, lhs, d, rows[r]) :: 0 <= x.ordinal as int < N
    {
      assert rows[r] in rows;
      AdjacentOrdinalsInRange(lhs, d, At(u, rows[r]), u, N);
      NonNegativeKeepsAll(AdjacentCoefficients(lhs, d, At(u, rows[r]), u));
    }
    TermsOrdinalsBelow(u, lhs, d, rows, N);
    var terms := Terms(u, lhs, d, rows);
    WeightsIndex(terms);
    forall n | 0 <= n < |terms| ensures 0 <= OrdinalsOf(terms)[n] as int < N {
      assert terms[n] in terms;
    }
  }

  // ---------------------------------------------------------------------
  // Solving
  // ---------------------------------------------------------------------

  /** The foreign sparse QR solve: entry `n` of the solution of `A x = b` for the system's `A`. */
  type Solver = (LinearSystem, seq<real>, nat) -> real

  /**
   * `solve(bValues:)`: a buffer of `rowCount` values, one per row, that
   * the foreign solve fills in; a negative count traps.
   */
  function Solve(sys: LinearSystem, bValues: seq<real>, solver: Solver): (x: seq<real>)
    requires sys.rowCount >= 0
    ensures |x| == sys.rowCount as int
  {
    seq(sys.rowCount as int, n requires 0 <= n => solver(sys, bValues, n))
  }
}
