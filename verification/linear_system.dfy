/**
 * `LinearSystem.from` (LinearSystem.swift): the compressed-row arrays of
 * `A` in `Ax = b`, one row per unknown with an ordinal, in i-j-k order.
 * The sparse QR factorisation and solve are foreign calls; `Solve`
 * models only the length of the vector they fill.
 */
module Assembly {
  import opened Wrappers
  import opened Points
  import opened Ordinals
  import opened Mesh
  import opened Discretization
  import opened Traversal

  /** The arrays handed to the sparse solver. */
  datatype LinearSystem = LinearSystem(entries: seq<real>, columnStarts: seq<int>, rowIndices: seq<int32>, rowCount: int32)

  /** Every stencil `from` looks at can be read at its contained locations. */
  ghost predicate StencilsReadable(u: seq<seq<seq<UnknownPoint>>>, lhs: LHS, d: Index) {
    forall a, b, c :: InBox(u, a, b, c) && u[a][b][c].ordinal.Some? ==> Readable(lhs(u[a][b][c].indices), d, u)
  }

  /** `for (ordinal, coefficient) in coefficients where ordinal >= 0`. */
  function NonNegative(r: seq<Coefficient>): seq<Coefficient> {
    if r == [] then []
    else NonNegative(r[..|r| - 1]) + (if r[|r| - 1].ordinal >= 0 then [r[|r| - 1]] else [])
  }

  /** The filter keeps exactly the pairs of `r` with a non-negative ordinal. */
  lemma {:induction false} NonNegativeMembers(r: seq<Coefficient>)
    ensures forall x :: x in NonNegative(r) <==> x in r && x.ordinal >= 0
  {
    if r != [] {
      var init := r[..|r| - 1];
      NonNegativeMembers(init);
      assert r == init + [r[|r| - 1]];
    }
  }

  /** When no ordinal is negative the filter removes nothing. */
  lemma {:induction false} NonNegativeKeepsAll(r: seq<Coefficient>)
    requires forall x | x in r :: x.ordinal >= 0
    ensures NonNegative(r) == r
  {
    if r != [] {
      NonNegativeKeepsAll(r[..|r| - 1]);
      assert r[..|r| - 1] + [r[|r| - 1]] == r;
    }
  }

  /** The filter keeps a strictly ascending row strictly ascending. */
  lemma {:induction false} NonNegativeStrictlySorted(r: seq<Coefficient>)
    requires StrictlySorted(r)
    ensures StrictlySorted(NonNegative(r))
  {
    if r != [] {
      var init := r[..|r| - 1];
      assert StrictlySorted(init);
      NonNegativeStrictlySorted(init);
      NonNegativeMembers(init);
      forall x | x in NonNegative(init) ensures x.ordinal < r[|r| - 1].ordinal {
        assert x in init;
      }
    }
  }

  /**
   * The pairs that make up the row of the unknown in cell `p` (no pairs
   * for a cell that is not there or whose stencil cannot be read; the
   * walk meets no such cell).
   */
  function RowTerms(u: seq<seq<seq<UnknownPoint>>>, lhs: LHS, d: Index, p: Position): seq<Coefficient> {
    if InBox(u, p.0, p.1, p.2) && Readable(lhs(At(u, p).indices), d, u) then
      NonNegative(AdjacentCoefficients(lhs, d, At(u, p), u))
    else []
  }

  /** The pairs of `rows`, row after row. */
  function Terms(u: seq<seq<seq<UnknownPoint>>>, lhs: LHS, d: Index, rows: seq<Position>): seq<Coefficient> {
    if rows == [] then []
    else Terms(u, lhs, d, rows[..|rows| - 1]) + RowTerms(u, lhs, d, rows[|rows| - 1])
  }

  /** The start marker of each row of `rows`: how many pairs came before it. */
  function Starts(u: seq<seq<seq<UnknownPoint>>>, lhs: LHS, d: Index, rows: seq<Position>): (r: seq<int>)
    ensures |r| == |rows|
  {
    if rows == [] then []
    else Starts(u, lhs, d, rows[..|rows| - 1]) + [|Terms(u, lhs, d, rows[..|rows| - 1])|]
  }

  /** The ordinals of `ts`, in order. */
  function OrdinalsOf(ts: seq<Coefficient>): (r: seq<int32>)
    ensures |r| == |ts|
  {
    if ts == [] then [] else OrdinalsOf(ts[..|ts| - 1]) + [ts[|ts| - 1].ordinal]
  }

  /** The coefficients of `ts`, in order. */
  function Weights(ts: seq<Coefficient>): (r: seq<real>)
    ensures |r| == |ts|
  {
    if ts == [] then [] else Weights(ts[..|ts| - 1]) + [ts[|ts| - 1].coefficient]
  }

  /** The system `from(unsolvedMesh:pde:)` returns. */
  function Assembled(u: seq<seq<seq<UnknownPoint>>>, lhs: LHS, d: Index): (sys: LinearSystem)
    requires StencilsReadable(u, lhs, d) && |PresentPositions(u)| < 0x8000_0000
    ensures sys.rowCount as int == |PresentPositions(u)|
    ensures |sys.columnStarts| == sys.rowCount as int + 1
    ensures |sys.entries| == |sys.rowIndices| == sys.columnStarts[sys.rowCount]
  {
    var rows := PresentPositions(u);
    var terms := Terms(u, lhs, d, rows);
    LinearSystem(Weights(terms), Starts(u, lhs, d, rows) + [|terms|], OrdinalsOf(terms), |rows| as int32)
  }

  // ---------------------------------------------------------------------
  // The assembling loops
  // ---------------------------------------------------------------------

  /**
   * The loop variables of `from`. The row counter is an Int32 in the
   * source, where `+= 1` traps past Int32.max; `From` requires fewer
   * unknowns than that, so the counter is kept here as an integer.
   */
  datatype Builder = Builder(entries: seq<real>, columnStarts: seq<int>, rowIndices: seq<int32>,
                             entryCounter: int, columnStart: int, rowCount: int)

  /** The loop variables before the first unknown. */
  const Start := Builder([], [], [], 0, 0, 0)

  /** The loop variables after one more unknown whose row holds the pairs `row`. */
  function Step(b: Builder, row: seq<Coefficient>): Builder {
    Builder(b.entries + Weights(row), b.columnStarts + [b.columnStart], b.rowIndices + OrdinalsOf(row),
            b.entryCounter + |row|, b.columnStart + |row|, b.rowCount + 1)
  }

  /** How each walked cell's row is found. */
  type RowSource = Position -> seq<Coefficient>

  /** The rows `from` assembles: `RowTerms` of each cell. */
  function RowsOf(u: seq<seq<seq<UnknownPoint>>>, lhs: LHS, d: Index): RowSource {
    p => RowTerms(u, lhs, d, p)
  }

  /** The loop variables after the unknowns `rows`, in order, each contributing the row `rt` gives it. */
  function Walk(rt: RowSource, b: Builder, rows: seq<Position>): Builder {
    if rows == [] then b
    else Step(Walk(rt, b, rows[..|rows| - 1]), rt(rows[|rows| - 1]))
  }

  lemma WalkSnoc(rt: RowSource, b: Builder, rows: seq<Position>, p: Position)
    ensures Walk(rt, b, rows + [p]) == Step(Walk(rt, b, rows), rt(p))
  {
    assert (rows + [p])[..|rows|] == rows;
  }

  /** Walking two stretches one after the other is walking their concatenation. */
  lemma {:induction false} WalkAppend(rt: RowSource, b: Builder, rows: seq<Position>, more: seq<Position>)
    ensures Walk(rt, b, rows + more) == Walk(rt, Walk(rt, b, rows), more)
    decreases |more|
  {
    if more == [] {
      assert rows + more == rows;
    } else {
      var init := more[..|more| - 1];
      var last := more[|more| - 1];
      WalkAppend(rt, b, rows, init);
      assert rows + more == (rows + init) + [last];
      assert more == init + [last];
      WalkSnoc(rt, b, rows + init, last);
      WalkSnoc(rt, Walk(rt, b, rows), init, last);
    }
  }

  /** Walking from the initial loop variables builds the arrays of `Terms` and `Starts`. */
  lemma {:induction false} WalkFromStart(u: seq<seq<seq<UnknownPoint>>>, lhs: LHS, d: Index, rows: seq<Position>)
    ensures var b := Walk(RowsOf(u, lhs, d), Start, rows);
            var terms := Terms(u, lhs, d, rows);
            && b.entries == Weights(terms) && b.rowIndices == OrdinalsOf(terms)
            && b.columnStarts == Starts(u, lhs, d, rows)
            && b.entryCounter == b.columnStart == |terms| && b.rowCount == |rows|
  {
    if rows != [] {
      var init := rows[..|rows| - 1];
      WalkFromStart(u, lhs, d, init);
      WeightsAppend(Terms(u, lhs, d, init), RowTerms(u, lhs, d, rows[|rows| - 1]));
    }
  }

  /** The loop variables after the whole walk, closed by a final marker, are the assembled system. */
  lemma WalkBuildsAssembled(u: seq<seq<seq<UnknownPoint>>>, lhs: LHS, d: Index)
    requires StencilsReadable(u, lhs, d) && |PresentPositions(u)| < 0x8000_0000
    ensures var b := Walk(RowsOf(u, lhs, d), Start, PresentPositions(u));
            && 0 <= b.rowCount < 0x8000_0000
            && Assembled(u, lhs, d) == LinearSystem(b.entries, b.columnStarts + [b.entryCounter], b.rowIndices, b.rowCount as int32)
  {
    WalkFromStart(u, lhs, d, PresentPositions(u));
  }

  /** Appending pairs appends their weights and their ordinals. */
  lemma WeightsAppend(a: seq<Coefficient>, b: seq<Coefficient>)
    ensures Weights(a + b) == Weights(a) + Weights(b)
    ensures OrdinalsOf(a + b) == OrdinalsOf(a) + OrdinalsOf(b)
  {
    WeightsIndex(a);
    WeightsIndex(b);
    WeightsIndex(a + b);
    forall n | 0 <= n < |a + b|
      ensures Weights(a + b)[n] == (Weights(a) + Weights(b))[n]
      ensures OrdinalsOf(a + b)[n] == (OrdinalsOf(a) + OrdinalsOf(b))[n]
    {
      if n >= |a| {
        assert (a + b)[n] == b[n - |a|];
      }
    }
  }

  /** Entry `n` of the arrays is the weight and the ordinal of pair `n`. */
  lemma {:induction false} WeightsIndex(ts: seq<Coefficient>)
    ensures forall n :: 0 <= n < |ts| ==> Weights(ts)[n] == ts[n].coefficient && OrdinalsOf(ts)[n] == ts[n].ordinal
  {
    if ts != [] {
      WeightsIndex(ts[..|ts| - 1]);
    }
  }

  lemma NonNegativeSnoc(cs: seq<Coefficient>, n: int)
    requires 0 <= n < |cs|
    ensures cs[n].ordinal >= 0 ==> NonNegative(cs[..n + 1]) == NonNegative(cs[..n]) + [cs[n]]
    ensures cs[n].ordinal < 0 ==> NonNegative(cs[..n + 1]) == NonNegative(cs[..n])
  {
    assert cs[..n + 1][..n] == cs[..n];
    assert NonNegative(cs[..n]) + [] == NonNegative(cs[..n]);
  }

  /** Appending one pair to `kept` appends its weight and its ordinal after `prefix`. */
  lemma ArraysSnoc(entries: seq<real>, indices: seq<int32>, kept: seq<Coefficient>, x: Coefficient)
    ensures entries + Weights(kept + [x]) == (entries + Weights(kept)) + [x.coefficient]
    ensures indices + OrdinalsOf(kept + [x]) == (indices + OrdinalsOf(kept)) + [x.ordinal]
  {
    WeightsAppend(kept, [x]);
  }

  /** The body for one unknown: its start marker, then its pairs with a non-negative ordinal. */
  method AssembleUnknown(u: seq<seq<seq<UnknownPoint>>>, lhs: LHS, d: Index, p: Position, b: Builder)
    returns (b': Builder)
    requires StencilsReadable(u, lhs, d) && InBox(u, p.0, p.1, p.2) && u[p.0][p.1][p.2].ordinal.Some?
    ensures b' == Step(b, RowsOf(u, lhs, d)(p))
  {
    var point := u[p.0][p.1][p.2];
    assert Readable(lhs(point.indices), d, u);
    var coefficients := GetAdjacentCoefficients(lhs, d, point, u);
    var Builder(entries, columnStarts, rowIndices, entryCounter, columnStart, rowCount) := b;
    columnStarts := columnStarts + [columnStart];
    rowCount := rowCount + 1;
    var n := 0;
    assert entries + [] == entries && rowIndices + [] == rowIndices;
    while n < |coefficients|
      invariant 0 <= n <= |coefficients|
      invariant entries == b.entries + Weights(NonNegative(coefficients[..n]))
      invariant rowIndices == b.rowIndices + OrdinalsOf(NonNegative(coefficients[..n]))
      invariant entryCounter == b.entryCounter + |NonNegative(coefficients[..n])|
      invariant columnStart == b.columnStart + |NonNegative(coefficients[..n])|
    {
      NonNegativeSnoc(coefficients, n);
      var Coefficient(ordinal, coefficient) := coefficients[n];
      if ordinal >= 0 {
        ArraysSnoc(b.entries, b.rowIndices, NonNegative(coefficients[..n]), coefficients[n]);
        rowIndices := rowIndices + [ordinal];
        columnStart := columnStart + 1;
        entries := entries + [coefficient];
        entryCounter := entryCounter + 1;
      }
      n := n + 1;
    }
    assert coefficients[..n] == coefficients;
    b' := Builder(entries, columnStarts, rowIndices, entryCounter, columnStart, rowCount);
  }

  lemma Regroup<T>(a: seq<T>, b: seq<T>, c: seq<T>)
    ensures a + (b + c) == (a + b) + c
  {
  }

  /** Walking column `(i, j, _)` up to cell `k + 1` adds cell `k` when it holds an unknown. */
  lemma ColumnStep(u: seq<seq<seq<UnknownPoint>>>, rt: RowSource, b: Builder, i: int, j: int, k: int)
    requires 0 <= i < |u| && 0 <= j < |u[i]| && 0 <= k < |u[i][j]|
    ensures u[i][j][k].ordinal.Some? ==>
              InBox(u, i, j, k) && Walk(rt, b, ColumnPositions(u, i, j, k + 1)) == Step(Walk(rt, b, ColumnPositions(u, i, j, k)), rt((i, j, k)))
    ensures u[i][j][k].ordinal.None? ==> Walk(rt, b, ColumnPositions(u, i, j, k + 1)) == Walk(rt, b, ColumnPositions(u, i, j, k))
  {
    if u[i][j][k].ordinal.Some? {
      WalkSnoc(rt, b, ColumnPositions(u, i, j, k), (i, j, k));
    } else {
      assert ColumnPositions(u, i, j, k) + [] == ColumnPositions(u, i, j, k);
    }
  }

  /** The innermost walk of `from`: column `(i, j, _)`, skipping points without an ordinal. */
  method AssembleColumn(u: seq<seq<seq<UnknownPoint>>>, lhs: LHS, d: Index, i: int, j: int, b: Builder)
    returns (b': Builder)
    requires 0 <= i < |u| && 0 <= j < |u[i]| && StencilsReadable(u, lhs, d)
    ensures b' == Walk(RowsOf(u, lhs, d), b, ColumnPositions(u, i, j, |u[i][j]|))
  {
    ghost var rt := RowsOf(u, lhs, d);
    var column := u[i][j];
    b' := b;
    var k := 0;
    while k < |column|
      invariant 0 <= k <= |column|
      invariant b' == Walk(rt, b, ColumnPositions(u, i, j, k))
    {
      ColumnStep(u, rt, b, i, j, k);
      if column[k].ordinal.Some? {
        b' := AssembleUnknown(u, lhs, d, (i, j, k), b');
      }
      k := k + 1;
    }
  }

  /** The middle walk of `from`: row `(i, _, _)`. */
  method AssembleRow(u: seq<seq<seq<UnknownPoint>>>, lhs: LHS, d: Index, i: int, b: Builder)
    returns (b': Builder)
    requires 0 <= i < |u| && StencilsReadable(u, lhs, d)
    ensures b' == Walk(RowsOf(u, lhs, d), b, RowPositions(u, i, |u[i]|))
  {
    b' := b;
    var j := 0;
    while j < |u[i]|
      invariant 0 <= j <= |u[i]|
      invariant b' == Walk(RowsOf(u, lhs, d), b, RowPositions(u, i, j))
    {
      WalkAppend(RowsOf(u, lhs, d), b, RowPositions(u, i, j), ColumnPositions(u, i, j, |u[i][j]|));
      b' := AssembleColumn(u, lhs, d, i, j, b');
      j := j + 1;
    }
  }

  /**
   * `from(unsolvedMesh:pde:)`: walks the unknowns in i-j-k order and,
   * for each point with an ordinal, records where its row starts and
   * appends its non-negative-ordinal pairs; a final marker closes the
   * last row. The Int32 row counter traps past Int32.max, hence the bound.
   */
  method From(u: seq<seq<seq<UnknownPoint>>>, lhs: LHS, d: Index) returns (sys: LinearSystem)
    requires StencilsReadable(u, lhs, d) && |PresentPositions(u)| < 0x8000_0000
    ensures sys == Assembled(u, lhs, d)
  {
    var b := Start;
    var i := 0;
    while i < |u|
      invariant 0 <= i <= |u|
      invariant b == Walk(RowsOf(u, lhs, d), Start, Positions(u, i))
    {
      WalkAppend(RowsOf(u, lhs, d), Start, Positions(u, i), RowPositions(u, i, |u[i]|));
      b := AssembleRow(u, lhs, d, i, b);
      i := i + 1;
    }
    WalkBuildsAssembled(u, lhs, d);
    var Builder(entries, columnStarts, rowIndices, entryCounter, _, rowCount) := b;
    columnStarts := columnStarts + [entryCounter];
    sys := LinearSystem(entries, columnStarts, rowIndices, rowCount as int32);
  }
}
