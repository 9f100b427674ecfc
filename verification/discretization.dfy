/**
 * Stencil helpers of a discretized PDE (DiscretizedPDE.swift): picking
 * the ordinals a stencil touches for one row of `A`, and folding a
 * stencil against the known values of a mesh.
 *
 * A stencil is a Swift dictionary from grid location to coefficient; it
 * is modelled as a sequence of terms with distinct locations, in
 * whatever order the dictionary happens to iterate.
 */
module Discretization {
  import opened Wrappers
  import opened Points
  import opened Mesh

  /** One dictionary entry of a stencil: a grid location and its weight. */
  datatype Term = Term(location: Index, coefficient: real)

  type Stencil = seq<Term>

  /** The "left-hand side" stencil for the unknown at each grid location. */
  type LHS = Index -> Stencil

  /** The "right-hand side" at each grid location: a constant and a stencil. */
  type RHS = Index -> (real, Stencil)

  /** The `(Int32, Double)` pair: the ordinal of an unknown and its coefficient. */
  datatype Coefficient = Coefficient(ordinal: int32, coefficient: real)

  /** Dictionary keys are distinct. */
  predicate DistinctLocations(s: Stencil) {
    forall a, b :: 0 <= a < b < |s| ==> s[a].location != s[b].location
  }

  /** The grid cell a location names. */
  function Cell<T>(box: seq<seq<seq<T>>>, location: Index): T
    requires InBox(box, Ijk(location).0, Ijk(location).1, Ijk(location).2)
  {
    box[Ijk(location).0][Ijk(location).1][Ijk(location).2]
  }

  /** Every location of `s` that `contains` accepts can be looked up in `box`. */
  predicate Readable<T>(s: Stencil, d: Index, box: seq<seq<seq<T>>>) {
    forall t | t in s :: Contains(d, t.location) ==> InBox(box, Ijk(t.location).0, Ijk(t.location).1, Ijk(t.location).2)
  }

  lemma ReadablePrefix<T>(s: Stencil, d: Index, box: seq<seq<seq<T>>>, n: nat)
    requires Readable(s, d, box) && n <= |s|
    ensures Readable(s[..n], d, box) && Readable(s[n..], d, box)
  {
    forall t | t in s[..n] ensures t in s { }
    forall t | t in s[n..] ensures t in s { }
  }

  lemma ShapedReadable<T>(s: Stencil, d: Index, box: seq<seq<seq<T>>>)
    requires Shaped(box, d)
    ensures Readable(s, d, box)
  {
    ShapedCells(box, d);
  }

  // ---------------------------------------------------------------------
  // getAdjacentCoefficients
  // ---------------------------------------------------------------------

  /** Term `t` is kept: its location is in the mesh and its unknown cell carries an ordinal. */
  predicate Keeps(t: Term, d: Index, unknowns: seq<seq<seq<UnknownPoint>>>)
    requires Contains(d, t.location) ==> InBox(unknowns, Ijk(t.location).0, Ijk(t.location).1, Ijk(t.location).2)
  {
    Contains(d, t.location) && Cell(unknowns, t.location).ordinal.Some?
  }

  /** Pair `p` is what the kept term `t` turns into. */
  predicate Yields(t: Term, p: Coefficient, d: Index, unknowns: seq<seq<seq<UnknownPoint>>>)
    requires Contains(d, t.location) ==> InBox(unknowns, Ijk(t.location).0, Ijk(t.location).1, Ijk(t.location).2)
  {
    Keeps(t, d, unknowns) && p == Coefficient(Cell(unknowns, t.location).ordinal.value, t.coefficient)
  }

  /** The pairs the loop of `getAdjacentCoefficients` appends, in stencil order. */
  function Kept(s: Stencil, d: Index, unknowns: seq<seq<seq<UnknownPoint>>>): (r: seq<Coefficient>)
    requires Readable(s, d, unknowns)
    ensures |r| <= |s|
  {
    if s == [] then []
    else
      ReadablePrefix(s, d, unknowns, |s| - 1);
      var t := s[|s| - 1];
      Kept(s[..|s| - 1], d, unknowns) +
        (if Keeps(t, d, unknowns) then [Coefficient(Cell(unknowns, t.location).ordinal.value, t.coefficient)] else [])
  }

  /** Every kept pair comes from some term of the stencil. */
  lemma {:induction false} KeptSound(s: Stencil, d: Index, unknowns: seq<seq<seq<UnknownPoint>>>)
    requires Readable(s, d, unknowns)
    ensures forall p | p in Kept(s, d, unknowns) :: exists e :: 0 <= e < |s| && Yields(s[e], p, d, unknowns)
  {
    if s != [] {
      ReadablePrefix(s, d, unknowns, |s| - 1);
      var s' := s[..|s| - 1];
      KeptSound(s', d, unknowns);
      forall p | p in Kept(s, d, unknowns) ensures exists e :: 0 <= e < |s| && Yields(s[e], p, d, unknowns) {
        if p in Kept(s', d, unknowns) {
          var e :| 0 <= e < |s'| && Yields(s'[e], p, d, unknowns);
          assert s[e] == s'[e];
        } else {
          assert Yields(s[|s| - 1], p, d, unknowns);
        }
      }
    }
  }

  /** Every term that is kept shows up as its pair. */
  lemma {:induction false} KeptComplete(s: Stencil, d: Index, unknowns: seq<seq<seq<UnknownPoint>>>)
    requires Readable(s, d, unknowns)
    ensures forall e :: 0 <= e < |s| && Keeps(s[e], d, unknowns) ==>
              Coefficient(Cell(unknowns, s[e].location).ordinal.value, s[e].coefficient) in Kept(s, d, unknowns)
  {
    if s != [] {
      ReadablePrefix(s, d, unknowns, |s| - 1);
      var s' := s[..|s| - 1];
      KeptComplete(s', d, unknowns);
      forall e | 0 <= e < |s| - 1 && Keeps(s[e], d, unknowns)
        ensures Coefficient(Cell(unknowns, s[e].location).ordinal.value, s[e].coefficient) in Kept(s, d, unknowns)
      {
        assert s[e] == s'[e];
      }
    }
  }

  /** Pairs sorted ascending by ordinal. */
  predicate SortedByOrdinal(r: seq<Coefficient>) {
    forall a, b :: 0 <= a < b < |r| ==> r[a].ordinal <= r[b].ordinal
  }

  /** Pairs strictly ascending by ordinal. */
  predicate StrictlySorted(r: seq<Coefficient>) {
    forall a, b :: 0 <= a < b < |r| ==> r[a].ordinal < r[b].ordinal
  }

  /** No two pairs share an ordinal. */
  predicate DistinctOrdinals(r: seq<Coefficient>) {
    forall a, b :: 0 <= a < b < |r| ==> r[a].ordinal != r[b].ordinal
  }

  /** `c` inserted before the first pair whose ordinal is not below it. */
  function Insert(c: Coefficient, r: seq<Coefficient>): (r': seq<Coefficient>)
    ensures |r'| == |r| + 1
  {
    if r == [] || c.ordinal <= r[0].ordinal then [c] + r
    else
      assert r == [r[0]] + r[1..];
      [r[0]] + Insert(c, r[1..])
  }

  /** `sorted { $0.0 < $1.0 }`, as an insertion sort. */
  function SortByOrdinal(s: seq<Coefficient>): (r: seq<Coefficient>)
    ensures |r| == |s|
  {
    if s == [] then []
    else
      assert s == [s[0]] + s[1..];
      Insert(s[0], SortByOrdinal(s[1..]))
  }

  /** Insertion adds `c` to the pairs and changes nothing else. */
  lemma {:induction false} InsertPermutes(c: Coefficient, r: seq<Coefficient>)
    ensures multiset(Insert(c, r)) == multiset(r) + multiset{c}
  {
    if r != [] && c.ordinal > r[0].ordinal {
      InsertPermutes(c, r[1..]);
      assert r == [r[0]] + r[1..];
    }
  }

  /** The sort rearranges the pairs and changes nothing else. */
  lemma {:induction false} SortPermutes(s: seq<Coefficient>)
    ensures multiset(SortByOrdinal(s)) == multiset(s)
  {
    if s != [] {
      SortPermutes(s[1..]);
      InsertPermutes(s[0], SortByOrdinal(s[1..]));
      assert s == [s[0]] + s[1..];
    }
  }

  /** Insertion adds `c` and nothing but `c`. */
  lemma InsertMembers(c: Coefficient, r: seq<Coefficient>)
    ensures forall y | y in Insert(c, r) :: y == c || y in r
  {
    InsertPermutes(c, r);
    forall y | y in Insert(c, r) ensures y == c || y in r {
      assert y in multiset(Insert(c, r));
    }
  }

  lemma {:induction false} InsertSorted(c: Coefficient, r: seq<Coefficient>)
    requires SortedByOrdinal(r)
    ensures SortedByOrdinal(Insert(c, r))
  {
    if r != [] && c.ordinal > r[0].ordinal {
      InsertSorted(c, r[1..]);
      InsertMembers(c, r[1..]);
      var tail := Insert(c, r[1..]);
      forall b | 0 <= b < |tail| ensures r[0].ordinal <= tail[b].ordinal {
        assert tail[b] in tail;
      }
      assert Insert(c, r) == [r[0]] + tail;
    }
  }

  lemma {:induction false} InsertStrictlySorted(c: Coefficient, r: seq<Coefficient>)
    requires StrictlySorted(r) && forall x | x in r :: x.ordinal != c.ordinal
    ensures StrictlySorted(Insert(c, r))
  {
    if r != [] && c.ordinal > r[0].ordinal {
      InsertStrictlySorted(c, r[1..]);
      InsertMembers(c, r[1..]);
      var tail := Insert(c, r[1..]);
      forall b | 0 <= b < |tail| ensures r[0].ordinal < tail[b].ordinal {
        assert tail[b] in tail;
      }
      assert Insert(c, r) == [r[0]] + tail;
    } else if r != [] {
      assert r[0] in r;
    }
  }

  /** The sort's result is ascending by ordinal, and strictly so when the ordinals are distinct. */
  lemma {:induction false} SortSorted(s: seq<Coefficient>)
    ensures SortedByOrdinal(SortByOrdinal(s))
    ensures DistinctOrdinals(s) ==> StrictlySorted(SortByOrdinal(s))
  {
    if s != [] {
      SortSorted(s[1..]);
      var rest := SortByOrdinal(s[1..]);
      InsertSorted(s[0], rest);
      if DistinctOrdinals(s) {
        assert DistinctOrdinals(s[1..]) by {
          forall a, b | 0 <= a < b < |s[1..]| ensures s[1..][a].ordinal != s[1..][b].ordinal {
            assert s[1..][a] == s[a + 1] && s[1..][b] == s[b + 1];
          }
        }
        SortPermutes(s[1..]);
        forall x | x in rest ensures x.ordinal != s[0].ordinal {
          assert x in multiset(rest);
          assert x in multiset(s[1..]);
          var e :| 0 <= e < |s[1..]| && s[1..][e] == x;
          assert s[e + 1] == x;
        }
        InsertStrictlySorted(s[0], rest);
      }
    }
  }

  /**
   * The ordinal-coefficient pairs for one row of `A`: the stencil of the
   * unknown's indices, restricted to terms inside the mesh whose unknown
   * cell has an ordinal, sorted by ordinal. The unknowns box is indexed
   * only at contained locations.
   */
  function AdjacentCoefficients(lhs: LHS, d: Index, unknown: UnknownPoint, unknowns: seq<seq<seq<UnknownPoint>>>): (r: seq<Coefficient>)
    requires Readable(lhs(unknown.indices), d, unknowns)
    ensures |r| == |Kept(lhs(unknown.indices), d, unknowns)|
  {
    SortByOrdinal(Kept(lhs(unknown.indices), d, unknowns))
  }

  /** `getAdjacentCoefficients`: the append loop over the stencil, then the sort. */
  method GetAdjacentCoefficients(lhs: LHS, d: Index, unknown: UnknownPoint, unknowns: seq<seq<seq<UnknownPoint>>>)
    returns (r: seq<Coefficient>)
    requires Readable(lhs(unknown.indices), d, unknowns)
    ensures r == AdjacentCoefficients(lhs, d, unknown, unknowns)
  {
    var coefficients := lhs(unknown.indices);
    var adjacentCoefficients: seq<Coefficient> := [];
    var n := 0;
    while n < |coefficients|
      invariant 0 <= n <= |coefficients|
      invariant Readable(coefficients[..n], d, unknowns)
      invariant adjacentCoefficients == Kept(coefficients[..n], d, unknowns)
    {
      ReadablePrefix(coefficients, d, unknowns, n + 1);
      assert coefficients[..n + 1][..n] == coefficients[..n];
      var Term(location, coefficient) := coefficients[n];
      if Contains(d, location) {
        var (i, j, k) := Ijk(location);
        match unknowns[i][j][k].ordinal {
          case Some(ordinal) =>
            adjacentCoefficients := adjacentCoefficients + [Coefficient(ordinal, coefficient)];
          case None =>
        }
      }
      n := n + 1;
    }
    assert coefficients[..n] == coefficients;
    r := SortByOrdinal(adjacentCoefficients);
  }

  /**
   * The pairs of one row: sorted ascending by ordinal, at most one per
   * stencil term, each `(ordinal of cell L, coefficient at L)` for a
   * stencil location `L` inside the mesh whose cell has an ordinal, and
   * every such location represented.
   */
  lemma AdjacentCoefficientsSpec(lhs: LHS, d: Index, unknown: UnknownPoint, unknowns: seq<seq<seq<UnknownPoint>>>)
    requires Readable(lhs(unknown.indices), d, unknowns)
    ensures var s, r := lhs(unknown.indices), AdjacentCoefficients(lhs, d, unknown, unknowns);
      && SortedByOrdinal(r)
      && |r| <= |s|
      && (forall p | p in r :: exists e :: 0 <= e < |s| && Yields(s[e], p, d, unknowns))
      && (forall e :: 0 <= e < |s| && Keeps(s[e], d, unknowns) ==>
            Coefficient(Cell(unknowns, s[e].location).ordinal.value, s[e].coefficient) in r)
  {
    var s := lhs(unknown.indices);
    var k := Kept(s, d, unknowns);
    var r := AdjacentCoefficients(lhs, d, unknown, unknowns);
    SortSorted(k);
    KeptSound(s, d, unknowns);
    KeptComplete(s, d, unknowns);
    SortPermutes(k);
    forall p | p in r ensures p in k {
      assert p in multiset(r);
    }
    forall p | p in k ensures p in r {
      assert p in multiset(k);
    }
  }

  /** `Ijk` is injective: distinct locations name distinct cells. */
  lemma IjkInjective(p: Index, q: Index)
    ensures Ijk(p) == Ijk(q) <==> p == q
  {
    OfIjk(p);
    OfIjk(q);
  }

  /**
   * When no two cells share an ordinal and the stencil's locations are
   * distinct, the kept pairs have distinct ordinals.
   */
  lemma {:induction false} KeptDistinct(s: Stencil, d: Index, unknowns: seq<seq<seq<UnknownPoint>>>)
    requires Shaped(unknowns, d) && OrdinalsInjective(unknowns, d) && DistinctLocations(s)
    ensures Readable(s, d, unknowns)
    ensures DistinctOrdinals(Kept(s, d, unknowns))
  {
    ShapedReadable(s, d, unknowns);
    ShapedCells(unknowns, d);
    if s != [] {
      ReadablePrefix(s, d, unknowns, |s| - 1);
      var s' := s[..|s| - 1];
      var t := s[|s| - 1];
      KeptDistinct(s', d, unknowns);
      KeptSound(s', d, unknowns);
      var k' := Kept(s', d, unknowns);
      if Keeps(t, d, unknowns) {
        var p := Coefficient(Cell(unknowns, t.location).ordinal.value, t.coefficient);
        assert Kept(s, d, unknowns) == k' + [p];
        forall a | 0 <= a < |k'| ensures k'[a].ordinal != p.ordinal {
          assert k'[a] in k';
          var e :| 0 <= e < |s'| && Yields(s'[e], k'[a], d, unknowns);
          assert s'[e] == s[e] && s[e].location != t.location;
          IjkInjective(s[e].location, t.location);
          var (a1, b1, c1) := Ijk(s[e].location);
          var (a2, b2, c2) := Ijk(t.location);
          assert InShape(d, a1, b1, c1) && InShape(d, a2, b2, c2);
          assert (a1, b1, c1) != (a2, b2, c2);
          assert unknowns[a1][b1][c1].ordinal != unknowns[a2][b2][c2].ordinal;
        }
      }
    }
  }

  /**
   * With distinct ordinals in the unknowns box and distinct stencil
   * locations, a row's pairs are strictly ascending by ordinal.
   */
  lemma AdjacentStrictlySorted(lhs: LHS, d: Index, unknown: UnknownPoint, unknowns: seq<seq<seq<UnknownPoint>>>)
    requires Shaped(unknowns, d) && OrdinalsInjective(unknowns, d) && DistinctLocations(lhs(unknown.indices))
    ensures Readable(lhs(unknown.indices), d, unknowns)
    ensures StrictlySorted(AdjacentCoefficients(lhs, d, unknown, unknowns))
  {
    KeptDistinct(lhs(unknown.indices), d, unknowns);
    SortSorted(Kept(lhs(unknown.indices), d, unknowns));
  }

  // ---------------------------------------------------------------------
  // getNextKnownValue and coefficientReducer
  // ---------------------------------------------------------------------

  /** `getNextKnownValue`: the known value at a contained location, 0.0 elsewhere. */
  function KnownValue(location: Index, d: Index, knowns: seq<seq<seq<KnownPoint>>>): (v: real)
    requires Contains(d, location) ==> InBox(knowns, Ijk(location).0, Ijk(location).1, Ijk(location).2)
    ensures !Contains(d, location) ==> v == 0.0
    ensures Contains(d, location) ==> v == knowns[Ijk(location).0][Ijk(location).1][Ijk(location).2].value
  {
    if Contains(d, location) then Cell(knowns, location).value else 0.0
  }

  /** One step of `coefficientReducer`: `result + coefficient * value(location)`. */
  function ReducerStep(result: real, next: Term, d: Index, knowns: seq<seq<seq<KnownPoint>>>): (r: real)
    requires Contains(d, next.location) ==> InBox(knowns, Ijk(next.location).0, Ijk(next.location).1, Ijk(next.location).2)
    ensures !Contains(d, next.location) ==> r == result
    ensures Contains(d, next.location) ==>
              r == result + next.coefficient * knowns[Ijk(next.location).0][Ijk(next.location).1][Ijk(next.location).2].value
  {
    result + next.coefficient * KnownValue(next.location, d, knowns)
  }

  /**
   * `stencil.reduce(acc, coefficientReducer(knowns))`: a left fold in
   * iteration order. It adds the stencil's linear combination to `acc`;
   * folding from 0.0, as every caller does, yields the combination.
   */
  function Reduce(acc: real, s: Stencil, d: Index, knowns: seq<seq<seq<KnownPoint>>>): (r: real)
    requires Readable(s, d, knowns)
    ensures r == acc + Combination(s, d, knowns)
    decreases |s|
  {
    if s == [] then acc
    else
      ReadablePrefix(s, d, knowns, 1);
      Reduce(ReducerStep(acc, s[0], d, knowns), s[1..], d, knowns)
  }

  /** What one term adds to the combination: `coefficient * value(location)`. */
  function Contribution(t: Term, d: Index, knowns: seq<seq<seq<KnownPoint>>>): real
    requires Contains(d, t.location) ==> InBox(knowns, Ijk(t.location).0, Ijk(t.location).1, Ijk(t.location).2)
  {
    t.coefficient * KnownValue(t.location, d, knowns)
  }

  /** The linear combination `sum of coefficient * value` over the stencil's terms. */
  function Combination(s: Stencil, d: Index, knowns: seq<seq<seq<KnownPoint>>>): real
    requires Readable(s, d, knowns)
    decreases |s|
  {
    if s == [] then 0.0
    else
      ReadablePrefix(s, d, knowns, 1);
      Contribution(s[0], d, knowns) + Combination(s[1..], d, knowns)
  }

  lemma ReadableAppend<T>(s: Stencil, u: Stencil, d: Index, box: seq<seq<seq<T>>>)
    requires Readable(s, d, box) && Readable(u, d, box)
    ensures Readable(s + u, d, box)
  {
    forall t | t in s + u ensures t in s || t in u { }
  }

  lemma {:induction false} CombinationAppend(s: Stencil, u: Stencil, d: Index, knowns: seq<seq<seq<KnownPoint>>>)
    requires Readable(s, d, knowns) && Readable(u, d, knowns)
    ensures Readable(s + u, d, knowns)
    ensures Combination(s + u, d, knowns) == Combination(s, d, knowns) + Combination(u, d, knowns)
    decreases |s|
  {
    ReadableAppend(s, u, d, knowns);
    if s == [] {
      assert s + u == u;
    } else {
      ReadablePrefix(s, d, knowns, 1);
      CombinationAppend(s[1..], u, d, knowns);
      assert (s + u)[0] == s[0] && (s + u)[1..] == s[1..] + u;
    }
  }

  /** A term outside the mesh contributes nothing, wherever it sits in the stencil. */
  lemma OutsideTermIgnored(s: Stencil, t: Term, u: Stencil, d: Index, knowns: seq<seq<seq<KnownPoint>>>)
    requires Readable(s + u, d, knowns) && !Contains(d, t.location)
    ensures Readable(s + [t] + u, d, knowns)
    ensures Combination(s + [t] + u, d, knowns) == Combination(s + u, d, knowns)
  {
    ReadablePrefix(s + u, d, knowns, |s|);
    assert (s + u)[..|s|] == s && (s + u)[|s|..] == u;
    CombinationAppend(s, [t], d, knowns);
    CombinationAppend(s + [t], u, d, knowns);
    CombinationAppend(s, u, d, knowns);
    assert [t][1..] == [];
  }

  /** Taking the term at `e` out of a stencil takes its contribution out of the combination. */
  lemma CombinationRemove(s: Stencil, e: int, d: Index, knowns: seq<seq<seq<KnownPoint>>>)
    requires Readable(s, d, knowns) && 0 <= e < |s|
    ensures Readable(s[..e] + s[e + 1..], d, knowns)
    ensures Combination(s, d, knowns) == Contribution(s[e], d, knowns) + Combination(s[..e] + s[e + 1..], d, knowns)
  {
    var t := s[e];
    ReadablePrefix(s, d, knowns, e);
    ReadablePrefix(s, d, knowns, e + 1);
    assert s == s[..e] + [t] + s[e + 1..];
    CombinationAppend(s[..e], [t], d, knowns);
    CombinationAppend(s[..e] + [t], s[e + 1..], d, knowns);
    CombinationAppend(s[..e], s[e + 1..], d, knowns);
    assert [t][1..] == [];
  }

  lemma MultisetRemove<T>(s: seq<T>, e: int)
    requires 0 <= e < |s|
    ensures multiset(s[..e] + s[e + 1..]) == multiset(s) - multiset{s[e]}
  {
    assert s == s[..e] + [s[e]] + s[e + 1..];
  }

  /** A position of `t` in a sequence whose multiset holds it. */
  lemma FindTerm<T>(s: seq<T>, t: T) returns (e: int)
    requires t in multiset(s)
    ensures 0 <= e < |s| && s[e] == t
  {
    assert t in s;
    e :| 0 <= e < |s| && s[e] == t;
  }

  /** Removing the first term of `s` and the same term of a permutation `s'` leaves permutations. */
  lemma RestPermuted<T>(s: seq<T>, s': seq<T>, e: int)
    requires s != [] && 0 <= e < |s'| && s'[e] == s[0] && multiset(s) == multiset(s')
    ensures multiset(s[1..]) == multiset(s'[..e] + s'[e + 1..])
  {
    MultisetRemove(s, 0);
    MultisetRemove(s', e);
    assert s[..0] + s[1..] == s[1..];
  }

  lemma ReadablePermuted<T>(s: Stencil, s': Stencil, d: Index, box: seq<seq<seq<T>>>)
    requires Readable(s, d, box) && multiset(s) == multiset(s')
    ensures Readable(s', d, box)
  {
    forall t | t in s' ensures t in s {
      assert t in multiset(s');
    }
  }

  /**
   * The combination does not depend on the order of the terms, so the
   * unspecified iteration order of the stencil dictionary does not
   * change the sum (over exact reals).
   */
  lemma {:induction false} CombinationOrderFree(s: Stencil, s': Stencil, d: Index, knowns: seq<seq<seq<KnownPoint>>>)
    requires Readable(s, d, knowns) && multiset(s) == multiset(s')
    ensures Readable(s', d, knowns)
    ensures Combination(s, d, knowns) == Combination(s', d, knowns)
    decreases |s|
  {
    ReadablePermuted(s, s', d, knowns);
    if s != [] {
      var t := s[0];
      var e := FindTerm(s', t);
      var rest := s'[..e] + s'[e + 1..];
      RestPermuted(s, s', e);
      ReadablePrefix(s, d, knowns, 1);
      CombinationOrderFree(s[1..], rest, d, knowns);
      CombinationRemove(s', e, d, knowns);
      assert Combination(s, d, knowns) == Contribution(t, d, knowns) + Combination(s[1..], d, knowns);
    }
  }
}
