// What project_away computes, as values: the index pairs its two loops
// visit, and the eliminant of the variable for each pair.

module Projections {
  import opened LinearExpressions
  import opened Evaluation

  /** The index pairs (i, i+1), ..., (i, j-1): what the inner loop of
      project_away visits before index j. */
  function RowPairs(i: nat, j: nat): (r: seq<(nat, nat)>)
    ensures |r| == if j <= i + 1 then 0 else j - i - 1
    ensures forall k :: 0 <= k < |r| ==> r[k] == (i, i + 1 + k)
  {
    if j <= i + 1 then [] else RowPairs(i, j - 1) + [(i, j - 1)]
  }

  /** How many pairs the rows 0 .. i-1 of n elements hold. */
  function RowStart(n: nat, i: nat): (count: nat)
    requires i <= n
  {
    if i == 0 then 0 else RowStart(n, i - 1) + (n - i)
  }

  /** The index pairs of the rows 0 .. i-1 of n elements, in the order the
      loops of project_away visit them. */
  function PairsBefore(n: nat, i: nat): (r: seq<(nat, nat)>)
    requires i <= n
    ensures |r| == RowStart(n, i)
    ensures forall k :: 0 <= k < |r| ==> r[k].0 < r[k].1 < n && r[k].0 < i
    ensures InRange(r, n)
  {
    if i == 0 then [] else PairsBefore(n, i - 1) + RowPairs(i - 1, n)
  }

  /** All index pairs i < j of n elements, in the order the loops visit them. */
  function Pairs(n: nat): (r: seq<(nat, nat)>)
    ensures forall k :: 0 <= k < |r| ==> r[k].0 < r[k].1 < n
  {
    PairsBefore(n, n)
  }

  /** Every pair indexes into n elements. */
  predicate InRange(ps: seq<(nat, nat)>, n: nat) {
    forall k :: 0 <= k < |ps| ==> ps[k].0 < n && ps[k].1 < n
  }

  /** f applied to the two elements each pair of ps picks out of es, in order. */
  function PairImages<T>(f: (T, T) -> T, es: seq<T>, ps: seq<(nat, nat)>): (r: seq<T>)
    requires InRange(ps, |es|)
    ensures |r| == |ps|
  {
    if ps == [] then []
    else
      var p := ps[|ps| - 1];
      PairImages(f, es, ps[..|ps| - 1]) + [f(es[p.0], es[p.1])]
  }

  /** Eliminating v, as a function of the two expressions it combines. */
  function EliminantOf(v: Variable): (LinearExpression, LinearExpression) -> LinearExpression
  {
    (a, b) => Eliminant(a, b, v)
  }

  /** The eliminant of v for each pair of ps, in order. */
  function Eliminants(es: seq<LinearExpression>, v: Variable, ps: seq<(nat, nat)>): (r: seq<LinearExpression>)
    requires InRange(ps, |es|)
  {
    PairImages(EliminantOf(v), es, ps)
  }

  /** What project_away returns, as values: the eliminant of each index
      pair i < j in the loops' order. */
  function Projection(es: seq<LinearExpression>, v: Variable): (r: seq<LinearExpression>) {
    Eliminants(es, v, Pairs(|es|))
  }

  /** x strictly precedes y in lexicographic order. */
  predicate LexLess(x: (nat, nat), y: (nat, nat)) {
    x.0 < y.0 || (x.0 == y.0 && x.1 < y.1)
  }

  /** Element k of PairImages is the image of pair k. */
  lemma {:induction false} PairImagesAt<T>(f: (T, T) -> T, es: seq<T>, ps: seq<(nat, nat)>, k: nat)
    requires InRange(ps, |es|) && k < |ps|
    ensures PairImages(f, es, ps)[k] == f(es[ps[k].0], es[ps[k].1])
    decreases ps
  {
    var front := ps[..|ps| - 1];
    if k < |front| {
      PairImagesAt(f, es, front, k);
      assert front[k] == ps[k];
    }
  }

  /** PairImages of a concatenation of pair lists are concatenated. */
  lemma {:induction false} PairImagesAppend<T>(f: (T, T) -> T, es: seq<T>, ps: seq<(nat, nat)>, qs: seq<(nat, nat)>)
    requires InRange(ps, |es|) && InRange(qs, |es|)
    ensures InRange(ps + qs, |es|)
    ensures PairImages(f, es, ps + qs) == PairImages(f, es, ps) + PairImages(f, es, qs)
    decreases qs
  {
    assert InRange(ps + qs, |es|) by {
      forall k | 0 <= k < |ps + qs| ensures (ps + qs)[k].0 < |es| && (ps + qs)[k].1 < |es| {
        if k >= |ps| {
          assert (ps + qs)[k] == qs[k - |ps|];
        }
      }
    }
    if qs == [] {
      assert ps + qs == ps;
    } else {
      var front, q := qs[..|qs| - 1], qs[|qs| - 1];
      assert (ps + qs)[..|ps + qs| - 1] == ps + front;
      PairImagesAppend(f, es, ps, front);
      Associate(PairImages(f, es, ps), PairImages(f, es, front), [f(es[q.0], es[q.1])]);
    }
  }

  /** One more step of the inner loop: row i up to j, then the pair (i, j). */
  lemma PairImagesNext<T>(f: (T, T) -> T, es: seq<T>, i: nat, j: nat)
    requires i < j < |es|
    ensures InRange(RowPairs(i, j + 1), |es|)
    ensures PairImages(f, es, RowPairs(i, j + 1)) == PairImages(f, es, RowPairs(i, j)) + [f(es[i], es[j])]
  {
    assert RowPairs(i, j + 1)[..j - i - 1] == RowPairs(i, j);
  }

  /** Every pair of a row of n elements indexes into them. */
  lemma RowPairsInRange(i: nat, n: nat)
    ensures InRange(RowPairs(i, n), n)
  {
  }

  /** Concatenation is associative. */
  lemma Associate<T>(a: seq<T>, b: seq<T>, c: seq<T>)
    ensures a + b + c == a + (b + c)
  {
  }

  /** Closed form: the first i rows of n elements hold i * (2n - i - 1) / 2 pairs. */
  lemma {:induction false} RowStartClosedForm(n: nat, i: nat)
    requires i <= n
    ensures 2 * RowStart(n, i) == i * (2 * n - i - 1)
  {
    if i > 0 {
      RowStartClosedForm(n, i - 1);
      assert (i - 1) * (2 * n - i) == i * (2 * n - i) - (2 * n - i);
      assert i * (2 * n - i - 1) == i * (2 * n - i) - i;
    }
  }

  /** The pair (i, j) sits at position RowStart(n, i) + (j - i - 1). */
  lemma {:induction false} PairsBeforeAt(n: nat, m: nat, i: nat, j: nat)
    requires i < m <= n && i < j < n
    ensures RowStart(n, i) + (j - i - 1) < |PairsBefore(n, m)|
    ensures PairsBefore(n, m)[RowStart(n, i) + (j - i - 1)] == (i, j)
    decreases m
  {
    var front, row := PairsBefore(n, m - 1), RowPairs(m - 1, n);
    var k := RowStart(n, i) + (j - i - 1);
    if i < m - 1 {
      PairsBeforeAt(n, m - 1, i, j);
      IndexLeft(front, row, k);
    } else {
      IndexRight(front, row, k, j - i - 1);
    }
  }

  /** Indexing a concatenation within its first part. */
  lemma IndexLeft<T>(a: seq<T>, b: seq<T>, k: nat)
    requires k < |a|
    ensures k < |a + b| && (a + b)[k] == a[k]
  {
  }

  /** Indexing a concatenation within its second part. */
  lemma IndexRight<T>(a: seq<T>, b: seq<T>, k: nat, l: nat)
    requires k == |a| + l && l < |b|
    ensures k < |a + b| && (a + b)[k] == b[l]
  {
  }

  /** The loops visit the pairs in strictly increasing lexicographic order,
      so no pair is visited twice. */
  lemma {:induction false} PairsBeforeSorted(n: nat, m: nat)
    requires m <= n
    ensures forall k, l :: 0 <= k < l < |PairsBefore(n, m)| ==>
              LexLess(PairsBefore(n, m)[k], PairsBefore(n, m)[l])
    decreases m
  {
    if m > 0 {
      PairsBeforeSorted(n, m - 1);
      var front, row := PairsBefore(n, m - 1), RowPairs(m - 1, n);
      assert PairsBefore(n, m) == front + row;
      forall k, l | 0 <= k < l < |front + row|
        ensures LexLess((front + row)[k], (front + row)[l])
      {
        if l < |front| {
          assert (front + row)[k] == front[k] && (front + row)[l] == front[l];
        } else if k < |front| {
          assert (front + row)[k] == front[k] && (front + row)[l] == row[l - |front|];
        } else {
          assert (front + row)[k] == row[k - |front|] && (front + row)[l] == row[l - |front|];
        }
      }
    }
  }

  /** project_away returns n(n-1)/2 expressions for n inputs, so none for
      fewer than two. */
  lemma ProjectionLength(es: seq<LinearExpression>, v: Variable)
    ensures 2 * |Projection(es, v)| == |es| * (|es| - 1)
    ensures |es| <= 1 ==> Projection(es, v) == []
  {
    RowStartClosedForm(|es|, |es|);
  }

  /** Each element of project_away's result is the eliminant of a pair
      i < j of the inputs. */
  lemma ProjectionElement(es: seq<LinearExpression>, v: Variable, k: nat)
    requires k < |Projection(es, v)|
    ensures Pairs(|es|)[k].0 < Pairs(|es|)[k].1 < |es|
    ensures Projection(es, v)[k] == Eliminant(es[Pairs(|es|)[k].0], es[Pairs(|es|)[k].1], v)
  {
    PairImagesAt(EliminantOf(v), es, Pairs(|es|), k);
  }

  /** Each pair i < j has its eliminant at its lexicographic position in
      project_away's result. */
  lemma ProjectionAt(es: seq<LinearExpression>, v: Variable, i: nat, j: nat)
    requires i < j < |es|
    ensures RowStart(|es|, i) + (j - i - 1) < |Projection(es, v)|
    ensures Pairs(|es|)[RowStart(|es|, i) + (j - i - 1)] == (i, j)
    ensures Projection(es, v)[RowStart(|es|, i) + (j - i - 1)] == Eliminant(es[i], es[j], v)
  {
    var k := RowStart(|es|, i) + (j - i - 1);
    PairsBeforeAt(|es|, |es|, i, j);
    var p := Pairs(|es|)[k];
    assert es[p.0] == es[i] && es[p.1] == es[j];
    ProjectionElement(es, v, k);
  }

  /** The pairs of project_away's result come in strictly increasing
      lexicographic order. */
  lemma PairsSorted(n: nat)
    ensures forall k, l :: 0 <= k < l < |Pairs(n)| ==> LexLess(Pairs(n)[k], Pairs(n)[l])
  {
    PairsBeforeSorted(n, n);
  }

  /** Every expression project_away returns is free of v and keeps no zero coefficient. */
  lemma ProjectionFreeOf(es: seq<LinearExpression>, v: Variable)
    ensures forall k :: 0 <= k < |Projection(es, v)| ==>
              v !in Projection(es, v)[k].coeffs && NoZeroCoeffs(Projection(es, v)[k].coeffs)
  {
    forall k | 0 <= k < |Projection(es, v)|
      ensures v !in Projection(es, v)[k].coeffs && NoZeroCoeffs(Projection(es, v)[k].coeffs)
    {
      ProjectionElement(es, v, k);
    }
  }

  /** Every common root of the inputs is a root of every projected expression. */
  lemma ProjectionKeepsCommonRoots(es: seq<LinearExpression>, v: Variable, pt: map<Variable, real>)
    requires forall k :: 0 <= k < |es| ==> ValueAt(es[k], pt) == 0.0
    ensures forall k :: 0 <= k < |Projection(es, v)| ==> ValueAt(Projection(es, v)[k], pt) == 0.0
  {
    forall k | 0 <= k < |Projection(es, v)|
      ensures ValueAt(Projection(es, v)[k], pt) == 0.0
    {
      ProjectionElement(es, v, k);
      var p := Pairs(|es|)[k];
      CommonRootSurvivesElimination(es[p.0], es[p.1], v, pt);
    }
  }
}
