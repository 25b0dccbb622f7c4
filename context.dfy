// The LinCAD context: a registry of variables and linear expressions, and
// the pairwise elimination of one variable from a list of expressions.

module Contexts {
  import opened LinearExpressions
  import opened Evaluation
  import opened Projections

  /** The expressions the handles hs point to in the arena. */
  function Deref(arena: seq<LinearExpression>, hs: seq<nat>): (es: seq<LinearExpression>)
    requires forall k :: 0 <= k < |hs| ==> hs[k] < |arena|
    ensures |es| == |hs|
    ensures forall k :: 0 <= k < |hs| ==> es[k] == arena[hs[k]]
  {
    if hs == [] then [] else Deref(arena, hs[..|hs| - 1]) + [arena[hs[|hs| - 1]]]
  }

  /** The context: the variables handed out so far with their names, and
      the arena of every expression registered with it. A handle to an
      expression is its index in exprs; registering always appends, as
      each registration allocates a new object. */
  class Context {
    var exprs: seq<LinearExpression>
    var varNames: map<Variable, string>
    var nextVar: Variable

    /** Ids 0 .. nextVar-1 have been handed out, each under its own name,
        and no registered expression stores a zero coefficient. */
    ghost predicate Valid()
      reads this
    {
      && nextVar >= 0
      && (forall x :: x in varNames <==> 0 <= x < nextVar)
      && (forall x, y :: x in varNames && y in varNames && x != y ==> varNames[x] != varNames[y])
      && AllPruned(exprs)
    }

    /** A name not yet given to any variable. */
    predicate Unused(name: string)
      reads this
    {
      forall x :: x in varNames ==> varNames[x] != name
    }

    constructor ()
      ensures Valid()
      ensures exprs == [] && varNames == map[] && nextVar == 0
    {
      exprs := [];
      varNames := map[];
      nextVar := 0;
    }

    /** add_variable: hand out the next id under a fresh name. */
    method AddVariable(name: string) returns (x: Variable)
      requires Valid() && Unused(name)
      modifies this
      ensures Valid()
      ensures x == old(nextVar) && nextVar == x + 1
      ensures varNames == old(varNames)[x := name]
      ensures x !in old(varNames)
      ensures exprs == old(exprs)
    {
      x := nextVar;
      varNames := varNames[x := name];
      nextVar := nextVar + 1;
    }

    /** add_linear_expression: build an expression from integer pairs and a
        constant, register it and return its handle. */
    method AddLinearExpression(pairs: seq<(Variable, int)>, c: int) returns (h: nat)
      requires Valid()
      modifies this
      ensures Valid()
      ensures h == |old(exprs)|
      ensures exprs == old(exprs) + [Pruned(LinearExpression(Inserted(pairs), c as real))]
      ensures varNames == old(varNames) && nextVar == old(nextVar)
    {
      var e := FromPairs(pairs, c);
      AllPrunedAppend(exprs, e);
      h := |exprs|;
      exprs := exprs + [e];
    }

    /** The overload of add_linear_expression taking a built expression:
        register a copy of it and return its handle. */
    method AddExpression(e: LinearExpression) returns (h: nat)
      requires Valid() && NoZeroCoeffs(e.coeffs)
      modifies this
      ensures Valid()
      ensures h == |old(exprs)|
      ensures exprs == old(exprs) + [e]
      ensures varNames == old(varNames) && nextVar == old(nextVar)
    {
      AllPrunedAppend(exprs, e);
      h := |exprs|;
      exprs := exprs + [e];
    }

    /** The inner loop of project_away: register the eliminants of es[i]
        with es[i+1], ..., es[n-1], and return their handles. */
    method ProjectRow(es: seq<LinearExpression>, i: nat, v: Variable) returns (row: seq<nat>)
      requires Valid()
      requires i < |es|
      modifies this
      ensures Valid()
      ensures exprs == old(exprs) + Eliminants(es, v, RowPairs(i, |es|))
      ensures |row| == |es| - i - 1
      ensures row == Handles(|old(exprs)|, |exprs|)
      ensures varNames == old(varNames) && nextVar == old(nextVar)
    {
      ghost var base := exprs;
      var la := es[i];
      row := [];
      var j := i + 1;
      while j < |es|
        invariant i + 1 <= j <= |es|
        invariant |row| == j - i - 1
        invariant exprs == base + Eliminants(es, v, RowPairs(i, j))
        invariant row == Handles(|base|, |exprs|)
        invariant varNames == old(varNames) && nextVar == old(nextVar)
        invariant Valid()
      {
        var lb := es[j];
        ghost var before := exprs;
        var e := Eliminant(la, lb, v);
        var h := AddExpression(e);
        ProjectRowStep(base, before, exprs, es, v, i, j, e, row, h);
        row := row + [h];
        j := j + 1;
      }
    }

    /** project_away: for every pair i < j of the given handles, register
        cof(v, b) * drop(v, a) - cof(v, a) * drop(v, b) and return the new
        handles in the loops' order. */
    method ProjectAway(hs: seq<nat>, v: Variable) returns (proj: seq<nat>)
      requires Valid()
      requires forall k :: 0 <= k < |hs| ==> hs[k] < |exprs|
      modifies this
      ensures Valid()
      ensures exprs == old(exprs) + Projection(Deref(old(exprs), hs), v)
      ensures |proj| == |Projection(Deref(old(exprs), hs), v)|
      ensures proj == Handles(|old(exprs)|, |exprs|)
      ensures varNames == old(varNames) && nextVar == old(nextVar)
    {
      ghost var base := exprs;
      var es := Deref(exprs, hs);
      proj := [];
      var i := 0;
      while i < |es|
        invariant 0 <= i <= |es|
        invariant exprs == base + Eliminants(es, v, PairsBefore(|es|, i))
        invariant proj == Handles(|base|, |exprs|)
        invariant varNames == old(varNames) && nextVar == old(nextVar)
        invariant Valid()
      {
        ghost var before := exprs;
        var row := ProjectRow(es, i, v);
        ProjectAwayStep(base, before, exprs, es, v, i, proj, row);
        proj := proj + row;
        i := i + 1;
      }
    }
  }

  /** One inner iteration of project_away: registering the eliminant of the
      pair (i, j) extends row i by one expression and one handle. */
  lemma ProjectRowStep(base: seq<LinearExpression>, before: seq<LinearExpression>, after: seq<LinearExpression>,
                       es: seq<LinearExpression>, v: Variable, i: nat, j: nat,
                       e: LinearExpression, row: seq<nat>, h: nat)
    requires i < j < |es|
    requires before == base + Eliminants(es, v, RowPairs(i, j))
    requires e == Eliminant(es[i], es[j], v) && after == before + [e]
    requires |base| <= |before| && row == Handles(|base|, |before|) && h == |before|
    ensures after == base + Eliminants(es, v, RowPairs(i, j + 1))
    ensures row + [h] == Handles(|base|, |after|)
  {
    ImagesNext(EliminantOf(v), es, base, before, after, i, j, e);
    HandlesNext(|base|, |before|, |after|);
  }

  /** The handles up to end, then end itself, are the handles up to end + 1. */
  lemma HandlesNext(start: nat, end: nat, next: nat)
    requires start <= end && next == end + 1
    ensures Handles(start, end) + [end] == Handles(start, next)
  {
  }

  /** One outer iteration of project_away: appending the eliminants of row i
      to those of the rows before it gives those of the rows up to and
      including i, and the new handles continue the old ones. */
  lemma ProjectAwayStep(base: seq<LinearExpression>, before: seq<LinearExpression>, after: seq<LinearExpression>,
                        es: seq<LinearExpression>, v: Variable, i: nat, proj: seq<nat>, row: seq<nat>)
    requires i < |es|
    requires before == base + Eliminants(es, v, PairsBefore(|es|, i))
    requires after == before + Eliminants(es, v, RowPairs(i, |es|))
    requires |base| <= |before| <= |after|
    requires proj == Handles(|base|, |before|) && row == Handles(|before|, |after|)
    ensures after == base + Eliminants(es, v, PairsBefore(|es|, i + 1))
    ensures proj + row == Handles(|base|, |after|)
  {
    RowsNext(EliminantOf(v), es, base, before, after, i);
    HandlesAppend(|base|, |before|, |after|);
  }

  /** An arena holding the images of row i up to j, extended by the image of
      (i, j), holds the images of row i up to j + 1. */
  lemma ImagesNext<T>(f: (T, T) -> T, es: seq<T>, base: seq<T>, before: seq<T>, after: seq<T>, i: nat, j: nat, e: T)
    requires i < j < |es|
    requires before == base + PairImages(f, es, RowPairs(i, j))
    requires e == f(es[i], es[j]) && after == before + [e]
    ensures after == base + PairImages(f, es, RowPairs(i, j + 1))
  {
    PairImagesNext(f, es, i, j);
    Associate(base, PairImages(f, es, RowPairs(i, j)), [e]);
  }

  /** An arena holding the images of the rows before i, extended by the
      images of row i, holds the images of the rows before i + 1. */
  lemma RowsNext<T>(f: (T, T) -> T, es: seq<T>, base: seq<T>, before: seq<T>, after: seq<T>, i: nat)
    requires i < |es|
    requires before == base + PairImages(f, es, PairsBefore(|es|, i))
    requires after == before + PairImages(f, es, RowPairs(i, |es|))
    ensures after == base + PairImages(f, es, PairsBefore(|es|, i + 1))
  {
    RowPairsInRange(i, |es|);
    AppendImages(f, es, base, before, after, PairsBefore(|es|, i), RowPairs(i, |es|), PairsBefore(|es|, i + 1));
  }

  /** Appending the images of qs to an arena holding those of ps gives one
      holding the images of ps + qs. */
  lemma AppendImages<T>(f: (T, T) -> T, es: seq<T>, base: seq<T>, before: seq<T>, after: seq<T>,
                        ps: seq<(nat, nat)>, qs: seq<(nat, nat)>, both: seq<(nat, nat)>)
    requires InRange(ps, |es|) && InRange(qs, |es|) && both == ps + qs
    requires before == base + PairImages(f, es, ps)
    requires after == before + PairImages(f, es, qs)
    ensures InRange(both, |es|)
    ensures after == base + PairImages(f, es, both)
  {
    PairImagesAppend(f, es, ps, qs);
    Associate(base, PairImages(f, es, ps), PairImages(f, es, qs));
  }

  /** No expression of s stores a zero coefficient. */
  predicate AllPruned(s: seq<LinearExpression>)
  {
    forall k :: 0 <= k < |s| ==> NoZeroCoeffs(s[k].coeffs)
  }

  /** Registering an expression without zero coefficients keeps the arena pruned. */
  lemma AllPrunedAppend(s: seq<LinearExpression>, e: LinearExpression)
    requires AllPruned(s) && NoZeroCoeffs(e.coeffs)
    ensures AllPruned(s + [e])
  {
    assert forall k :: 0 <= k < |s| ==> (s + [e])[k] == s[k];
  }

  /** The handles start, start+1, ..., end-1 in order: what a run of
      registrations returns while the arena grows from start to end. */
  function Handles(start: nat, end: nat): (hs: seq<nat>)
    requires start <= end
    ensures |hs| == end - start
    decreases end - start
  {
    if start == end then [] else Handles(start, end - 1) + [end - 1]
  }

  /** Two runs of handles, the second starting where the first ends, make one. */
  lemma {:induction false} HandlesAppend(a: nat, b: nat, c: nat)
    requires a <= b <= c
    ensures Handles(a, b) + Handles(b, c) == Handles(a, c)
    decreases c - b
  {
    if b < c {
      HandlesAppend(a, b, c - 1);
      Associate(Handles(a, b), Handles(b, c - 1), [c - 1]);
    }
  }

  /** Handle k of a run is start + k. */
  lemma {:induction false} HandlesAt(start: nat, end: nat)
    requires start <= end
    ensures forall k :: 0 <= k < end - start ==> Handles(start, end)[k] == start + k
    decreases end - start
  {
    if start < end {
      HandlesAt(start, end - 1);
      assert forall k :: 0 <= k < end - start - 1 ==> Handles(start, end)[k] == Handles(start, end - 1)[k];
    }
  }

  /** The handles of a run point, in order, to the expressions registered
      during it. */
  lemma DerefHandles(arena: seq<LinearExpression>, start: nat, end: nat)
    requires start <= end <= |arena|
    ensures forall k :: 0 <= k < end - start ==> Handles(start, end)[k] < |arena|
    ensures Deref(arena, Handles(start, end)) == arena[start..end]
  {
    HandlesAt(start, end);
    var d := Deref(arena, Handles(start, end));
    forall k | 0 <= k < end - start
      ensures d[k] == arena[start..end][k]
    {
      assert d[k] == arena[Handles(start, end)[k]];
    }
  }
}

/** The test client: evaluating x - 5 at x = 5 gives the constant 0. */
module ContextTests {
  import opened LinearExpressions
  import opened Evaluation
  import opened Contexts

  method SampleLinearFunctionAtPoint() returns (passed: bool)
    ensures passed
  {
    var c := new Context();
    var x := c.AddVariable("x");
    var h := c.AddLinearExpression([(x, 1)], -5);
    var expected := LinearExpression(map[], 0.0);
    var e := c.exprs[h];
    assert Inserted([(x, 1)]) == map[x := 1.0] by {
      assert [(x, 1)][..0] == [];
    }
    assert e.coeffs == map[x := 1.0];
    assert e.coeffs.Keys == {x};
    var r := EvaluateAt(e, map[x := 5.0]);
    assert r.coeffs == map[];
    var terms := Terms(e, map[x := 5.0], {x});
    assert terms[x] == 5.0;
    SumRemove(terms, {x}, x);
    assert {x} - {x} == {};
    assert r.c == 0.0;
    passed := Equals(r, expected);
  }
}
