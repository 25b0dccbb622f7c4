/** Substitution of a partial assignment into a linear expression, and the
    algebraic value of an expression at a point. */
module Evaluation {
  import opened LinearExpressions

  /** Some element of a nonempty set; sums below peel the set one element at a time. */
  ghost function Pick(s: set<Variable>): (v: Variable)
    requires s != {}
    ensures v in s
  {
    NonEmptyHasElement(s);
    var v :| v in s; v
  }

  /** The contribution of v: its assigned value times its coefficient,
      nothing when v is unassigned. */
  function TermAt(e: LinearExpression, pt: map<Variable, real>, v: Variable): (term: real) {
    if v in pt then pt[v] * Cof(e, v) else 0.0
  }

  /** The contributions of the variables of s. */
  function Terms(e: LinearExpression, pt: map<Variable, real>, s: set<Variable>): (m: map<Variable, real>)
    ensures m.Keys == s
  {
    map v | v in s :: TermAt(e, pt, v)
  }

  /** The sum of the entries of m at the variables of s. It is a
      non-recursive entry point to PeeledSum, so that a proof mentioning a
      sum unfolds the recursion only one step at a time. */
  ghost function Sum(m: map<Variable, real>, s: set<Variable>): (total: real)
    requires s <= m.Keys
  {
    PeeledSum(m, s)
  }

  /** The recursion behind Sum: one picked element at a time. */
  ghost function PeeledSum(m: map<Variable, real>, s: set<Variable>): (total: real)
    requires s <= m.Keys
    decreases s
  {
    if s == {} then 0.0
    else
      var v := Pick(s);
      m[v] + PeeledSum(m, s - {v})
  }

  /** The value of e with the variables of pt set to their values and
      every other variable set to zero; for a point that assigns every
      variable of e this is the algebraic value of e there. */
  ghost function ValueAt(e: LinearExpression, pt: map<Variable, real>): (value: real) {
    e.c + Sum(Terms(e, pt, e.coeffs.Keys), e.coeffs.Keys)
  }

  /** The sum does not depend on the order the variables are taken in:
      any element can be peeled first. */
  lemma {:induction false} SumRemove(m: map<Variable, real>, s: set<Variable>, x: Variable)
    requires s <= m.Keys && x in s
    ensures Sum(m, s) == m[x] + Sum(m, s - {x})
    decreases s
  {
    var y := Pick(s);
    if y != x {
      SumRemove(m, s - {y}, x);
      SumRemove(m, s - {x}, y);
      assert s - {y} - {x} == s - {x} - {y};
    }
  }

  /** A proper subset misses some element of the larger set. */
  lemma StrictSubsetHasExtra(s: set<Variable>, t: set<Variable>)
    requires t <= s && s != t
    ensures exists x :: x in s && x !in t
  {
    if forall x :: x in s ==> x in t {
      assert false;
    }
  }

  /** Zero entries can be added to or left out of a sum. */
  lemma {:induction false} SumIgnoresZeros(m: map<Variable, real>, s: set<Variable>, t: set<Variable>)
    requires t <= s <= m.Keys
    requires forall v :: v in s && v !in t ==> m[v] == 0.0
    ensures Sum(m, s) == Sum(m, t)
    decreases s
  {
    if s != t {
      StrictSubsetHasExtra(s, t);
      var x :| x in s && x !in t;
      SumRemove(m, s, x);
      SumIgnoresZeros(m, s - {x}, t);
    }
  }

  /** Maps that agree on s have the same sum over s. */
  lemma {:induction false} SumAgree(m: map<Variable, real>, n: map<Variable, real>, s: set<Variable>)
    requires s <= m.Keys && s <= n.Keys
    requires forall v :: v in s ==> m[v] == n[v]
    ensures Sum(m, s) == Sum(n, s)
    decreases s
  {
    if s != {} {
      SumAgree(m, n, s - {Pick(s)});
    }
  }

  /** Pointwise addition carries over to the sums. */
  lemma {:induction false} SumAdd(r: map<Variable, real>, f: map<Variable, real>, g: map<Variable, real>, s: set<Variable>)
    requires s <= r.Keys && s <= f.Keys && s <= g.Keys
    requires forall v :: v in s ==> r[v] == f[v] + g[v]
    ensures Sum(r, s) == Sum(f, s) + Sum(g, s)
    decreases s
  {
    if s != {} {
      SumAdd(r, f, g, s - {Pick(s)});
    }
  }

  /** Pointwise scaling by k carries over to the sums. */
  lemma {:induction false} SumScale(r: map<Variable, real>, f: map<Variable, real>, k: real, s: set<Variable>)
    requires s <= r.Keys && s <= f.Keys
    requires forall v :: v in s ==> r[v] == k * f[v]
    ensures Sum(r, s) == k * Sum(f, s)
    decreases s
  {
    if s != {} {
      var x := Pick(s);
      SumScale(r, f, k, s - {x});
      Distribute(k, Sum(f, s), f[x], Sum(f, s - {x}));
    }
  }

  /** Arithmetic: multiplication distributes over addition. */
  lemma Distribute(k: real, x: real, y: real, z: real)
    requires x == y + z
    ensures k * x == k * y + k * z
  {
  }

  /** The value of e is its constant plus the sum over any superset of its variables. */
  lemma ValueOver(e: LinearExpression, pt: map<Variable, real>, s: set<Variable>)
    requires e.coeffs.Keys <= s
    ensures ValueAt(e, pt) == e.c + Sum(Terms(e, pt, s), s)
  {
    SumIgnoresZeros(Terms(e, pt, s), s, e.coeffs.Keys);
    SumAgree(Terms(e, pt, s), Terms(e, pt, e.coeffs.Keys), e.coeffs.Keys);
  }

  /** Arithmetic: the contribution p * x of a scaled coefficient x == k * y. */
  lemma ScaledTerm(p: real, x: real, y: real, k: real)
    requires x == k * y
    ensures p * x == k * (p * y)
  {
  }

  /** An expression that is k times e, constant and coefficients alike,
      has k times e's value at every point. */
  lemma ScaledValue(r: LinearExpression, e: LinearExpression, k: real, pt: map<Variable, real>)
    requires r.c == k * e.c && r.coeffs.Keys <= e.coeffs.Keys
    requires forall u :: Cof(r, u) == k * Cof(e, u)
    ensures ValueAt(r, pt) == k * ValueAt(e, pt)
  {
    var s := e.coeffs.Keys;
    ValueOver(r, pt, s);
    forall u | u in s
      ensures Terms(r, pt, s)[u] == k * Terms(e, pt, s)[u]
    {
      if u in pt {
        ScaledTerm(pt[u], Cof(r, u), Cof(e, u), k);
      }
    }
    SumScale(Terms(r, pt, s), Terms(e, pt, s), k, s);
    Distribute(k, ValueAt(e, pt), e.c, Sum(Terms(e, pt, s), s));
  }

  /** An expression that is x - y, constant and coefficients alike, has
      the difference of their values at every point. */
  lemma DifferenceValue(r: LinearExpression, x: LinearExpression, y: LinearExpression,
                        pt: map<Variable, real>, s: set<Variable>)
    requires r.coeffs.Keys <= s && x.coeffs.Keys <= s && y.coeffs.Keys <= s
    requires r.c == x.c - y.c
    requires forall u :: Cof(r, u) == Cof(x, u) - Cof(y, u)
    ensures ValueAt(r, pt) == ValueAt(x, pt) - ValueAt(y, pt)
  {
    ValueOver(r, pt, s);
    ValueOver(x, pt, s);
    ValueOver(y, pt, s);
    forall u | u in s
      ensures Terms(x, pt, s)[u] == Terms(r, pt, s)[u] + Terms(y, pt, s)[u]
    {
      if u in pt {
        Distribute(pt[u], Cof(x, u), Cof(r, u), Cof(y, u));
      }
    }
    SumAdd(Terms(x, pt, s), Terms(r, pt, s), Terms(y, pt, s), s);
  }

  /** An expression that is ka * a - kb * b coefficient by coefficient and
      in its constant has that value at every point. */
  lemma CombinationValue(r: LinearExpression, a: LinearExpression, b: LinearExpression,
                         pt: map<Variable, real>, ka: real, kb: real)
    requires IsCombination(r, a, b, ka, kb)
    ensures ValueAt(r, pt) == ka * ValueAt(a, pt) - kb * ValueAt(b, pt)
  {
    var sa, sb := ScalarMul(a, ka), ScalarMul(b, kb);
    ScaledValue(sa, a, ka, pt);
    ScaledValue(sb, b, kb, pt);
    DifferenceValue(r, sa, sb, pt, a.coeffs.Keys + b.coeffs.Keys);
  }

  /** The eliminant evaluates to cof(v,b) * a - cof(v,a) * b at every point:
      dropping v from both sides changes nothing, because the v-terms cancel. */
  lemma EliminantValue(a: LinearExpression, b: LinearExpression, v: Variable, pt: map<Variable, real>)
    ensures ValueAt(Eliminant(a, b, v), pt) == Cof(b, v) * ValueAt(a, pt) - Cof(a, v) * ValueAt(b, pt)
  {
    CombinationValue(Eliminant(a, b, v), a, b, pt, Cof(b, v), Cof(a, v));
  }

  /** A common root of a and b is a root of their eliminant. */
  lemma CommonRootSurvivesElimination(a: LinearExpression, b: LinearExpression, v: Variable, pt: map<Variable, real>)
    requires ValueAt(a, pt) == 0.0 && ValueAt(b, pt) == 0.0
    ensures ValueAt(Eliminant(a, b, v), pt) == 0.0
  {
    EliminantValue(a, b, v, pt);
    ZeroCombination(ValueAt(Eliminant(a, b, v), pt), ValueAt(a, pt), ValueAt(b, pt), Cof(b, v), Cof(a, v));
  }

  /** Arithmetic: a combination of two zeros is zero. */
  lemma ZeroCombination(r: real, x: real, y: real, p: real, q: real)
    requires x == 0.0 && y == 0.0 && r == p * x - q * y
    ensures r == 0.0
  {
  }

  /** The root along a variable of an expression whose value with that
      variable at zero is value, and whose coefficient there is slope. */
  function Root(value: real, slope: real): real
    requires slope != 0.0
  {
    -value / slope
  }

  /** Arithmetic: q * x - p * y vanishes exactly when the roots -x / p and -y / q agree. */
  lemma RootsMeet(e: real, x: real, y: real, p: real, q: real)
    requires p != 0.0 && q != 0.0
    requires e == q * x - p * y
    ensures e == 0.0 <==> Root(x, p) == Root(y, q)
  {
    assert x == p * (x / p) && y == q * (y / q);
  }

  /** Where v is still free and both expressions depend on it, each has
      exactly one root along v, and the eliminant vanishes at a point
      exactly when those roots coincide there. */
  lemma EliminantVanishesIffRootsMeet(a: LinearExpression, b: LinearExpression, v: Variable, pt: map<Variable, real>)
    requires v !in pt && Cof(a, v) != 0.0 && Cof(b, v) != 0.0
    ensures ValueAt(Eliminant(a, b, v), pt) == 0.0 <==> Root(ValueAt(a, pt), Cof(a, v)) == Root(ValueAt(b, pt), Cof(b, v))
  {
    EliminantValue(a, b, v, pt);
    RootsMeet(ValueAt(Eliminant(a, b, v), pt), ValueAt(a, pt), ValueAt(b, pt), Cof(a, v), Cof(b, v));
  }

  /** evaluate_at, as a value: the assigned terms folded into the constant,
      the unassigned ones kept with their coefficients, zeros pruned. */
  ghost function Substituted(e: LinearExpression, vals: map<Variable, real>): (r: LinearExpression) {
    Pruned(LinearExpression(map v | v in e.coeffs && v !in vals :: e.coeffs[v],
                            e.c + Sum(Terms(e, vals, e.coeffs.Keys), e.coeffs.Keys)))
  }

  /** evaluate_at: substitute a partial assignment into e. */
  method EvaluateAt(e: LinearExpression, vals: map<Variable, real>) returns (r: LinearExpression)
    ensures NoZeroCoeffs(r.coeffs)
    ensures r.c == e.c + Sum(Terms(e, vals, e.coeffs.Keys), e.coeffs.Keys)
    ensures forall v :: v in r.coeffs <==> v in e.coeffs && v !in vals && e.coeffs[v] != 0.0
    ensures forall v :: v in r.coeffs ==> r.coeffs[v] == e.coeffs[v]
    ensures e.coeffs.Keys <= vals.Keys ==> r.coeffs == map[]
    ensures r == Substituted(e, vals)
  {
    ghost var terms := Terms(e, vals, e.coeffs.Keys);
    var unEvaluated: map<Variable, real> := map[];
    var freshConst := e.c;
    var remaining := e.coeffs.Keys;
    while remaining != {}
      invariant remaining <= e.coeffs.Keys
      invariant freshConst == e.c + Sum(terms, e.coeffs.Keys - remaining)
      invariant unEvaluated == map v | v in e.coeffs && v !in remaining && v !in vals :: e.coeffs[v]
      decreases remaining
    {
      NonEmptyHasElement(remaining);
      var v :| v in remaining;
      ghost var done := e.coeffs.Keys - remaining;
      SumRemove(terms, done + {v}, v);
      assert (done + {v}) - {v} == done;
      if v in vals {
        freshConst := freshConst + vals[v] * e.coeffs[v];
      } else {
        unEvaluated := unEvaluated[v := e.coeffs[v]];
      }
      remaining := remaining - {v};
      assert e.coeffs.Keys - remaining == done + {v};
    }
    assert e.coeffs.Keys - remaining == e.coeffs.Keys;
    r := FromMap(unEvaluated, freshConst);
    if e.coeffs.Keys <= vals.Keys {
      assert forall v :: v !in r.coeffs;
    }
  }

  /** Substituting part of a point does not change the value at that point. */
  lemma SubstitutionPreservesValue(e: LinearExpression, vals: map<Variable, real>, pt: map<Variable, real>)
    requires forall v :: v in vals ==> v in pt && pt[v] == vals[v]
    ensures ValueAt(Substituted(e, vals), pt) == ValueAt(e, pt)
  {
    var k := e.coeffs.Keys;
    var sub := Substituted(e, vals);
    ValueOver(sub, pt, k);
    forall v | v in k
      ensures Terms(e, pt, k)[v] == Terms(e, vals, k)[v] + Terms(sub, pt, k)[v]
    {
    }
    SumAdd(Terms(e, pt, k), Terms(e, vals, k), Terms(sub, pt, k), k);
  }
}
