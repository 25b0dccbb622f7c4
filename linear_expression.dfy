/** Sparse linear expressions over rational-valued variables: a map from
    variable to coefficient plus a constant term.  Rationals are modelled
    exactly as `real`. */
module LinearExpressions {

  /** Variables are the small integer ids a context hands out. */
  type Variable = int

  /** The expression  sum over v in coeffs of coeffs[v] * v, plus c. */
  datatype LinearExpression = LinearExpression(coeffs: map<Variable, real>, c: real)

  /** The invariant every constructor restores: no stored coefficient is zero. */
  predicate NoZeroCoeffs(coeffs: map<Variable, real>) {
    forall v :: v in coeffs ==> coeffs[v] != 0.0
  }

  /** The coefficient of v, zero when v has no entry. */
  function Cof(e: LinearExpression, v: Variable): (k: real) {
    if v in e.coeffs then e.coeffs[v] else 0.0
  }

  /** A nonempty set has an element (the witness the such-that loops need). */
  lemma NonEmptyHasElement(s: set<Variable>)
    requires s != {}
    ensures exists v :: v in s
  {
    if forall v :: v !in s {
      assert false;
    }
  }

  /** Reference definition of pruning: keep exactly the nonzero entries. */
  function Pruned(e: LinearExpression): (r: LinearExpression)
    ensures NoZeroCoeffs(r.coeffs)
  {
    LinearExpression(map v | v in e.coeffs && e.coeffs[v] != 0.0 :: e.coeffs[v], e.c)
  }

  /** Pruning does not change any coefficient as seen through Cof. */
  lemma PrunedKeepsCof(e: LinearExpression)
    ensures forall v :: Cof(Pruned(e), v) == Cof(e, v)
    ensures Pruned(e).coeffs.Keys <= e.coeffs.Keys
  {
  }

  /** Pruning twice is pruning once, and a pruned expression is left alone. */
  lemma PrunedIdempotent(e: LinearExpression)
    ensures Pruned(Pruned(e)) == Pruned(e)
    ensures NoZeroCoeffs(e.coeffs) ==> Pruned(e) == e
  {
    if NoZeroCoeffs(e.coeffs) {
      assert forall v :: v in Pruned(e).coeffs <==> v in e.coeffs;
      assert Pruned(e).coeffs.Keys == e.coeffs.Keys;
    }
  }

  /** remove_zero_coeffs: collect the zero-valued variables, then erase them. */
  method RemoveZeroCoeffs(e: LinearExpression) returns (r: LinearExpression)
    ensures r.c == e.c
    ensures NoZeroCoeffs(r.coeffs)
    ensures forall v :: v in r.coeffs <==> v in e.coeffs && e.coeffs[v] != 0.0
    ensures forall v :: v in r.coeffs ==> r.coeffs[v] == e.coeffs[v]
    ensures r == Pruned(e)
  {
    var zeroVars: seq<Variable> := [];
    var remaining := e.coeffs.Keys;
    while remaining != {}
      invariant remaining <= e.coeffs.Keys
      invariant forall v :: v in zeroVars <==> v in e.coeffs && v !in remaining && e.coeffs[v] == 0.0
      decreases remaining
    {
      NonEmptyHasElement(remaining);
      var v :| v in remaining;
      if e.coeffs[v] == 0.0 {
        zeroVars := zeroVars + [v];
      }
      remaining := remaining - {v};
    }
    var coeffs := e.coeffs;
    var i := 0;
    while i < |zeroVars|
      invariant 0 <= i <= |zeroVars|
      invariant forall v :: v in coeffs <==> v in e.coeffs && v !in zeroVars[..i]
      invariant forall v :: v in coeffs ==> coeffs[v] == e.coeffs[v]
    {
      assert zeroVars[..i + 1] == zeroVars[..i] + [zeroVars[i]];
      coeffs := coeffs - {zeroVars[i]};
      i := i + 1;
    }
    assert zeroVars[..i] == zeroVars;
    r := LinearExpression(coeffs, e.c);
  }

  /** The map built by inserting the pairs in order with std::map::insert,
      which leaves an existing entry alone: the first occurrence wins. */
  function Inserted(pairs: seq<(Variable, int)>): (m: map<Variable, real>)
  {
    if |pairs| == 0 then map[]
    else
      var m := Inserted(pairs[..|pairs| - 1]);
      var (v, k) := pairs[|pairs| - 1];
      if v in m then m else m[v := k as real]
  }

  /** Pair j is the first pair that mentions its variable. */
  predicate IsFirstOccurrence(pairs: seq<(Variable, int)>, j: int)
    requires 0 <= j < |pairs|
  {
    forall i :: 0 <= i < j ==> pairs[i].0 != pairs[j].0
  }

  /** Exactly the variables of the pairs get an entry. */
  lemma {:induction false} InsertedKeys(pairs: seq<(Variable, int)>)
    ensures forall v :: v in Inserted(pairs) <==> exists j :: 0 <= j < |pairs| && pairs[j].0 == v
  {
    if |pairs| > 0 {
      var front := pairs[..|pairs| - 1];
      InsertedKeys(front);
      forall v ensures v in Inserted(pairs) <==> exists j :: 0 <= j < |pairs| && pairs[j].0 == v {
        if v in Inserted(pairs) && v != pairs[|pairs| - 1].0 {
          assert v in Inserted(front);
          var j :| 0 <= j < |front| && front[j].0 == v;
          assert pairs[j].0 == v;
        }
        if j :| 0 <= j < |pairs| && pairs[j].0 == v {
          if j < |pairs| - 1 {
            assert front[j].0 == v;
          }
        }
      }
    }
  }

  /** A variable mentioned more than once keeps the value of its first pair. */
  lemma {:induction false} FirstOccurrenceWins(pairs: seq<(Variable, int)>, j: int)
    requires 0 <= j < |pairs| && IsFirstOccurrence(pairs, j)
    ensures pairs[j].0 in Inserted(pairs)
    ensures Inserted(pairs)[pairs[j].0] == pairs[j].1 as real
  {
    var front := pairs[..|pairs| - 1];
    if j < |pairs| - 1 {
      assert IsFirstOccurrence(front, j) by {
        forall i | 0 <= i < j ensures front[i].0 != front[j].0 {
          assert front[i] == pairs[i] && front[j] == pairs[j];
        }
      }
      FirstOccurrenceWins(front, j);
      assert front[j] == pairs[j];
    } else {
      InsertedKeys(front);
    }
  }

  /** The constructor from (variable, integer) pairs and an integer constant. */
  method FromPairs(pairs: seq<(Variable, int)>, c: int) returns (e: LinearExpression)
    ensures e.c == c as real
    ensures NoZeroCoeffs(e.coeffs)
    ensures forall v :: v in e.coeffs ==> exists j :: 0 <= j < |pairs| && pairs[j].0 == v
    ensures forall j :: 0 <= j < |pairs| && IsFirstOccurrence(pairs, j) ==>
      Cof(e, pairs[j].0) == pairs[j].1 as real
    ensures e == Pruned(LinearExpression(Inserted(pairs), c as real))
  {
    var coeffs: map<Variable, real> := map[];
    for i := 0 to |pairs|
      invariant coeffs == Inserted(pairs[..i])
    {
      assert pairs[..i + 1][..i] == pairs[..i];
      var (v, k) := pairs[i];
      if v !in coeffs {
        coeffs := coeffs[v := k as real];
      }
    }
    assert pairs[..|pairs|] == pairs;
    e := RemoveZeroCoeffs(LinearExpression(coeffs, c as real));
    InsertedKeys(pairs);
    forall j | 0 <= j < |pairs| && IsFirstOccurrence(pairs, j)
      ensures Cof(e, pairs[j].0) == pairs[j].1 as real
    {
      FirstOccurrenceWins(pairs, j);
    }
  }

  /** The constructor from a coefficient map and a constant. */
  method FromMap(coeffs: map<Variable, real>, c: real) returns (e: LinearExpression)
    ensures e.c == c
    ensures NoZeroCoeffs(e.coeffs)
    ensures forall v :: v in e.coeffs <==> v in coeffs && coeffs[v] != 0.0
    ensures forall v :: v in e.coeffs ==> e.coeffs[v] == coeffs[v]
    ensures e == Pruned(LinearExpression(coeffs, c))
  {
    e := RemoveZeroCoeffs(LinearExpression(coeffs, c));
  }

  /** What equals compares: the constants, and every coefficient of a
      against the same variable's coefficient in b.  Entries of b that a
      lacks are not looked at. */
  predicate SubsumedBy(a: LinearExpression, b: LinearExpression) {
    a.c == b.c && forall v :: v in a.coeffs ==> v in b.coeffs && b.coeffs[v] == a.coeffs[v]
  }

  /** equals (and operator==, which only calls it), as written. */
  method Equals(a: LinearExpression, b: LinearExpression) returns (eq: bool)
    ensures a.c != b.c ==> !eq
    ensures eq <==> SubsumedBy(a, b)
  {
    if a.c != b.c {
      return false;
    }
    var remaining := a.coeffs.Keys;
    while remaining != {}
      invariant remaining <= a.coeffs.Keys
      invariant forall v :: v in a.coeffs && v !in remaining ==> v in b.coeffs && b.coeffs[v] == a.coeffs[v]
      decreases remaining
    {
      NonEmptyHasElement(remaining);
      var v :| v in remaining;
      if v !in b.coeffs {
        return false;
      } else if a.coeffs[v] != b.coeffs[v] {
        return false;
      }
      remaining := remaining - {v};
    }
    return true;
  }

  /** equals is one-sided: the zero expression "equals" x although x is not zero. */
  lemma EqualsIsOneSided()
    ensures var zero := LinearExpression(map[], 0.0);
            var x := LinearExpression(map[0 := 1.0], 0.0);
            NoZeroCoeffs(x.coeffs) && SubsumedBy(zero, x) && !SubsumedBy(x, zero) && zero != x
  {
    var x := LinearExpression(map[0 := 1.0], 0.0);
    assert 0 in x.coeffs;
  }

  /** Subsumption both ways is equality of the expressions. */
  lemma {:induction false} SubsumedBothWays(a: LinearExpression, b: LinearExpression)
    ensures SubsumedBy(a, b) && SubsumedBy(b, a) <==> a == b
  {
    if SubsumedBy(a, b) && SubsumedBy(b, a) {
      assert forall v :: v in a.coeffs <==> v in b.coeffs;
      assert a.coeffs.Keys == b.coeffs.Keys;
      assert forall v :: v in a.coeffs ==> a.coeffs[v] == b.coeffs[v];
    }
  }

  /** The corrected comparison: both directions, hence exact equality. */
  method SameExpression(a: LinearExpression, b: LinearExpression) returns (eq: bool)
    ensures eq <==> a == b
  {
    var ab := Equals(a, b);
    var ba := Equals(b, a);
    SubsumedBothWays(a, b);
    eq := ab && ba;
  }

  /** drop: remove the entry of v. */
  function Drop(e: LinearExpression, v: Variable): (r: LinearExpression)
    ensures NoZeroCoeffs(r.coeffs)
    ensures v !in r.coeffs && r.coeffs.Keys <= e.coeffs.Keys
    ensures r.c == e.c
    ensures forall u :: u != v ==> Cof(r, u) == Cof(e, u)
  {
    Pruned(LinearExpression(map u | u in e.coeffs && u != v :: e.coeffs[u], e.c))
  }

  /** scalar_mul: multiply every coefficient and the constant by k. */
  function ScalarMul(e: LinearExpression, k: real): (r: LinearExpression)
    ensures NoZeroCoeffs(r.coeffs)
    ensures r.coeffs.Keys <= e.coeffs.Keys
    ensures r.c == k * e.c
    ensures forall u :: Cof(r, u) == k * Cof(e, u)
    ensures k == 0.0 ==> r.coeffs == map[]
  {
    Pruned(LinearExpression(map u | u in e.coeffs :: k * e.coeffs[u], k * e.c))
  }

  /** subtract: pointwise difference, absent entries read as zero. */
  function Subtract(a: LinearExpression, b: LinearExpression): (r: LinearExpression)
    ensures NoZeroCoeffs(r.coeffs)
    ensures r.coeffs.Keys <= a.coeffs.Keys + b.coeffs.Keys
    ensures r.c == a.c - b.c
    ensures forall u :: Cof(r, u) == Cof(a, u) - Cof(b, u)
  {
    Pruned(LinearExpression(map u | u in a.coeffs.Keys + b.coeffs.Keys :: Cof(a, u) - Cof(b, u), a.c - b.c))
  }

  /** r is ka * a - kb * b, constant and coefficients alike, and mentions
      only variables of a and b. */
  ghost predicate IsCombination(r: LinearExpression, a: LinearExpression, b: LinearExpression, ka: real, kb: real) {
    && r.c == ka * a.c - kb * b.c
    && r.coeffs.Keys <= a.coeffs.Keys + b.coeffs.Keys
    && forall u :: Cof(r, u) == ka * Cof(a, u) - kb * Cof(b, u)
  }

  /** The pairwise eliminant cof(v,b)*drop(v,a) - cof(v,a)*drop(v,b). */
  function Eliminant(a: LinearExpression, b: LinearExpression, v: Variable): (r: LinearExpression)
    ensures NoZeroCoeffs(r.coeffs)
    ensures v !in r.coeffs && Cof(r, v) == 0.0
    ensures r.coeffs.Keys <= a.coeffs.Keys + b.coeffs.Keys
    ensures r.c == Cof(b, v) * a.c - Cof(a, v) * b.c
    ensures forall u :: Cof(r, u) == Cof(b, v) * Cof(a, u) - Cof(a, v) * Cof(b, u)
    ensures IsCombination(r, a, b, Cof(b, v), Cof(a, v))
  {
    EliminantConst(a, b, v);
    EliminantCoeffs(a, b, v);
    Subtract(ScalarMul(Drop(a, v), Cof(b, v)), ScalarMul(Drop(b, v), Cof(a, v)))
  }

  /** The constant of the eliminant, worked out through the helpers. */
  lemma EliminantConst(a: LinearExpression, b: LinearExpression, v: Variable)
    ensures Subtract(ScalarMul(Drop(a, v), Cof(b, v)), ScalarMul(Drop(b, v), Cof(a, v))).c
         == Cof(b, v) * a.c - Cof(a, v) * b.c
  {
    var sa, sb := ScalarMul(Drop(a, v), Cof(b, v)), ScalarMul(Drop(b, v), Cof(a, v));
    assert sa.c == Cof(b, v) * a.c && sb.c == Cof(a, v) * b.c;
  }

  /** Every coefficient of the eliminant, worked out through the helpers. */
  lemma EliminantCoeffs(a: LinearExpression, b: LinearExpression, v: Variable)
    ensures forall u ::
      Cof(Subtract(ScalarMul(Drop(a, v), Cof(b, v)), ScalarMul(Drop(b, v), Cof(a, v))), u)
      == Cof(b, v) * Cof(a, u) - Cof(a, v) * Cof(b, u)
  {
    forall u
      ensures Cof(Subtract(ScalarMul(Drop(a, v), Cof(b, v)), ScalarMul(Drop(b, v), Cof(a, v))), u)
           == Cof(b, v) * Cof(a, u) - Cof(a, v) * Cof(b, u)
    {
      EliminantCofAt(a, b, v, u);
    }
  }

  /** One coefficient of the eliminant, worked out through the helpers. */
  lemma EliminantCofAt(a: LinearExpression, b: LinearExpression, v: Variable, u: Variable)
    ensures Cof(Subtract(ScalarMul(Drop(a, v), Cof(b, v)), ScalarMul(Drop(b, v), Cof(a, v))), u)
         == Cof(b, v) * Cof(a, u) - Cof(a, v) * Cof(b, u)
  {
    if u == v {
      EliminantCofAtVariable(a, b, v, u);
    } else {
      EliminantCofElsewhere(a, b, v, u);
    }
  }

  /** Away from v, the coefficient is the difference of the two scaled ones. */
  lemma EliminantCofElsewhere(a: LinearExpression, b: LinearExpression, v: Variable, u: Variable)
    requires u != v
    ensures Cof(Subtract(ScalarMul(Drop(a, v), Cof(b, v)), ScalarMul(Drop(b, v), Cof(a, v))), u)
         == Cof(b, v) * Cof(a, u) - Cof(a, v) * Cof(b, u)
  {
    ScaledDifferenceElsewhere(a, b, v, Cof(a, v), Cof(b, v), u);
  }

  /** The coefficient at v itself, whatever name u it is read under. */
  lemma EliminantCofAtVariable(a: LinearExpression, b: LinearExpression, v: Variable, u: Variable)
    requires u == v
    ensures Cof(Subtract(ScalarMul(Drop(a, v), Cof(b, v)), ScalarMul(Drop(b, v), Cof(a, v))), u)
         == Cof(b, v) * Cof(a, u) - Cof(a, v) * Cof(b, u)
  {
    EliminantCofVanishes(a, b, v);
  }

  /** At v both dropped terms vanish and the cross terms cancel. */
  lemma EliminantCofVanishes(a: LinearExpression, b: LinearExpression, v: Variable)
    ensures Cof(Subtract(ScalarMul(Drop(a, v), Cof(b, v)), ScalarMul(Drop(b, v), Cof(a, v))), v)
         == Cof(b, v) * Cof(a, v) - Cof(a, v) * Cof(b, v)
  {
    var ca, cb := Cof(a, v), Cof(b, v);
    var sa, sb := ScalarMul(Drop(a, v), cb), ScalarMul(Drop(b, v), ca);
    SubtractAt(sa, sb, v);
    ScaledDropAtVariable(a, cb, v);
    ScaledDropAtVariable(b, ca, v);
    CrossTermsCancel(Cof(Subtract(sa, sb), v), Cof(sa, v), Cof(sb, v), ca, cb);
  }

  /** For any scalars, away from v the coefficient of
      kb * drop(v, a) - ka * drop(v, b) is kb * cof(u, a) - ka * cof(u, b). */
  lemma ScaledDifferenceElsewhere(a: LinearExpression, b: LinearExpression, v: Variable, ka: real, kb: real, u: Variable)
    requires u != v
    ensures Cof(Subtract(ScalarMul(Drop(a, v), kb), ScalarMul(Drop(b, v), ka)), u) == kb * Cof(a, u) - ka * Cof(b, u)
  {
    ScaledDropElsewhere(a, kb, v, u);
    ScaledDropElsewhere(b, ka, v, u);
  }

  /** One coefficient of a difference. */
  lemma SubtractAt(a: LinearExpression, b: LinearExpression, u: Variable)
    ensures Cof(Subtract(a, b), u) == Cof(a, u) - Cof(b, u)
  {
  }

  /** A scaled expression with v dropped has no coefficient at v. */
  lemma ScaledDropAtVariable(e: LinearExpression, k: real, v: Variable)
    ensures Cof(ScalarMul(Drop(e, v), k), v) == 0.0
  {
  }

  /** Away from v, dropping v and scaling by k scales the coefficient by k. */
  lemma ScaledDropElsewhere(e: LinearExpression, k: real, v: Variable, u: Variable)
    requires u != v
    ensures Cof(ScalarMul(Drop(e, v), k), u) == k * Cof(e, u)
  {
  }

  /** Arithmetic: at v both dropped terms are zero, and the two cross terms
      cb * ca and ca * cb are the same product, so they cancel. */
  lemma CrossTermsCancel(l: real, p: real, q: real, ca: real, cb: real)
    requires l == p - q && p == 0.0 && q == 0.0
    ensures l == cb * ca - ca * cb
  {
  }
}
