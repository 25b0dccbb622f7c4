# LinCAD context: linear expressions and pairwise variable elimination

This project is a Dafny model of the core of LinCAD, a small C++ library for
cylindrical algebraic decomposition over linear constraints. It covers two parts.

- **`linear_expression`**: a sparse map from variable ids to rational
  coefficients plus a constant term. The model covers:
  - both constructors and `remove_zero_coeffs`, which keep the invariant that
    no stored coefficient is zero;
  - `evaluate_at`, which substitutes a partial assignment;
  - `equals` and `operator==`;
  - the helpers `cof`, `drop`, `scalar_mul` and `subtract`, which the
    projection step uses.
- **`context`**: the allocator that hands out variable ids and registers
  expressions. The model covers:
  - `add_variable`;
  - `add_linear_expression`;
  - `project_away`, which eliminates one variable `v` from a list of
    expressions. It does so by forming, for every pair of positions `i < j`,
    the combination `cof(v, b) * drop(v, a) - cof(v, a) * drop(v, b)`, and
    registering each result.

How the source maps onto the model:

- Rationals are Dafny `real` (exact). A variable is an `int`.
- `linear_expression` is the datatype `LinearExpression`. The C++ class has
  value semantics. Its constructors and the public `remove_zero_coeffs` are
  the only members that mutate it. Both constructors end by calling
  `remove_zero_coeffs`, and a later call changes nothing (`PrunedIdempotent`),
  so each is modelled as a method that returns a new value.
- `context` is the class `Contexts.Context`. Its expression set is the
  sequence field `exprs`, which is an arena; the handle of an expression is its
  index there. Every registration allocates a new object, so every
  registration appends, and a run of registrations returns the consecutive
  handles `Handles(start, end)`.
- The class invariant `Context.Valid()` says that ids `0 .. next_var−1` have
  been handed out, each under its own name, and that no registered expression
  stores a zero coefficient. The constructor establishes it; every other
  method of `Context` requires it and keeps it.
- The loops of the source are loops in the model:
  - `remove_zero_coeffs` and the two constructors;
  - `equals`;
  - `evaluate_at`;
  - both loops of `project_away`. The inner loop is the method `ProjectRow`.
- Each loop method is proved against a specification function:
  - `Pruned` for the constructors and `remove_zero_coeffs`;
  - `Substituted` for `evaluate_at`;
  - `Projection` for `project_away`.
- The properties are lemmas about those functions. The algebraic value used to
  state them is `ValueAt`, the value of an expression at a point.

Modules:

| file | module | contents |
|---|---|---|
| `linear_expression.dfy` | `LinearExpressions` | the datatype, pruning, both constructors, `equals`, the helpers and the eliminant |
| `evaluation.dfy` | `Evaluation` | sums over variable sets, `ValueAt`, `evaluate_at`, and value facts about the eliminant |
| `projection.dfy` | `Projections` | the index pairs `i < j` in loop order, `Projection`, and its length, order and element lemmas |
| `context.dfy` | `Contexts`, `ContextTests` | the context class and the repository's one test client |

## Model

| member | source | states |
|---|---|---|
| LinearExpressions.RemoveZeroCoeffs | src/context.h:39-50 | erases exactly the zero entries; nonzero entries and the constant stay unchanged; the result is `Pruned(e)` |
| LinearExpressions.PrunedIdempotent | src/context.h:39-50 | pruning twice is pruning once; an expression without zero coefficients is left as it is |
| LinearExpressions.PrunedKeepsCof | src/context.h:39-50 | pruning changes no coefficient as `cof` reads it and adds no variable |
| LinearExpressions.FromPairs | src/context.h:19-29 | the integer-pair constructor: the constant is `c`, no coefficient is zero, every variable comes from the input, and the first occurrence of a repeated variable wins |
| LinearExpressions.InsertedKeys | src/context.h:23-26 | the insertion loop's keys are exactly the variables named in the input |
| LinearExpressions.FirstOccurrenceWins | src/context.h:23-26 | inserting into the map does not overwrite, so a variable's first pair decides its coefficient |
| LinearExpressions.FromMap | src/context.h:31-34 | the map constructor keeps exactly the nonzero entries of its argument and the constant |
| LinearExpressions.Equals | src/context.h:56-73 | false when the constants differ; true exactly when the constants agree and every coefficient of `a` is in `b` with the same value |
| LinearExpressions.EqualsIsOneSided | src/context.h:61-72 | `zero == x` holds but `x == zero` does not, although `x` is not zero, so `equals` and `operator==` are not symmetric |
| LinearExpressions.SubsumedBothWays | src/context.h:56-73 | the one-sided check in both directions is exactly equality of expressions |
| LinearExpressions.SameExpression | src/context.h:85-88 | the symmetric comparison: true exactly when the two expressions are equal |
| LinearExpressions.Drop | src/context.cpp:37-39 | `v` is removed, every other coefficient and the constant are kept, no zero coefficient |
| LinearExpressions.ScalarMul | src/context.cpp:37-39 | every coefficient and the constant are scaled by `k`; scaling by 0 leaves no coefficient |
| LinearExpressions.Subtract | src/context.cpp:37-39 | pointwise difference of coefficients and constants, no zero coefficient |
| LinearExpressions.Eliminant | src/context.cpp:37-39 | the combination `cof(v,b)·a − cof(v,a)·b` with `v` removed: coefficient by coefficient and the constant, `v` absent, no zero coefficient |
| LinearExpressions.EliminantConst | src/context.cpp:37-39 | the constant of `drop(v,a)·cof(v,b) − drop(v,b)·cof(v,a)` is `cof(v,b)·a.c − cof(v,a)·b.c` |
| LinearExpressions.EliminantCoeffs | src/context.cpp:37-39 | each coefficient of that combination is `cof(v,b)·cof(u,a) − cof(v,a)·cof(u,b)`, which is zero at `v` |
| Evaluation.EvaluateAt | src/context.cpp:9-23 | constant plus the sum of value × coefficient over the assigned variables; the unassigned coefficients are copied unchanged; no zero coefficient; no coefficients left when every variable is assigned |
| Evaluation.SubstitutionPreservesValue | src/context.cpp:9-23 | substituting part of a point and then evaluating at the point gives the value at the point |
| Evaluation.EliminantValue | src/context.cpp:37-39 | the value of the eliminant is `cof(v,b)·value(a) − cof(v,a)·value(b)` at every point |
| Evaluation.CommonRootSurvivesElimination | src/context.cpp:37-39 | a common root of `a` and `b` is a root of their eliminant |
| Evaluation.EliminantVanishesIffRootsMeet | src/context.cpp:37-39 | off `v`, the eliminant vanishes exactly where the roots of `a` and `b` in `v` coincide |
| Projections.ProjectionLength | src/context.cpp:31-45 | `n` inputs give `n(n−1)/2` results, so 0 or 1 inputs give none |
| Projections.ProjectionElement | src/context.cpp:32-42 | result `k` is the eliminant of the pair `i < j` that the loops visit `k`-th |
| Projections.ProjectionAt | src/context.cpp:32-42 | the pair `(i, j)` is visited at position `RowStart(n,i) + j − i − 1`, and its eliminant is there |
| Projections.PairsSorted | src/context.cpp:32-34 | the loops visit the pairs in strictly increasing lexicographic order |
| Projections.PairsBeforeSorted | src/context.cpp:32-34 | the rows visited before row `m` come in strictly increasing lexicographic order |
| Projections.RowStartClosedForm | src/context.cpp:32-34 | the first `i` outer iterations visit `i(2n−i−1)/2` pairs |
| Projections.ProjectionFreeOf | src/context.cpp:37-39 | no result mentions `v`, and none has a zero coefficient |
| Projections.ProjectionKeepsCommonRoots | src/context.cpp:37-42 | a common root of all inputs is a root of every result |
| Contexts.Context.constructor | src/context.h:100 | no variables, no expressions, `next_var` is 0 |
| Contexts.Context.AddVariable | src/context.h:102-113 | returns the old `next_var`, increments it by one, records the name under that id, changes nothing else, keeps ids `0 .. next_var−1` named and the names distinct |
| Contexts.Context.AddLinearExpression | src/context.h:115-120 | appends the expression the pair constructor builds and returns its handle; nothing else changes; the invariant is kept |
| Contexts.Context.AddExpression | src/context.cpp:41 | the overload taking a built expression (which, like every `linear_expression`, has no zero coefficient): appends a copy and returns its handle; nothing else changes; the invariant is kept |
| Contexts.Context.ProjectRow | src/context.cpp:33-43 | one outer iteration: appends the eliminants of `es[i]` with `es[i+1], …, es[n−1]` and returns the handles of exactly those new expressions, in order; every registered expression keeps no zero coefficient |
| Contexts.Context.ProjectAway | src/context.cpp:25-46 | appends `Projection` of the expressions under the handles and returns exactly the new handles, in order; variables are unchanged; every registered expression keeps no zero coefficient |
| Contexts.DerefHandles | src/context.cpp:41-42 | the handles a run of registrations returns point, in order, to the expressions registered during it, so `project_away`'s result points to `Projection` |
| ContextTests.SampleLinearFunctionAtPoint | test/test_context.cpp:10-19 | `x − 5` evaluated at `x = 5` compares equal to the zero expression |

## Left out

- The `rational` type, including its construction from strings and `int`s, is Dafny `real`. Decimal parsing is not modelled.
- `contains_key` and `map_find` are not part of this model. They are Dafny map membership and lookup.
- `get_const` is the field `c` of the datatype. It is a plain read with nothing to prove.
- Cof: the `cof` helper called at src/context.cpp:39 is a map lookup with a zero default, with nothing to prove on its own. What the model proves about it is stated through the members that use it (`PrunedKeepsCof`, `Drop`, `ScalarMul`, `Subtract`, `Eliminant`).
- `operator<<` only writes output, so it is not modelled.
- Contexts.Context.ProjectAway: its arguments are handles of expressions registered with the context (`hs[k] < |exprs|`). `project_away` (src/context.cpp:25-27) accepts any `linear_expression*`, including one the context never registered; such arguments are not modelled. `ProjectAway` reads the expressions under the handles once, before its loops; the arena only grows, so that is what `exprs[i]` and `exprs[j]` point to throughout. `ProjectRow` is given those values.
- Raw pointers, heap ownership and the destructor `~context` are not modelled. A handle is an index into an arena that only grows, so two registrations never alias.
- `std::map` and `std::set` iteration order is not modelled.
  - The loops in `remove_zero_coeffs`, `equals` and `evaluate_at` take keys in an arbitrary order.
  - With exact arithmetic their results do not depend on that order.
  - The order of the pointer set `exprs` is not observable.
- Contexts.Context.AddVariable: the duplicate-name `assert` is a precondition, so a violating call is not modelled. `next_var` is unbounded, so its 32-bit overflow is not modelled.
- The free function `evaluate_at(l, values)` is declared in src/context.h:90-91 but is not defined in the files modelled here, and test/test_context.cpp:18 calls it. The model's test (`ContextTests.SampleLinearFunctionAtPoint`) calls the member `evaluate_at` (`Evaluation.EvaluateAt`) in place of that free function, assuming the free function delegates to it.
- `cof`, `drop`, `scalar_mul`, `subtract` and the `add_linear_expression(const linear_expression&)` overload are called in src/context.cpp but declared in neither src/context.h nor src/context.cpp.
  - They are defined with the meaning of the comment at src/context.cpp:37.
  - Each prunes zero coefficients.
  - The overload registers a copy.
- `project_away` does not yet pass through expressions in which `v` does not occur (a TODO in the source), and the model follows the code.
  - An expression with zero coefficient on `v` still only takes part in pairs.
  - Duplicate results are registered as separate expressions.
- The lift, cell-tree and solver stages are not part of this model.

## Findings

| source | as written | input that shows it | evidently intended | confidence | as-written member | corrected member |
|---|---|---|---|---|---|---|
| src/context.h:56-73, 85-88 | `equals` checks only that every coefficient of `this` occurs in `other` with the same value, and `operator==` only calls it | the zero expression compared with `x` (coefficient 1 on variable 0, constant 0) is true; `x` compared with zero is false | equality of the two expressions, symmetric | not executed | LinearExpressions.EqualsIsOneSided | LinearExpressions.SameExpression |
