# Model-based projection for linear arithmetic, in Dafny

This project models the linear-arithmetic projection plugin of the z3 quantifier-elimination
layer (`arith_project_plugin::imp` in `src/qe/qe_arith.cpp`) and proves properties of the model.
The plugin does four things.

- **Linearizer.** It folds an arithmetic term into a map from atoms to rational coefficients plus a
  constant, scaled by a multiplier.
  - An `ite` is resolved by the model, and the branch condition that held is appended to the literal vector.
  - `t mod k` is replaced by its model value, and a divisibility constraint is submitted.
  - Each comparison literal becomes one constraint of relation `t_le`, `t_lt` or `t_eq`; a true
    `distinct` becomes a chain of strict constraints between its arguments sorted by model value.
- **Eliminate driver.** It linearizes every literal it can into a fresh
  `model_based_opt` engine and keeps the rest (the residue) in place and in order. Then it:
  - registers the requested arithmetic variables that never occurred;
  - projects the variables that are not frozen;
  - turns the rows that survive back into literals.
- **Row reconstructor.** Unit rows become bounds on one atom, other rows become sums compared to a
  constant, and mod rows become `(sum + c) mod m = 0`.
- **Maximize.** It linearizes an objective and the literals, lets the engine maximize, moves the model
  to the optimum, and derives the bounds `ge` and `gt` by a three-way case split on the optimum.

Terms and literals are a closed datatype (`Terms`); a model assigns reals to uninterpreted constants
and interprets uninterpreted functions, `mod` by zero, and predicates. The engine is a class that
records every call made on it (`Mbo.Engine`). The results of `project` and `maximize` come from
function parameters (oracles). What the plugin relies on from `project` is stated as `Mbo.ProjectionSound`:
live rows over known and unprojected variables, a positive modulus on mod rows, and holding at the current values.

Term linearization is specified by a reference function, `Linearize.Lin`, which follows the case split of
`linearize` in its order; each method that linearizes a term returns exactly what `Lin` computes. The atoms that end up
in the map are `Linearize.Atoms`, and the atoms registered with the engine are pinned in turn: per term
(`ModAtoms`, `TermAtoms`), per literal (`Literals.LitAtoms`), per list of visited literals
(`Eliminate.AllAtoms`), and for the requested variables (`Eliminate.ArithVars`). Which variables are projected
therefore follows from the input.

What is handed to the engine is pinned the same way, by reference functions over the registry `tids`
the call ends with. `Linearize.ModDivs(M, t)` lists the divisibility rows of the `mod`s a term resolves, in
order: for `t1 mod k`, the rows of `t1` and then `t1` linearized from the empty map with constant `-r`
(`Linearize.ModLin`), modulo `k`. `Linearize.DivSubs` turns them into `add_divides` calls. Both sides of a
comparison go into one map (`Literals.SidesLin`), and `Literals.SidesSubs` is the sides' divisibility calls
followed by the one `add_constraint` over that map. `Literals.LitSubs` is what a literal submits (its parts'
`SidesSubs`, in order), `Eliminate.AllSubs` is the same for a list of visited literals, and
`Maximize.ObjectiveSubs` is the objective's divisibility calls followed by `set_objective`. Every
linearization method states its log as the old log followed by one of these, so coefficients, constants,
moduli and order are all fixed by the input and the model.

Everything is stated relative to the model `M`. A linearization step keeps an exact registry: the
engine variable of every atom carries the atom's value in `M` (`Coeffs.Registered`), and every
submitted constraint holds at those values (`Mbo.Good`). An accepted literal stands for its parts
(`Literals.Parts`): the literal itself, or for a true `distinct` the strict literals between
neighbours of its arguments sorted by value. The log holds one constraint of the literal's relation
per part, whose row evaluates to the part's linear value in `M` (`Literals.Submitted`), and the
eliminate and maximize drivers keep that record for every literal they visit (`Eliminate.Recorded`).
When the parts' linear values, read in another model `M'`, compare as the relation says, the literal
holds in `M'` (`Literals.PartsExact`). The rows are built by reading `ite` branches and `mod` values in
`M`, so the model does not claim that the engine's constraints imply the literals in every model.

The comment before the marking code says the variables that occur in the residue are kept
(`src/qe/qe_arith.cpp:317-318`). The code marks only the residue literals as whole terms, plus the
sub-terms of the registered atoms that are not requested variables (`src/qe/qe_arith.cpp:335-346`).
A literal is never a variable, so a variable that occurs only in the residue is projected anyway.
The model follows the code: `Eliminate.ResidueDoesNotFreeze` shows that `x` is projected when every
literal is rejected and only `x` is registered, even when a residue literal such as `p(x)` mentions it.

## Model

| member | source | states |
|---|---|---|
| Coeffs.InsertMul | src/qe/qe_arith.cpp:41-50 | the coefficient of `x` becomes the old one plus `v`, or `v` when `x` was absent; every other atom's coefficient is unchanged |
| Coeffs.InsertMulDistinct | src/qe/qe_arith.cpp:41-50 | the map never holds two entries for one atom |
| Coeffs.InsertMulSum | src/qe/qe_arith.cpp:41-50 | the map's value under the model grows by exactly `v * value(x)` |
| Coeffs.InsertMulKeys | src/qe/qe_arith.cpp:41-50 | the atoms with an entry in the map gain exactly `x`, and no other atom |
| Coeffs.ExtractCoefficients | src/qe/qe_arith.cpp:509-528 | every atom of `ts` gets an id (the one in `tids`, or a fresh engine variable holding its model value and integrality); the registered atoms grow by exactly the atoms of `ts` (`tids'.Keys == tids.Keys + KeySet(ts)`); the row is `ToVars(ts, tids')`; the registry stays exact and only grows; the log is untouched |
| Coeffs.ExtractStep | src/qe/qe_arith.cpp:520-524 | one round of the loop appends the entry `(id, coeff)` exactly when the coefficient is non-zero, so after round `i` the row is `ToVars` of the first `i + 1` entries |
| Coeffs.ToVars | src/qe/qe_arith.cpp:521-524 | no entry of the row has a zero coefficient, and the row has no more entries than `ts` |
| Coeffs.ToVarsValue | src/qe/qe_arith.cpp:509-528 | under an exact registry the row evaluates, at the engine's values, to the map's value in the model, and mentions only known variables |
| Coeffs.RegisterFresh | src/qe/qe_arith.cpp:514-519 | registering an unseen atom under the next id with its model value keeps the registry exact |
| Numerals.IsNumeralExact | src/qe/qe_arith.cpp:217-249 | `is_numeral` succeeds exactly on terms built from numerals by unary minus, n-ary product, n-ary sum and binary difference, and returns the value every model gives the term |
| Numerals.NumeralProductExact | src/qe/qe_arith.cpp:226-233 | the product loop succeeds exactly when every factor is a closed numeral, and returns the product of their values |
| Numerals.NumeralSumExact | src/qe/qe_arith.cpp:234-241 | the sum loop succeeds exactly when every summand is a closed numeral, and returns the sum of their values |
| Linearize.LinValue | src/qe/qe_arith.cpp:158-215 | the reference linearization `Lin` (the case split of `linearize`, in its order) raises `c + sum coeff*value(atom)` by exactly `mul * value(t)` in the model |
| Linearize.LinKeys | src/qe/qe_arith.cpp:158-215 | the atoms with an entry in the map `Lin` leaves are those of `ts` plus exactly `Atoms(M, t)`, the terms `linearize` hands to `insert_mul`: it looks through numeral-scaled products, sums, differences, negations and the `ite` branch the model selects, skips numerals and resolved `mod`s, and takes anything else whole |
| Linearize.LinDistinct | src/qe/qe_arith.cpp:41-50 | `Lin` never leaves two entries for one atom |
| Linearize.LinearizeTerm | src/qe/qe_arith.cpp:158-215 | the result is exactly `Lin(M, mul, t, c, ts)`, so the map keeps one entry per atom and `c + sum coeff*value(atom)` grows by exactly `mul * value(t)`; the registered atoms grow by exactly `ModAtoms(M, t)` (the atoms registered for resolved `mod`s); the literal vector gains exactly `IteConds(M, t)`; the log gains exactly `DivSubs(ModDivs(M, t), tids')`, one `add_divides` per resolved `mod` with its row, constant and modulus, each holding at the engine's values |
| Linearize.LinearizeScaled | src/qe/qe_arith.cpp:163-168 | `k*t` or `t*k` with `k` a closed numeral is linearized as `t` with multiplier `mul*k`: the result is `Lin(M, mul, t, c, ts)`, it adds exactly `mul * value(k*t)`, and it registers `ModAtoms` and appends `IteConds` of the product |
| Linearize.LinearizeSum | src/qe/qe_arith.cpp:169-174 | an n-ary sum, its arguments linearized in order: the result is `Lin(M, mul, t, c, ts)`, it adds exactly `mul * value(sum)`, and it registers `ModAtoms` and appends `IteConds` of the sum |
| Linearize.LinearizeArg | src/qe/qe_arith.cpp:171-173 | after round `i` of the loop over a sum's arguments, `(c, ts)` is `LinSeq` of the first `i + 1` arguments, the registered atoms have grown by exactly their `ModAtoms`, and the literal vector by their branch conditions |
| Linearize.LinearizeDiff | src/qe/qe_arith.cpp:175-178 | `t1 - t2` is linearized as `t1` with `mul` then `t2` with `-mul`: the result is `Lin(M, mul, t, c, ts)` and it adds exactly `mul * value(t1 - t2)`; both sides' `ModAtoms` are registered and their branch conditions appended |
| Linearize.LinearizeLeaf | src/qe/qe_arith.cpp:182-214 | a numeral adds `mul * value` to the constant and leaves the map; any other term the linearizer does not look into is entered whole via `InsertMul(ts, t, mul)`; nothing is registered and the engine is untouched |
| Linearize.LinearizeIte | src/qe/qe_arith.cpp:185-198 | only the branch the model selects is linearized (the result is `Lin(M, mul, t, c, ts)`, adding exactly `mul * value(t)`); its condition is appended after it, or the negated condition before the else-branch |
| Linearize.LinearizeMod | src/qe/qe_arith.cpp:199-211 | the map is unchanged and the constant gains `mul * value(t1 mod k)`; the log gains exactly `DivSubs(ModDivs(M, t), tids')`: the dividend's own divisibility calls, then `Divides(row, c0, k)` where `row` is the extraction of `ModLin(M, t)` (the dividend from the empty map with constant `-r`), `c0` is its constant, and row plus `c0` evaluates to `value(t1) - value(t1 mod k)`; the registered atoms grow by exactly those of the dividend's row and of the `mod`s inside it; the literal vector gains the dividend's branch conditions |
| Linearize.ModRow | src/qe/qe_arith.cpp:204-208 | the dividend is linearized from the empty map with constant `-r`: the row is the extraction of `ModLin(M, t)` and `c0` its constant, evaluating to `value(t1) - r`; the log gains exactly the dividend's `DivSubs(ModDivs(M, t1), tids')`; the registered atoms grow by exactly `TermAtoms` of the dividend |
| Linearize.ModRowDivides | src/qe/qe_arith.cpp:199-211 | `t1 - (t1 mod k)` is a multiple of `k` in the model |
| Linearize.ModLinHolds | src/qe/qe_arith.cpp:204-208 | for `t1 mod k`, the row `ModLin` (`t1` from the empty map with constant `-r`) has map value plus constant divisible by `k` in the model |
| Linearize.ModDivsHold | src/qe/qe_arith.cpp:199-211 | every divisibility row linearizing `t` submits holds in the model: its modulus divides its map's value plus its constant |
| Linearize.IteCondsHold | src/qe/qe_arith.cpp:185-198 | every branch condition recorded for a term holds in the model it was read from |
| Linearize.CondsWeight | src/qe/qe_arith.cpp:185-198 | the recorded conditions weigh less than the term, so re-visiting appended literals terminates |
| Linearize.Extract | src/qe/qe_arith.cpp:149-150 | extraction is a linearization step whose row evaluates to the map's value and mentions only known variables |
| Literals.LiteralConstraintExact | src/qe/qe_arith.cpp:68-102 | for every accepted literal other than `distinct`, the linear value satisfies the relation in a model `M'` only if the literal holds in `M'`; in the model read from it satisfies the relation (a disequality's sides are ordered by value so the strict constraint holds) |
| Literals.PlainExact | src/qe/qe_arith.cpp:73-87 | an un-negated `<=`, `>=`, `<`, `>` or arithmetic `=` holds in `M'` exactly when `value(e1) - value(e2)` satisfies its relation |
| Literals.NegatedOrderExact | src/qe/qe_arith.cpp:69-82 | a negated order literal holds in `M'` exactly when `-(value(e1) - value(e2))` satisfies the flipped relation |
| Literals.DiseqExact | src/qe/qe_arith.cpp:88-101 | with the sides ordered by their values in `M`, the strict constraint implies the disequality in any `M'` and holds in `M` |
| Literals.NotDistinctExact | src/qe/qe_arith.cpp:123-143 | the equality of the first repeated pair implies the negated `distinct` in any `M'` and holds in `M` |
| Literals.FirstRepeatExact | src/qe/qe_arith.cpp:123-143 | a pair of repeated values is found exactly when `distinct` is false; the pair is the first argument whose value repeats and the earliest argument with that value |
| Literals.FindRepeat | src/qe/qe_arith.cpp:126-142 | the loop over the arguments with a value-to-argument map returns exactly the pair `FirstRepeat` names |
| Literals.LinearizeLit | src/qe/qe_arith.cpp:57-153 | succeeds exactly on the literals `RelationTag` accepts (`<=`, `>=` and negated `<`, `>` as `t_le`; `<`, `>`, negated `<=`, `>=`, arithmetic disequality and `distinct` as `t_lt`; arithmetic `=` and negated `distinct` as `t_eq`); a rejected literal changes nothing; the log gains exactly `LitSubs(M, lit, tids')`, which for an accepted literal is its parts' `SidesSubs` in order: `ConstraintsFor(lit)` constraints, all of its relation, each over its part's sides (`Submitted` names their positions); the registered atoms grow by exactly `LitAtoms(M, lit)`; the literal vector gains exactly `Conds(M, lit)`, which hold in the model and weigh less than the literal |
| Literals.PartSubsValue | src/qe/qe_arith.cpp:149-152 | the last call a part makes is a constraint of the part's relation whose row evaluates to the part's linear value |
| Literals.LitSubsExtend | src/qe/qe_arith.cpp:509-528 | registering further atoms changes none of the calls a literal makes |
| Literals.LinearizeComparison | src/qe/qe_arith.cpp:73-102 | the sides are chosen as the source chooses them, swapped for `>=`/`>` and ordered by value for a disequality; the log gains exactly `LitSubs(M, lit, tids')`, the sides' divisibility calls and then the literal's one constraint, whose row evaluates to the literal's linear value; the registered atoms grow by exactly `LitAtoms(M, lit)` |
| Literals.ComparisonSubs | src/qe/qe_arith.cpp:73-102 | a comparison's calls are exactly its chosen sides' `SidesSubs` with its sign and relation |
| Literals.ComparisonAtoms | src/qe/qe_arith.cpp:73-102 | a comparison's atoms are exactly those of its two sides |
| Literals.SummandsAreAtoms | src/qe/qe_arith.cpp:169-174 | `x + y <= 3` registers exactly `x` and `y`, never the sum as a whole |
| Literals.ChooseOperands | src/qe/qe_arith.cpp:73-143 | the case split yields the sides `Operands` names (swapped for `>=`/`>`, larger value first for a disequality, the first repeated pair for a false `distinct`) and the literal's relation |
| Literals.LinearizeDifference | src/qe/qe_arith.cpp:74-75 | the row is the extraction of `SidesLin(M, mul, e1, e2)`, the one map `e1` with `mul` and then `e2` with `-mul` are folded into from empty, and `c` is its constant; row plus constant equals `mul * (value(e1) - value(e2))`; the log gains exactly the sides' divisibility calls `DivSubs(SidesDivs(M, e1, e2), tids')`; the registered atoms grow by exactly `TermAtoms` of both sides |
| Literals.LinearizeSides | src/qe/qe_arith.cpp:74-75 | `e1` is linearized with `mul` and `e2` with `-mul` into one fresh map: `(c, ts)` is exactly `SidesLin(M, mul, e1, e2)`, which holds exactly the atoms of both sides, and the map plus the constant is `mul * (value(e1) - value(e2))`; the log gains exactly the sides' divisibility calls; the `mod` atoms of both sides are registered and their branch conditions appended |
| Literals.SidesLinValue | src/qe/qe_arith.cpp:74-75 | the one map of both sides plus its constant is `mul * (value(e1) - value(e2))`, and its atoms are exactly those `linearize` enters for `e1` and `e2` |
| Literals.SidesSubsValue | src/qe/qe_arith.cpp:149-152 | the last call the sides make is a constraint of relation `ty` whose row evaluates, over any exact registry, to `mul * (value(e1) - value(e2))`; the sides' divisibility rows hold in the model |
| Literals.SidesSubsExtend | src/qe/qe_arith.cpp:509-528 | registering further atoms changes none of the calls the sides make, because extraction reuses an atom's id |
| Literals.LinearizeRelation | src/qe/qe_arith.cpp:149-152 | the log gains exactly `SidesSubs(M, mul, e1, e2, ty, tids')`: the sides' divisibility calls, then the constraint `mul*(e1 - e2) ty 0` over the extracted `SidesLin` map, which holds at the engine's values |
| Literals.LinearizeDistinct | src/qe/qe_arith.cpp:103-122 | a true `distinct` of `n` arguments submits `n - 1` constraints, all strict: the log gains exactly `LitSubs(M, lit, tids')`, the `SidesSubs` of `a < b` for each pair of neighbours in the arguments sorted by value, each constraint evaluating to the difference of the pair's values (`Submitted`); the registered atoms grow by exactly those of the parts' sides |
| Literals.DistinctSubs | src/qe/qe_arith.cpp:103-122 | a true `distinct`'s calls are exactly those of the neighbour literals of its arguments sorted by value |
| Literals.LinearizeChain | src/qe/qe_arith.cpp:114-121 | the log gains exactly `PartsSubs` of the neighbour literals `sorted[i] < sorted[i + 1]`, in order; for each `i`, the constraint at `pos[i]` is strict and evaluates to `value(sorted[i]) - value(sorted[i + 1])` (`ChainAt`); the literal vector gains the neighbours' branch conditions in order |
| Literals.ChainSubsPrefix | src/qe/qe_arith.cpp:114-121 | the calls of the first `i` rounds of the chain are exactly those of the first `i` neighbour literals |
| Literals.LinearizeLess | src/qe/qe_arith.cpp:114-119 | the recursive call on `a < b`, with `a` below `b` in the model, succeeds; the log gains exactly `SidesSubs(M, 1.0, a, b, t_lt, tids')` and ends with one strict constraint evaluating to `value(a) - value(b)`; the literal vector gains the branch conditions of `a` and `b` |
| Literals.LessLitSubs | src/qe/qe_arith.cpp:114-119 | the calls of `a < b` are exactly the sides' `SidesSubs` with multiplier 1 and relation `t_lt` |
| Literals.PartsExact | src/qe/qe_arith.cpp:57-153 | a true accepted literal has `ConstraintsFor(lit)` parts; their linear values compare as its relation says in `M`, and in any model where they do the literal holds |
| Literals.DistinctPartsExact | src/qe/qe_arith.cpp:103-122 | the strict neighbour literals of a true `distinct` hold in `M`, and whenever they all hold in a model `M'`, the `distinct` holds in `M'` |
| Literals.DistinctSubmitted | src/qe/qe_arith.cpp:113-121 | the chain of strict constraints submitted along the sorted arguments is exactly the record of the `distinct` literal's parts |
| Literals.SortedValues | src/qe/qe_arith.cpp:107-113 | the pairs (argument, model value) sorted by value: strictly increasing, a permutation of the arguments' pairs |
| Sorting.SortByValue | src/qe/qe_arith.cpp:113 | the reference sort is strictly increasing and a permutation of its input |
| Sorting.DistinctFromChain | src/qe/qe_arith.cpp:103-122 | if the strict constraints between sorted neighbours hold in a model `M'`, the `distinct` holds in `M'` |
| Sorting.SortSpread | src/qe/qe_arith.cpp:113-116 | strictly increasing sorted pairs in `M'` give pairwise different values in `M'` to all arguments |
| Reconstruct.RowFormulaExact | src/qe/qe_arith.cpp:373-430 | only rows without variables are dropped; the rebuilt literal holds in the model exactly when the row holds at the engine's values |
| Reconstruct.UnitFormulaExact | src/qe/qe_arith.cpp:380-397 | `(-a)*x > c`, `>= c`, `= c` holds exactly when `a*x + c < 0`, `<= 0`, `= 0` does |
| Reconstruct.SumFormulaExact | src/qe/qe_arith.cpp:398-423 | `sum < -c`, `<= -c`, `= -c`, and `(sum - (-c)) mod m = 0` hold exactly when the row does |
| Reconstruct.RowFormulaAtoms | src/qe/qe_arith.cpp:380-416 | a constant in a rebuilt literal lies inside the atom of one of the row's ids |
| Eliminate.HasArith | src/qe/qe_arith.cpp:287-294 | the scan reports whether some requested variable is arithmetic |
| Eliminate.LinearizeAll | src/qe/qe_arith.cpp:300-313 | the compaction loop leaves exactly the residue of every literal visited, in order; the literals visited are the input followed by the branch conditions of every visited literal, in visiting order, all true in the model; the log is exactly `AllSubs` of the visited literals (each one's `LitSubs`, in visiting order), and each accepted one has its part constraints at recorded positions (`Recorded`); the registered atoms are exactly `AllAtoms` of the visited literals; the registry stays exact and the constraints hold |
| Eliminate.AllSubsSnoc | src/qe/qe_arith.cpp:302-310 | visiting one more literal appends exactly its calls to those of the earlier ones |
| Eliminate.AllSubsExtend | src/qe/qe_arith.cpp:509-528 | registering further atoms changes none of the calls the visited literals made |
| Eliminate.AllRejected | src/qe/qe_arith.cpp:300-313 | a list whose every literal `linearize` rejects is its own residue |
| Eliminate.RecordStep | src/qe/qe_arith.cpp:302-310 | visiting one more literal keeps the record of the earlier ones, and adds the new literal's constraints when it is accepted |
| Eliminate.AllCondsStep | src/qe/qe_arith.cpp:301-303 | appending the `i`-th literal's conditions extends the visited literals by exactly that literal's conditions |
| Eliminate.ResidueMembers | src/qe/qe_arith.cpp:300-313 | the residue holds exactly the visited literals `linearize` rejects |
| Eliminate.ScanStep | src/qe/qe_arith.cpp:302-310 | one round of the two-index compaction keeps the residue prefix and the unvisited suffix |
| Eliminate.ScanRound | src/qe/qe_arith.cpp:302-310 | one round linearizes the `i`-th literal or moves it to slot `j`, keeping the scan invariant, the exact registry and the satisfied constraints, and the literals left to visit weigh less |
| Eliminate.RegisterVars | src/qe/qe_arith.cpp:323-334 | every requested arithmetic variable ends up registered with its model value; the registered atoms grow by exactly the arithmetic requested variables (`ArithVars(vars)`) |
| Eliminate.BuildIndex | src/qe/qe_arith.cpp:338-346 | `index2expr` inverts the registry; every registered atom that is not a requested variable is marked |
| Eliminate.SplitVars | src/qe/qe_arith.cpp:347-361 | the variables that stay are `Kept(vars, roots)` in order, and the ids handed to `project` are those of the projected ones |
| Eliminate.KeptMembers | src/qe/qe_arith.cpp:347-361 | a variable stays exactly when it is not arithmetic or lies inside a marked atom |
| Eliminate.ProjectedIdsMembers | src/qe/qe_arith.cpp:350-352 | every projected variable's id is handed to `project` |
| Eliminate.RebuildRows | src/qe/qe_arith.cpp:373-430 | the rebuilt literals are appended to the residue in row order |
| Eliminate.RebuiltHold | src/qe/qe_arith.cpp:373-430 | sound rows over atoms that carry the engine's values give literals true in the model |
| Eliminate.RebuiltAvoids | src/qe/qe_arith.cpp:373-430 | a constant outside all atoms of the rows' ids occurs in no rebuilt literal |
| Eliminate.Project | src/qe/qe_arith.cpp:286-431 | without an arithmetic variable nothing changes; otherwise (`Projection`) the log handed to `project` is exactly `AllSubs` of the visited literals, the registered atoms are exactly `AllAtoms` of the visited literals plus the requested arithmetic variables, the roots are exactly the registered atoms that are not requested variables, the variables that stay are `Kept(vars, roots)` in order, `project` gets the ids of the others, and the output is the residue followed by the literals rebuilt from its rows; the output holds in the model, keeps every rejected input literal, and no rebuilt literal mentions a variable that went |
| Eliminate.StaysIff | src/qe/qe_arith.cpp:335-361 | a requested arithmetic variable stays exactly when it occurs inside an atom of the visited literals that is not itself a requested variable |
| Eliminate.OutputHolds | src/qe/qe_arith.cpp:300-313 | the residue keeps every rejected input literal, and the whole output holds in the model |
| Eliminate.ProjectedAbsent | src/qe/qe_arith.cpp:335-361 | a variable that goes is arithmetic and absent from every rebuilt literal |
| Eliminate.ResidueDoesNotFreeze | src/qe/qe_arith.cpp:335-351 | when every literal is rejected and only `x` is registered, the literals are their own residue, and for any roots satisfying `Project`'s contract `x` is projected and not kept |
| Eliminate.ProjectOne | src/qe/qe_arith.cpp:275-280 | for an arithmetic variable the result is the projection of `[v]` (`Projection`), with the log handed to `project` exactly `AllSubs` of the visited literals and `v` left exactly when not eliminated; success is reported exactly when `v` is projected (arithmetic and inside no root), and no root is `v` itself; a non-arithmetic one leaves the literals unchanged; the output holds in the model |
| Maximize.LinearizeObjective | src/qe/qe_arith.cpp:442-446 | the log is exactly `ObjectiveSubs(M, t, tids)`: the divisibility calls of `t`'s `mod`s, then `set_objective` over the extraction of `t` linearized from the empty map, and that row evaluates to `t` in the model; the registered atoms are exactly `TermAtoms(M, t)`; the literal vector gains exactly the objective's branch conditions, and all its literals hold there |
| Maximize.ObjectiveSubsValue | src/qe/qe_arith.cpp:442-446 | the last call is `set_objective` over a row that evaluates to `t` in the model, and the objective's divisibility rows hold in the model |
| Maximize.ObjectiveSubsExtend | src/qe/qe_arith.cpp:447-454 | registering atoms for the literals changes none of the objective's calls |
| Maximize.LinearizeEach | src/qe/qe_arith.cpp:452-454 | every literal, including appended branch conditions, is linearized: the literals visited are the input followed by their conditions in visiting order, the log gains exactly `AllSubs` of them, each accepted one has its part constraints at recorded positions (`Recorded`), the registered atoms grow by exactly `AllAtoms` of them, and the registry stays exact with the constraints satisfied |
| Maximize.EachRound | src/qe/qe_arith.cpp:452-454 | one round linearizes the `i`-th literal, appends its conditions, appends its `LitSubs` to the log and records its constraints, and the literals left to visit weigh less |
| Maximize.UpdateModel | src/qe/qe_arith.cpp:461-474 | every uninterpreted constant among the atoms takes the engine's value for its id; every other constant keeps its value |
| Maximize.Maximize | src/qe/qe_arith.cpp:433-495 | the log handed to `maximize` is exactly `ObjectiveSubs(M, t, tids)` followed by `AllSubs` of the visited literals, with the objective the last of the former, and its row evaluates to `t`; the constraints hold in the model; the registered atoms are exactly those of `t` and of the visited literals; the literals visited are the input, the objective's branch conditions and every appended condition, each accepted one recorded in the log; every uninterpreted constant among those atoms is moved to the engine's value; `(ge, gt)` is `Bounds` at the objective's value in the moved model |
| Maximize.BoundsAtModel | src/qe/qe_arith.cpp:481-492 | when the optimum agrees with the moved model, that model meets `ge` and not `gt` |
| Maximize.StrictImpliesWeak | src/qe/qe_arith.cpp:481-492 | when the optimum agrees with the moved model, every model that meets `gt` meets `ge` |
| Terms.RemainderZeroIffDivisible | src/qe/qe_arith.cpp:417-423 | the Euclidean remainder is zero exactly when the dividend is a multiple of the modulus |
| Terms.EuclidMod | src/qe/qe_arith.cpp:199-203 | the model value of `t1 mod k` is at least 0 and below the absolute value of `k` |
| Terms.RemainderLeavesMultiple | src/qe/qe_arith.cpp:199-209 | the dividend less its remainder is a multiple of the modulus, so the submitted divisibility constraint holds |
| Mbo.RowValueExtend | src/qe/qe_arith.cpp:509-528 | registering more variables does not change the value of a row over known ones |

## Left out

- The algorithms of `opt::model_based_opt` (Fourier–Motzkin projection, simplex maximization) are not
  modelled. The engine records its calls. `project` and `maximize` results come from oracle parameters;
  `Mbo.ProjectionSound` states what the plugin relies on from `project`.
- `Maximize.BoundsAtModel`, `Maximize.StrictImpliesWeak`: they take `OptimumAgrees` as a hypothesis.
  It relates the engine's optimum to the objective's value in the moved model, and only the engine's
  algorithm could establish it. Atoms that are not uninterpreted constants are not moved, and the
  source does not promise the objective's value for them.
- A model interprets uninterpreted functions, predicates and `mod` by zero as finite tables
  (maps from argument values to results); an entry the table lacks reads as 0, or false for a predicate.
  Model completion is therefore always on.
- The model evaluator is a total valuation. A constant the model does not mention evaluates to 0, which
  is what `is_numeral` on an unevaluated constant leaves in `r`. A `mod` by zero is interpreted by the
  model. Model completion switching is not modelled.
- The model update in `maximize` returns a new model value instead of writing into the caller's model.
- Term identity is structural equality, not identity of hash-consed AST nodes. The iteration order of `obj_map`
  is left open: the walks over `tids` choose an arbitrary next key, and `ts` is an insertion-ordered list.
- `mark_rec` is modelled as "every sub-term of the atom", without the visited-set cut-off of
  `expr_mark`. A sub-term already marked as a residue literal (a condition inside an atom) stops
  the real traversal, and this model marks below it anyway.
- `solve` (src/qe/qe_arith.cpp:271-273) always returns false and is not modelled.
- The plugin wrapper and allocation code (src/qe/qe_arith.cpp:532-565) are not modelled.
- `TRACE`, `CTRACE`, `DEBUG_CODE` and `validate_model` are diagnostics. Their assertions appear as
  preconditions: the literals hold in the model, and the objective is real.
- Eliminate.ResidueDoesNotFreeze: that only `x` is registered is a hypothesis; the lemma does not derive it from
  the registered-atom set that `Projection` pins (a rejected literal registers nothing, `LitAtoms` is empty).
- Literals.RelationTag: a `distinct` with no arguments is rejected rather than reading a missing first argument.
- Numeral sort tags on the rebuilt literals are kept (`Num(v, isInt)`) but do not influence evaluation.
- A difference is binary (`Sub(lhs, rhs)`), the only shape `is_sub` matches in `linearize` and `is_numeral`
  (src/qe/qe_arith.cpp:175, 242). An n-ary `-` has no constructor of its own. The source takes it whole as an
  atom; this model can only write it as a nested binary difference, which it linearizes instead.
- Maximize.UpdateModel: only `Const` atoms are moved. An `App` with no arguments is also an uninterpreted constant
  for `is_uninterp_const` (src/qe/qe_arith.cpp:465). Here such an atom is read through the model's function table,
  which `UpdateModel` leaves alone, so it keeps its old value.
- Engine ids are consecutive from 0, and `index2expr` is a map; a missing id cannot occur.
