/**
 * Literal linearization (`linearize` on a literal): a literal that is true in
 * the model becomes one engine constraint `sum coeff*x + c  ty  0` (or, for
 * `distinct`, one strict constraint per pair of value-neighbours), built from
 * the linearized difference of its two sides.
 */
module Literals {
  import opened Terms
  import opened Mbo
  import opened Coeffs
  import opened Linearize
  import opened Sorting

  /**
   * The relation a literal becomes, or `None` when the literal is skipped.
   * A negation flips `<=` into `<` and back (the sides are negated); an
   * equation or `distinct` counts only when its first argument is arithmetic.
   */
  function RelationTag(lit: Formula): Option<IneqType> {
    match lit
    case Le(_, _) => Some(LeT)
    case Ge(_, _) => Some(LeT)
    case Lt(_, _) => Some(LtT)
    case Gt(_, _) => Some(LtT)
    case Eq(a, _) => if IsArith(a) then Some(EqT) else None
    case Distinct(args) => if |args| > 0 && IsArith(args[0]) then Some(LtT) else None
    case Not(g) =>
      (match g
       case Le(_, _) => Some(LtT)
       case Ge(_, _) => Some(LtT)
       case Lt(_, _) => Some(LeT)
       case Gt(_, _) => Some(LeT)
       case Eq(a, _) => if IsArith(a) then Some(LtT) else None
       case Distinct(args) => if |args| > 0 && IsArith(args[0]) then Some(EqT) else None
       case _ => None)
    case _ => None
  }

  /** The first index in `[k, n)` whose argument has value `v`. */
  function FirstIndexFrom(M: Model, args: seq<Term>, v: real, k: nat, n: nat): (r: Option<nat>)
    requires n <= |args|
    ensures r.Some? ==> k <= r.value < n && Eval(M, args[r.value]) == v &&
                        forall j :: k <= j < r.value ==> Eval(M, args[j]) != v
    ensures r.None? ==> forall j :: k <= j < n ==> Eval(M, args[j]) != v
    decreases n - k
  {
    if k >= n then None
    else if Eval(M, args[k]) == v then Some(k)
    else FirstIndexFrom(M, args, v, k + 1, n)
  }

  /**
   * Scanning from `i`, the first argument whose value an earlier argument
   * already has, paired with the first argument that has it.
   */
  function FirstRepeatFrom(M: Model, args: seq<Term>, i: nat): (r: Option<(nat, nat)>)
    ensures r.Some? ==> var (a, b) := r.value;
      i <= a < |args| && b < a && Eval(M, args[a]) == Eval(M, args[b])
    ensures r.None? ==> forall a, b :: i <= a < |args| && 0 <= b < a ==> Eval(M, args[a]) != Eval(M, args[b])
    decreases |args| - i
  {
    if i >= |args| then None
    else
      match FirstIndexFrom(M, args, Eval(M, args[i]), 0, i)
      case Some(j) => Some((i, j))
      case None => FirstRepeatFrom(M, args, i + 1)
  }

  function FirstRepeat(M: Model, args: seq<Term>): Option<(nat, nat)> {
    FirstRepeatFrom(M, args, 0)
  }

  /** A repeated value exists exactly when the `distinct` literal is false. */
  lemma FirstRepeatExact(M: Model, args: seq<Term>)
    ensures FirstRepeat(M, args).Some? <==> !Holds(M, Distinct(args))
  {
    if FirstRepeat(M, args).None? {
      forall i, j | 0 <= i < j < |args| ensures Eval(M, args[i]) != Eval(M, args[j]) {
        assert Eval(M, args[j]) != Eval(M, args[i]);
      }
    } else {
      var (a, b) := FirstRepeat(M, args).value;
      assert 0 <= b < a < |args| && Eval(M, args[b]) == Eval(M, args[a]);
    }
  }

  /** The two sides the constraint is built from: `sign * (first - second)`. */
  predicate HasOperands(M: Model, lit: Formula) {
    RelationTag(lit).Some? && !lit.Distinct? &&
    (lit.Not? && lit.arg.Distinct? ==> FirstRepeat(M, lit.arg.args).Some?)
  }

  /**
   * The ordered sides of a literal: `e1 <= e2` and `e2 >= e1` both give
   * `(e1, e2)`; a disequation is oriented so that the side larger in `M`
   * comes first; a false `distinct` gives its first repeated argument and the
   * earlier argument with the same value.
   */
  function Operands(M: Model, lit: Formula): (Term, Term)
    requires HasOperands(M, lit)
  {
    var g := if lit.Not? then lit.arg else lit;
    match g
    case Le(a, b) => (a, b)
    case Ge(a, b) => (b, a)
    case Lt(a, b) => (a, b)
    case Gt(a, b) => (b, a)
    case Eq(a, b) => if lit.Not? && Eval(M, a) < Eval(M, b) then (b, a) else (a, b)
    case Distinct(args) =>
      var (i, j) := FirstRepeat(M, args).value;
      (args[i], args[j])
  }

  /** `mul` in the source: -1 under a negation, 1 otherwise. */
  function Sign(lit: Formula): real {
    if lit.Not? then -1.0 else 1.0
  }

  /** The value, in `M'`, of the constraint row the literal becomes (orientation read from `M`). */
  function LinearValue(M': Model, M: Model, lit: Formula): real
    requires HasOperands(M, lit)
  {
    Scale(Sign(lit), Eval(M', Operands(M, lit).0) - Eval(M', Operands(M, lit).1))
  }

  /**
   * The constraint states the literal: in every model where the constraint
   * holds, the literal holds; the literal, true in `M`, makes the constraint
   * true in `M`; and except for a disequation or a false `distinct` (whose
   * constraint picks one way the literal is true in `M`) the two are
   * equivalent in every model.
   */
  lemma LiteralConstraintExact(M: Model, M': Model, lit: Formula)
    requires HasOperands(M, lit)
    ensures Compare(LinearValue(M', M, lit), RelationTag(lit).value) ==> Holds(M', lit)
    ensures Holds(M, lit) ==> Compare(LinearValue(M, M, lit), RelationTag(lit).value)
    ensures !(lit.Not? && (lit.arg.Eq? || lit.arg.Distinct?)) ==>
      (Holds(M', lit) <==> Compare(LinearValue(M', M, lit), RelationTag(lit).value))
  {
    if !lit.Not? {
      PlainExact(M, M', lit);
      PlainExact(M, M, lit);
    } else if lit.arg.Eq? {
      DiseqExact(M, M', lit);
    } else if lit.arg.Distinct? {
      NotDistinctExact(M, M', lit);
    } else {
      NegatedOrderExact(M, M', lit);
      NegatedOrderExact(M, M, lit);
    }
  }

  lemma PlainExact(M: Model, M': Model, lit: Formula)
    requires HasOperands(M, lit) && !lit.Not?
    ensures Holds(M', lit) <==> Compare(LinearValue(M', M, lit), RelationTag(lit).value)
  {
    var (e1, e2) := Operands(M, lit);
    assert LinearValue(M', M, lit) == Eval(M', e1) - Eval(M', e2);
  }

  lemma NegatedOrderExact(M: Model, M': Model, lit: Formula)
    requires HasOperands(M, lit) && lit.Not? && !lit.arg.Eq? && !lit.arg.Distinct?
    ensures Holds(M', lit) <==> Compare(LinearValue(M', M, lit), RelationTag(lit).value)
  {
    var (e1, e2) := Operands(M, lit);
    var g := lit.arg;
    assert LinearValue(M', M, lit) == -(Eval(M', e1) - Eval(M', e2));
    assert Holds(M', lit) == !Holds(M', g);
    assert (e1, e2) == (if g.Le? || g.Lt? then (g.lhs, g.rhs) else (g.rhs, g.lhs));
  }

  lemma DiseqExact(M: Model, M': Model, lit: Formula)
    requires HasOperands(M, lit) && lit.Not? && lit.arg.Eq?
    ensures Compare(LinearValue(M', M, lit), LtT) ==> Holds(M', lit)
    ensures Holds(M, lit) ==> Compare(LinearValue(M, M, lit), LtT)
  {
    var (e1, e2) := Operands(M, lit);
    var a, b := lit.arg.lhs, lit.arg.rhs;
    assert (e1, e2) == if Eval(M, a) < Eval(M, b) then (b, a) else (a, b);
    assert LinearValue(M', M, lit) == -(Eval(M', e1) - Eval(M', e2));
    assert LinearValue(M, M, lit) == -(Eval(M, e1) - Eval(M, e2));
    assert Holds(M, lit) == (Eval(M, a) != Eval(M, b));
  }

  lemma NotDistinctExact(M: Model, M': Model, lit: Formula)
    requires HasOperands(M, lit) && lit.Not? && lit.arg.Distinct?
    ensures Compare(LinearValue(M', M, lit), EqT) ==> Holds(M', lit)
    ensures Compare(LinearValue(M, M, lit), EqT)
  {
    var args := lit.arg.args;
    var (i, j) := FirstRepeat(M, args).value;
    assert Operands(M, lit) == (args[i], args[j]);
    assert LinearValue(M', M, lit) == -(Eval(M', args[i]) - Eval(M', args[j]));
    assert LinearValue(M, M, lit) == -(Eval(M, args[i]) - Eval(M, args[j]));
    if Compare(LinearValue(M', M, lit), EqT) {
      assert Eval(M', args[j]) == Eval(M', args[i]);
    }
  }

  /** The strict literals between value-neighbours of sorted pairs: `r[i].0 < r[i + 1].0`. */
  function Neighbours(r: Valued): seq<Formula> {
    if r == [] then [] else seq(|r| - 1, i requires 0 <= i < |r| - 1 => Lt(r[i].0, r[i + 1].0))
  }

  /**
   * The literals whose constraints stand for `lit`: for `distinct`, the
   * strict literals between neighbours of its arguments sorted by value in
   * `M`; for every other literal, the literal itself.
   */
  function Parts(M: Model, lit: Formula): seq<Formula> {
    if lit.Distinct? then
      var s := Pairs(M, lit.args);
      if KeysDistinct(s) then Neighbours(SortByValue(s)) else []
    else [lit]
  }

  /** Every part of `lit` has sides, and its linear value in `M'` compares to zero as the literal's relation says. */
  predicate PartsHold(M': Model, M: Model, lit: Formula) {
    RelationTag(lit).Some? &&
    forall j :: 0 <= j < |Parts(M, lit)| ==>
      (HasOperands(M, Parts(M, lit)[j]) && Compare(LinearValue(M', M, Parts(M, lit)[j]), RelationTag(lit).value))
  }

  /**
   * The constraints a literal becomes state it: each part has sides, its
   * linear value compares in `M` as the literal's relation says, and in every
   * model `M'` where all the parts' linear values compare so, the literal
   * holds. A `distinct` of `n` arguments has `n - 1` parts, any other literal one.
   */
  lemma PartsExact(M: Model, M': Model, lit: Formula)
    requires Holds(M, lit) && RelationTag(lit).Some?
    ensures |Parts(M, lit)| == ConstraintsFor(lit)
    ensures PartsHold(M, M, lit)
    ensures PartsHold(M', M, lit) ==> Holds(M', lit)
  {
    if lit.Distinct? {
      DistinctPartsExact(M, M', lit);
    } else {
      ComparisonPartsExact(M, M', lit);
      assert Parts(M, lit)[0] == lit;
    }
  }

  lemma DistinctPartsExact(M: Model, M': Model, lit: Formula)
    requires Holds(M, lit) && RelationTag(lit).Some? && lit.Distinct?
    ensures |Parts(M, lit)| == ConstraintsFor(lit)
    ensures PartsHold(M, M, lit)
    ensures PartsHold(M', M, lit) ==> Holds(M', lit)
  {
    var s := Pairs(M, lit.args);
    PairsKeysDistinct(M, lit.args);
    var r := SortByValue(s);
    PermutedValues(M, s, r);
    PermutedLength(s, r);
    assert Parts(M, lit) == Neighbours(r);
    NeighboursHold(M, M', r);
    if PartsHold(M', M, lit) {
      DistinctFromChain(M, M', lit.args);
    }
  }

  /** The neighbour literals of pairs sorted by their values in `M` hold there, and hold in `M'` only along a chain. */
  lemma NeighboursHold(M: Model, M': Model, r: Valued)
    requires StrictlySorted(r) && ValuesOf(M, r) && r != []
    ensures |Neighbours(r)| == |r| - 1
    ensures forall j :: 0 <= j < |Neighbours(r)| ==>
      (HasOperands(M, Neighbours(r)[j]) && Compare(LinearValue(M, M, Neighbours(r)[j]), LtT))
    ensures (forall j :: 0 <= j < |Neighbours(r)| ==>
      (HasOperands(M, Neighbours(r)[j]) && Compare(LinearValue(M', M, Neighbours(r)[j]), LtT))) ==> Chain(M', r)
  {
    var ps := Neighbours(r);
    forall j | 0 <= j < |ps|
      ensures HasOperands(M, ps[j]) && Compare(LinearValue(M, M, ps[j]), LtT)
    {
      NeighbourValue(M, M, r, j);
    }
    if forall j :: 0 <= j < |ps| ==> (HasOperands(M, ps[j]) && Compare(LinearValue(M', M, ps[j]), LtT)) {
      forall i | 0 <= i < |r| - 1 ensures Eval(M', r[i].0) < Eval(M', r[i + 1].0) {
        NeighbourValue(M, M', r, i);
      }
    }
  }

  /** The linear value of the `j`-th neighbour literal is the difference of the two neighbours' values. */
  lemma NeighbourValue(M: Model, M': Model, r: Valued, j: nat)
    requires j + 1 < |r|
    ensures Neighbours(r)[j] == Lt(r[j].0, r[j + 1].0) && HasOperands(M, Neighbours(r)[j])
    ensures LinearValue(M', M, Neighbours(r)[j]) == Eval(M', r[j].0) - Eval(M', r[j + 1].0)
  {
  }

  lemma ComparisonPartsExact(M: Model, M': Model, lit: Formula)
    requires Holds(M, lit) && RelationTag(lit).Some? && !lit.Distinct?
    ensures Parts(M, lit) == [lit] && HasOperands(M, lit)
    ensures Compare(LinearValue(M, M, lit), RelationTag(lit).value)
    ensures Compare(LinearValue(M', M, lit), RelationTag(lit).value) ==> Holds(M', lit)
  {
    if lit.Not? && lit.arg.Distinct? {
      FirstRepeatExact(M, lit.arg.args);
    }
    LiteralConstraintExact(M, M', lit);
  }

  /** Position `n` of the log is a constraint of relation `ty` whose row and constant evaluate to `value`. */
  predicate ConstraintAt(log: seq<Submission>, vs: seq<EngineVar>, n: nat, ty: IneqType, value: real) {
    n < |log| && log[n].Constraint? && log[n].ty == ty && RowValue(log[n].coeffs, vs) + log[n].c == value
  }

  /**
   * The constraints of the accepted literal `lit` sit at positions `pos` of
   * the log, one per part, in order: each of the literal's relation, with a
   * row whose value is the part's linear value in `M`.
   */
  ghost predicate Submitted(M: Model, log: seq<Submission>, vs: seq<EngineVar>, lit: Formula, pos: seq<nat>) {
    RelationTag(lit).Some? && |pos| == |Parts(M, lit)| &&
    forall j :: 0 <= j < |pos| ==>
      HasOperands(M, Parts(M, lit)[j]) &&
      ConstraintAt(log, vs, pos[j], RelationTag(lit).value, LinearValue(M, M, Parts(M, lit)[j]))
  }

  /** A longer log and a larger store keep a constraint that mentions only known variables where it was. */
  lemma ConstraintAtExtend(log: seq<Submission>, vs: seq<EngineVar>, log': seq<Submission>, vs': seq<EngineVar>,
                           n: nat, ty: IneqType, value: real)
    requires ConstraintAt(log, vs, n, ty, value) && Good(log, vs)
    requires |log| <= |log'| && log'[..|log|] == log && |vs| <= |vs'| && vs'[..|vs|] == vs
    ensures ConstraintAt(log', vs', n, ty, value)
  {
    assert log'[n] == log[n] && SubmissionScoped(log[n], vs);
    assert vs' == vs + vs'[|vs|..];
    RowValueExtend(log[n].coeffs, vs, vs'[|vs|..]);
  }

  lemma SubmittedExtend(M: Model, log: seq<Submission>, vs: seq<EngineVar>, log': seq<Submission>,
                        vs': seq<EngineVar>, lit: Formula, pos: seq<nat>)
    requires Submitted(M, log, vs, lit, pos) && Good(log, vs)
    requires |log| <= |log'| && log'[..|log|] == log && |vs| <= |vs'| && vs'[..|vs|] == vs
    ensures Submitted(M, log', vs', lit, pos)
  {
    forall j | 0 <= j < |pos|
      ensures ConstraintAt(log', vs', pos[j], RelationTag(lit).value, LinearValue(M, M, Parts(M, lit)[j]))
    {
      ConstraintAtExtend(log, vs, log', vs', pos[j], RelationTag(lit).value, LinearValue(M, M, Parts(M, lit)[j]));
    }
  }

  /** The branch conditions recorded while linearizing a part's two sides. */
  function SidesConds(M: Model, p: Formula): seq<Formula> {
    if HasOperands(M, p) then IteConds(M, Operands(M, p).0) + IteConds(M, Operands(M, p).1) else []
  }

  function PartsConds(M: Model, ps: seq<Formula>): seq<Formula> {
    if ps == [] then [] else PartsConds(M, ps[..|ps| - 1]) + SidesConds(M, ps[|ps| - 1])
  }

  /** The branch conditions `linearize` appends for a literal: those of its parts, in order; none for a skipped one. */
  function Conds(M: Model, lit: Formula): seq<Formula> {
    if RelationTag(lit).Some? then PartsConds(M, Parts(M, lit)) else []
  }

  /** The atoms registered while linearizing a part's two sides. */
  function SidesAtoms(M: Model, p: Formula): set<Term> {
    if HasOperands(M, p) then TermAtoms(M, Operands(M, p).0) + TermAtoms(M, Operands(M, p).1) else {}
  }

  function PartsAtoms(M: Model, ps: seq<Formula>): set<Term> {
    if ps == [] then {} else PartsAtoms(M, ps[..|ps| - 1]) + SidesAtoms(M, ps[|ps| - 1])
  }

  /** The atoms `linearize` registers for a literal: those of its parts; none for a skipped one. */
  function LitAtoms(M: Model, lit: Formula): set<Term> {
    if RelationTag(lit).Some? then PartsAtoms(M, Parts(M, lit)) else {}
  }

  /** The last submission is the literal's constraint; everything between is a divisibility constraint. */
  predicate EndsWithConstraint(log: seq<Submission>, n: nat, ty: IneqType, value: real, vs: seq<EngineVar>) {
    n < |log| && OnlyDivides(log[..|log| - 1], n) &&
    log[|log| - 1].Constraint? && log[|log| - 1].ty == ty &&
    RowValue(log[|log| - 1].coeffs, vs) + log[|log| - 1].c == value
  }

  /** Every submission after the first `n` is a divisibility constraint or a constraint of relation `ty`. */
  predicate OnlyTagged(log: seq<Submission>, n: nat, ty: IneqType) {
    forall k :: n <= k < |log| ==> log[k].Divides? || (log[k].Constraint? && log[k].ty == ty)
  }

  lemma {:induction false} CountOnlyDivides(log: seq<Submission>, n: nat)
    requires n <= |log| && OnlyDivides(log, n)
    ensures ConstraintCount(log) == ConstraintCount(log[..n])
    decreases |log|
  {
    if |log| > n {
      var m := |log| - 1;
      assert OnlyDivides(log[..m], n);
      CountOnlyDivides(log[..m], n);
      assert log[..m][..n] == log[..n];
    } else {
      assert log[..n] == log;
    }
  }

  lemma EndsWithConstraintCount(log: seq<Submission>, n: nat, ty: IneqType, value: real, vs: seq<EngineVar>)
    requires EndsWithConstraint(log, n, ty, value, vs)
    ensures ConstraintCount(log) == ConstraintCount(log[..n]) + 1
    ensures OnlyTagged(log, n, ty)
  {
    var m := |log| - 1;
    CountOnlyDivides(log[..m], n);
    assert log[..m][..n] == log[..n];
  }

  /** Appending a constraint that holds keeps a linearization step. */
  lemma AppendConstraint(M: Model, vs0: seq<EngineVar>, log0: seq<Submission>, tids0: map<Term, nat>,
                         vs: seq<EngineVar>, log: seq<Submission>, tids: map<Term, nat>, s: Submission)
    requires Step(M, vs0, log0, tids0, vs, log, tids) && OnlyDivides(log, |log0|)
    requires s.Constraint? && SubmissionScoped(s, vs) && Satisfied(s, vs)
    ensures Step(M, vs0, log0, tids0, vs, log + [s], tids)
    ensures (log + [s])[..|log + [s]| - 1] == log
  {
    assert (log + [s])[..|log0|] == log[..|log0|];
  }

  /**
   * The map and constant built for `mul*e1 - mul*e2`: `e1` linearized with
   * `mul` into an empty map and a zero constant, then `e2` with `-mul`.
   */
  function SidesLin(M: Model, mul: real, e1: Term, e2: Term): (real, Coeffs) {
    Lin(M, -mul, e2, Lin(M, mul, e1, 0.0, []).0, Lin(M, mul, e1, 0.0, []).1)
  }

  /** The divisibility rows of the `mod`s of both sides, those of `e1` first. */
  function SidesDivs(M: Model, e1: Term, e2: Term): seq<DivRow> {
    ModDivs(M, e1) + ModDivs(M, e2)
  }

  /** Every map submitted for `mul*e1 - mul*e2` mentions only atoms of the registry. */
  predicate SidesRegistered(M: Model, mul: real, e1: Term, e2: Term, tids: map<Term, nat>) {
    DivsRegistered(SidesDivs(M, e1, e2), tids) && InRegistry(SidesLin(M, mul, e1, e2).1, tids)
  }

  /**
   * What linearizing `mul*e1 - mul*e2  ty  0` submits, over the registry
   * `tids`: the divisibility constraints of both sides, then the constraint
   * whose row is the built map, extracted, and whose constant is the built one.
   */
  function SidesSubs(M: Model, mul: real, e1: Term, e2: Term, ty: IneqType, tids: map<Term, nat>): seq<Submission>
    requires SidesRegistered(M, mul, e1, e2, tids)
  {
    DivSubs(SidesDivs(M, e1, e2), tids) +
    [Constraint(ToVars(SidesLin(M, mul, e1, e2).1, tids), SidesLin(M, mul, e1, e2).0, ty)]
  }

  /** Registering more atoms changes none of those submissions. */
  lemma SidesSubsExtend(M: Model, mul: real, e1: Term, e2: Term, ty: IneqType,
                        tids: map<Term, nat>, tids': map<Term, nat>)
    requires SidesRegistered(M, mul, e1, e2, tids)
    requires forall x :: x in tids ==> x in tids' && tids'[x] == tids[x]
    ensures SidesRegistered(M, mul, e1, e2, tids')
    ensures SidesSubs(M, mul, e1, e2, ty, tids') == SidesSubs(M, mul, e1, e2, ty, tids)
  {
    DivSubsExtend(SidesDivs(M, e1, e2), tids, tids');
    ToVarsExtend(SidesLin(M, mul, e1, e2).1, tids, tids');
  }

  /**
   * The built map plus constant is `mul` times the difference of the sides in
   * the model, and the map holds exactly the atoms of both sides.
   */
  lemma SidesLinValue(M: Model, mul: real, e1: Term, e2: Term)
    ensures SumVal(M, SidesLin(M, mul, e1, e2).1) + SidesLin(M, mul, e1, e2).0 == Scale(mul, Eval(M, e1) - Eval(M, e2))
    ensures KeySet(SidesLin(M, mul, e1, e2).1) == Atoms(M, e1) + Atoms(M, e2)
  {
    var r1 := Lin(M, mul, e1, 0.0, []);
    var r := Lin(M, -mul, e2, r1.0, r1.1);
    SidesLinSplit(M, mul, e1, e2, r1.0, r1.1, r.0, r.1);
  }

  lemma SidesLinSplit(M: Model, mul: real, e1: Term, e2: Term, c1: real, ts1: Coeffs, c: real, ts: Coeffs)
    requires (c1, ts1) == Lin(M, mul, e1, 0.0, []) && (c, ts) == Lin(M, -mul, e2, c1, ts1)
    ensures (c, ts) == SidesLin(M, mul, e1, e2)
    ensures SumVal(M, ts) + c == Scale(mul, Eval(M, e1) - Eval(M, e2))
    ensures KeySet(ts) == Atoms(M, e1) + Atoms(M, e2)
  {
    LinValue(M, mul, e1, 0.0, []);
    LinValue(M, -mul, e2, c1, ts1);
    SumValNil(M, []);
    DifferenceScaled(mul, -mul, Eval(M, e1), Eval(M, e2), Eval(M, e1) - Eval(M, e2), c, SumVal(M, ts),
                     0.0, SumVal(M, []), c1 + SumVal(M, ts1));
    DifferenceLin(M, mul, e1, e2, c1, ts1, c, ts);
  }

  /**
   * Over a registry whose atoms carry their model values, the submitted
   * constraint's row plus constant is `mul` times the difference of the
   * sides, and every divisibility constraint before it holds.
   */
  lemma SidesSubsValue(M: Model, mul: real, e1: Term, e2: Term, ty: IneqType, vs: seq<EngineVar>, tids: map<Term, nat>)
    requires Registered(M, vs, tids) && SidesRegistered(M, mul, e1, e2, tids)
    ensures var s := SidesSubs(M, mul, e1, e2, ty, tids)[|SidesSubs(M, mul, e1, e2, ty, tids)| - 1];
      s.Constraint? && s.ty == ty && RowValue(s.coeffs, vs) + s.c == Scale(mul, Eval(M, e1) - Eval(M, e2))
    ensures DivsHold(M, SidesDivs(M, e1, e2))
  {
    SidesLinValue(M, mul, e1, e2);
    ToVarsValue(M, SidesLin(M, mul, e1, e2).1, vs, tids);
    ModDivsHold(M, e1);
    ModDivsHold(M, e2);
    DivsHoldAppend(M, ModDivs(M, e1), ModDivs(M, e2));
  }

  /** Every map submitted for the part `p` mentions only atoms of the registry. */
  predicate PartRegistered(M: Model, p: Formula, tids: map<Term, nat>) {
    HasOperands(M, p) && SidesRegistered(M, Sign(p), Operands(M, p).0, Operands(M, p).1, tids)
  }

  /** What linearizing the part `p` submits: the submissions of its sides, with its sign and relation. */
  function PartSubs(M: Model, p: Formula, tids: map<Term, nat>): seq<Submission>
    requires PartRegistered(M, p, tids)
  {
    SidesSubs(M, Sign(p), Operands(M, p).0, Operands(M, p).1, RelationTag(p).value, tids)
  }

  predicate PartsRegistered(M: Model, ps: seq<Formula>, tids: map<Term, nat>) {
    forall j :: 0 <= j < |ps| ==> PartRegistered(M, ps[j], tids)
  }

  function PartsSubs(M: Model, ps: seq<Formula>, tids: map<Term, nat>): seq<Submission>
    requires PartsRegistered(M, ps, tids)
  {
    if ps == [] then [] else PartsSubs(M, ps[..|ps| - 1], tids) + PartSubs(M, ps[|ps| - 1], tids)
  }

  /** Every map submitted for an accepted literal mentions only atoms of the registry. */
  predicate LitRegistered(M: Model, lit: Formula, tids: map<Term, nat>) {
    RelationTag(lit).Some? ==> PartsRegistered(M, Parts(M, lit), tids)
  }

  /**
   * What `linearize` submits for `lit`, over the registry `tids`: part after
   * part, the divisibility constraints of its sides and then its constraint;
   * nothing for a skipped literal.
   */
  function LitSubs(M: Model, lit: Formula, tids: map<Term, nat>): seq<Submission>
    requires LitRegistered(M, lit, tids)
  {
    if RelationTag(lit).Some? then PartsSubs(M, Parts(M, lit), tids) else []
  }

  lemma {:induction false} PartsSubsExtend(M: Model, ps: seq<Formula>, tids: map<Term, nat>, tids': map<Term, nat>)
    requires PartsRegistered(M, ps, tids)
    requires forall x :: x in tids ==> x in tids' && tids'[x] == tids[x]
    ensures PartsRegistered(M, ps, tids') && PartsSubs(M, ps, tids') == PartsSubs(M, ps, tids)
    decreases |ps|
  {
    forall j | 0 <= j < |ps|
      ensures PartRegistered(M, ps[j], tids') && PartSubs(M, ps[j], tids') == PartSubs(M, ps[j], tids)
    {
      var p := ps[j];
      SidesSubsExtend(M, Sign(p), Operands(M, p).0, Operands(M, p).1, RelationTag(p).value, tids, tids');
    }
    if ps != [] {
      PartsSubsExtend(M, ps[..|ps| - 1], tids, tids');
    }
  }

  /** Registering more atoms changes none of a literal's submissions. */
  lemma LitSubsExtend(M: Model, lit: Formula, tids: map<Term, nat>, tids': map<Term, nat>)
    requires LitRegistered(M, lit, tids)
    requires forall x :: x in tids ==> x in tids' && tids'[x] == tids[x]
    ensures LitRegistered(M, lit, tids') && LitSubs(M, lit, tids') == LitSubs(M, lit, tids)
  {
    if RelationTag(lit).Some? {
      PartsSubsExtend(M, Parts(M, lit), tids, tids');
    }
  }

  /**
   * Over a registry whose atoms carry their model values, the constraint
   * each part submits has the part's relation and evaluates to the part's
   * linear value: the exact rows agree with `Submitted`.
   */
  lemma PartSubsValue(M: Model, p: Formula, vs: seq<EngineVar>, tids: map<Term, nat>)
    requires Registered(M, vs, tids) && PartRegistered(M, p, tids)
    ensures var s := PartSubs(M, p, tids)[|PartSubs(M, p, tids)| - 1];
      s.Constraint? && s.ty == RelationTag(p).value && RowValue(s.coeffs, vs) + s.c == LinearValue(M, M, p)
  {
    SidesSubsValue(M, Sign(p), Operands(M, p).0, Operands(M, p).1, RelationTag(p).value, vs, tids);
  }

  /**
   * The common tail of literal linearization, first half: `mul*e1 - mul*e2`
   * is linearized and its atoms registered; the row and constant returned
   * evaluate to the difference under the model.
   */
  method LinearizeDifference(eng: Engine, M: Model, mul: real, e1: Term, e2: Term,
                             fmls: seq<Formula>, tids: map<Term, nat>)
    returns (coeffs: seq<Var>, c: real, fmls': seq<Formula>, tids': map<Term, nat>)
    requires Registered(M, eng.vars, tids) && Good(eng.log, eng.vars)
    modifies eng
    ensures Step(M, old(eng.vars), old(eng.log), tids, eng.vars, eng.log, tids')
    ensures OnlyDivides(eng.log, |old(eng.log)|)
    ensures Scoped(coeffs, eng.vars)
    ensures RowValue(coeffs, eng.vars) + c == Scale(mul, Eval(M, e1) - Eval(M, e2))
    ensures fmls' == fmls + IteConds(M, e1) + IteConds(M, e2)
    ensures tids'.Keys == tids.Keys + TermAtoms(M, e1) + TermAtoms(M, e2)
    ensures SidesRegistered(M, mul, e1, e2, tids')
    ensures coeffs == ToVars(SidesLin(M, mul, e1, e2).1, tids') && c == SidesLin(M, mul, e1, e2).0
    ensures eng.log == old(eng.log) + DivSubs(SidesDivs(M, e1, e2), tids')
  {
    ghost var vs0, log0 := eng.vars, eng.log;
    var ts, tids1;
    c, ts, fmls', tids1 := LinearizeSides(eng, M, mul, e1, e2, fmls, tids);
    ghost var vs1, log1 := eng.vars, eng.log;
    coeffs, tids' := Extract(eng, M, ts, tids1);
    StepTrans(M, vs0, log0, tids, vs1, log1, tids1, eng.vars, eng.log, tids');
    DifferenceAtoms(tids.Keys, tids1.Keys, tids'.Keys, KeySet(ts), M, e1, e2);
    DivSubsExtend(SidesDivs(M, e1, e2), tids1, tids');
  }

  /**
   * The two sides go into one fresh map, `e1` with `mul` and `e2` with `-mul`:
   * the map plus the constant is `mul` times their difference.
   */
  method LinearizeSides(eng: Engine, M: Model, mul: real, e1: Term, e2: Term,
                        fmls: seq<Formula>, tids: map<Term, nat>)
    returns (c: real, ts: Coeffs, fmls': seq<Formula>, tids': map<Term, nat>)
    requires Registered(M, eng.vars, tids) && Good(eng.log, eng.vars)
    modifies eng
    ensures Step(M, old(eng.vars), old(eng.log), tids, eng.vars, eng.log, tids')
    ensures OnlyDivides(eng.log, |old(eng.log)|)
    ensures SumVal(M, ts) + c == Scale(mul, Eval(M, e1) - Eval(M, e2))
    ensures fmls' == fmls + IteConds(M, e1) + IteConds(M, e2)
    ensures tids'.Keys == tids.Keys + ModAtoms(M, e1) + ModAtoms(M, e2)
    ensures KeySet(ts) == Atoms(M, e1) + Atoms(M, e2)
    ensures (c, ts) == SidesLin(M, mul, e1, e2)
    ensures DivsRegistered(SidesDivs(M, e1, e2), tids') && eng.log == old(eng.log) + DivSubs(SidesDivs(M, e1, e2), tids')
  {
    ghost var vs0, log0 := eng.vars, eng.log;
    var ts0: Coeffs, c0, neg := [], 0.0, -mul;
    var c1, fmls1, ts1, tids1 := LinearizeTerm(eng, M, mul, e1, c0, fmls, ts0, tids);
    ghost var vs1, log1 := eng.vars, eng.log;
    c, fmls', ts, tids' := LinearizeTerm(eng, M, neg, e2, c1, fmls1, ts1, tids1);
    StepDivTrans(M, vs0, log0, tids, vs1, log1, tids1, eng.vars, eng.log, tids');
    SidesLinSplit(M, mul, e1, e2, c1, ts1, c, ts);
    DivsThen(log0, log1, eng.log, ModDivs(M, e1), ModDivs(M, e2), tids1, tids');
  }

  /** The map built from both sides holds exactly their atoms. */
  lemma DifferenceLin(M: Model, mul: real, e1: Term, e2: Term, c1: real, ts1: Coeffs, c: real, ts: Coeffs)
    requires (c1, ts1) == Lin(M, mul, e1, 0.0, []) && (c, ts) == Lin(M, -mul, e2, c1, ts1)
    ensures KeySet(ts) == Atoms(M, e1) + Atoms(M, e2)
  {
    LinKeys(M, mul, e1, 0.0, []);
    LinKeys(M, -mul, e2, c1, ts1);
    assert KeySet([]) == {};
  }

  /** Linearizing both sides and extracting the map registers the atoms of both sides. */
  lemma DifferenceAtoms(k0: set<Term>, k1: set<Term>, k2: set<Term>, keys: set<Term>, M: Model, e1: Term, e2: Term)
    requires k1 == k0 + ModAtoms(M, e1) + ModAtoms(M, e2) && keys == Atoms(M, e1) + Atoms(M, e2)
    requires k2 == k1 + keys
    ensures k2 == k0 + TermAtoms(M, e1) + TermAtoms(M, e2)
  {
  }


  /**
   * The common tail of literal linearization: `mul*e1 - mul*e2` is
   * linearized, its atoms registered, and the constraint `row ty 0` submitted.
   */
  method LinearizeRelation(eng: Engine, M: Model, mul: real, e1: Term, e2: Term, ty: IneqType,
                           fmls: seq<Formula>, tids: map<Term, nat>)
    returns (fmls': seq<Formula>, tids': map<Term, nat>)
    requires Registered(M, eng.vars, tids) && Good(eng.log, eng.vars)
    requires Compare(Scale(mul, Eval(M, e1) - Eval(M, e2)), ty)
    modifies eng
    ensures Step(M, old(eng.vars), old(eng.log), tids, eng.vars, eng.log, tids')
    ensures EndsWithConstraint(eng.log, |old(eng.log)|, ty, Scale(mul, Eval(M, e1) - Eval(M, e2)), eng.vars)
    ensures fmls' == fmls + IteConds(M, e1) + IteConds(M, e2)
    ensures tids'.Keys == tids.Keys + TermAtoms(M, e1) + TermAtoms(M, e2)
    ensures SidesRegistered(M, mul, e1, e2, tids') && eng.log == old(eng.log) + SidesSubs(M, mul, e1, e2, ty, tids')
  {
    ghost var vs0, log0 := eng.vars, eng.log;
    var coeffs, c;
    coeffs, c, fmls', tids' := LinearizeDifference(eng, M, mul, e1, e2, fmls, tids);
    ghost var log3 := eng.log;
    eng.AddConstraint(coeffs, c, ty);
    RelationDone(M, mul, e1, e2, ty, vs0, log0, tids, eng.vars, log3, tids', coeffs, c);
  }

  /** The constraint over the sides' difference closes what the sides submit. */
  lemma RelationDone(M: Model, mul: real, e1: Term, e2: Term, ty: IneqType,
                     vs0: seq<EngineVar>, log0: seq<Submission>, tids0: map<Term, nat>,
                     vs: seq<EngineVar>, log3: seq<Submission>, tids: map<Term, nat>, coeffs: seq<Var>, c: real)
    requires Compare(Scale(mul, Eval(M, e1) - Eval(M, e2)), ty)
    requires Step(M, vs0, log0, tids0, vs, log3, tids) && OnlyDivides(log3, |log0|)
    requires Scoped(coeffs, vs) && RowValue(coeffs, vs) + c == Scale(mul, Eval(M, e1) - Eval(M, e2))
    requires SidesRegistered(M, mul, e1, e2, tids)
    requires coeffs == ToVars(SidesLin(M, mul, e1, e2).1, tids) && c == SidesLin(M, mul, e1, e2).0
    requires log3 == log0 + DivSubs(SidesDivs(M, e1, e2), tids)
    ensures Step(M, vs0, log0, tids0, vs, log3 + [Constraint(coeffs, c, ty)], tids)
    ensures EndsWithConstraint(log3 + [Constraint(coeffs, c, ty)], |log0|, ty, Scale(mul, Eval(M, e1) - Eval(M, e2)), vs)
    ensures log3 + [Constraint(coeffs, c, ty)] == log0 + SidesSubs(M, mul, e1, e2, ty, tids)
  {
    ConstraintDone(M, vs0, log0, tids0, vs, log3, tids, coeffs, c, ty, Scale(mul, Eval(M, e1) - Eval(M, e2)));
    RelationLog(M, mul, e1, e2, ty, log0, log3, log3 + [Constraint(coeffs, c, ty)], tids, coeffs, c);
  }

  /** The sides' divisibility constraints, then the constraint over the built map: what the sides submit. */
  lemma RelationLog(M: Model, mul: real, e1: Term, e2: Term, ty: IneqType,
                    log0: seq<Submission>, log3: seq<Submission>, log: seq<Submission>,
                    tids: map<Term, nat>, coeffs: seq<Var>, c: real)
    requires SidesRegistered(M, mul, e1, e2, tids)
    requires coeffs == ToVars(SidesLin(M, mul, e1, e2).1, tids) && c == SidesLin(M, mul, e1, e2).0
    requires log3 == log0 + DivSubs(SidesDivs(M, e1, e2), tids)
    requires log == log3 + [Constraint(coeffs, c, ty)]
    ensures log == log0 + SidesSubs(M, mul, e1, e2, ty, tids)
  {
    SubsAssoc(log0, DivSubs(SidesDivs(M, e1, e2), tids), [Constraint(coeffs, c, ty)]);
  }

  /** The constraint `row ty 0`, true at the engine's values, ends the log. */
  lemma ConstraintDone(M: Model, vs0: seq<EngineVar>, log0: seq<Submission>, tids0: map<Term, nat>,
                       vs: seq<EngineVar>, log: seq<Submission>, tids: map<Term, nat>,
                       coeffs: seq<Var>, c: real, ty: IneqType, value: real)
    requires Step(M, vs0, log0, tids0, vs, log, tids) && OnlyDivides(log, |log0|)
    requires Scoped(coeffs, vs) && RowValue(coeffs, vs) + c == value && Compare(value, ty)
    ensures Step(M, vs0, log0, tids0, vs, log + [Constraint(coeffs, c, ty)], tids)
    ensures EndsWithConstraint(log + [Constraint(coeffs, c, ty)], |log0|, ty, value, vs)
  {
    AppendConstraint(M, vs0, log0, tids0, vs, log, tids, Constraint(coeffs, c, ty));
  }

  /**
   * The loop that looks for two arguments of a false `distinct` with the same
   * value, remembering the first argument seen for each value.
   */
  method FindRepeat(M: Model, args: seq<Term>) returns (found: bool, arg1: Term, arg2: Term)
    ensures found <==> FirstRepeat(M, args).Some?
    ensures found ==> arg1 == args[FirstRepeat(M, args).value.0] && arg2 == args[FirstRepeat(M, args).value.1]
  {
    var values: map<real, Term> := map[];
    found, arg1, arg2 := false, Num(0.0, false), Num(0.0, false);
    var i := 0;
    while !found && i < |args|
      invariant i <= |args| && Seen(M, args, values, i)
      invariant !found ==> FirstRepeat(M, args) == FirstRepeatFrom(M, args, i)
      invariant found ==> (FirstRepeat(M, args).Some? &&
        arg1 == args[FirstRepeat(M, args).value.0] && arg2 == args[FirstRepeat(M, args).value.1])
      decreases |args| - i, if found then 0 else 1
    {
      var r := Eval(M, args[i]);
      if r in values {
        SeenRepeat(M, args, values, i);
        arg1, arg2 := args[i], values[r];
        found := true;
      } else {
        SeenStep(M, args, values, i);
        values := values[r := args[i]];
        i := i + 1;
      }
    }
  }

  /** `values` maps each value met among the first `i` arguments to the first argument that has it. */
  ghost predicate Seen(M: Model, args: seq<Term>, values: map<real, Term>, i: nat)
    requires i <= |args|
  {
    (forall v :: v in values <==> FirstIndexFrom(M, args, v, 0, i).Some?) &&
    (forall v :: v in values ==> values[v] == args[FirstIndexFrom(M, args, v, 0, i).value])
  }

  /** A value already met: the `i`-th argument is the first repeat, paired with the argument remembered for it. */
  lemma SeenRepeat(M: Model, args: seq<Term>, values: map<real, Term>, i: nat)
    requires i < |args| && Seen(M, args, values, i) && Eval(M, args[i]) in values
    ensures FirstRepeatFrom(M, args, i).Some?
    ensures FirstRepeatFrom(M, args, i).value.0 == i
    ensures args[FirstRepeatFrom(M, args, i).value.1] == values[Eval(M, args[i])]
  {
  }

  /** A new value: it is remembered, and the first repeat lies further on. */
  lemma SeenStep(M: Model, args: seq<Term>, values: map<real, Term>, i: nat)
    requires i < |args| && Seen(M, args, values, i) && Eval(M, args[i]) !in values
    ensures Seen(M, args, values[Eval(M, args[i]) := args[i]], i + 1)
    ensures FirstRepeatFrom(M, args, i) == FirstRepeatFrom(M, args, i + 1)
  {
    var r := Eval(M, args[i]);
    forall v ensures FirstIndexFrom(M, args, v, 0, i + 1) ==
      (if v == r then Some(i) else FirstIndexFrom(M, args, v, 0, i)) {
      FirstIndexGrow(M, args, v, i);
    }
  }

  lemma FirstIndexGrow(M: Model, args: seq<Term>, v: real, n: nat)
    requires n < |args|
    ensures FirstIndexFrom(M, args, v, 0, n + 1) ==
      (if FirstIndexFrom(M, args, v, 0, n).Some? then FirstIndexFrom(M, args, v, 0, n)
       else if Eval(M, args[n]) == v then Some(n) else None)
  {
    var a, b := FirstIndexFrom(M, args, v, 0, n + 1), FirstIndexFrom(M, args, v, 0, n);
    if b.Some? {
      assert a.Some? && a.value <= b.value;
    }
  }

  /** How many constraints a linearized literal submits. */
  function ConstraintsFor(lit: Formula): nat {
    if lit.Distinct? && |lit.args| > 0 then |lit.args| - 1 else 1
  }

  /** A literal vector that only grew by appending is the old one followed by what was appended. */
  lemma Appended(M: Model, fs: seq<Formula>, fs1: seq<Formula>)
    requires |fs| <= |fs1| && fs1[..|fs|] == fs
    requires forall k :: |fs| <= k < |fs1| ==> Holds(M, fs1[k])
    ensures fs1 == fs + fs1[|fs|..]
    ensures forall k :: 0 <= k < |fs1| - |fs| ==> Holds(M, fs1[|fs|..][k])
  {
  }

  /**
   * `linearize` on a literal true in the model. It succeeds exactly on the
   * literals `RelationTag` accepts, and then submits `ConstraintsFor(lit)`
   * constraints, all of its relation; for a literal other than `distinct` the
   * constraint's row is the linear value of the literal, which by
   * `LiteralConstraintExact` states it. A skipped literal changes nothing.
   * The branch conditions recorded on the way hold in the model.
   */
  method LinearizeLit(eng: Engine, M: Model, lit: Formula, fmls: seq<Formula>, tids: map<Term, nat>)
    returns (ok: bool, fmls': seq<Formula>, tids': map<Term, nat>, ghost pos: seq<nat>)
    requires Holds(M, lit) && Registered(M, eng.vars, tids) && Good(eng.log, eng.vars)
    modifies eng
    ensures ok <==> RelationTag(lit).Some?
    ensures !ok ==> eng.vars == old(eng.vars) && eng.log == old(eng.log) && fmls' == fmls && tids' == tids
    ensures Step(M, old(eng.vars), old(eng.log), tids, eng.vars, eng.log, tids')
    ensures |fmls| <= |fmls'| && fmls'[..|fmls|] == fmls
    ensures forall k :: |fmls| <= k < |fmls'| ==> Holds(M, fmls'[k])
    ensures ok ==> OnlyTagged(eng.log, |old(eng.log)|, RelationTag(lit).value)
    ensures ok ==> ConstraintCount(eng.log) == ConstraintCount(old(eng.log)) + ConstraintsFor(lit)
    ensures SumW(fmls'[|fmls|..]) < WeightF(lit)
    ensures ok && !lit.Distinct? ==> (HasOperands(M, lit) &&
      EndsWithConstraint(eng.log, |old(eng.log)|, RelationTag(lit).value, LinearValue(M, M, lit), eng.vars))
    ensures ok ==> Submitted(M, eng.log, eng.vars, lit, pos) && forall j :: 0 <= j < |pos| ==> |old(eng.log)| <= pos[j]
    ensures fmls' == fmls + Conds(M, lit)
    ensures tids'.Keys == tids.Keys + LitAtoms(M, lit)
    ensures LitRegistered(M, lit, tids') && eng.log == old(eng.log) + LitSubs(M, lit, tids')
    decreases if lit.Distinct? then 5 else 0
  {
    DistinctTag(lit);
    if lit.Distinct? && |lit.args| > 0 && IsArith(lit.args[0]) {
      ok := true;
      fmls', tids', pos := LinearizeDistinct(eng, M, lit, fmls, tids);
    } else if RelationTag(lit).Some? {
      ok := true;
      fmls', tids', pos := LinearizeComparison(eng, M, lit, fmls, tids);
    } else {
      ok, fmls', tids', pos := false, fmls, tids, [];
      assert eng.log[..|eng.log|] == eng.log && eng.vars[..|eng.vars|] == eng.vars;
      assert fmls'[|fmls|..] == [] && fmls' == fmls + [];
      assert eng.log == eng.log + LitSubs(M, lit, tids');
    }
  }

  /** A `distinct` counts exactly when its first argument is arithmetic. */
  lemma DistinctTag(lit: Formula)
    ensures lit.Distinct? ==> (RelationTag(lit).Some? <==> |lit.args| > 0 && IsArith(lit.args[0]))
  {
  }

  /** The constraint ending the log is the single part's constraint of a comparison. */
  lemma ComparisonSubmitted(M: Model, lit: Formula, log0: seq<Submission>, log: seq<Submission>,
                            vs: seq<EngineVar>, pos: seq<nat>)
    requires RelationTag(lit).Some? && !lit.Distinct? && HasOperands(M, lit)
    requires |log0| <= |log| && log[..|log0|] == log0
    requires EndsWithConstraint(log, |log0|, RelationTag(lit).value, LinearValue(M, M, lit), vs)
    requires pos == [|log| - 1]
    ensures Submitted(M, log, vs, lit, pos) && forall j :: 0 <= j < |pos| ==> |log0| <= pos[j]
    ensures OnlyTagged(log, |log0|, RelationTag(lit).value) && ConstraintCount(log) == ConstraintCount(log0) + 1
  {
    EndsWithConstraintCount(log, |log0|, RelationTag(lit).value, LinearValue(M, M, lit), vs);
    assert Parts(M, lit)[0] == lit;
  }

  /**
   * The relations other than `distinct`: the two sides are chosen as the
   * source's case split chooses them and the constraint of the literal's
   * relation submitted.
   */
  method LinearizeComparison(eng: Engine, M: Model, lit: Formula, fmls: seq<Formula>, tids: map<Term, nat>)
    returns (fmls': seq<Formula>, tids': map<Term, nat>, ghost pos: seq<nat>)
    requires RelationTag(lit).Some? && !lit.Distinct?
    requires Holds(M, lit) && Registered(M, eng.vars, tids) && Good(eng.log, eng.vars)
    modifies eng
    ensures Step(M, old(eng.vars), old(eng.log), tids, eng.vars, eng.log, tids')
    ensures |fmls| <= |fmls'| && fmls'[..|fmls|] == fmls
    ensures forall k :: |fmls| <= k < |fmls'| ==> Holds(M, fmls'[k])
    ensures SumW(fmls'[|fmls|..]) < WeightF(lit)
    ensures HasOperands(M, lit)
    ensures EndsWithConstraint(eng.log, |old(eng.log)|, RelationTag(lit).value, LinearValue(M, M, lit), eng.vars)
    ensures fmls' == fmls + Conds(M, lit)
    ensures OnlyTagged(eng.log, |old(eng.log)|, RelationTag(lit).value)
    ensures ConstraintCount(eng.log) == ConstraintCount(old(eng.log)) + 1
    ensures Submitted(M, eng.log, eng.vars, lit, pos) && forall j :: 0 <= j < |pos| ==> |old(eng.log)| <= pos[j]
    ensures tids'.Keys == tids.Keys + LitAtoms(M, lit)
    ensures LitRegistered(M, lit, tids') && eng.log == old(eng.log) + LitSubs(M, lit, tids')
  {
    var e1, e2, ty := ChooseOperands(M, lit);
    var mul := Sign(lit);
    OperandsCompare(M, lit, e1, e2, mul);
    fmls', tids' := LinearizeRelation(eng, M, mul, e1, e2, ty, fmls, tids);
    pos := [|eng.log| - 1];
    ComparisonDone(M, lit, e1, e2, mul, fmls, fmls', old(eng.log), eng.log, eng.vars, tids, tids', pos);
    ComparisonSubs(M, lit, e1, e2, mul, ty, tids');
  }

  /** A comparison is its own single part: it submits what its chosen sides submit. */
  lemma ComparisonSubs(M: Model, lit: Formula, e1: Term, e2: Term, mul: real, ty: IneqType, tids: map<Term, nat>)
    requires RelationTag(lit).Some? && !lit.Distinct? && HasOperands(M, lit)
    requires Operands(M, lit) == (e1, e2) && mul == Sign(lit) && ty == RelationTag(lit).value
    requires SidesRegistered(M, mul, e1, e2, tids)
    ensures LitRegistered(M, lit, tids) && LitSubs(M, lit, tids) == SidesSubs(M, mul, e1, e2, ty, tids)
  {
    var ps := Parts(M, lit);
    assert ps == [lit] && ps[..0] == [];
    assert PartsSubs(M, ps, tids) == PartsSubs(M, ps[..0], tids) + PartSubs(M, lit, tids);
  }

  /** What linearizing the chosen sides leaves behind is what the comparison promises. */
  lemma ComparisonDone(M: Model, lit: Formula, e1: Term, e2: Term, mul: real, fmls: seq<Formula>, fmls': seq<Formula>,
                       log0: seq<Submission>, log: seq<Submission>, vs: seq<EngineVar>,
                       tids: map<Term, nat>, tids': map<Term, nat>, pos: seq<nat>)
    requires RelationTag(lit).Some? && !lit.Distinct? && Holds(M, lit)
    requires HasOperands(M, lit) && Operands(M, lit) == (e1, e2) && mul == Sign(lit)
    requires |log0| <= |log| && log[..|log0|] == log0
    requires EndsWithConstraint(log, |log0|, RelationTag(lit).value, Scale(mul, Eval(M, e1) - Eval(M, e2)), vs)
    requires fmls' == fmls + IteConds(M, e1) + IteConds(M, e2)
    requires tids'.Keys == tids.Keys + TermAtoms(M, e1) + TermAtoms(M, e2)
    requires pos == [|log| - 1]
    ensures |fmls| <= |fmls'| && fmls'[..|fmls|] == fmls
    ensures forall k :: |fmls| <= k < |fmls'| ==> Holds(M, fmls'[k])
    ensures SumW(fmls'[|fmls|..]) < WeightF(lit)
    ensures EndsWithConstraint(log, |log0|, RelationTag(lit).value, LinearValue(M, M, lit), vs)
    ensures fmls' == fmls + Conds(M, lit)
    ensures OnlyTagged(log, |log0|, RelationTag(lit).value)
    ensures ConstraintCount(log) == ConstraintCount(log0) + 1
    ensures Submitted(M, log, vs, lit, pos) && forall j :: 0 <= j < |pos| ==> |log0| <= pos[j]
    ensures tids'.Keys == tids.Keys + LitAtoms(M, lit)
  {
    OperandsDone(M, lit, e1, e2, mul, log, |log0|, vs);
    OperandsConds(M, lit, e1, e2, fmls, fmls');
    ComparisonConds(M, lit, e1, e2, fmls, fmls');
    ComparisonAtoms(M, lit, e1, e2);
    ComparisonSubmitted(M, lit, log0, log, vs, pos);
  }

  /** A comparison appends the conditions of its two sides, its only part's. */
  lemma ComparisonConds(M: Model, lit: Formula, e1: Term, e2: Term, fmls: seq<Formula>, fmls': seq<Formula>)
    requires RelationTag(lit).Some? && !lit.Distinct? && HasOperands(M, lit) && Operands(M, lit) == (e1, e2)
    requires fmls' == fmls + IteConds(M, e1) + IteConds(M, e2)
    ensures fmls' == fmls + Conds(M, lit)
  {
    var ps := Parts(M, lit);
    assert ps == [lit] && ps[..0] == [];
    assert SidesConds(M, lit) == IteConds(M, e1) + IteConds(M, e2);
    assert PartsConds(M, ps) == PartsConds(M, []) + SidesConds(M, lit);
    AppendAssoc(fmls, IteConds(M, e1), IteConds(M, e2));
  }

  /** A comparison registers the atoms of its two sides, its only part's. */
  lemma ComparisonAtoms(M: Model, lit: Formula, e1: Term, e2: Term)
    requires RelationTag(lit).Some? && !lit.Distinct? && HasOperands(M, lit) && Operands(M, lit) == (e1, e2)
    ensures LitAtoms(M, lit) == TermAtoms(M, e1) + TermAtoms(M, e2)
  {
    var ps := Parts(M, lit);
    assert ps == [lit] && ps[..0] == [];
    assert PartsAtoms(M, ps) == PartsAtoms(M, []) + SidesAtoms(M, lit);
  }

  /**
   * The summands of `x + y <= 3` are entered one by one: the literal registers
   * exactly the two constants, never the sum as a whole.
   */
  lemma SummandsAreAtoms(M: Model, x: Decl, y: Decl)
    ensures LitAtoms(M, Le(Add([Const(x), Const(y)]), Num(3.0, true))) == {Const(x), Const(y)}
  {
    var sum := Add([Const(x), Const(y)]);
    var lit := Le(sum, Num(3.0, true));
    assert HasOperands(M, lit) && Operands(M, lit) == (sum, Num(3.0, true));
    ComparisonAtoms(M, lit, sum, Num(3.0, true));
    var one, two := [Const(x)], [Const(x), Const(y)];
    assert one[..|one| - 1] == [] && two[..|two| - 1] == one;
    assert AtomsSeq(M, one) == AtomsSeq(M, []) + Atoms(M, Const(x)) == {Const(x)};
    assert ModAtomsSeq(M, one) == ModAtomsSeq(M, []) + ModAtoms(M, Const(x)) == {};
    assert AtomsSeq(M, two) == AtomsSeq(M, one) + Atoms(M, Const(y));
    assert ModAtomsSeq(M, two) == ModAtomsSeq(M, one) + ModAtoms(M, Const(y));
  }

  /** The literal, true in `M`, makes its constraint's value compare to zero as its relation says. */
  lemma OperandsCompare(M: Model, lit: Formula, e1: Term, e2: Term, mul: real)
    requires Holds(M, lit) && HasOperands(M, lit) && Operands(M, lit) == (e1, e2) && mul == Sign(lit)
    ensures Compare(Scale(mul, Eval(M, e1) - Eval(M, e2)), RelationTag(lit).value)
  {
    LinearValueIs(M, lit, e1, e2, mul);
    LiteralConstraintExact(M, M, lit);
  }

  /** The literal's linear value, written over the chosen sides. */
  lemma LinearValueIs(M: Model, lit: Formula, e1: Term, e2: Term, mul: real)
    requires HasOperands(M, lit) && Operands(M, lit) == (e1, e2) && mul == Sign(lit)
    ensures LinearValue(M, M, lit) == Scale(mul, Eval(M, e1) - Eval(M, e2))
  {
  }

  /** The constraint built from the chosen sides is the literal's constraint. */
  lemma OperandsDone(M: Model, lit: Formula, e1: Term, e2: Term, mul: real,
                     log: seq<Submission>, n: nat, vs: seq<EngineVar>)
    requires HasOperands(M, lit) && Operands(M, lit) == (e1, e2) && mul == Sign(lit)
    requires EndsWithConstraint(log, n, RelationTag(lit).value, Scale(mul, Eval(M, e1) - Eval(M, e2)), vs)
    ensures EndsWithConstraint(log, n, RelationTag(lit).value, LinearValue(M, M, lit), vs)
  {
    LinearValueIs(M, lit, e1, e2, mul);
  }

  /**
   * The case split on the literal: the sides are swapped for `>=` and `>`,
   * ordered by value for a disequality, and the first repeated pair for a
   * false `distinct`; the relation is the literal's, flipped under negation.
   */
  method ChooseOperands(M: Model, lit: Formula) returns (e1: Term, e2: Term, ty: IneqType)
    requires RelationTag(lit).Some? && !lit.Distinct? && Holds(M, lit)
    ensures HasOperands(M, lit) && Operands(M, lit) == (e1, e2) && ty == RelationTag(lit).value
  {
    var isNot := lit.Not?;
    var g := if isNot then lit.arg else lit;
    if g.Le? || g.Ge? {
      e1, e2 := if g.Le? then g.lhs else g.rhs, if g.Le? then g.rhs else g.lhs;
      ty := if isNot then LtT else LeT;
    } else if g.Lt? || g.Gt? {
      e1, e2 := if g.Lt? then g.lhs else g.rhs, if g.Lt? then g.rhs else g.lhs;
      ty := if isNot then LeT else LtT;
    } else if g.Eq? && !isNot {
      e1, e2, ty := g.lhs, g.rhs, EqT;
    } else if g.Eq? {
      e1, e2 := g.lhs, g.rhs;
      if Eval(M, e1) < Eval(M, e2) {
        e1, e2 := e2, e1;
      }
      ty := LtT;
    } else {
      var found;
      found, e1, e2 := FindRepeat(M, g.args);
      FirstRepeatExact(M, g.args);
      ty := EqT;
    }
  }

  /** The branch conditions recorded for the two sides hold in `M` and weigh less than the literal. */
  lemma OperandsConds(M: Model, lit: Formula, e1: Term, e2: Term, fmls: seq<Formula>, fmls': seq<Formula>)
    requires HasOperands(M, lit) && Operands(M, lit) == (e1, e2)
    requires fmls' == fmls + IteConds(M, e1) + IteConds(M, e2)
    ensures |fmls| <= |fmls'| && fmls'[..|fmls|] == fmls
    ensures forall k :: |fmls| <= k < |fmls'| ==> Holds(M, fmls'[k])
    ensures SumW(fmls'[|fmls|..]) < WeightF(lit)
  {
    IteCondsHold(M, e1);
    IteCondsHold(M, e2);
    OperandsWeight(M, lit);
    AddedWeight(M, fmls, e1, e2);
  }

  /** Scaling the second operand by `-mul` is scaling the difference by `mul`. */
  lemma DifferenceScaled(mul: real, neg: real, x1: real, x2: real, d: real, c: real, row: real, c0: real, s0: real, x: real)
    requires neg == -mul && c0 == 0.0 && s0 == 0.0 && d == x1 - x2
    requires x == c0 + s0 + Scale(mul, x1) && row + c == x + Scale(neg, x2)
    ensures row + c == Scale(mul, d)
  {
  }

  /** The two sides weigh less than the literal. */
  lemma OperandsWeight(M: Model, lit: Formula)
    requires HasOperands(M, lit)
    ensures WeightT(Operands(M, lit).0) + WeightT(Operands(M, lit).1) < WeightF(lit)
  {
    if lit.Not? && lit.arg.Distinct? {
      var args := lit.arg.args;
      var (i, j) := FirstRepeat(M, args).value;
      ElemWeight(args, i);
      ElemWeight(args, j);
      assert Doubled(|args|, SumT(args)) >= 2 * SumT(args);
    }
  }

  lemma DropPrefix(a: seq<Formula>, b: seq<Formula>, c: seq<Formula>)
    ensures (a + b + c)[|a|..] == b + c
  {
  }

  /** The conditions recorded for both sides weigh less than the sides. */
  lemma AddedWeight(M: Model, fmls: seq<Formula>, e1: Term, e2: Term)
    ensures SumW((fmls + IteConds(M, e1) + IteConds(M, e2))[|fmls|..]) <= WeightT(e1) + WeightT(e2) - 2
  {
    DropPrefix(fmls, IteConds(M, e1), IteConds(M, e2));
    SumWAppend(IteConds(M, e1), IteConds(M, e2));
    CondsWeight(M, e1);
    CondsWeight(M, e2);
  }

  /** The weight of what two extensions add is the sum of what each adds. */
  lemma WeightExtend(base: seq<Formula>, mid: seq<Formula>, last: seq<Formula>)
    requires |base| <= |mid| <= |last| && mid[..|base|] == base && last[..|mid|] == mid
    ensures SumW(last[|base|..]) == SumW(mid[|base|..]) + SumW(last[|mid|..])
  {
    assert last[|base|..] == mid[|base|..] + last[|mid|..];
    SumWAppend(mid[|base|..], last[|mid|..]);
  }

  /**
   * `distinct(t1, ..., tn)` true in the model: the arguments are sorted by
   * value and `ti < tj` is linearized for each pair of neighbours, which
   * implies the literal in every model (`DistinctFromChain`).
   */
  method LinearizeDistinct(eng: Engine, M: Model, lit: Formula, fmls: seq<Formula>, tids: map<Term, nat>)
    returns (fmls': seq<Formula>, tids': map<Term, nat>, ghost pos: seq<nat>)
    requires lit.Distinct? && |lit.args| > 0 && IsArith(lit.args[0]) && Holds(M, lit)
    requires Registered(M, eng.vars, tids) && Good(eng.log, eng.vars)
    modifies eng
    ensures Step(M, old(eng.vars), old(eng.log), tids, eng.vars, eng.log, tids')
    ensures fmls' == fmls + Conds(M, lit)
    ensures forall k :: |fmls| <= k < |fmls'| ==> Holds(M, fmls'[k])
    ensures Submitted(M, eng.log, eng.vars, lit, pos) && forall j :: 0 <= j < |pos| ==> |old(eng.log)| <= pos[j]
    ensures OnlyTagged(eng.log, |old(eng.log)|, LtT)
    ensures ConstraintCount(eng.log) == ConstraintCount(old(eng.log)) + |lit.args| - 1
    ensures SumW(fmls'[|fmls|..]) < WeightF(lit)
    ensures tids'.Keys == tids.Keys + LitAtoms(M, lit)
    ensures LitRegistered(M, lit, tids') && eng.log == old(eng.log) + LitSubs(M, lit, tids')
    decreases 4
  {
    var sorted := SortedValues(M, lit.args);
    fmls', tids', pos := LinearizeChain(eng, M, sorted, SumT(lit.args), fmls, tids);
    DistinctSubmitted(M, lit, sorted, eng.log, eng.vars, pos, |old(eng.log)|);
    DistinctSubs(M, lit, sorted, tids');
    assert Doubled(|lit.args|, SumT(lit.args)) == 2 * SumT(lit.args) + Doubled(|sorted| - 1, SumT(lit.args));
  }

  /**
   * The constraints at `pos`, one per pair of neighbours of the sorted
   * arguments, each evaluating to the first value less the second.
   */
  ghost predicate ChainAt(log: seq<Submission>, vs: seq<EngineVar>, sorted: Valued, pos: seq<nat>, n0: nat) {
    |pos| < |sorted| &&
    forall j :: 0 <= j < |pos| ==>
      (n0 <= pos[j] && ConstraintAt(log, vs, pos[j], LtT, sorted[j].1 - sorted[j + 1].1))
  }

  /** The chain's constraints are the constraints of the `distinct` literal's parts. */
  lemma DistinctSubmitted(M: Model, lit: Formula, sorted: Valued, log: seq<Submission>, vs: seq<EngineVar>,
                          pos: seq<nat>, n0: nat)
    requires lit.Distinct? && RelationTag(lit).Some?
    requires KeysDistinct(Pairs(M, lit.args)) && sorted == SortByValue(Pairs(M, lit.args)) && ValuesOf(M, sorted)
    requires ChainAt(log, vs, sorted, pos, n0) && |pos| == |sorted| - 1
    ensures Submitted(M, log, vs, lit, pos) && forall j :: 0 <= j < |pos| ==> n0 <= pos[j]
  {
    var ps := Parts(M, lit);
    assert ps == Neighbours(sorted) && |ps| == |pos|;
    assert RelationTag(lit).value == LtT;
    forall j | 0 <= j < |pos|
      ensures HasOperands(M, ps[j]) && ConstraintAt(log, vs, pos[j], LtT, LinearValue(M, M, ps[j]))
    {
      NeighbourValue(M, M, sorted, j);
    }
  }

  /** A true `distinct` submits what the chain over its sorted arguments submits. */
  lemma DistinctSubs(M: Model, lit: Formula, sorted: Valued, tids: map<Term, nat>)
    requires lit.Distinct? && RelationTag(lit).Some?
    requires KeysDistinct(Pairs(M, lit.args)) && sorted == SortByValue(Pairs(M, lit.args))
    requires PartsRegistered(M, Neighbours(sorted), tids)
    ensures LitRegistered(M, lit, tids) && LitSubs(M, lit, tids) == PartsSubs(M, Neighbours(sorted), tids)
  {
    assert Parts(M, lit) == Neighbours(sorted);
  }

  /** One more neighbour constraint at the end of a longer log. */
  lemma ChainAtStep(log0: seq<Submission>, vs0: seq<EngineVar>, log1: seq<Submission>, vs1: seq<EngineVar>,
                    sorted: Valued, pos: seq<nat>, n0: nat)
    requires ChainAt(log0, vs0, sorted, pos, n0) && Good(log0, vs0) && |pos| + 1 < |sorted| && n0 <= |log0|
    requires |log0| <= |log1| && log1[..|log0|] == log0 && |vs0| <= |vs1| && vs1[..|vs0|] == vs0
    requires EndsWithConstraint(log1, |log0|, LtT, sorted[|pos|].1 - sorted[|pos| + 1].1, vs1)
    ensures ChainAt(log1, vs1, sorted, pos + [|log1| - 1], n0)
  {
    forall j | 0 <= j < |pos|
      ensures ConstraintAt(log1, vs1, pos[j], LtT, sorted[j].1 - sorted[j + 1].1)
    {
      ConstraintAtExtend(log0, vs0, log1, vs1, pos[j], LtT, sorted[j].1 - sorted[j + 1].1);
    }
  }

  /** There is one neighbour literal per adjacent pair, comparing the pair's terms. */
  lemma NeighboursAt(sorted: Valued)
    requires sorted != []
    ensures |Neighbours(sorted)| == |sorted| - 1
    ensures forall j :: 0 <= j < |sorted| - 1 ==> Neighbours(sorted)[j] == Lt(sorted[j].0, sorted[j + 1].0)
  {
  }

  /** The conditions appended for the first `i` neighbour pairs: those of both sides of each pair, in order. */
  function ChainConds(M: Model, sorted: Valued, i: nat): seq<Formula>
    requires i < |sorted|
  {
    if i == 0 then [] else ChainConds(M, sorted, i - 1) + (IteConds(M, sorted[i - 1].0) + IteConds(M, sorted[i].0))
  }

  /** `ChainConds` are the conditions of the first `i` parts of the chain. */
  lemma ChainCondsParts(M: Model, sorted: Valued, i: nat)
    requires i < |sorted|
    ensures ChainConds(M, sorted, i) == PartsConds(M, Neighbours(sorted)[..i])
  {
    NeighboursAt(sorted);
    ChainCondsPrefix(M, sorted, Neighbours(sorted)[..i], i);
  }

  /** The same for any `i` literals that are the first `i` neighbour literals. */
  lemma {:induction false} ChainCondsPrefix(M: Model, sorted: Valued, ps: seq<Formula>, i: nat)
    requires i < |sorted| && |ps| == i
    requires forall j :: 0 <= j < i ==> ps[j] == Lt(sorted[j].0, sorted[j + 1].0)
    ensures ChainConds(M, sorted, i) == PartsConds(M, ps)
  {
    if i > 0 {
      PartsCondsSnoc(M, ps, sorted[i - 1].0, sorted[i].0);
      ChainCondsPrefix(M, sorted, ps[..i - 1], i - 1);
    }
  }

  /** A strict part `a < b` at the end adds the conditions of `a`, then those of `b`. */
  lemma PartsCondsSnoc(M: Model, ps: seq<Formula>, a: Term, b: Term)
    requires ps != [] && ps[|ps| - 1] == Lt(a, b)
    ensures PartsConds(M, ps) == PartsConds(M, ps[..|ps| - 1]) + (IteConds(M, a) + IteConds(M, b))
  {
    LessParts(M, a, b);
  }

  /** The atoms registered for the first `i` neighbour pairs: those of both sides of each pair. */
  function ChainAtoms(M: Model, sorted: Valued, i: nat): set<Term>
    requires i < |sorted|
  {
    if i == 0 then {} else ChainAtoms(M, sorted, i - 1) + (TermAtoms(M, sorted[i - 1].0) + TermAtoms(M, sorted[i].0))
  }

  /** `ChainAtoms` are the atoms of the first `i` parts of the chain. */
  lemma ChainAtomsParts(M: Model, sorted: Valued, i: nat)
    requires i < |sorted|
    ensures ChainAtoms(M, sorted, i) == PartsAtoms(M, Neighbours(sorted)[..i])
  {
    NeighboursAt(sorted);
    ChainAtomsPrefix(M, sorted, Neighbours(sorted)[..i], i);
  }

  /** The same for any `i` literals that are the first `i` neighbour literals. */
  lemma {:induction false} ChainAtomsPrefix(M: Model, sorted: Valued, ps: seq<Formula>, i: nat)
    requires i < |sorted| && |ps| == i
    requires forall j :: 0 <= j < i ==> ps[j] == Lt(sorted[j].0, sorted[j + 1].0)
    ensures ChainAtoms(M, sorted, i) == PartsAtoms(M, ps)
  {
    if i > 0 {
      PartsAtomsSnoc(M, ps, sorted[i - 1].0, sorted[i].0);
      ChainAtomsPrefix(M, sorted, ps[..i - 1], i - 1);
    }
  }

  /** A strict part `a < b` at the end adds the atoms of both sides. */
  lemma PartsAtomsSnoc(M: Model, ps: seq<Formula>, a: Term, b: Term)
    requires ps != [] && ps[|ps| - 1] == Lt(a, b)
    ensures PartsAtoms(M, ps) == PartsAtoms(M, ps[..|ps| - 1]) + (TermAtoms(M, a) + TermAtoms(M, b))
  {
    LessParts(M, a, b);
  }

  /** The submissions for the first `i` neighbour pairs mention only atoms of the registry. */
  predicate ChainRegistered(M: Model, sorted: Valued, i: nat, tids: map<Term, nat>) {
    i < |sorted| && forall j :: 0 <= j < i ==> SidesRegistered(M, 1.0, sorted[j].0, sorted[j + 1].0, tids)
  }

  /** What linearizing the first `i` neighbour pairs `a < b` submits: those of `a - b < 0`, pair after pair. */
  function ChainSubs(M: Model, sorted: Valued, i: nat, tids: map<Term, nat>): seq<Submission>
    requires ChainRegistered(M, sorted, i, tids)
  {
    if i == 0 then [] else ChainSubs(M, sorted, i - 1, tids) + SidesSubs(M, 1.0, sorted[i - 1].0, sorted[i].0, LtT, tids)
  }

  lemma {:induction false} ChainSubsExtend(M: Model, sorted: Valued, i: nat, tids: map<Term, nat>, tids': map<Term, nat>)
    requires ChainRegistered(M, sorted, i, tids)
    requires forall x :: x in tids ==> x in tids' && tids'[x] == tids[x]
    ensures ChainRegistered(M, sorted, i, tids') && ChainSubs(M, sorted, i, tids') == ChainSubs(M, sorted, i, tids)
  {
    forall j | 0 <= j < i ensures SidesRegistered(M, 1.0, sorted[j].0, sorted[j + 1].0, tids') {
      SidesSubsExtend(M, 1.0, sorted[j].0, sorted[j + 1].0, LtT, tids, tids');
    }
    if i > 0 {
      ChainSubsExtend(M, sorted, i - 1, tids, tids');
      SidesSubsExtend(M, 1.0, sorted[i - 1].0, sorted[i].0, LtT, tids, tids');
    }
  }

  /** `ChainSubs` are the submissions of any `i` literals that are the first `i` neighbour literals. */
  lemma {:induction false} ChainSubsPrefix(M: Model, sorted: Valued, ps: seq<Formula>, i: nat, tids: map<Term, nat>)
    requires ChainRegistered(M, sorted, i, tids) && |ps| == i
    requires forall j :: 0 <= j < i ==> ps[j] == Lt(sorted[j].0, sorted[j + 1].0)
    ensures PartsRegistered(M, ps, tids) && ChainSubs(M, sorted, i, tids) == PartsSubs(M, ps, tids)
  {
    forall j | 0 <= j < i ensures PartRegistered(M, ps[j], tids) {
      LessSubs(M, sorted[j].0, sorted[j + 1].0, tids);
    }
    if i > 0 {
      ChainSubsPrefix(M, sorted, ps[..i - 1], i - 1, tids);
      LessSubs(M, sorted[i - 1].0, sorted[i].0, tids);
    }
  }

  /** `a < b` has the sides `a` and `b` with sign 1 and relation `<`. */
  lemma LessSubs(M: Model, a: Term, b: Term, tids: map<Term, nat>)
    ensures PartRegistered(M, Lt(a, b), tids) <==> SidesRegistered(M, 1.0, a, b, tids)
    ensures SidesRegistered(M, 1.0, a, b, tids) ==> PartSubs(M, Lt(a, b), tids) == SidesSubs(M, 1.0, a, b, LtT, tids)
  {
    LessSides(M, a, b);
  }

  /** The literal `a < b` submits what `a - b < 0` submits. */
  lemma LessLitSubs(M: Model, a: Term, b: Term, tids: map<Term, nat>)
    requires LitRegistered(M, Lt(a, b), tids)
    ensures SidesRegistered(M, 1.0, a, b, tids) && LitSubs(M, Lt(a, b), tids) == SidesSubs(M, 1.0, a, b, LtT, tids)
  {
    var ps := Parts(M, Lt(a, b));
    LessSubs(M, a, b, tids);
    assert ps == [Lt(a, b)] && ps[..0] == [];
    assert PartRegistered(M, ps[0], tids);
    assert PartsSubs(M, ps, tids) == PartsSubs(M, ps[..0], tids) + PartSubs(M, Lt(a, b), tids);
  }

  /** The log after the first `i` pairs: what started the loop, then the chain's submissions. */
  ghost predicate ChainLog(M: Model, sorted: Valued, log0: seq<Submission>, i: nat, log: seq<Submission>,
                           tids: map<Term, nat>) {
    ChainRegistered(M, sorted, i, tids) && log == log0 + ChainSubs(M, sorted, i, tids)
  }

  /** One more pair: the earlier submissions, kept over the grown registry, then those of the pair. */
  lemma ChainLogStep(M: Model, sorted: Valued, log0: seq<Submission>, i: nat,
                     vs1: seq<EngineVar>, log1: seq<Submission>, tids1: map<Term, nat>,
                     vs: seq<EngineVar>, log: seq<Submission>, tids: map<Term, nat>)
    requires i + 1 < |sorted| && ChainLog(M, sorted, log0, i, log1, tids1)
    requires Grows(vs1, vs, tids1, tids)
    requires SidesRegistered(M, 1.0, sorted[i].0, sorted[i + 1].0, tids)
    requires log == log1 + SidesSubs(M, 1.0, sorted[i].0, sorted[i + 1].0, LtT, tids)
    ensures ChainLog(M, sorted, log0, i + 1, log, tids)
  {
    ChainSubsExtend(M, sorted, i, tids1, tids);
  }

  /** After the last pair the chain has submitted what the neighbour literals submit. */
  lemma ChainLogDone(M: Model, sorted: Valued, log0: seq<Submission>, log: seq<Submission>, tids: map<Term, nat>)
    requires |sorted| > 0 && ChainLog(M, sorted, log0, |sorted| - 1, log, tids)
    ensures PartsRegistered(M, Neighbours(sorted), tids) && log == log0 + PartsSubs(M, Neighbours(sorted), tids)
  {
    NeighboursAt(sorted);
    ChainSubsPrefix(M, sorted, Neighbours(sorted), |sorted| - 1, tids);
  }

  /**
   * The state of the loop over neighbours after `i` rounds, from the store,
   * log and registry `vs0`, `log0`, `tids0` it started with: one constraint
   * per pair visited and the conditions of their sides appended.
   */
  ghost predicate ChainInv(M: Model, sorted: Valued, bound: nat, fmls: seq<Formula>,
                           vs0: seq<EngineVar>, log0: seq<Submission>, tids0: map<Term, nat>,
                           i: nat, fmls': seq<Formula>, vs: seq<EngineVar>, log: seq<Submission>,
                           tids: map<Term, nat>, pos: seq<nat>)
  {
    i + 1 <= |sorted| && |pos| == i &&
    Step(M, vs0, log0, tids0, vs, log, tids) &&
    fmls' == fmls + ChainConds(M, sorted, i) &&
    (forall k :: |fmls| <= k < |fmls'| ==> Holds(M, fmls'[k])) &&
    ChainAt(log, vs, sorted, pos, |log0|) &&
    OnlyTagged(log, |log0|, LtT) &&
    ConstraintCount(log) == ConstraintCount(log0) + i &&
    SumW(fmls'[|fmls|..]) <= Doubled(i, bound) &&
    tids.Keys == tids0.Keys + ChainAtoms(M, sorted, i)
  }

  /** One round of the loop below: linearize `sorted[i] < sorted[i + 1]` and record where its constraint went. */
  method ChainRound(eng: Engine, M: Model, sorted: Valued, ghost bound: nat, ghost fmls: seq<Formula>,
                    ghost vs0: seq<EngineVar>, ghost log0: seq<Submission>, ghost tids0: map<Term, nat>,
                    i: nat, fmls1: seq<Formula>, tids1: map<Term, nat>, ghost pos1: seq<nat>)
    returns (ok: bool, fmls': seq<Formula>, tids': map<Term, nat>, ghost pos: seq<nat>)
    requires StrictlySorted(sorted) && ValuesOf(M, sorted) && i + 1 < |sorted|
    requires forall k :: 0 <= k < |sorted| ==> WeightT(sorted[k].0) <= bound
    requires ChainInv(M, sorted, bound, fmls, vs0, log0, tids0, i, fmls1, eng.vars, eng.log, tids1, pos1)
    requires ChainLog(M, sorted, log0, i, eng.log, tids1)
    modifies eng
    ensures ok
    ensures ChainInv(M, sorted, bound, fmls, vs0, log0, tids0, i + 1, fmls', eng.vars, eng.log, tids', pos)
    ensures ChainLog(M, sorted, log0, i + 1, eng.log, tids')
    decreases 2
  {
    ghost var vs1, log1 := eng.vars, eng.log;
    ChainReady(M, sorted, bound, fmls, vs0, log0, tids0, i, fmls1, vs1, log1, tids1, pos1);
    ok, fmls', tids' := LinearizeLess(eng, M, sorted[i].0, sorted[i + 1].0, sorted[i].1 - sorted[i + 1].1,
                                      fmls1, tids1);
    pos := pos1 + [|eng.log| - 1];
    ChainRoundDone(M, sorted, bound, fmls, vs0, log0, tids0, i, fmls1, vs1, log1, tids1, pos1,
                   fmls', eng.vars, eng.log, tids', pos);
  }

  /** Between rounds the engine is in a state `linearize` accepts. */
  lemma ChainReady(M: Model, sorted: Valued, bound: nat, fmls: seq<Formula>,
                   vs0: seq<EngineVar>, log0: seq<Submission>, tids0: map<Term, nat>,
                   i: nat, fmls1: seq<Formula>, vs1: seq<EngineVar>, log1: seq<Submission>,
                   tids1: map<Term, nat>, pos: seq<nat>)
    requires ChainInv(M, sorted, bound, fmls, vs0, log0, tids0, i, fmls1, vs1, log1, tids1, pos)
    ensures Registered(M, vs1, tids1) && Good(log1, vs1)
  {
  }

  /** What one round of the chain leaves: both loop invariants, one pair further on. */
  lemma ChainRoundDone(M: Model, sorted: Valued, bound: nat, fmls: seq<Formula>,
                       vs0: seq<EngineVar>, log0: seq<Submission>, tids0: map<Term, nat>,
                       i: nat, fmls1: seq<Formula>, vs1: seq<EngineVar>, log1: seq<Submission>,
                       tids1: map<Term, nat>, pos: seq<nat>,
                       fmls': seq<Formula>, vs: seq<EngineVar>, log: seq<Submission>, tids: map<Term, nat>,
                       pos': seq<nat>)
    requires i + 1 < |sorted|
    requires forall k :: 0 <= k < |sorted| ==> WeightT(sorted[k].0) <= bound
    requires |log| > 0 && pos' == pos + [|log| - 1]
    ensures ChainInv(M, sorted, bound, fmls, vs0, log0, tids0, i, fmls1, vs1, log1, tids1, pos) &&
            ChainLog(M, sorted, log0, i, log1, tids1) &&
            LessDone(M, sorted[i].0, sorted[i + 1].0, sorted[i].1 - sorted[i + 1].1, fmls1, vs1, log1, tids1,
                     fmls', vs, log, tids) &&
            SidesRegistered(M, 1.0, sorted[i].0, sorted[i + 1].0, tids) &&
            log == log1 + SidesSubs(M, 1.0, sorted[i].0, sorted[i + 1].0, LtT, tids) ==>
            ChainInv(M, sorted, bound, fmls, vs0, log0, tids0, i + 1, fmls', vs, log, tids, pos') &&
            ChainLog(M, sorted, log0, i + 1, log, tids)
  {
    ChainAdvance(M, sorted, bound, fmls, vs0, log0, tids0, i, fmls1, vs1, log1, tids1, pos,
                 fmls', vs, log, tids, pos');
    if ChainLog(M, sorted, log0, i, log1, tids1) &&
       LessDone(M, sorted[i].0, sorted[i + 1].0, sorted[i].1 - sorted[i + 1].1, fmls1, vs1, log1, tids1,
                fmls', vs, log, tids) &&
       SidesRegistered(M, 1.0, sorted[i].0, sorted[i + 1].0, tids) &&
       log == log1 + SidesSubs(M, 1.0, sorted[i].0, sorted[i + 1].0, LtT, tids) {
      ChainLogStep(M, sorted, log0, i, vs1, log1, tids1, vs, log, tids);
    }
  }

  /** The loop over neighbours `sorted[i] < sorted[i + 1]`, stopping at the first literal that fails. */
  method LinearizeChain(eng: Engine, M: Model, sorted: Valued, ghost bound: nat, fmls: seq<Formula>,
                        tids: map<Term, nat>)
    returns (fmls': seq<Formula>, tids': map<Term, nat>, ghost pos: seq<nat>)
    requires |sorted| > 0 && StrictlySorted(sorted) && ValuesOf(M, sorted)
    requires forall k :: 0 <= k < |sorted| ==> WeightT(sorted[k].0) <= bound
    requires Registered(M, eng.vars, tids) && Good(eng.log, eng.vars)
    modifies eng
    ensures Step(M, old(eng.vars), old(eng.log), tids, eng.vars, eng.log, tids')
    ensures fmls' == fmls + PartsConds(M, Neighbours(sorted))
    ensures forall k :: |fmls| <= k < |fmls'| ==> Holds(M, fmls'[k])
    ensures ChainAt(eng.log, eng.vars, sorted, pos, |old(eng.log)|) && |pos| == |sorted| - 1
    ensures OnlyTagged(eng.log, |old(eng.log)|, LtT)
    ensures ConstraintCount(eng.log) == ConstraintCount(old(eng.log)) + |sorted| - 1
    ensures SumW(fmls'[|fmls|..]) <= Doubled(|sorted| - 1, bound)
    ensures tids'.Keys == tids.Keys + PartsAtoms(M, Neighbours(sorted))
    ensures PartsRegistered(M, Neighbours(sorted), tids') && eng.log == old(eng.log) + PartsSubs(M, Neighbours(sorted), tids')
    decreases 3
  {
    fmls', tids', pos := fmls, tids, [];
    ChainStart(M, sorted, bound, fmls, eng.vars, eng.log, tids);
    var i := 0;
    var ok := true;
    while i + 1 < |sorted| && ok
      invariant ok
      invariant ChainInv(M, sorted, bound, fmls, old(eng.vars), old(eng.log), tids,
                         i, fmls', eng.vars, eng.log, tids', pos)
      invariant ChainLog(M, sorted, old(eng.log), i, eng.log, tids')
    {
      ok, fmls', tids', pos := ChainRound(eng, M, sorted, bound, fmls, old(eng.vars), old(eng.log), tids,
                                          i, fmls', tids', pos);
      i := i + 1;
    }
    assert i == |sorted| - 1;
    ChainDone(M, sorted, bound, fmls, old(eng.vars), old(eng.log), tids, fmls', eng.vars, eng.log, tids', pos);
    ChainLogDone(M, sorted, old(eng.log), eng.log, tids');
  }

  /** Before the first pair nothing is appended, registered or submitted. */
  lemma ChainStart(M: Model, sorted: Valued, bound: nat, fmls: seq<Formula>,
                   vs: seq<EngineVar>, log: seq<Submission>, tids: map<Term, nat>)
    requires |sorted| > 0 && Registered(M, vs, tids) && Good(log, vs)
    ensures ChainInv(M, sorted, bound, fmls, vs, log, tids, 0, fmls, vs, log, tids, [])
    ensures ChainLog(M, sorted, log, 0, log, tids)
  {
    assert log[..|log|] == log && vs[..|vs|] == vs;
    assert fmls[|fmls|..] == [] && log == log + [];
  }

  /** The loop's state after the last pair is what the whole chain promises. */
  lemma ChainDone(M: Model, sorted: Valued, bound: nat, fmls: seq<Formula>,
                  vs0: seq<EngineVar>, log0: seq<Submission>, tids0: map<Term, nat>,
                  fmls': seq<Formula>, vs: seq<EngineVar>, log: seq<Submission>, tids: map<Term, nat>,
                  pos: seq<nat>)
    requires |sorted| > 0
    requires ChainInv(M, sorted, bound, fmls, vs0, log0, tids0, |sorted| - 1, fmls', vs, log, tids, pos)
    ensures Step(M, vs0, log0, tids0, vs, log, tids)
    ensures fmls' == fmls + PartsConds(M, Neighbours(sorted))
    ensures forall k :: |fmls| <= k < |fmls'| ==> Holds(M, fmls'[k])
    ensures ChainAt(log, vs, sorted, pos, |log0|) && |pos| == |sorted| - 1
    ensures OnlyTagged(log, |log0|, LtT)
    ensures ConstraintCount(log) == ConstraintCount(log0) + |sorted| - 1
    ensures SumW(fmls'[|fmls|..]) <= Doubled(|sorted| - 1, bound)
    ensures tids.Keys == tids0.Keys + PartsAtoms(M, Neighbours(sorted))
  {
    ChainCondsParts(M, sorted, |sorted| - 1);
    ChainAtomsParts(M, sorted, |sorted| - 1);
    assert Neighbours(sorted)[..|sorted| - 1] == Neighbours(sorted);
  }

  /** What linearizing `sorted[i] < sorted[i + 1]` guarantees advances the loop's state by one round. */
  lemma ChainAdvance(M: Model, sorted: Valued, bound: nat, fmls: seq<Formula>,
                     vs0: seq<EngineVar>, log0: seq<Submission>, tids0: map<Term, nat>,
                     i: nat, fmls1: seq<Formula>, vs1: seq<EngineVar>, log1: seq<Submission>,
                     tids1: map<Term, nat>, pos: seq<nat>,
                     fmls': seq<Formula>, vs: seq<EngineVar>, log: seq<Submission>, tids: map<Term, nat>,
                     pos': seq<nat>)
    requires i + 1 < |sorted|
    requires forall k :: 0 <= k < |sorted| ==> WeightT(sorted[k].0) <= bound
    requires |log| > 0 && pos' == pos + [|log| - 1]
    ensures ChainInv(M, sorted, bound, fmls, vs0, log0, tids0, i, fmls1, vs1, log1, tids1, pos) &&
            LessDone(M, sorted[i].0, sorted[i + 1].0, sorted[i].1 - sorted[i + 1].1, fmls1, vs1, log1, tids1,
                     fmls', vs, log, tids) ==>
            ChainInv(M, sorted, bound, fmls, vs0, log0, tids0, i + 1, fmls', vs, log, tids, pos')
  {
    if ChainInv(M, sorted, bound, fmls, vs0, log0, tids0, i, fmls1, vs1, log1, tids1, pos) &&
       LessDone(M, sorted[i].0, sorted[i + 1].0, sorted[i].1 - sorted[i + 1].1, fmls1, vs1, log1, tids1,
                fmls', vs, log, tids) {
    StepTrans(M, vs0, log0, tids0, vs1, log1, tids1, vs, log, tids);
    EndsWithConstraintCount(log, |log1|, LtT, sorted[i].1 - sorted[i + 1].1, vs);
    NextConstraint(log0, log1, log);
    ChainAtStep(log1, vs1, log, vs, sorted, pos, |log0|);
    AppendAssoc(fmls, ChainConds(M, sorted, i), IteConds(M, sorted[i].0) + IteConds(M, sorted[i + 1].0));
    HoldsExtend(M, fmls, fmls1, fmls');
    WeightExtend(fmls, fmls1, fmls');
    }
  }

  /** What linearizing `a < b` leaves behind: the engine step, the appended conditions and the constraint `a - b < 0`. */
  ghost predicate LessDone(M: Model, a: Term, b: Term, d: real, fmls: seq<Formula>, vs: seq<EngineVar>,
                           log: seq<Submission>, tids: map<Term, nat>, fmls': seq<Formula>,
                           vs': seq<EngineVar>, log': seq<Submission>, tids': map<Term, nat>)
  {
    Step(M, vs, log, tids, vs', log', tids') &&
    fmls' == fmls + (IteConds(M, a) + IteConds(M, b)) &&
    (forall k :: |fmls| <= k < |fmls'| ==> Holds(M, fmls'[k])) &&
    EndsWithConstraint(log', |log|, LtT, d, vs') &&
    SumW(fmls'[|fmls|..]) <= WeightT(a) + WeightT(b) &&
    tids'.Keys == tids.Keys + (TermAtoms(M, a) + TermAtoms(M, b))
  }

  /**
   * The recursive call on `a < b` made for each pair of neighbours: it
   * succeeds and submits the constraint `a - b < 0`.
   */
  method LinearizeLess(eng: Engine, M: Model, a: Term, b: Term, ghost d: real, fmls: seq<Formula>,
                       tids: map<Term, nat>)
    returns (ok: bool, fmls': seq<Formula>, tids': map<Term, nat>)
    requires Eval(M, a) < Eval(M, b) && d == Eval(M, a) - Eval(M, b)
    requires Registered(M, eng.vars, tids) && Good(eng.log, eng.vars)
    modifies eng
    ensures ok
    ensures LessDone(M, a, b, d, fmls, old(eng.vars), old(eng.log), tids, fmls', eng.vars, eng.log, tids')
    ensures SidesRegistered(M, 1.0, a, b, tids') && eng.log == old(eng.log) + SidesSubs(M, 1.0, a, b, LtT, tids')
    ensures |eng.log| > |old(eng.log)|
    decreases 1
  {
    ghost var pos;
    ok, fmls', tids', pos := LinearizeLit(eng, M, Lt(a, b), fmls, tids);
    LessFromLit(M, a, b, d, fmls, old(eng.vars), old(eng.log), tids, fmls', eng.vars, eng.log, tids');
  }

  /** What `linearize` promises for `a < b` is what the chain needs of the pair. */
  lemma LessFromLit(M: Model, a: Term, b: Term, d: real, fmls: seq<Formula>, vs0: seq<EngineVar>,
                    log0: seq<Submission>, tids: map<Term, nat>, fmls': seq<Formula>,
                    vs: seq<EngineVar>, log: seq<Submission>, tids': map<Term, nat>)
    requires Eval(M, a) < Eval(M, b) && d == Eval(M, a) - Eval(M, b)
    requires Step(M, vs0, log0, tids, vs, log, tids')
    requires fmls' == fmls + Conds(M, Lt(a, b))
    requires forall k :: |fmls| <= k < |fmls'| ==> Holds(M, fmls'[k])
    requires SumW(fmls'[|fmls|..]) < WeightF(Lt(a, b))
    requires HasOperands(M, Lt(a, b)) &&
      EndsWithConstraint(log, |log0|, RelationTag(Lt(a, b)).value, LinearValue(M, M, Lt(a, b)), vs)
    requires tids'.Keys == tids.Keys + LitAtoms(M, Lt(a, b))
    requires LitRegistered(M, Lt(a, b), tids') && log == log0 + LitSubs(M, Lt(a, b), tids')
    ensures LessDone(M, a, b, d, fmls, vs0, log0, tids, fmls', vs, log, tids')
    ensures SidesRegistered(M, 1.0, a, b, tids') && log == log0 + SidesSubs(M, 1.0, a, b, LtT, tids')
    ensures |log| > |log0|
  {
    LessParts(M, a, b);
    LessLitSubs(M, a, b, tids');
  }

  /** `a < b` is its own single part, of linear value `a - b`, with the conditions of both sides. */
  lemma LessParts(M: Model, a: Term, b: Term)
    ensures HasOperands(M, Lt(a, b)) && LinearValue(M, M, Lt(a, b)) == Eval(M, a) - Eval(M, b)
    ensures SidesConds(M, Lt(a, b)) == Conds(M, Lt(a, b)) == IteConds(M, a) + IteConds(M, b)
    ensures SidesAtoms(M, Lt(a, b)) == LitAtoms(M, Lt(a, b)) == TermAtoms(M, a) + TermAtoms(M, b)
  {
    LessSides(M, a, b);
    var ps := Parts(M, Lt(a, b));
    assert ps == [Lt(a, b)] && ps[..0] == [];
    assert PartsConds(M, ps) == PartsConds(M, []) + SidesConds(M, Lt(a, b));
    assert PartsAtoms(M, ps) == PartsAtoms(M, []) + SidesAtoms(M, Lt(a, b));
  }

  /** The sides of `a < b` are `a` and `b`, in that order. */
  lemma LessSides(M: Model, a: Term, b: Term)
    ensures HasOperands(M, Lt(a, b)) && Operands(M, Lt(a, b)) == (a, b)
    ensures LinearValue(M, M, Lt(a, b)) == Eval(M, a) - Eval(M, b)
    ensures SidesConds(M, Lt(a, b)) == IteConds(M, a) + IteConds(M, b)
    ensures SidesAtoms(M, Lt(a, b)) == TermAtoms(M, a) + TermAtoms(M, b)
  {
  }

  /** Two extensions by literals true in `M` make one. */
  lemma HoldsExtend(M: Model, base: seq<Formula>, mid: seq<Formula>, last: seq<Formula>)
    requires |base| <= |mid| && mid[..|base|] == base && forall k :: |base| <= k < |mid| ==> Holds(M, mid[k])
    requires |mid| <= |last| && last[..|mid|] == mid && forall k :: |mid| <= k < |last| ==> Holds(M, last[k])
    ensures |base| <= |last| && last[..|base|] == base && forall k :: |base| <= k < |last| ==> Holds(M, last[k])
  {
    assert last[..|base|] == last[..|mid|][..|base|];
    forall k | |base| <= k < |mid| ensures Holds(M, last[k]) {
      assert last[k] == mid[k];
    }
  }

  /** The arguments with their model values, sorted by value. */
  method SortedValues(M: Model, args: seq<Term>) returns (sorted: Valued)
    requires Holds(M, Distinct(args))
    ensures KeysDistinct(Pairs(M, args)) && sorted == SortByValue(Pairs(M, args))
    ensures |sorted| == |args| && ValuesOf(M, sorted) && StrictlySorted(sorted)
    ensures forall k :: 0 <= k < |sorted| ==> WeightT(sorted[k].0) <= SumT(args)
  {
    var nums: Valued := [];
    for i := 0 to |args|
      invariant nums == Pairs(M, args[..i])
    {
      PairsSnoc(M, args, i);
      nums := nums + [(args[i], Eval(M, args[i]))];
    }
    assert args[..|args|] == args;
    PairsKeysDistinct(M, args);
    sorted := SortByValue(nums);
    SortedPairs(M, args, sorted);
  }

  /** The arguments of a true `distinct`, sorted by value, ascend strictly and each weighs at most all of them. */
  lemma SortedPairs(M: Model, args: seq<Term>, sorted: Valued)
    requires Holds(M, Distinct(args)) && KeysDistinct(Pairs(M, args))
    requires sorted == SortByValue(Pairs(M, args))
    ensures |sorted| == |args| && ValuesOf(M, sorted) && StrictlySorted(sorted)
    ensures forall k :: 0 <= k < |sorted| ==> WeightT(sorted[k].0) <= SumT(args)
  {
    var nums := Pairs(M, args);
    PermutedValues(M, nums, sorted);
    PermutedLength(nums, sorted);
    PermutedWeights(M, args, sorted);
  }

  /** Chaining the logs of two consecutive literal linearizations. */
  lemma NextConstraint(log0: seq<Submission>, log1: seq<Submission>, log2: seq<Submission>)
    requires |log0| <= |log1| <= |log2| && log2[..|log1|] == log1 && log1[..|log0|] == log0
    requires OnlyTagged(log1, |log0|, LtT) && OnlyTagged(log2, |log1|, LtT)
    requires ConstraintCount(log2) == ConstraintCount(log1) + 1
    ensures OnlyTagged(log2, |log0|, LtT)
  {
    assert forall k :: |log0| <= k < |log1| ==> log2[k] == log1[k];
  }
}
