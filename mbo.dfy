/**
 * The interface of the model-based optimisation engine (`opt::model_based_opt`)
 * that the projection plugin drives. The engine's algorithms (projection,
 * maximisation) are not part of this model: the engine records what it is
 * given, and the results of `project` and `maximize` are supplied by oracle
 * functions whose contracts are stated as predicates below.
 */
module Mbo {
  import opened Terms

  /** opt::ineq_type: t_le, t_lt, t_eq, t_mod. */
  datatype IneqType = LeT | LtT | EqT | ModT

  /** One (variable id, coefficient) entry of a row. */
  datatype Var = Var(id: nat, coeff: real)

  /** What the engine knows of a variable: its current value and whether it is integral. */
  datatype EngineVar = EngineVar(value: real, isInt: bool)

  /** One call made on the engine. */
  datatype Submission =
    | Constraint(coeffs: seq<Var>, c: real, ty: IneqType)
    | Divides(coeffs: seq<Var>, c: real, m: real)
    | Objective(coeffs: seq<Var>, c: real)
    | ProjectCall(ids: seq<nat>)

  /** A live row after projection: `sum coeff*x + coeff  ty  0`, or `m | sum + coeff`. */
  datatype Row = Row(vars: seq<Var>, coeff: real, ty: IneqType, mod: real)

  /** opt::inf_eps: infinite part, rational part, infinitesimal part. */
  datatype ExtValue = ExtValue(infinity: real, rational: real, infinitesimal: real)

  predicate IsFinite(v: ExtValue) {
    v.infinity == 0.0
  }

  /** The outcome of `maximize`: the optimum and the value `get_value` reports per id. */
  datatype MaxResult = MaxResult(value: ExtValue, values: seq<real>)

  type ProjectOracle = (seq<Submission>, seq<EngineVar>, seq<nat>) -> seq<Row>
  type MaximizeOracle = (seq<Submission>, seq<EngineVar>) -> MaxResult

  function ValueOf(vs: seq<EngineVar>, id: nat): real {
    if id < |vs| then vs[id].value else 0.0
  }

  /** `sum coeff * value(id)` over a row. */
  function RowValue(coeffs: seq<Var>, vs: seq<EngineVar>): real {
    if coeffs == [] then 0.0
    else
      var last := coeffs[|coeffs| - 1];
      RowValue(coeffs[..|coeffs| - 1], vs) + last.coeff * ValueOf(vs, last.id)
  }

  predicate Compare(x: real, ty: IneqType) {
    match ty
    case LeT => x <= 0.0
    case LtT => x < 0.0
    case EqT => x == 0.0
    case ModT => false
  }

  predicate Scoped(coeffs: seq<Var>, vs: seq<EngineVar>) {
    forall k :: 0 <= k < |coeffs| ==> coeffs[k].id < |vs|
  }

  predicate SubmissionScoped(s: Submission, vs: seq<EngineVar>) {
    match s
    case Constraint(coeffs, _, _) => Scoped(coeffs, vs)
    case Divides(coeffs, _, _) => Scoped(coeffs, vs)
    case Objective(coeffs, _) => Scoped(coeffs, vs)
    case ProjectCall(_) => true
  }

  /** A submitted constraint holds at the engine's current values. */
  predicate Satisfied(s: Submission, vs: seq<EngineVar>) {
    match s
    case Constraint(coeffs, c, ty) => Compare(RowValue(coeffs, vs) + c, ty)
    case Divides(coeffs, c, m) => Divisible(RowValue(coeffs, vs) + c, m)
    case Objective(_, _) => true
    case ProjectCall(_) => true
  }

  /** Every submission mentions known variables and holds at their values. */
  predicate Good(log: seq<Submission>, vs: seq<EngineVar>) {
    forall k :: 0 <= k < |log| ==> SubmissionScoped(log[k], vs) && Satisfied(log[k], vs)
  }

  function ConstraintCount(log: seq<Submission>): nat {
    if log == [] then 0
    else ConstraintCount(log[..|log| - 1]) + (if log[|log| - 1].Constraint? then 1 else 0)
  }

  predicate RowHolds(r: Row, vs: seq<EngineVar>) {
    if r.ty == ModT then Divisible(RowValue(r.vars, vs) + r.coeff, r.mod)
    else Compare(RowValue(r.vars, vs) + r.coeff, r.ty)
  }

  /**
   * What the plugin relies on from `project`: every live row mentions only
   * known, unprojected variables, has a positive modulus when it is a mod row,
   * and still holds at the current values.
   */
  predicate RowsSound(rows: seq<Row>, vs: seq<EngineVar>, ids: seq<nat>) {
    forall k :: 0 <= k < |rows| ==>
      Scoped(rows[k].vars, vs) &&
      (forall j :: 0 <= j < |rows[k].vars| ==> rows[k].vars[j].id !in ids) &&
      (rows[k].ty == ModT ==> rows[k].mod > 0.0) &&
      RowHolds(rows[k], vs)
  }

  ghost predicate ProjectionSound(project: ProjectOracle) {
    forall log, vs, ids :: Good(log, vs) ==> RowsSound(project(log, vs, ids), vs, ids)
  }

  lemma RowValueSnoc(pre: seq<Var>, e: Var, vs: seq<EngineVar>)
    ensures RowValue(pre + [e], vs) == RowValue(pre, vs) + e.coeff * ValueOf(vs, e.id)
  {
    assert (pre + [e])[..|pre|] == pre;
  }

  /** Extending the variable store leaves the value of a row over known variables alone. */
  lemma {:induction false} RowValueExtend(coeffs: seq<Var>, vs: seq<EngineVar>, more: seq<EngineVar>)
    requires Scoped(coeffs, vs)
    ensures RowValue(coeffs, vs + more) == RowValue(coeffs, vs)
  {
    if coeffs != [] {
      var n := |coeffs| - 1;
      assert Scoped(coeffs[..n], vs) by {
        forall k | 0 <= k < n ensures coeffs[..n][k].id < |vs| {
          assert coeffs[..n][k] == coeffs[k];
        }
      }
      RowValueExtend(coeffs[..n], vs, more);
      assert ValueOf(vs + more, coeffs[n].id) == ValueOf(vs, coeffs[n].id);
    }
  }

  /** Registering new variables keeps every earlier submission scoped and satisfied. */
  lemma GoodExtend(log: seq<Submission>, vs: seq<EngineVar>, more: seq<EngineVar>)
    requires Good(log, vs)
    ensures Good(log, vs + more)
  {
    forall k | 0 <= k < |log|
      ensures SubmissionScoped(log[k], vs + more) && Satisfied(log[k], vs + more)
    {
      match log[k]
      case Constraint(coeffs, _, _) => RowValueExtend(coeffs, vs, more);
      case Divides(coeffs, _, _) => RowValueExtend(coeffs, vs, more);
      case Objective(coeffs, _) => RowValueExtend(coeffs, vs, more);
      case ProjectCall(_) =>
    }
  }

  /** Counting constraints is additive over concatenated logs. */
  lemma {:induction false} ConstraintCountAppend(a: seq<Submission>, b: seq<Submission>)
    ensures ConstraintCount(a + b) == ConstraintCount(a) + ConstraintCount(b)
    decreases |b|
  {
    if b != [] {
      var n := |b| - 1;
      assert (a + b)[..|a + b| - 1] == a + b[..n];
      ConstraintCountAppend(a, b[..n]);
    } else {
      assert a + b == a;
    }
  }

  class Engine {
    var vars: seq<EngineVar>
    var log: seq<Submission>

    constructor ()
      ensures vars == [] && log == []
    {
      vars := [];
      log := [];
    }

    /** `add_var`: ids are handed out consecutively from 0. */
    method AddVar(value: real, isInt: bool) returns (id: nat)
      modifies this
      ensures id == |old(vars)|
      ensures vars == old(vars) + [EngineVar(value, isInt)] && log == old(log)
    {
      id := |vars|;
      vars := vars + [EngineVar(value, isInt)];
    }

    method AddConstraint(coeffs: seq<Var>, c: real, ty: IneqType)
      modifies this
      ensures vars == old(vars) && log == old(log) + [Constraint(coeffs, c, ty)]
    {
      log := log + [Constraint(coeffs, c, ty)];
    }

    method AddDivides(coeffs: seq<Var>, c: real, m: real)
      modifies this
      ensures vars == old(vars) && log == old(log) + [Divides(coeffs, c, m)]
    {
      log := log + [Divides(coeffs, c, m)];
    }

    method SetObjective(coeffs: seq<Var>, c: real)
      modifies this
      ensures vars == old(vars) && log == old(log) + [Objective(coeffs, c)]
    {
      log := log + [Objective(coeffs, c)];
    }

    /** `project` followed by `get_live_rows`. */
    method Project(ids: seq<nat>, project: ProjectOracle) returns (rows: seq<Row>)
      modifies this
      ensures rows == project(old(log), old(vars), ids)
      ensures vars == old(vars) && log == old(log) + [ProjectCall(ids)]
    {
      rows := project(log, vars, ids);
      log := log + [ProjectCall(ids)];
    }

    /** `maximize` together with the values `get_value` reports afterwards. */
    method Maximize(maximize: MaximizeOracle) returns (res: MaxResult)
      ensures res == maximize(log, vars)
    {
      res := maximize(log, vars);
    }
  }
}
