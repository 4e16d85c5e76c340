/**
 * Turning the live rows the engine reports after projection back into
 * literals over the atoms the row ids stand for (`index2expr`).
 *
 * A row `sum coeff*x + c  ty  0` becomes, in the order the plugin tries them:
 * nothing when it has no variable; `a*x > c`, `a*x >= c` or `a*x = c` (with
 * `a = -coeff`) when it has a single variable of negative coefficient and is
 * not a mod row; otherwise `sum < -c`, `sum <= -c`, `sum = -c`, or
 * `(sum - (-c)) mod m = 0` for a mod row (the subtraction left out when `c` is
 * zero).
 */
module Reconstruct {
  import opened Terms
  import opened Mbo

  /** Every id of the row names an atom in `idx`. */
  predicate Indexed(vars: seq<Var>, idx: map<nat, Term>) {
    forall j :: 0 <= j < |vars| ==> vars[j].id in idx
  }

  /** The atoms in `idx` have, in `M`, the values the engine holds for their ids. */
  predicate Agrees(M: Model, vs: seq<EngineVar>, idx: map<nat, Term>) {
    forall id :: id in idx ==> Eval(M, idx[id]) == ValueOf(vs, id)
  }

  /** `coeff * atom`, written as the atom alone when the coefficient is one. */
  function Scaled(v: Var, idx: map<nat, Term>): Term
    requires v.id in idx
  {
    var x := idx[v.id];
    if v.coeff == 1.0 then x else Mul([Num(v.coeff, IsInt(x)), x])
  }

  /** The summands of a row, in row order. */
  function RowTerms(vars: seq<Var>, idx: map<nat, Term>): (ts: seq<Term>)
    requires Indexed(vars, idx)
    ensures |ts| == |vars|
    ensures forall k :: 0 <= k < |ts| ==> ts[k] == Scaled(vars[k], idx)
  {
    if vars == [] then []
    else
      var n := |vars| - 1;
      assert Indexed(vars[..n], idx) by {
        forall j | 0 <= j < n ensures vars[..n][j].id in idx {
          assert vars[..n][j] == vars[j];
        }
      }
      RowTerms(vars[..n], idx) + [Scaled(vars[n], idx)]
  }

  /** The sum of the summands, written as the summand alone when there is one. */
  function SumOf(ts: seq<Term>): Term
    requires ts != []
  {
    if |ts| == 1 then ts[0] else Add(ts)
  }

  /** A unit row: one variable, negative coefficient, not a mod row. */
  predicate IsUnit(r: Row) {
    |r.vars| == 1 && r.vars[0].coeff < 0.0 && r.ty != ModT
  }

  /** The literal a live row turns back into; `None` for a row without variables. */
  function RowToFormula(r: Row, idx: map<nat, Term>): Option<Formula>
    requires Indexed(r.vars, idx)
  {
    if |r.vars| == 0 then None
    else if IsUnit(r) then
      var v := r.vars[0];
      var x := idx[v.id];
      var t := if v.coeff == -1.0 then x else Mul([Num(-v.coeff, IsInt(x)), x]);
      var s := Num(r.coeff, IsInt(t));
      Some(if r.ty == LtT then Gt(t, s) else if r.ty == LeT then Ge(t, s) else Eq(t, s))
    else
      var ts := RowTerms(r.vars, idx);
      var s := Num(-r.coeff, IsInt(ts[|ts| - 1]));
      var t := SumOf(ts);
      Some(
        if r.ty == LtT then Lt(t, s)
        else if r.ty == LeT then Le(t, s)
        else if r.ty == EqT then Eq(t, s)
        else Eq(Mod(if r.coeff != 0.0 then Sub(t, s) else t, Num(r.mod, true)), Num(0.0, true)))
  }

  lemma ScaledValue(M: Model, v: Var, idx: map<nat, Term>)
    requires v.id in idx
    ensures Eval(M, Scaled(v, idx)) == v.coeff * Eval(M, idx[v.id])
  {
    var x := idx[v.id];
    if v.coeff != 1.0 {
      var args := [Num(v.coeff, IsInt(x)), x];
      assert args[..1] == [Num(v.coeff, IsInt(x))] && args[..1][..0] == [];
      assert EvalProd(M, args[..1]) == 1.0 * v.coeff;
      assert EvalProd(M, args) == EvalProd(M, args[..1]) * Eval(M, x);
    }
  }

  /** The sum of the summands is the row's value at the engine's values. */
  lemma {:induction false} RowTermsValue(M: Model, vars: seq<Var>, vs: seq<EngineVar>, idx: map<nat, Term>)
    requires Indexed(vars, idx) && Agrees(M, vs, idx)
    ensures EvalSum(M, RowTerms(vars, idx)) == RowValue(vars, vs)
    decreases |vars|
  {
    if vars != [] {
      var n := |vars| - 1;
      var ts := RowTerms(vars, idx);
      assert Indexed(vars[..n], idx) by {
        forall j | 0 <= j < n ensures vars[..n][j].id in idx {
          assert vars[..n][j] == vars[j];
        }
      }
      assert ts[..n] == RowTerms(vars[..n], idx);
      RowTermsValue(M, vars[..n], vs, idx);
      ScaledValue(M, vars[n], idx);
      assert Eval(M, ts[n]) == vars[n].coeff * ValueOf(vs, vars[n].id);
      assert EvalSum(M, ts) == EvalSum(M, ts[..n]) + Eval(M, ts[n]);
    }
  }

  /**
   * The reconstructed literal is exact: it holds in `M` if and only if the row
   * holds at the engine's values, provided the atoms carry those values and a
   * mod row has a non-zero modulus. Only a row without variables is dropped.
   */
  lemma RowFormulaExact(M: Model, r: Row, vs: seq<EngineVar>, idx: map<nat, Term>)
    requires Indexed(r.vars, idx) && Agrees(M, vs, idx)
    requires r.ty == ModT ==> r.mod != 0.0
    ensures RowToFormula(r, idx).None? <==> r.vars == []
    ensures r.vars != [] ==> (Holds(M, RowToFormula(r, idx).value) <==> RowHolds(r, vs))
  {
    if r.vars == [] {
    } else if IsUnit(r) {
      UnitFormulaExact(M, r, vs, idx);
    } else {
      SumFormulaExact(M, r, vs, idx);
    }
  }

  lemma UnitFormulaExact(M: Model, r: Row, vs: seq<EngineVar>, idx: map<nat, Term>)
    requires Indexed(r.vars, idx) && Agrees(M, vs, idx) && IsUnit(r)
    ensures Holds(M, RowToFormula(r, idx).value) <==> RowHolds(r, vs)
  {
    var v := r.vars[0];
    var x := idx[v.id];
    var t := if v.coeff == -1.0 then x else Mul([Num(-v.coeff, IsInt(x)), x]);
    ScaledValue(M, Var(v.id, -v.coeff), idx);
    assert Eval(M, t) == -v.coeff * Eval(M, x);
    assert r.vars[..0] == [];
    assert RowValue(r.vars, vs) == v.coeff * Eval(M, x);
  }

  lemma SumFormulaExact(M: Model, r: Row, vs: seq<EngineVar>, idx: map<nat, Term>)
    requires Indexed(r.vars, idx) && Agrees(M, vs, idx) && r.vars != [] && !IsUnit(r)
    requires r.ty == ModT ==> r.mod != 0.0
    ensures Holds(M, RowToFormula(r, idx).value) <==> RowHolds(r, vs)
  {
    var ts := RowTerms(r.vars, idx);
    SumOfValue(M, r.vars, vs, idx);
    if r.ty == ModT {
      ModFormulaExact(M, SumOf(ts), r.coeff, r.mod, RowValue(r.vars, vs), Num(-r.coeff, IsInt(ts[|ts| - 1])));
    }
  }

  /** The sum evaluates to the row's value at the engine's values. */
  lemma SumOfValue(M: Model, vars: seq<Var>, vs: seq<EngineVar>, idx: map<nat, Term>)
    requires Indexed(vars, idx) && Agrees(M, vs, idx) && vars != []
    ensures Eval(M, SumOf(RowTerms(vars, idx))) == RowValue(vars, vs)
  {
    var ts := RowTerms(vars, idx);
    RowTermsValue(M, vars, vs, idx);
    if |ts| == 1 {
      assert ts[..0] == [];
    }
  }

  /** `(t - s) mod m = 0`, with `s` worth `-c`, holds exactly when `m` divides the value of `t` plus `c`. */
  lemma ModFormulaExact(M: Model, t: Term, c: real, m: real, v: real, s: Term)
    requires m != 0.0 && Eval(M, t) == v && Eval(M, s) == -c
    ensures Holds(M, Eq(Mod(if c != 0.0 then Sub(t, s) else t, Num(m, true)), Num(0.0, true))) <==> Divisible(v + c, m)
  {
    var d := if c != 0.0 then Sub(t, s) else t;
    assert Eval(M, d) == v + c;
    assert Eval(M, Mod(d, Num(m, true))) == EuclidMod(v + c, m);
    RemainderZeroIffDivisible(v + c, m);
  }

  /** A constant inside a summand is inside the summand's atom. */
  lemma ScaledAtoms(w: Term, v: Var, idx: map<nat, Term>)
    requires v.id in idx && w.Const? && OccursIn(w, Scaled(v, idx))
    ensures OccursIn(w, idx[v.id])
  {
    var x := idx[v.id];
    if v.coeff != 1.0 {
      var i :| 0 <= i < 2 && OccursIn(w, [Num(v.coeff, IsInt(x)), x][i]);
    }
  }

  /** A constant inside the sum is inside one of the row's atoms. */
  lemma SumAtoms(w: Term, vars: seq<Var>, idx: map<nat, Term>)
    requires Indexed(vars, idx) && |vars| > 1 && w.Const? && OccursIn(w, Add(RowTerms(vars, idx)))
    ensures exists j :: 0 <= j < |vars| && OccursIn(w, idx[vars[j].id])
  {
    var ts := RowTerms(vars, idx);
    var i :| 0 <= i < |ts| && OccursIn(w, ts[i]);
    ScaledAtoms(w, vars[i], idx);
  }

  /**
   * The reconstructed literal mentions no constant outside the atoms its row
   * ids stand for: a variable absent from those atoms is absent from it.
   */
  lemma RowFormulaAtoms(w: Term, r: Row, idx: map<nat, Term>)
    requires Indexed(r.vars, idx) && w.Const?
    requires RowToFormula(r, idx).Some? && OccursInF(w, RowToFormula(r, idx).value)
    ensures exists j :: 0 <= j < |r.vars| && OccursIn(w, idx[r.vars[j].id])
  {
    if IsUnit(r) {
      var v := r.vars[0];
      if v.coeff == -1.0 {
        assert OccursIn(w, idx[v.id]);
      } else {
        ScaledAtoms(w, Var(v.id, -v.coeff), idx);
      }
    } else {
      var ts := RowTerms(r.vars, idx);
      var t := SumOf(ts);
      assert OccursIn(w, t) by {
        var sn := Num(-r.coeff, IsInt(ts[|ts| - 1]));
        if r.ty == ModT {
          var d := if r.coeff != 0.0 then Sub(t, sn) else t;
          assert !OccursIn(w, Num(0.0, true)) && !OccursIn(w, Num(r.mod, true));
          assert OccursIn(w, Mod(d, Num(r.mod, true)));
          assert OccursIn(w, d);
        } else {
          assert !OccursIn(w, sn);
        }
      }
      if |ts| == 1 {
        ScaledAtoms(w, r.vars[0], idx);
      } else {
        SumAtoms(w, r.vars, idx);
      }
    }
  }
}
