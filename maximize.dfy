/**
 * `maximize`: the objective term and the literals true in the model are
 * linearized into a fresh engine, the engine maximizes, the model is moved to
 * the optimum the engine reports for the uninterpreted constants among the
 * atoms, and two bounds on the objective are returned: `ge`, which the moved
 * model meets, and `gt`, which forces a strictly better value.
 */
module Maximize {
  import opened Terms
  import opened Mbo
  import opened Coeffs
  import opened Linearize
  import opened Literals
  import opened Eliminate

  /** `get_value`: the engine's value for an id after maximization. */
  function GetValue(res: MaxResult, id: nat): real {
    if id < |res.values| then res.values[id] else 0.0
  }

  /**
   * The engine's optimum and the objective's value `tval` in the moved model
   * agree: a finite optimum is approached from below (no positive
   * infinitesimal), is reached when it has no infinitesimal part, and lies
   * strictly above `tval` when it has a negative one.
   */
  predicate OptimumAgrees(value: ExtValue, tval: real) {
    IsFinite(value) ==>
      value.infinitesimal <= 0.0 &&
      (value.infinitesimal == 0.0 ==> tval == value.rational) &&
      (value.infinitesimal < 0.0 ==> tval < value.rational)
  }

  /** The bounds `(ge, gt)` for the optimum `value`, where `tval` is the objective's value in the moved model. */
  function Bounds(value: ExtValue, t: Term, tval: real): (Formula, Formula) {
    var val := Num(value.rational, false);
    if !IsFinite(value) then (Ge(t, Num(tval, false)), FalseF)
    else if value.infinitesimal < 0.0 then (Ge(t, Num(tval, false)), Ge(t, val))
    else (Ge(t, val), Gt(t, val))
  }

  /** The moved model meets `ge` and not `gt`. */
  lemma BoundsAtModel(M: Model, value: ExtValue, t: Term)
    requires OptimumAgrees(value, Eval(M, t))
    ensures Holds(M, Bounds(value, t, Eval(M, t)).0)
    ensures !Holds(M, Bounds(value, t, Eval(M, t)).1)
  {
  }

  /** `gt` is the stronger bound: every model that meets it meets `ge`. */
  lemma StrictImpliesWeak(N: Model, value: ExtValue, t: Term, tval: real)
    requires OptimumAgrees(value, tval)
    requires Holds(N, Bounds(value, t, tval).1)
    ensures Holds(N, Bounds(value, t, tval).0)
  {
  }

  /** The objective's map and constant: `t` linearized with multiplier 1 into an empty map and a zero constant. */
  function ObjectiveLin(M: Model, t: Term): (real, Coeffs) {
    Lin(M, 1.0, t, 0.0, [])
  }

  /** Every map submitted for the objective mentions only atoms of the registry. */
  predicate ObjectiveRegistered(M: Model, t: Term, tids: map<Term, nat>) {
    DivsRegistered(ModDivs(M, t), tids) && InRegistry(ObjectiveLin(M, t).1, tids)
  }

  /** What linearizing the objective submits: the divisibility constraints of `t`, then the objective row. */
  function ObjectiveSubs(M: Model, t: Term, tids: map<Term, nat>): seq<Submission>
    requires ObjectiveRegistered(M, t, tids)
  {
    DivSubs(ModDivs(M, t), tids) + [Objective(ToVars(ObjectiveLin(M, t).1, tids), ObjectiveLin(M, t).0)]
  }

  /** Registering more atoms changes none of those submissions. */
  lemma ObjectiveSubsExtend(M: Model, t: Term, tids: map<Term, nat>, tids': map<Term, nat>)
    requires ObjectiveRegistered(M, t, tids)
    requires forall x :: x in tids ==> x in tids' && tids'[x] == tids[x]
    ensures ObjectiveRegistered(M, t, tids') && ObjectiveSubs(M, t, tids') == ObjectiveSubs(M, t, tids)
  {
    DivSubsExtend(ModDivs(M, t), tids, tids');
    ToVarsExtend(ObjectiveLin(M, t).1, tids, tids');
  }

  /**
   * Over a registry whose atoms carry their model values, the objective row
   * plus its constant is `t` in the model, and every divisibility row
   * submitted before it holds.
   */
  lemma ObjectiveSubsValue(M: Model, t: Term, vs: seq<EngineVar>, tids: map<Term, nat>)
    requires Registered(M, vs, tids) && ObjectiveRegistered(M, t, tids)
    ensures var s := ObjectiveSubs(M, t, tids)[|ObjectiveSubs(M, t, tids)| - 1];
      s.Objective? && RowValue(s.coeffs, vs) + s.c == Eval(M, t)
    ensures DivsHold(M, ModDivs(M, t))
  {
    LinValue(M, 1.0, t, 0.0, []);
    SumValNil(M, []);
    ToVarsValue(M, ObjectiveLin(M, t).1, vs, tids);
    ModDivsHold(M, t);
  }

  /** The loop over the literals, re-reading the vector so that appended branch conditions are visited too. */
  method LinearizeEach(eng: Engine, M: Model, fmls: seq<Formula>, tids: map<Term, nat>)
    returns (tids': map<Term, nat>, ghost all: seq<Formula>, ghost P: seq<seq<nat>>)
    requires forall k :: 0 <= k < |fmls| ==> Holds(M, fmls[k])
    requires Registered(M, eng.vars, tids) && Good(eng.log, eng.vars)
    modifies eng
    ensures Step(M, old(eng.vars), old(eng.log), tids, eng.vars, eng.log, tids')
    ensures all == fmls + AllConds(M, all) && Recorded(M, eng.log, eng.vars, all, P)
    ensures tids'.Keys == tids.Keys + AllAtoms(M, all)
    ensures AllRegistered(M, all, tids') && eng.log == old(eng.log) + AllSubs(M, all, tids')
  {
    var fs := fmls;
    tids' := tids;
    P := [];
    assert eng.vars[..|eng.vars|] == eng.vars && eng.log[..|eng.log|] == eng.log;
    assert fs[..0] == [] && fs == fmls + [] && eng.log == eng.log + [];
    var i := 0;
    while i < |fs|
      invariant i <= |fs| && forall k :: 0 <= k < |fs| ==> Holds(M, fs[k])
      invariant Step(M, old(eng.vars), old(eng.log), tids, eng.vars, eng.log, tids')
      invariant fs == fmls + AllConds(M, fs[..i]) && Recorded(M, eng.log, eng.vars, fs[..i], P)
      invariant tids'.Keys == tids.Keys + AllAtoms(M, fs[..i])
      invariant AllRegistered(M, fs[..i], tids') && eng.log == old(eng.log) + AllSubs(M, fs[..i], tids')
      decreases SumW(fs[i..])
    {
      ghost var vs0, log0, tids0 := eng.vars, eng.log, tids';
      fs, tids', P := EachRound(eng, M, fmls, fs, i, tids', P, tids, old(eng.log));
      StepTrans(M, old(eng.vars), old(eng.log), tids, vs0, log0, tids0, eng.vars, eng.log, tids');
      i := i + 1;
    }
    all := fs;
    assert fs[..i] == fs;
  }

  /** One round of the loop: the literal at `i` is linearized and its conditions appended. */
  method EachRound(eng: Engine, M: Model, ghost fmls: seq<Formula>, fs: seq<Formula>, i: nat, tids: map<Term, nat>,
                   ghost P: seq<seq<nat>>, ghost tids0: map<Term, nat>, ghost base: seq<Submission>)
    returns (fs': seq<Formula>, tids': map<Term, nat>, ghost P': seq<seq<nat>>)
    requires i < |fs| && forall k :: 0 <= k < |fs| ==> Holds(M, fs[k])
    requires Registered(M, eng.vars, tids) && Good(eng.log, eng.vars)
    requires fs == fmls + AllConds(M, fs[..i]) && Recorded(M, eng.log, eng.vars, fs[..i], P)
    requires tids.Keys == tids0.Keys + AllAtoms(M, fs[..i])
    requires AllRegistered(M, fs[..i], tids) && eng.log == base + AllSubs(M, fs[..i], tids)
    modifies eng
    ensures Step(M, old(eng.vars), old(eng.log), tids, eng.vars, eng.log, tids')
    ensures |fs| <= |fs'| && fs'[..|fs|] == fs
    ensures forall k :: 0 <= k < |fs'| ==> Holds(M, fs'[k])
    ensures SumW(fs'[i + 1..]) < SumW(fs[i..])
    ensures fs' == fmls + AllConds(M, fs'[..i + 1]) && Recorded(M, eng.log, eng.vars, fs'[..i + 1], P')
    ensures tids'.Keys == tids0.Keys + AllAtoms(M, fs'[..i + 1])
    ensures AllRegistered(M, fs'[..i + 1], tids') && eng.log == base + AllSubs(M, fs'[..i + 1], tids')
  {
    ghost var vs0, log0 := eng.vars, eng.log;
    var ok;
    ghost var pos;
    ok, fs', tids', pos := LinearizeLit(eng, M, fs[i], fs, tids);
    EachGrows(M, fs, i, fs');
    EachDone(M, fmls, base, fs, i, fs', vs0, log0, tids, eng.vars, eng.log, tids', P, pos, ok, tids0.Keys);
    P' := P + [pos];
  }

  /** The visited literal's conditions hold and weigh less than it. */
  lemma EachGrows(M: Model, fs: seq<Formula>, i: nat, fs1: seq<Formula>)
    requires i < |fs|
    ensures |fs| <= |fs1| && fs1[..|fs|] == fs && (forall k :: 0 <= k < |fs| ==> Holds(M, fs[k])) &&
            (forall k :: |fs| <= k < |fs1| ==> Holds(M, fs1[k])) && SumW(fs1[|fs|..]) < WeightF(fs[i]) ==>
            (forall k :: 0 <= k < |fs1| ==> Holds(M, fs1[k])) && SumW(fs1[i + 1..]) < SumW(fs[i..])
  {
    if |fs| <= |fs1| && fs1[..|fs|] == fs && SumW(fs1[|fs|..]) < WeightF(fs[i]) {
      assert fs1 == fs + fs1[|fs|..];
      WeightStep(fs, i, i, fs1[|fs|..], true);
    }
  }

  /** What one round leaves, given what `linearize` promised for the visited literal. */
  lemma EachDone(M: Model, fmls: seq<Formula>, base: seq<Submission>, fs: seq<Formula>, i: nat, fs1: seq<Formula>,
                 vs0: seq<EngineVar>, log0: seq<Submission>, tids0: map<Term, nat>,
                 vs: seq<EngineVar>, log: seq<Submission>, tids: map<Term, nat>,
                 P: seq<seq<nat>>, pos: seq<nat>, ok: bool, keys: set<Term>)
    requires i < |fs|
    ensures fs == fmls + AllConds(M, fs[..i]) && Recorded(M, log0, vs0, fs[..i], P) && Good(log0, vs0) &&
            Step(M, vs0, log0, tids0, vs, log, tids) &&
            (ok <==> RelationTag(fs[i]).Some?) && (ok ==> Submitted(M, log, vs, fs[i], pos)) &&
            fs1 == fs + Conds(M, fs[i]) &&
            tids0.Keys == keys + AllAtoms(M, fs[..i]) && tids.Keys == tids0.Keys + LitAtoms(M, fs[i]) &&
            AllRegistered(M, fs[..i], tids0) && log0 == base + AllSubs(M, fs[..i], tids0) &&
            LitRegistered(M, fs[i], tids) && log == log0 + LitSubs(M, fs[i], tids) ==>
            fs1 == fmls + AllConds(M, fs1[..i + 1]) && Recorded(M, log, vs, fs1[..i + 1], P + [pos]) &&
            tids.Keys == keys + AllAtoms(M, fs1[..i + 1]) &&
            AllRegistered(M, fs1[..i + 1], tids) && log == base + AllSubs(M, fs1[..i + 1], tids)
  {
    if fs == fmls + AllConds(M, fs[..i]) && Recorded(M, log0, vs0, fs[..i], P) && Good(log0, vs0) &&
       Step(M, vs0, log0, tids0, vs, log, tids) &&
       (ok <==> RelationTag(fs[i]).Some?) && (ok ==> Submitted(M, log, vs, fs[i], pos)) &&
       fs1 == fs + Conds(M, fs[i]) &&
       tids0.Keys == keys + AllAtoms(M, fs[..i]) && tids.Keys == tids0.Keys + LitAtoms(M, fs[i]) &&
       AllRegistered(M, fs[..i], tids0) && log0 == base + AllSubs(M, fs[..i], tids0) &&
       LitRegistered(M, fs[i], tids) && log == log0 + LitSubs(M, fs[i], tids) {
      EachRecord(M, fmls, fs, i, fs1, vs0, log0, tids0, vs, log, tids, P, pos, ok, keys);
      EachLog(M, base, fs, i, fs1, log0, tids0, log, tids);
    }
  }

  /** One round appends the visited literal's submissions to those of the literals before it. */
  lemma EachLog(M: Model, base: seq<Submission>, fs: seq<Formula>, i: nat, fs1: seq<Formula>,
                log0: seq<Submission>, tids0: map<Term, nat>, log: seq<Submission>, tids: map<Term, nat>)
    requires i < |fs| <= |fs1| && fs1[..|fs|] == fs
    requires AllRegistered(M, fs[..i], tids0) && log0 == base + AllSubs(M, fs[..i], tids0)
    requires forall x :: x in tids0 ==> x in tids && tids[x] == tids0[x]
    requires LitRegistered(M, fs[i], tids) && log == log0 + LitSubs(M, fs[i], tids)
    ensures AllRegistered(M, fs1[..i + 1], tids) && log == base + AllSubs(M, fs1[..i + 1], tids)
  {
    assert fs1[..i + 1] == fs[..i] + [fs[i]];
    AllSubsStep(M, base, fs[..i], fs[i], log0, tids0, log, tids);
  }

  /** One round records the visited literal at its positions; the literals visited so far are the input and their conditions. */
  lemma EachRecord(M: Model, fmls: seq<Formula>, fs: seq<Formula>, i: nat, fs1: seq<Formula>,
                   vs0: seq<EngineVar>, log0: seq<Submission>, tids0: map<Term, nat>,
                   vs: seq<EngineVar>, log: seq<Submission>, tids: map<Term, nat>,
                   P: seq<seq<nat>>, pos: seq<nat>, ok: bool, keys: set<Term>)
    requires i < |fs| && fs == fmls + AllConds(M, fs[..i]) && Recorded(M, log0, vs0, fs[..i], P) && Good(log0, vs0)
    requires Step(M, vs0, log0, tids0, vs, log, tids)
    requires ok <==> RelationTag(fs[i]).Some?
    requires ok ==> Submitted(M, log, vs, fs[i], pos)
    requires fs1 == fs + Conds(M, fs[i])
    requires tids0.Keys == keys + AllAtoms(M, fs[..i]) && tids.Keys == tids0.Keys + LitAtoms(M, fs[i])
    ensures fs1 == fmls + AllConds(M, fs1[..i + 1]) && Recorded(M, log, vs, fs1[..i + 1], P + [pos])
    ensures tids.Keys == keys + AllAtoms(M, fs1[..i + 1])
  {
    assert fs1 == fs + fs1[|fs|..];
    AllCondsStep(M, fmls, fs, i, fs1[|fs|..]);
    RecordStep(M, log0, vs0, log, vs, fs[..i], P, fs[i], pos);
    AllAtomsSnoc(M, fs[..i], fs[i]);
  }

  /** The walk over the registered atoms that moves every uninterpreted constant to the engine's value. */
  method UpdateModel(M: Model, tids: map<Term, nat>, res: MaxResult) returns (M': Model)
    ensures M'.apps == M.apps && M'.modByZero == M.modByZero && M'.preds == M.preds
    ensures forall x :: x in tids && x.Const? ==> x.decl in M'.consts && M'.consts[x.decl] == GetValue(res, tids[x])
    ensures forall d :: Const(d) !in tids ==>
      (d in M'.consts <==> d in M.consts) && (d in M.consts ==> M'.consts[d] == M.consts[d])
  {
    var keys := tids.Keys;
    var consts := M.consts;
    while keys != {}
      invariant keys <= tids.Keys
      invariant forall x :: x in tids && x !in keys && x.Const? ==>
        x.decl in consts && consts[x.decl] == GetValue(res, tids[x])
      invariant forall d :: Const(d) !in tids ==>
        (d in consts <==> d in M.consts) && (d in M.consts ==> consts[d] == M.consts[d])
      decreases |keys|
    {
      var e :| e in keys;
      if e.Const? {
        consts := consts[e.decl := GetValue(res, tids[e])];
      }
      keys := keys - {e};
    }
    M' := M.(consts := consts);
  }

  /**
   * The objective: `t` is linearized into the fresh engine and set as the
   * objective, whose row evaluates to `t` in `M`; the branch conditions
   * recorded on the way join the literals, all true in `M`.
   */
  method LinearizeObjective(eng: Engine, M: Model, t: Term, fmls0: seq<Formula>)
    returns (fmls: seq<Formula>, tids: map<Term, nat>, ghost obj: nat)
    requires eng.vars == [] && eng.log == []
    requires forall k :: 0 <= k < |fmls0| ==> Holds(M, fmls0[k])
    modifies eng
    ensures Registered(M, eng.vars, tids) && Good(eng.log, eng.vars)
    ensures obj < |eng.log| && eng.log[obj].Objective? && Scoped(eng.log[obj].coeffs, eng.vars)
    ensures RowValue(eng.log[obj].coeffs, eng.vars) + eng.log[obj].c == Eval(M, t)
    ensures forall k :: 0 <= k < |fmls| ==> Holds(M, fmls[k])
    ensures fmls == fmls0 + IteConds(M, t)
    ensures tids.Keys == TermAtoms(M, t)
    ensures ObjectiveRegistered(M, t, tids) && eng.log == ObjectiveSubs(M, t, tids) && obj == |eng.log| - 1
  {
    var c, ts, tids1;
    var ts0: Coeffs, c0, one, tids0: map<Term, nat> := [], 0.0, 1.0, map[];
    ghost var vs0, log0 := eng.vars, eng.log;
    EmptyEngine(M, vs0, log0, tids0, ts0);
    c, fmls, ts, tids1 := LinearizeTerm(eng, M, one, t, c0, fmls0, ts0, tids0);
    ghost var vs1, log1 := eng.vars, eng.log;
    var coeffs;
    coeffs, tids := Extract(eng, M, ts, tids1);
    eng.SetObjective(coeffs, c);
    obj := |eng.log| - 1;
    ObjectiveAll(M, t, fmls0, fmls, vs0, log0, tids0, one, c0, ts0, c, ts, tids1, vs1, log1, coeffs, tids, eng.vars, eng.log);
  }

  /** An engine with no variables and no submissions is well formed, and so is the empty row. */
  lemma EmptyEngine(M: Model, vs: seq<EngineVar>, log: seq<Submission>, tids: map<Term, nat>, ts: Coeffs)
    requires vs == [] && log == [] && tids == map[] && ts == []
    ensures Registered(M, vs, tids) && Good(log, vs) && DistinctKeys(ts)
  {
  }

  /** What the three steps of `LinearizeObjective` promise together, over an engine that starts empty. */
  lemma ObjectiveAll(M: Model, t: Term, fmls0: seq<Formula>, fmls: seq<Formula>,
                     vs0: seq<EngineVar>, log0: seq<Submission>, tids0: map<Term, nat>, one: real, c0: real, ts0: Coeffs, c: real, ts: Coeffs,
                     tids1: map<Term, nat>, vs1: seq<EngineVar>, log1: seq<Submission>,
                     coeffs: seq<Var>, tids: map<Term, nat>, vs: seq<EngineVar>, log: seq<Submission>)
    requires vs0 == [] && log0 == [] && tids0 == map[] && one == 1.0 && c0 == 0.0 && ts0 == []
    requires forall k :: 0 <= k < |fmls0| ==> Holds(M, fmls0[k])
    requires Step(M, vs0, log0, tids0, vs1, log1, tids1)
    requires c + SumVal(M, ts) == c0 + SumVal(M, ts0) + Scale(one, Eval(M, t))
    requires fmls == fmls0 + IteConds(M, t) && (c, ts) == Lin(M, one, t, c0, ts0)
    requires tids1.Keys == tids0.Keys + ModAtoms(M, t)
    requires DivsRegistered(ModDivs(M, t), tids1) && log1 == log0 + DivSubs(ModDivs(M, t), tids1)
    requires Step(M, vs1, log1, tids1, vs, log1, tids)
    requires InRegistry(ts, tids) && coeffs == ToVars(ts, tids)
    requires RowValue(coeffs, vs) == SumVal(M, ts) && Scoped(coeffs, vs)
    requires tids.Keys == tids1.Keys + KeySet(ts)
    requires log == log1 + [Objective(coeffs, c)]
    ensures Registered(M, vs, tids) && Good(log, vs)
    ensures log[|log| - 1].Objective? && Scoped(log[|log| - 1].coeffs, vs)
    ensures RowValue(log[|log| - 1].coeffs, vs) + log[|log| - 1].c == Eval(M, t)
    ensures forall k :: 0 <= k < |fmls| ==> Holds(M, fmls[k])
    ensures tids.Keys == TermAtoms(M, t)
    ensures ObjectiveRegistered(M, t, tids) && log == ObjectiveSubs(M, t, tids)
  {
    ObjectiveDone(M, t, fmls0, fmls, vs, log1, coeffs, c, SumVal(M, ts), [], 0.0, 1.0);
    ObjectiveAtoms(M, t, ts, tids1.Keys, tids.Keys);
    ObjectiveLog(M, t, c, ts, tids1, tids, log1, coeffs, log);
  }

  /** The divisibility constraints of `t`, kept over the grown registry, then the objective row. */
  lemma ObjectiveLog(M: Model, t: Term, c: real, ts: Coeffs, tids1: map<Term, nat>, tids: map<Term, nat>,
                     log1: seq<Submission>, coeffs: seq<Var>, log: seq<Submission>)
    requires (c, ts) == ObjectiveLin(M, t)
    requires DivsRegistered(ModDivs(M, t), tids1) && log1 == DivSubs(ModDivs(M, t), tids1)
    requires forall x :: x in tids1 ==> x in tids && tids[x] == tids1[x]
    requires InRegistry(ts, tids) && coeffs == ToVars(ts, tids)
    requires log == log1 + [Objective(coeffs, c)]
    ensures ObjectiveRegistered(M, t, tids) && log == ObjectiveSubs(M, t, tids)
  {
    DivSubsExtend(ModDivs(M, t), tids1, tids);
  }

  /** The objective registers exactly the atoms of `t`. */
  lemma ObjectiveAtoms(M: Model, t: Term, ts: Coeffs, keys1: set<Term>, keys: set<Term>)
    requires ts == Lin(M, 1.0, t, 0.0, []).1
    requires keys1 == ModAtoms(M, t) && keys == keys1 + KeySet(ts)
    ensures keys == TermAtoms(M, t)
  {
    LinKeys(M, 1.0, t, 0.0, []);
    assert KeySet([]) == {};
  }

  /** The objective row evaluates to `t`, and setting it keeps the log good. */
  lemma ObjectiveDone(M: Model, t: Term, fmls0: seq<Formula>, fmls: seq<Formula>,
                      vs: seq<EngineVar>, log: seq<Submission>, coeffs: seq<Var>, c: real, s: real, ts0: Coeffs, c0: real, one: real)
    requires Good(log, vs) && Scoped(coeffs, vs) && RowValue(coeffs, vs) == s
    requires ts0 == [] && c0 == 0.0 && one == 1.0 && c + s == c0 + SumVal(M, ts0) + Scale(one, Eval(M, t))
    requires forall k :: 0 <= k < |fmls0| ==> Holds(M, fmls0[k])
    requires fmls == fmls0 + IteConds(M, t)
    ensures Good(log + [Objective(coeffs, c)], vs)
    ensures RowValue(coeffs, vs) + c == Eval(M, t)
    ensures forall k :: 0 <= k < |fmls| ==> Holds(M, fmls[k])
  {
    IteCondsHold(M, t);
  }

  /** Later registrations leave the objective row and its value alone. */
  lemma ObjectiveKept(M: Model, t: Term, obj: nat, vs1: seq<EngineVar>, log1: seq<Submission>,
                      vs: seq<EngineVar>, log: seq<Submission>)
    requires obj < |log1| && log1[obj].Objective? && Scoped(log1[obj].coeffs, vs1)
    requires RowValue(log1[obj].coeffs, vs1) + log1[obj].c == Eval(M, t)
    requires |vs1| <= |vs| && vs[..|vs1|] == vs1 && |log1| <= |log| && log[..|log1|] == log1
    ensures obj < |log| && log[obj].Objective? && Scoped(log[obj].coeffs, vs)
    ensures RowValue(log[obj].coeffs, vs) + log[obj].c == Eval(M, t)
  {
    assert log[obj] == log1[obj];
    assert vs == vs1 + vs[|vs1|..];
    RowValueExtend(log1[obj].coeffs, vs1, vs[|vs1|..]);
  }

  /**
   * `maximize` of the real term `t` under the literals `fmls0`, all true in
   * `M`. The engine is handed an objective whose row evaluates to `t` in `M`
   * and constraints that all hold there; the result is the optimum the engine
   * reports, the model moved to the engine's values, and the bounds of
   * `Bounds` at the objective's value in the moved model.
   */
  method Maximize(fmls0: seq<Formula>, M: Model, t: Term, maximize: MaximizeOracle)
    returns (value: ExtValue, M': Model, ge: Formula, gt: Formula,
             ghost log: seq<Submission>, ghost vs: seq<EngineVar>, ghost tids: map<Term, nat>, ghost obj: nat,
             ghost all: seq<Formula>, ghost P: seq<seq<nat>>)
    requires SortOf(t) == RealSort
    requires forall k :: 0 <= k < |fmls0| ==> Holds(M, fmls0[k])
    ensures Good(log, vs) && Registered(M, vs, tids)
    ensures obj < |log| && log[obj].Objective? && Scoped(log[obj].coeffs, vs)
    ensures RowValue(log[obj].coeffs, vs) + log[obj].c == Eval(M, t)
    ensures all == fmls0 + IteConds(M, t) + AllConds(M, all) && Recorded(M, log, vs, all, P)
    ensures value == maximize(log, vs).value
    ensures forall x :: x in tids && x.Const? ==>
      x.decl in M'.consts && M'.consts[x.decl] == GetValue(maximize(log, vs), tids[x])
    ensures forall d :: Const(d) !in tids ==>
      (d in M'.consts <==> d in M.consts) && (d in M.consts ==> M'.consts[d] == M.consts[d])
    ensures (ge, gt) == Bounds(value, t, Eval(M', t))
    ensures tids.Keys == TermAtoms(M, t) + AllAtoms(M, all)
    ensures ObjectiveRegistered(M, t, tids) && AllRegistered(M, all, tids)
    ensures log == ObjectiveSubs(M, t, tids) + AllSubs(M, all, tids) && obj == |ObjectiveSubs(M, t, tids)| - 1
  {
    var eng := new Engine();
    var fmls, tids1;
    fmls, tids1, obj := LinearizeObjective(eng, M, t, fmls0);
    ghost var vs1, log1 := eng.vars, eng.log;
    var tids2;
    tids2, all, P := LinearizeEach(eng, M, fmls, tids1);
    ObjectiveKept(M, t, obj, vs1, log1, eng.vars, eng.log);
    ObjectiveSubsExtend(M, t, tids1, tids2);
    log, vs, tids := eng.log, eng.vars, tids2;
    var res := eng.Maximize(maximize);
    value := res.value;
    M' := UpdateModel(M, tids2, res);
    var bounds := Bounds(value, t, Eval(M', t));
    ge, gt := bounds.0, bounds.1;
  }
}
