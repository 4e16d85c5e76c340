/**
 * Model-based projection of arithmetic variables (`operator()` of the
 * plugin): the literals true in the model are linearized into the engine,
 * the variables that can go are projected by the engine, and the live rows
 * are turned back into literals that replace the linearized ones.
 *
 * The variables are uninterpreted constants, given by their declarations;
 * the variable itself is the atom `Const(d)`.
 */
module Eliminate {
  import opened Terms
  import opened Mbo
  import opened Coeffs
  import opened Linearize
  import opened Literals
  import opened Reconstruct

  /** Some variable is arithmetic. */
  predicate AnyArith(vars: seq<Decl>) {
    exists k :: 0 <= k < |vars| && IsArith(Const(vars[k]))
  }

  /** The scan for an arithmetic variable, stopping at the first one. */
  method HasArith(vars: seq<Decl>) returns (b: bool)
    ensures b <==> AnyArith(vars)
  {
    b := false;
    var i := 0;
    while !b && i < |vars|
      invariant 0 <= i <= |vars|
      invariant b <==> exists k :: 0 <= k < i && IsArith(Const(vars[k]))
    {
      b := b || IsArith(Const(vars[i]));
      i := i + 1;
    }
  }

  /** The literals `linearize` rejects, in order: the residue left to the caller. */
  function Residue(fs: seq<Formula>): seq<Formula> {
    if fs == [] then []
    else Residue(fs[..|fs| - 1]) + (if RelationTag(fs[|fs| - 1]).None? then [fs[|fs| - 1]] else [])
  }

  /** The residue holds exactly the rejected literals. */
  lemma {:induction false} ResidueMembers(fs: seq<Formula>)
    ensures forall f :: f in Residue(fs) <==> f in fs && RelationTag(f).None?
    decreases |fs|
  {
    if fs != [] {
      var n := |fs| - 1;
      ResidueMembers(fs[..n]);
      assert fs == fs[..n] + [fs[n]];
    }
  }

  lemma SumWCons(x: Formula, rest: seq<Formula>)
    ensures SumW([x] + rest) == WeightF(x) + SumW(rest)
  {
    SumWAppend([x], rest);
    assert [x][..0] == [];
  }

  /**
   * The state of the loop over the literals after `i` rounds: the literals
   * still to visit are those of `all` from `i` on, the first `j` slots hold
   * the residue of the visited ones, and every literal visited holds in `M`.
   */
  ghost predicate Scan(M: Model, fmls: seq<Formula>, fs: seq<Formula>, all: seq<Formula>, i: nat, j: nat) {
    j <= i <= |fs| == |all| &&
    fs[i..] == all[i..] &&
    fs[..j] == Residue(all[..i]) &&
    (forall k :: 0 <= k < |all| ==> Holds(M, all[k])) &&
    |fmls| <= |all| && all[..|fmls|] == fmls
  }

  /** The branch conditions linearizing the literals `fs` appends, literal after literal. */
  function AllConds(M: Model, fs: seq<Formula>): seq<Formula> {
    if fs == [] then [] else AllConds(M, fs[..|fs| - 1]) + Conds(M, fs[|fs| - 1])
  }

  /** The atoms linearizing the literals `fs` registers, literal after literal. */
  function AllAtoms(M: Model, fs: seq<Formula>): set<Term> {
    if fs == [] then {} else AllAtoms(M, fs[..|fs| - 1]) + LitAtoms(M, fs[|fs| - 1])
  }

  /** Visiting one more literal registers its atoms. */
  lemma AllAtomsSnoc(M: Model, fs: seq<Formula>, lit: Formula)
    ensures AllAtoms(M, fs + [lit]) == AllAtoms(M, fs) + LitAtoms(M, lit)
  {
    assert (fs + [lit])[..|fs|] == fs;
  }

  /** Every map submitted for the literals `fs` mentions only atoms of the registry. */
  predicate AllRegistered(M: Model, fs: seq<Formula>, tids: map<Term, nat>) {
    forall k :: 0 <= k < |fs| ==> LitRegistered(M, fs[k], tids)
  }

  /** What linearizing the literals `fs` submits, literal after literal, over the registry `tids`. */
  function AllSubs(M: Model, fs: seq<Formula>, tids: map<Term, nat>): seq<Submission>
    requires AllRegistered(M, fs, tids)
  {
    if fs == [] then [] else AllSubs(M, fs[..|fs| - 1], tids) + LitSubs(M, fs[|fs| - 1], tids)
  }

  /** Registering more atoms changes none of those submissions. */
  lemma {:induction false} AllSubsExtend(M: Model, fs: seq<Formula>, tids: map<Term, nat>, tids': map<Term, nat>)
    requires AllRegistered(M, fs, tids)
    requires forall x :: x in tids ==> x in tids' && tids'[x] == tids[x]
    ensures AllRegistered(M, fs, tids') && AllSubs(M, fs, tids') == AllSubs(M, fs, tids)
    decreases |fs|
  {
    forall k | 0 <= k < |fs| ensures LitRegistered(M, fs[k], tids') && LitSubs(M, fs[k], tids') == LitSubs(M, fs[k], tids) {
      LitSubsExtend(M, fs[k], tids, tids');
    }
    if fs != [] {
      AllSubsExtend(M, fs[..|fs| - 1], tids, tids');
    }
  }

  /** Visiting one more literal, over a registry that only grew, appends its submissions. */
  lemma AllSubsStep(M: Model, base: seq<Submission>, fs: seq<Formula>, lit: Formula,
                    log0: seq<Submission>, tids0: map<Term, nat>, log: seq<Submission>, tids: map<Term, nat>)
    requires AllRegistered(M, fs, tids0) && log0 == base + AllSubs(M, fs, tids0)
    requires forall x :: x in tids0 ==> x in tids && tids[x] == tids0[x]
    requires LitRegistered(M, lit, tids) && log == log0 + LitSubs(M, lit, tids)
    ensures AllRegistered(M, fs + [lit], tids) && log == base + AllSubs(M, fs + [lit], tids)
  {
    AllSubsExtend(M, fs, tids0, tids);
    AllSubsSnoc(M, fs, lit, tids);
    SubsAssoc(base, AllSubs(M, fs, tids), LitSubs(M, lit, tids));
  }

  lemma AllSubsSnoc(M: Model, fs: seq<Formula>, lit: Formula, tids: map<Term, nat>)
    requires AllRegistered(M, fs, tids) && LitRegistered(M, lit, tids)
    ensures AllRegistered(M, fs + [lit], tids) && AllSubs(M, fs + [lit], tids) == AllSubs(M, fs, tids) + LitSubs(M, lit, tids)
  {
    assert (fs + [lit])[..|fs|] == fs;
  }

  /**
   * The engine's log holds, for every literal of `lits` that `linearize`
   * accepts, the constraints of its parts at the positions `P` gives it.
   */
  ghost predicate Recorded(M: Model, log: seq<Submission>, vs: seq<EngineVar>, lits: seq<Formula>,
                           P: seq<seq<nat>>) {
    |P| == |lits| &&
    forall k :: 0 <= k < |lits| && RelationTag(lits[k]).Some? ==> Submitted(M, log, vs, lits[k], P[k])
  }

  /** A longer log and a larger store keep what was recorded. */
  lemma RecordedExtend(M: Model, log: seq<Submission>, vs: seq<EngineVar>, log': seq<Submission>,
                       vs': seq<EngineVar>, lits: seq<Formula>, P: seq<seq<nat>>)
    requires Recorded(M, log, vs, lits, P) && Good(log, vs)
    requires |log| <= |log'| && log'[..|log|] == log && |vs| <= |vs'| && vs'[..|vs|] == vs
    ensures Recorded(M, log', vs', lits, P)
  {
    forall k | 0 <= k < |lits| && RelationTag(lits[k]).Some? ensures Submitted(M, log', vs', lits[k], P[k]) {
      SubmittedExtend(M, log, vs, log', vs', lits[k], P[k]);
    }
  }

  /** Linearizing one more literal records it, at the positions its linearization reports. */
  lemma RecordStep(M: Model, log: seq<Submission>, vs: seq<EngineVar>, log': seq<Submission>,
                   vs': seq<EngineVar>, lits: seq<Formula>, P: seq<seq<nat>>, lit: Formula, pos: seq<nat>)
    requires Recorded(M, log, vs, lits, P) && Good(log, vs)
    requires |log| <= |log'| && log'[..|log|] == log && |vs| <= |vs'| && vs'[..|vs|] == vs
    requires RelationTag(lit).Some? ==> Submitted(M, log', vs', lit, pos)
    ensures Recorded(M, log', vs', lits + [lit], P + [pos])
  {
    RecordedExtend(M, log, vs, log', vs', lits, P);
    var lits', P' := lits + [lit], P + [pos];
    forall k | 0 <= k < |lits'| && RelationTag(lits'[k]).Some? ensures Submitted(M, log', vs', lits'[k], P'[k]) {
      if k < |lits| {
        assert lits'[k] == lits[k] && P'[k] == P[k];
      }
    }
  }

  /** The literals seen so far are the input followed by the conditions of those visited; one more visit keeps it so. */
  lemma AllCondsStep(M: Model, fmls: seq<Formula>, all: seq<Formula>, i: nat, added: seq<Formula>)
    requires i < |all| && all == fmls + AllConds(M, all[..i]) && added == Conds(M, all[i])
    ensures (all + added)[..i + 1] == all[..i] + [all[i]]
    ensures all + added == fmls + AllConds(M, (all + added)[..i + 1])
  {
    PrefixSnoc(all, added, i);
    AllCondsSnoc(M, all[..i], all[i]);
    AppendAssoc(fmls, AllConds(M, all[..i]), added);
  }

  lemma PrefixSnoc(all: seq<Formula>, added: seq<Formula>, i: nat)
    requires i < |all|
    ensures (all + added)[..i + 1] == all[..i] + [all[i]]
  {
  }

  /** Visiting one more literal appends its conditions. */
  lemma AllCondsSnoc(M: Model, fs: seq<Formula>, lit: Formula)
    ensures AllConds(M, fs + [lit]) == AllConds(M, fs) + Conds(M, lit)
  {
    assert (fs + [lit])[..|fs|] == fs;
  }

  /** The residue slot a rejected literal is copied to, when it is not already there. */
  function Compact(fs: seq<Formula>, i: nat, j: nat, ok: bool): seq<Formula>
    requires j <= i < |fs|
  {
    if !ok && i != j then fs[j := fs[i]] else fs
  }

  /** One round of the loop keeps its state. */
  lemma ScanStep(M: Model, fmls: seq<Formula>, fs: seq<Formula>, all: seq<Formula>, i: nat, j: nat,
                 added: seq<Formula>, ok: bool)
    requires Scan(M, fmls, fs, all, i, j) && i < |fs|
    requires ok <==> RelationTag(fs[i]).Some?
    requires forall k :: 0 <= k < |added| ==> Holds(M, added[k])
    ensures Scan(M, fmls, Compact(fs + added, i, j, ok), all + added, i + 1, if ok then j else j + 1)
  {
    var fml := fs[i];
    var fs' := Compact(fs + added, i, j, ok);
    var all' := all + added;
    var j' := if ok then j else j + 1;
    assert all'[..|fmls|] == all[..|fmls|];
    assert all'[i + 1..] == all[i + 1..] + added;
    assert fs'[i + 1..] == all'[i + 1..] by {
      assert fs[i + 1..] == all[i + 1..];
      assert fs'[i + 1..] == fs[i + 1..] + added;
    }
    assert fs'[..j'] == Residue(all'[..i + 1]) by {
      assert all[i] == fml;
      assert all'[..i + 1] == all[..i] + [fml];
      assert all'[..i + 1][..i] == all[..i];
      if !ok {
        assert fs'[..j + 1] == fs[..j] + [fml];
      } else {
        assert fs'[..j] == fs[..j];
      }
    }
  }

  /** Before the first round nothing is visited and the residue is empty. */
  lemma ScanStart(M: Model, fmls: seq<Formula>, log: seq<Submission>, vs: seq<EngineVar>)
    requires forall k :: 0 <= k < |fmls| ==> Holds(M, fmls[k])
    ensures Scan(M, fmls, fmls, fmls, 0, 0)
    ensures fmls == fmls + AllConds(M, fmls[..0]) && Recorded(M, log, vs, fmls[..0], [])
    ensures AllAtoms(M, fmls[..0]) == {}
  {
    assert fmls[..|fmls|] == fmls;
    assert fmls[..0] == [] && fmls == fmls + [];
  }

  /** After the last round every literal is visited and the residue is complete. */
  lemma ScanDone(M: Model, fmls: seq<Formula>, fs: seq<Formula>, all: seq<Formula>, i: nat, j: nat,
                 log: seq<Submission>, vs: seq<EngineVar>, P: seq<seq<nat>>)
    requires Scan(M, fmls, fs, all, i, j) && |fs| <= i
    requires all == fmls + AllConds(M, all[..i]) && Recorded(M, log, vs, all[..i], P)
    ensures all == fmls + AllConds(M, all) && Recorded(M, log, vs, all, P)
    ensures fs[..j] == Residue(all)
    ensures |fmls| <= |all| && all[..|fmls|] == fmls
    ensures forall k :: 0 <= k < |all| ==> Holds(M, all[k])
    ensures AllAtoms(M, all[..i]) == AllAtoms(M, all)
  {
    assert all[..i] == all;
  }

  /** One round lowers the weight left to visit. */
  lemma WeightStep(fs: seq<Formula>, i: nat, j: nat, added: seq<Formula>, ok: bool)
    requires j <= i < |fs| && SumW(added) < WeightF(fs[i])
    ensures SumW(Compact(fs + added, i, j, ok)[i + 1..]) < SumW(fs[i..])
  {
    assert Compact(fs + added, i, j, ok)[i + 1..] == fs[i + 1..] + added;
    assert fs[i..] == [fs[i]] + fs[i + 1..];
    SumWCons(fs[i], fs[i + 1..]);
    SumWAppend(fs[i + 1..], added);
  }

  /**
   * The loop over the literals: each one is linearized or kept in place at the
   * next residue slot. The vector is re-read on every round, so the branch
   * conditions that linearization appends are themselves visited; `all` is
   * every literal visited, in order.
   */
  method LinearizeAll(eng: Engine, M: Model, fmls: seq<Formula>)
    returns (residue: seq<Formula>, tids: map<Term, nat>, ghost all: seq<Formula>, ghost P: seq<seq<nat>>)
    requires Registered(M, eng.vars, map[]) && Good(eng.log, eng.vars) && eng.log == []
    requires forall k :: 0 <= k < |fmls| ==> Holds(M, fmls[k])
    modifies eng
    ensures Registered(M, eng.vars, tids) && Good(eng.log, eng.vars)
    ensures |fmls| <= |all| && all[..|fmls|] == fmls
    ensures forall k :: 0 <= k < |all| ==> Holds(M, all[k])
    ensures residue == Residue(all)
    ensures all == fmls + AllConds(M, all)
    ensures Recorded(M, eng.log, eng.vars, all, P)
    ensures tids.Keys == AllAtoms(M, all)
    ensures AllRegistered(M, all, tids) && eng.log == AllSubs(M, all, tids)
  {
    var fs := fmls;
    tids, all, P := map[], fmls, [];
    var i: nat, j: nat := 0, 0;
    ScanStart(M, fmls, eng.log, eng.vars);
    while i < |fs|
      invariant Scan(M, fmls, fs, all, i, j)
      invariant Registered(M, eng.vars, tids) && Good(eng.log, eng.vars)
      invariant all == fmls + AllConds(M, all[..i])
      invariant Recorded(M, eng.log, eng.vars, all[..i], P)
      invariant tids.Keys == AllAtoms(M, all[..i])
      invariant AllRegistered(M, all[..i], tids) && eng.log == AllSubs(M, all[..i], tids)
      decreases SumW(fs[i..])
    {
      fs, j, tids, all, P := ScanRound(eng, M, fs, i, j, tids, fmls, all, P);
      i := i + 1;
    }
    residue := fs[..j];
    ScanDone(M, fmls, fs, all, i, j, eng.log, eng.vars, P);
    assert all[..i] == all;
  }

  /**
   * One round of that loop: the `i`-th literal is linearized, or moved to the
   * residue slot `j` when `linearize` rejects it.
   */
  method ScanRound(eng: Engine, M: Model, fs: seq<Formula>, i: nat, j: nat, tids: map<Term, nat>,
                   ghost fmls: seq<Formula>, ghost all: seq<Formula>, ghost P: seq<seq<nat>>)
    returns (fs': seq<Formula>, j': nat, tids': map<Term, nat>, ghost all': seq<Formula>, ghost P': seq<seq<nat>>)
    requires Scan(M, fmls, fs, all, i, j) && i < |fs|
    requires Registered(M, eng.vars, tids) && Good(eng.log, eng.vars)
    requires all == fmls + AllConds(M, all[..i]) && Recorded(M, eng.log, eng.vars, all[..i], P)
    requires tids.Keys == AllAtoms(M, all[..i])
    requires AllRegistered(M, all[..i], tids) && eng.log == AllSubs(M, all[..i], tids)
    modifies eng
    ensures Scan(M, fmls, fs', all', i + 1, j')
    ensures Registered(M, eng.vars, tids') && Good(eng.log, eng.vars)
    ensures SumW(fs'[i + 1..]) < SumW(fs[i..])
    ensures all' == fmls + AllConds(M, all'[..i + 1]) && Recorded(M, eng.log, eng.vars, all'[..i + 1], P')
    ensures tids'.Keys == AllAtoms(M, all'[..i + 1])
    ensures AllRegistered(M, all'[..i + 1], tids') && eng.log == AllSubs(M, all'[..i + 1], tids')
  {
    var ok, fs1;
    ghost var pos;
    ghost var vs0, log0 := eng.vars, eng.log;
    ok, fs1, tids', pos := LinearizeLit(eng, M, fs[i], fs, tids);
    ghost var added := fs1[|fs|..];
    Appended(M, fs, fs1);
    ScanStep(M, fmls, fs, all, i, j, added, ok);
    WeightStep(fs, i, j, added, ok);
    all' := all + added;
    ScanRecord(M, fmls, fs, all, i, j, fs1, vs0, log0, tids, eng.vars, eng.log, tids', P, pos, ok);
    ScanLog(M, fmls, fs, all, i, j, added, log0, tids, eng.log, tids');
    P' := P + [pos];
    fs', j' := fs1, j;
    if !ok {
      if i != j {
        fs' := fs'[j := fs'[i]];
      }
      j' := j + 1;
    }
  }

  /** What one round adds to the record: the visited literal at its positions, its conditions appended. */
  lemma ScanRecord(M: Model, fmls: seq<Formula>, fs: seq<Formula>, all: seq<Formula>, i: nat, j: nat,
                   fs1: seq<Formula>, vs0: seq<EngineVar>, log0: seq<Submission>, tids0: map<Term, nat>,
                   vs: seq<EngineVar>, log: seq<Submission>, tids: map<Term, nat>,
                   P: seq<seq<nat>>, pos: seq<nat>, ok: bool)
    requires Scan(M, fmls, fs, all, i, j) && i < |fs|
    requires all == fmls + AllConds(M, all[..i]) && Recorded(M, log0, vs0, all[..i], P) && Good(log0, vs0)
    requires Step(M, vs0, log0, tids0, vs, log, tids)
    requires ok <==> RelationTag(fs[i]).Some?
    requires ok ==> Submitted(M, log, vs, fs[i], pos)
    requires fs1 == fs + Conds(M, fs[i])
    requires tids0.Keys == AllAtoms(M, all[..i]) && tids.Keys == tids0.Keys + LitAtoms(M, fs[i])
    ensures all + fs1[|fs|..] == fmls + AllConds(M, (all + fs1[|fs|..])[..i + 1])
    ensures Recorded(M, log, vs, (all + fs1[|fs|..])[..i + 1], P + [pos])
    ensures tids.Keys == AllAtoms(M, (all + fs1[|fs|..])[..i + 1])
  {
    assert fs[i] == all[i] by { assert fs[i..][0] == all[i..][0]; }
    assert fs1[|fs|..] == Conds(M, all[i]);
    AllCondsStep(M, fmls, all, i, fs1[|fs|..]);
    RecordStep(M, log0, vs0, log, vs, all[..i], P, all[i], pos);
    AllAtomsSnoc(M, all[..i], all[i]);
  }

  /** What one round submits: the visited literal's submissions, after those of the literals before it. */
  lemma ScanLog(M: Model, fmls: seq<Formula>, fs: seq<Formula>, all: seq<Formula>, i: nat, j: nat,
                added: seq<Formula>, log0: seq<Submission>, tids0: map<Term, nat>,
                log: seq<Submission>, tids: map<Term, nat>)
    requires Scan(M, fmls, fs, all, i, j) && i < |fs|
    requires AllRegistered(M, all[..i], tids0) && log0 == AllSubs(M, all[..i], tids0)
    requires forall x :: x in tids0 ==> x in tids && tids[x] == tids0[x]
    requires LitRegistered(M, fs[i], tids) && log == log0 + LitSubs(M, fs[i], tids)
    ensures AllRegistered(M, (all + added)[..i + 1], tids) && log == AllSubs(M, (all + added)[..i + 1], tids)
  {
    assert fs[i] == all[i] by { assert fs[i..][0] == all[i..][0]; }
    PrefixSnoc(all, added, i);
    AllSubsStep(M, [], all[..i], all[i], log0, tids0, log, tids);
  }

  /** The requested variables that are arithmetic, as terms. */
  function ArithVars(vars: seq<Decl>): set<Term> {
    if vars == [] then {}
    else ArithVars(vars[..|vars| - 1]) + (if IsArith(Const(vars[|vars| - 1])) then {Const(vars[|vars| - 1])} else {})
  }

  /** Registering the arithmetic variables the literals did not mention, with their model values. */
  method RegisterVars(eng: Engine, M: Model, vars: seq<Decl>, tids: map<Term, nat>)
    returns (tids': map<Term, nat>)
    requires Registered(M, eng.vars, tids) && Good(eng.log, eng.vars)
    modifies eng
    ensures Registered(M, eng.vars, tids') && Good(eng.log, eng.vars) && eng.log == old(eng.log)
    ensures Grows(old(eng.vars), eng.vars, tids, tids')
    ensures forall k :: 0 <= k < |vars| && IsArith(Const(vars[k])) ==> Const(vars[k]) in tids'
    ensures forall x :: x in tids' && x !in tids ==> exists k :: 0 <= k < |vars| && x == Const(vars[k])
    ensures tids'.Keys == tids.Keys + ArithVars(vars)
  {
    tids' := tids;
    assert eng.vars[..|eng.vars|] == eng.vars;
    assert vars[..0] == [];
    for i := 0 to |vars|
      invariant Registered(M, eng.vars, tids') && Good(eng.log, eng.vars) && eng.log == old(eng.log)
      invariant Grows(old(eng.vars), eng.vars, tids, tids')
      invariant forall k :: 0 <= k < i && IsArith(Const(vars[k])) ==> Const(vars[k]) in tids'
      invariant forall x :: x in tids' && x !in tids ==> exists k :: 0 <= k < i && x == Const(vars[k])
      invariant tids'.Keys == tids.Keys + ArithVars(vars[..i])
    {
      var v := Const(vars[i]);
      ghost var keys := tids'.Keys;
      if IsArith(v) && v !in tids' {
        ghost var vs0 := eng.vars;
        var id := eng.AddVar(Eval(M, v), IsInt(v));
        RegisterFresh(M, vs0, tids', v);
        GrowsTrans(old(eng.vars), vs0, eng.vars, tids, tids', tids'[v := id]);
        GoodExtend(eng.log, vs0, [EngineVar(Eval(M, v), IsInt(v))]);
        tids' := tids'[v := id];
      }
      ArithVarsStep(vars, i, tids.Keys, keys, tids'.Keys);
    }
    assert vars[..|vars|] == vars;
  }

  /** One more variable visited: the keys gain it exactly when it is arithmetic. */
  lemma ArithVarsStep(vars: seq<Decl>, i: nat, keys0: set<Term>, keys: set<Term>, keys': set<Term>)
    requires i < |vars| && keys == keys0 + ArithVars(vars[..i])
    requires IsArith(Const(vars[i])) ==> keys' == keys + {Const(vars[i])}
    requires !IsArith(Const(vars[i])) ==> keys' == keys
    ensures keys' == keys0 + ArithVars(vars[..i + 1])
  {
    assert vars[..i + 1][..i] == vars[..i];
  }

  /** `v` lies inside one of the atoms `mark_rec` was called on. */
  predicate Marked(v: Term, roots: seq<Term>) {
    exists k :: 0 <= k < |roots| && OccursIn(v, roots[k])
  }

  predicate Injective(tids: map<Term, nat>) {
    forall x, y :: x in tids && y in tids && tids[x] == tids[y] ==> x == y
  }

  /**
   * The walk over the registered atoms: each atom that is not a variable has
   * its sub-terms marked, and `index2expr` maps every id back to its atom.
   */
  method BuildIndex(tids: map<Term, nat>, varSet: set<Term>)
    returns (idx: map<nat, Term>, roots: seq<Term>)
    requires Injective(tids)
    ensures forall x :: x in tids ==> tids[x] in idx && idx[tids[x]] == x
    ensures forall id :: id in idx ==> idx[id] in tids && tids[idx[id]] == id
    ensures forall x :: x in tids && x !in varSet ==> x in roots
    ensures forall k :: 0 <= k < |roots| ==> roots[k] in tids && roots[k] !in varSet
  {
    var keys := tids.Keys;
    idx, roots := map[], [];
    while keys != {}
      invariant keys <= tids.Keys
      invariant forall x :: x in tids && x !in keys ==> tids[x] in idx && idx[tids[x]] == x
      invariant forall id :: id in idx ==> idx[id] in tids && idx[id] !in keys && tids[idx[id]] == id
      invariant forall x :: x in tids && x !in keys && x !in varSet ==> x in roots
      invariant forall k :: 0 <= k < |roots| ==> roots[k] in tids && roots[k] !in varSet
      decreases |keys|
    {
      var e :| e in keys;
      if e !in varSet {
        roots := roots + [e];
      }
      idx := idx[tids[e] := e];
      keys := keys - {e};
    }
  }

  /** The requested variables, as atoms. */
  function VarSet(vars: seq<Decl>): set<Term> {
    set k | 0 <= k < |vars| :: Const(vars[k])
  }

  /** A variable is projected when it is arithmetic and no marked atom contains it. */
  predicate Projected(d: Decl, roots: seq<Term>) {
    IsArith(Const(d)) && !Marked(Const(d), roots)
  }

  /** The variables that stay, in order. */
  function Kept(vars: seq<Decl>, roots: seq<Term>): seq<Decl> {
    if vars == [] then []
    else
      var n := |vars| - 1;
      Kept(vars[..n], roots) + (if Projected(vars[n], roots) then [] else [vars[n]])
  }

  /** The engine ids of the projected variables, in order. */
  function ProjectedIds(vars: seq<Decl>, roots: seq<Term>, tids: map<Term, nat>): seq<nat>
    requires forall k :: 0 <= k < |vars| && IsArith(Const(vars[k])) ==> Const(vars[k]) in tids
  {
    if vars == [] then []
    else
      var n := |vars| - 1;
      ProjectedIds(vars[..n], roots, tids) + (if Projected(vars[n], roots) then [tids[Const(vars[n])]] else [])
  }

  /** The kept variables are the variables that are not projected. */
  lemma {:induction false} KeptMembers(vars: seq<Decl>, roots: seq<Term>)
    ensures forall d :: d in Kept(vars, roots) <==> d in vars && !Projected(d, roots)
    decreases |vars|
  {
    if vars != [] {
      var n := |vars| - 1;
      KeptMembers(vars[..n], roots);
      assert vars == vars[..n] + [vars[n]];
    }
  }

  /** Every projected variable hands its id to the engine. */
  lemma {:induction false} ProjectedIdsMembers(vars: seq<Decl>, roots: seq<Term>, tids: map<Term, nat>, d: Decl)
    requires forall k :: 0 <= k < |vars| && IsArith(Const(vars[k])) ==> Const(vars[k]) in tids
    requires d in vars && Projected(d, roots)
    ensures tids[Const(d)] in ProjectedIds(vars, roots, tids)
    decreases |vars|
  {
    var n := |vars| - 1;
    if d != vars[n] {
      assert d in vars[..n] by {
        assert vars == vars[..n] + [vars[n]];
      }
      ProjectedIdsMembers(vars[..n], roots, tids, d);
    }
  }

  /** The loop that splits the variables into those that stay and the ids to project. */
  method SplitVars(vars: seq<Decl>, roots: seq<Term>, tids: map<Term, nat>)
    returns (kept: seq<Decl>, realVars: seq<nat>)
    requires forall k :: 0 <= k < |vars| && IsArith(Const(vars[k])) ==> Const(vars[k]) in tids
    ensures kept == Kept(vars, roots)
    ensures realVars == ProjectedIds(vars, roots, tids)
  {
    kept, realVars := [], [];
    for i := 0 to |vars|
      invariant kept == Kept(vars[..i], roots)
      invariant realVars == ProjectedIds(vars[..i], roots, tids)
    {
      assert vars[..i + 1][..i] == vars[..i];
      var v := Const(vars[i]);
      if IsArith(v) && !Marked(v, roots) {
        realVars := realVars + [tids[v]];
      } else {
        kept := kept + [vars[i]];
      }
    }
    assert vars[..|vars|] == vars;
  }

  /** The literals the live rows turn back into, in row order. */
  function Rebuilt(rows: seq<Row>, idx: map<nat, Term>): seq<Formula>
    requires forall k :: 0 <= k < |rows| ==> Indexed(rows[k].vars, idx)
  {
    if rows == [] then []
    else
      var n := |rows| - 1;
      var f := RowToFormula(rows[n], idx);
      Rebuilt(rows[..n], idx) + (if f.Some? then [f.value] else [])
  }

  /** Sound rows over atoms that carry the engine's values turn into literals true in `M`. */
  lemma {:induction false} RebuiltHold(M: Model, rows: seq<Row>, vs: seq<EngineVar>, ids: seq<nat>,
                                       idx: map<nat, Term>)
    requires forall k :: 0 <= k < |rows| ==> Indexed(rows[k].vars, idx)
    requires RowsSound(rows, vs, ids) && Agrees(M, vs, idx)
    ensures forall k :: 0 <= k < |Rebuilt(rows, idx)| ==> Holds(M, Rebuilt(rows, idx)[k])
    decreases |rows|
  {
    if rows != [] {
      var n := |rows| - 1;
      assert RowsSound(rows[..n], vs, ids) by {
        forall k | 0 <= k < n ensures rows[..n][k] == rows[k] {}
      }
      RebuiltHold(M, rows[..n], vs, ids, idx);
      RowFormulaExact(M, rows[n], vs, idx);
    }
  }

  /** A constant outside every atom the rows' ids stand for is outside every rebuilt literal. */
  lemma {:induction false} RebuiltAvoids(w: Term, rows: seq<Row>, idx: map<nat, Term>)
    requires forall k :: 0 <= k < |rows| ==> Indexed(rows[k].vars, idx)
    requires w.Const?
    requires forall r, j :: 0 <= r < |rows| && 0 <= j < |rows[r].vars| && rows[r].vars[j].id in idx ==>
      !OccursIn(w, idx[rows[r].vars[j].id])
    ensures forall f :: f in Rebuilt(rows, idx) ==> !OccursInF(w, f)
    decreases |rows|
  {
    if rows != [] {
      var n := |rows| - 1;
      forall r, j | 0 <= r < n && 0 <= j < |rows[..n][r].vars| && rows[..n][r].vars[j].id in idx
        ensures !OccursIn(w, idx[rows[..n][r].vars[j].id]) {
        assert rows[..n][r] == rows[r];
      }
      RebuiltAvoids(w, rows[..n], idx);
      var g := RowToFormula(rows[n], idx);
      if g.Some? && OccursInF(w, g.value) {
        RowFormulaAtoms(w, rows[n], idx);
      }
    }
  }

  /** The loop over the live rows, appending the literal of each row that has variables. */
  method RebuildRows(rows: seq<Row>, idx: map<nat, Term>, fmls: seq<Formula>) returns (fmls': seq<Formula>)
    requires forall k :: 0 <= k < |rows| ==> Indexed(rows[k].vars, idx)
    ensures fmls' == fmls + Rebuilt(rows, idx)
  {
    fmls' := fmls;
    for i := 0 to |rows|
      invariant fmls' == fmls + Rebuilt(rows[..i], idx)
    {
      assert rows[..i + 1][..i] == rows[..i];
      var f := RowToFormula(rows[i], idx);
      if f.Some? {
        fmls' := fmls' + [f.value];
      }
    }
    assert rows[..|rows|] == rows;
  }

  /**
   * What a projection with an arithmetic variable computes: the literals
   * visited are the input followed by their branch conditions, each accepted
   * one recorded in the engine's log; the registered terms are exactly the
   * atoms linearization found in the visited literals (the non-numeral
   * summands after products with a numeral are split off, and the dividends
   * of `mod` by a numeral) together with the requested arithmetic variables;
   * the roots are exactly the registered atoms that are not
   * requested variables; the variables that stay are `Kept(vars, roots)`;
   * `project` is given the ids of the others; and the output is the residue
   * followed by the literals rebuilt from the rows it returns.
   */
  ghost predicate Projection(M: Model, vars: seq<Decl>, fmls: seq<Formula>, project: ProjectOracle,
                             vars': seq<Decl>, fmls': seq<Formula>, nres: nat,
                             all: seq<Formula>, P: seq<seq<nat>>, log: seq<Submission>, vs: seq<EngineVar>,
                             tids: map<Term, nat>, roots: seq<Term>, idx: map<nat, Term>, rows: seq<Row>) {
    all == fmls + AllConds(M, all) && Recorded(M, log, vs, all, P) &&
    Registered(M, vs, tids) && Good(log, vs) &&
    tids.Keys == AllAtoms(M, all) + ArithVars(vars) &&
    (forall k :: 0 <= k < |vars| && IsArith(Const(vars[k])) ==> Const(vars[k]) in tids) &&
    (forall x :: x in tids && x !in VarSet(vars) ==> x in roots) &&
    (forall k :: 0 <= k < |roots| ==> roots[k] in tids && roots[k] !in VarSet(vars)) &&
    vars' == Kept(vars, roots) &&
    rows == project(log, vs, ProjectedIds(vars, roots, tids)) &&
    (forall x :: x in tids ==> tids[x] in idx && idx[tids[x]] == x) &&
    (forall k :: 0 <= k < |rows| ==> Indexed(rows[k].vars, idx)) &&
    fmls' == Residue(all) + Rebuilt(rows, idx) && nres == |Residue(all)|
  }

  /**
   * Projection of `vars` from the literals `fmls`, true in `M`. Without an
   * arithmetic variable nothing changes. Otherwise the result is the residue
   * (the literals `linearize` rejects, in order) followed by the literals of
   * the live rows; all of it is true in `M`. The variables that stay are the
   * non-projected ones in order; a projected variable is arithmetic, and none
   * of the rebuilt literals mentions it.
   */
  method Project(M: Model, vars: seq<Decl>, fmls: seq<Formula>, project: ProjectOracle)
    returns (vars': seq<Decl>, fmls': seq<Formula>, ghost nres: nat,
             ghost all: seq<Formula>, ghost P: seq<seq<nat>>, ghost log: seq<Submission>, ghost vs: seq<EngineVar>,
             ghost tids: map<Term, nat>, ghost roots: seq<Term>, ghost idx: map<nat, Term>, ghost rows: seq<Row>)
    requires ProjectionSound(project)
    requires forall k :: 0 <= k < |fmls| ==> Holds(M, fmls[k])
    ensures !AnyArith(vars) ==> vars' == vars && fmls' == fmls
    ensures AnyArith(vars) ==> Projection(M, vars, fmls, project, vars', fmls', nres, all, P, log, vs, tids, roots, idx, rows)
    ensures AnyArith(vars) ==> AllRegistered(M, all, tids) && log == AllSubs(M, all, tids)
    ensures forall k :: 0 <= k < |fmls'| ==> Holds(M, fmls'[k])
    ensures AnyArith(vars) ==> (nres <= |fmls'| && (forall k :: 0 <= k < nres ==> RelationTag(fmls'[k]).None?) &&
      forall f :: f in fmls && RelationTag(f).None? ==> f in fmls'[..nres])
    ensures forall d :: d in vars' ==> d in vars
    ensures forall d :: d in vars && !IsArith(Const(d)) ==> d in vars'
    ensures forall d :: d in vars && d !in vars' ==>
      IsArith(Const(d)) && forall k :: nres <= k < |fmls'| ==> !OccursInF(Const(d), fmls'[k])
  {
    var hasArith := HasArith(vars);
    if !hasArith {
      return vars, fmls, 0, [], [], [], [], map[], [], map[], [];
    }
    var eng := new Engine();
    var residue, tids0;
    residue, tids0, all, P := LinearizeAll(eng, M, fmls);
    ghost var vs0 := eng.vars;
    var tids1 := RegisterVars(eng, M, vars, tids0);
    RecordedExtend(M, eng.log, vs0, eng.log, eng.vars, all, P);
    AllSubsExtend(M, all, tids0, tids1);
    var varSet := VarSet(vars);
    RegisteredInjective(M, eng.vars, tids1);
    var idx1, roots1 := BuildIndex(tids1, varSet);
    var realVars;
    vars', realVars := SplitVars(vars, roots1, tids1);
    log, vs, tids, roots, idx := eng.log, eng.vars, tids1, roots1, idx1;
    var rows1 := eng.Project(realVars, project);
    rows := rows1;
    assert RowsSound(rows, vs, realVars);
    IndexCovers(M, vs, tids, idx, rows, realVars);
    fmls' := RebuildRows(rows1, idx1, residue);
    nres := |residue|;
    ProjectDone(M, vars, fmls, project, vars', fmls', nres, all, P, log, vs, tids, roots, idx, rows, realVars);
  }

  /** The facts the steps of `Project` establish give its result. */
  lemma ProjectDone(M: Model, vars: seq<Decl>, fmls: seq<Formula>, project: ProjectOracle,
                    vars': seq<Decl>, fmls': seq<Formula>, nres: nat,
                    all: seq<Formula>, P: seq<seq<nat>>, log: seq<Submission>, vs: seq<EngineVar>,
                    tids: map<Term, nat>, roots: seq<Term>, idx: map<nat, Term>, rows: seq<Row>, realVars: seq<nat>)
    requires all == fmls + AllConds(M, all) && Recorded(M, log, vs, all, P)
    requires Registered(M, vs, tids) && Good(log, vs) && tids.Keys == AllAtoms(M, all) + ArithVars(vars)
    requires forall k :: 0 <= k < |all| ==> Holds(M, all[k])
    requires |fmls| <= |all| && all[..|fmls|] == fmls
    requires forall k :: 0 <= k < |vars| && IsArith(Const(vars[k])) ==> Const(vars[k]) in tids
    requires forall x :: x in tids ==> tids[x] in idx && idx[tids[x]] == x
    requires forall id :: id in idx ==> idx[id] in tids && tids[idx[id]] == id
    requires forall x :: x in tids && x !in VarSet(vars) ==> x in roots
    requires forall k :: 0 <= k < |roots| ==> roots[k] in tids && roots[k] !in VarSet(vars)
    requires vars' == Kept(vars, roots) && realVars == ProjectedIds(vars, roots, tids)
    requires rows == project(log, vs, realVars) && RowsSound(rows, vs, realVars)
    requires Agrees(M, vs, idx) && forall k :: 0 <= k < |rows| ==> Indexed(rows[k].vars, idx)
    requires fmls' == Residue(all) + Rebuilt(rows, idx) && nres == |Residue(all)|
    ensures Projection(M, vars, fmls, project, vars', fmls', nres, all, P, log, vs, tids, roots, idx, rows)
    ensures forall k :: 0 <= k < |fmls'| ==> Holds(M, fmls'[k])
    ensures nres <= |fmls'| && (forall k :: 0 <= k < nres ==> RelationTag(fmls'[k]).None?) &&
      forall f :: f in fmls && RelationTag(f).None? ==> f in fmls'[..nres]
    ensures forall d :: d in vars' ==> d in vars
    ensures forall d :: d in vars && !IsArith(Const(d)) ==> d in vars'
    ensures forall d :: d in vars && d !in vars' ==>
      IsArith(Const(d)) && forall k :: nres <= k < |fmls'| ==> !OccursInF(Const(d), fmls'[k])
  {
    OutputHolds(M, fmls, all, rows, vs, realVars, idx);
    assert fmls'[..nres] == Residue(all);
    KeptMembers(vars, roots);
    ProjectedAbsent(vars, VarSet(vars), tids, idx, roots, rows, realVars, Residue(all));
  }

  /**
   * Which requested variables stay: an arithmetic variable stays exactly when
   * it occurs inside an atom of the visited literals that is not itself a
   * requested variable. A variable that only ever appears as a summand, or
   * scaled by a numeral, is projected.
   */
  lemma StaysIff(M: Model, vars: seq<Decl>, fmls: seq<Formula>, project: ProjectOracle,
                 vars': seq<Decl>, fmls': seq<Formula>, nres: nat,
                 all: seq<Formula>, P: seq<seq<nat>>, log: seq<Submission>, vs: seq<EngineVar>,
                 tids: map<Term, nat>, roots: seq<Term>, idx: map<nat, Term>, rows: seq<Row>, d: Decl)
    requires Projection(M, vars, fmls, project, vars', fmls', nres, all, P, log, vs, tids, roots, idx, rows)
    requires d in vars && IsArith(Const(d))
    ensures d in vars' <==> exists a :: a in AllAtoms(M, all) && a !in VarSet(vars) && OccursIn(Const(d), a)
  {
    KeptMembers(vars, roots);
    ArithVarsIn(vars);
    if d in vars' {
      var k :| 0 <= k < |roots| && OccursIn(Const(d), roots[k]);
      assert roots[k] in tids && roots[k] !in VarSet(vars);
      assert roots[k] in AllAtoms(M, all);
    }
    if a :| a in AllAtoms(M, all) && a !in VarSet(vars) && OccursIn(Const(d), a) {
      assert a in tids;
      var k :| 0 <= k < |roots| && roots[k] == a;
      assert Marked(Const(d), roots);
    }
  }

  /** The arithmetic variables are among the requested ones. */
  lemma {:induction false} ArithVarsIn(vars: seq<Decl>)
    ensures ArithVars(vars) <= VarSet(vars)
    decreases |vars|
  {
    if vars != [] {
      var n := |vars| - 1;
      ArithVarsIn(vars[..n]);
      forall x | x in VarSet(vars[..n]) ensures x in VarSet(vars) {
        var k :| 0 <= k < n && x == Const(vars[..n][k]);
        assert x == Const(vars[k]);
      }
      assert Const(vars[n]) in VarSet(vars);
    }
  }

  /**
   * The residue of the visited literals followed by the rebuilt literals all
   * hold in `M`, and the residue keeps every rejected input literal.
   */
  lemma OutputHolds(M: Model, fmls: seq<Formula>, all: seq<Formula>, rows: seq<Row>, vs: seq<EngineVar>,
                    ids: seq<nat>, idx: map<nat, Term>)
    requires forall k :: 0 <= k < |rows| ==> Indexed(rows[k].vars, idx)
    requires RowsSound(rows, vs, ids) && Agrees(M, vs, idx)
    requires forall k :: 0 <= k < |all| ==> Holds(M, all[k])
    requires |fmls| <= |all| && all[..|fmls|] == fmls
    ensures forall k :: 0 <= k < |Residue(all) + Rebuilt(rows, idx)| ==> Holds(M, (Residue(all) + Rebuilt(rows, idx))[k])
    ensures forall k :: 0 <= k < |Residue(all)| ==> RelationTag(Residue(all)[k]).None?
    ensures forall f :: f in fmls && RelationTag(f).None? ==> f in Residue(all)
  {
    var res := Residue(all);
    ResidueMembers(all);
    RebuiltHold(M, rows, vs, ids, idx);
    forall k | 0 <= k < |res| ensures Holds(M, res[k]) && RelationTag(res[k]).None? {
      assert res[k] in res;
    }
    forall f | f in fmls && RelationTag(f).None? ensures f in res {
      var k :| 0 <= k < |fmls| && fmls[k] == f;
      assert all[k] == f;
    }
  }

  /** The kept variables are not projected; the projected ones are absent from every rebuilt literal. */
  lemma ProjectedAbsent(vars: seq<Decl>, varSet: set<Term>, tids: map<Term, nat>, idx: map<nat, Term>,
                        roots: seq<Term>, rows: seq<Row>, realVars: seq<nat>, residue: seq<Formula>)
    requires varSet == set k | 0 <= k < |vars| :: Const(vars[k])
    requires forall k :: 0 <= k < |vars| && IsArith(Const(vars[k])) ==> Const(vars[k]) in tids
    requires forall id :: id in idx ==> idx[id] in tids && tids[idx[id]] == id
    requires forall x :: x in tids && x !in varSet ==> x in roots
    requires forall k :: 0 <= k < |rows| ==> Indexed(rows[k].vars, idx)
    requires forall k, j :: 0 <= k < |rows| && 0 <= j < |rows[k].vars| ==> rows[k].vars[j].id !in realVars
    requires realVars == ProjectedIds(vars, roots, tids)
    requires forall d :: d in Kept(vars, roots) <==> d in vars && !Projected(d, roots)
    ensures forall d :: d in vars && d !in Kept(vars, roots) ==>
      IsArith(Const(d)) && forall k :: |residue| <= k < |residue + Rebuilt(rows, idx)| ==>
        !OccursInF(Const(d), (residue + Rebuilt(rows, idx))[k])
  {
    var out := residue + Rebuilt(rows, idx);
    forall d | d in vars && d !in Kept(vars, roots)
      ensures IsArith(Const(d)) && forall k :: |residue| <= k < |out| ==> !OccursInF(Const(d), out[k])
    {
      ProjectedIdsMembers(vars, roots, tids, d);
      AtomsAvoid(d, vars, varSet, tids, idx, roots, rows, realVars);
      RebuiltAvoids(Const(d), rows, idx);
      forall k | |residue| <= k < |out| ensures out[k] in Rebuilt(rows, idx) {
        assert out[k] == Rebuilt(rows, idx)[k - |residue|];
      }
    }
  }

  /** The atoms of the rows' ids carry the engine's values, and every id a row mentions has one. */
  lemma IndexCovers(M: Model, vs: seq<EngineVar>, tids: map<Term, nat>, idx: map<nat, Term>,
                    rows: seq<Row>, ids: seq<nat>)
    requires Registered(M, vs, tids) && RowsSound(rows, vs, ids)
    requires forall x :: x in tids ==> tids[x] in idx && idx[tids[x]] == x
    requires forall id :: id in idx ==> idx[id] in tids && tids[idx[id]] == id
    ensures Agrees(M, vs, idx)
    ensures forall k :: 0 <= k < |rows| ==> Indexed(rows[k].vars, idx)
  {
    forall id | id in idx ensures Eval(M, idx[id]) == ValueOf(vs, id) {
      RegisteredValue(M, vs, tids, idx[id]);
    }
    forall k, j | 0 <= k < |rows| && 0 <= j < |rows[k].vars| ensures rows[k].vars[j].id in idx {
      var id := rows[k].vars[j].id;
      assert id < |vs| && vs[id] == vs[id];
      assert id in tids.Values;
      var x :| x in tids && tids[x] == id;
    }
  }

  /** No atom a live row mentions contains a projected variable. */
  lemma AtomsAvoid(d: Decl, vars: seq<Decl>, varSet: set<Term>, tids: map<Term, nat>, idx: map<nat, Term>,
                   roots: seq<Term>, rows: seq<Row>, realVars: seq<nat>)
    requires varSet == set k | 0 <= k < |vars| :: Const(vars[k])
    requires forall id :: id in idx ==> idx[id] in tids && tids[idx[id]] == id
    requires forall x :: x in tids && x !in varSet ==> x in roots
    requires forall k :: 0 <= k < |rows| ==> Indexed(rows[k].vars, idx)
    requires forall k, j :: 0 <= k < |rows| && 0 <= j < |rows[k].vars| ==> rows[k].vars[j].id !in realVars
    requires Projected(d, roots) && Const(d) in tids && tids[Const(d)] in realVars
    ensures forall r, j :: 0 <= r < |rows| && 0 <= j < |rows[r].vars| && rows[r].vars[j].id in idx ==>
      !OccursIn(Const(d), idx[rows[r].vars[j].id])
  {
    forall r, j | 0 <= r < |rows| && 0 <= j < |rows[r].vars| && rows[r].vars[j].id in idx
      ensures !OccursIn(Const(d), idx[rows[r].vars[j].id]) {
      var a := idx[rows[r].vars[j].id];
      if a in varSet {
        assert a != Const(d);
        var k :| 0 <= k < |vars| && a == Const(vars[k]);
      } else {
        var i :| 0 <= i < |roots| && roots[i] == a;
      }
    }
  }

  /** A list of literals that `linearize` rejects one and all is its own residue. */
  lemma {:induction false} AllRejected(fs: seq<Formula>)
    requires forall k :: 0 <= k < |fs| ==> RelationTag(fs[k]).None?
    ensures Residue(fs) == fs
    decreases |fs|
  {
    if fs != [] {
      AllRejected(fs[..|fs| - 1]);
      assert fs[..|fs| - 1] + [fs[|fs| - 1]] == fs;
    }
  }

  /**
   * Freezing looks only inside the registered atoms that are not variables;
   * a residue literal is marked as a whole, and a literal is never a
   * variable. So when every literal is rejected and nothing but `x` itself
   * is registered, no root that `Project` collects contains `x`, and `x` is
   * projected, whatever the residue says about it (`p(x)`, say).
   */
  lemma ResidueDoesNotFreeze(x: Decl, fs: seq<Formula>, tids: map<Term, nat>, roots: seq<Term>)
    requires IsArith(Const(x))
    requires forall k :: 0 <= k < |fs| ==> RelationTag(fs[k]).None?
    requires tids.Keys <= {Const(x)}
    requires forall k :: 0 <= k < |roots| ==> roots[k] in tids && roots[k] !in VarSet([x])
    ensures Residue(fs) == fs
    ensures Projected(x, roots) && Kept([x], roots) == []
  {
    AllRejected(fs);
    assert [x][0] == x && [x][..0] == [];
    assert Const(x) in VarSet([x]);
  }

  /** One variable stays exactly when it is not projected. */
  lemma ProjectOneKept(v: Decl, roots: seq<Term>)
    ensures Kept([v], roots) == (if Projected(v, roots) then [] else [v])
  {
    assert [v][..0] == [];
  }

  /**
   * The single-variable entry point: projects `[v]` and reports whether it
   * went. `vars` is accepted and not used.
   */
  method ProjectOne(M: Model, v: Decl, vars: seq<Decl>, fmls: seq<Formula>, project: ProjectOracle)
    returns (eliminated: bool, fmls': seq<Formula>, ghost nres: nat, ghost all: seq<Formula>, ghost P: seq<seq<nat>>,
             ghost log: seq<Submission>, ghost vs: seq<EngineVar>, ghost tids: map<Term, nat>,
             ghost roots: seq<Term>, ghost idx: map<nat, Term>, ghost rows: seq<Row>)
    requires ProjectionSound(project)
    requires forall k :: 0 <= k < |fmls| ==> Holds(M, fmls[k])
    ensures !IsArith(Const(v)) ==> !eliminated && fmls' == fmls
    ensures forall k :: 0 <= k < |fmls'| ==> Holds(M, fmls'[k])
    ensures IsArith(Const(v)) ==>
      Projection(M, [v], fmls, project, if eliminated then [] else [v], fmls', nres, all, P, log, vs, tids, roots, idx, rows)
    ensures IsArith(Const(v)) ==> AllRegistered(M, all, tids) && log == AllSubs(M, all, tids)
    ensures eliminated <==> Projected(v, roots)
    ensures forall k :: 0 <= k < |roots| ==> roots[k] != Const(v)
  {
    var kept;
    assert [v][0] == v;
    kept, fmls', nres, all, P, log, vs, tids, roots, idx, rows := Project(M, [v], fmls, project);
    eliminated := kept == [];
    ProjectOneKept(v, roots);
    if !IsArith(Const(v)) {
      roots := [];
    }
  }
}
