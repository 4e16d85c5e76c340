/**
 * Term linearization (`linearize` on terms): folds an arithmetic term into
 * the atom-to-coefficient map `ts` and the constant `c`, scaled by a
 * multiplier, resolving `ite` by the model (and recording the branch
 * condition that held) and replacing `t mod k` by its model value (and
 * submitting the divisibility constraint that justifies it).
 */
module Linearize {
  import opened Terms
  import opened Numerals
  import opened Mbo
  import opened Coeffs

  /**
   * The branch conditions linearizing `t` appends to the literal vector, in
   * the order they are appended: the condition of each `ite` whose then-branch
   * the model selects, or the negation of the condition when it selects the
   * else-branch.
   */
  function IteConds(M: Model, t: Term): seq<Formula>
    decreases t
  {
    match t
    case Mul(args) =>
      if |args| == 2 && IsNumeral(args[0]).Some? then IteConds(M, args[1])
      else if |args| == 2 && IsNumeral(args[1]).Some? then IteConds(M, args[0])
      else []
    case Add(args) => IteCondsSeq(M, args)
    case Sub(a, b) => IteConds(M, a) + IteConds(M, b)
    case Neg(a) => IteConds(M, a)
    case Ite(c, a, b) =>
      if Holds(M, c) then IteConds(M, a) + [c] else [MkNot(c)] + IteConds(M, b)
    case Mod(a, k) => if IsNumeral(k).Some? then IteConds(M, a) else []
    case _ => []
  }

  function IteCondsSeq(M: Model, s: seq<Term>): seq<Formula>
    decreases s
  {
    if s == [] then [] else IteCondsSeq(M, s[..|s| - 1]) + IteConds(M, s[|s| - 1])
  }

  /** Every branch condition linearization records holds in the model it was read from. */
  lemma {:induction false} IteCondsHold(M: Model, t: Term)
    ensures forall k :: 0 <= k < |IteConds(M, t)| ==> Holds(M, IteConds(M, t)[k])
    decreases t, 1
  {
    match t
    case Mul(args) =>
      if |args| == 2 {
        IteCondsHold(M, args[0]);
        IteCondsHold(M, args[1]);
      }
    case Add(args) => IteCondsSeqHold(M, args, t);
    case Sub(a, b) => IteCondsHold(M, a); IteCondsHold(M, b);
    case Neg(a) => IteCondsHold(M, a);
    case Ite(c, a, b) => IteCondsHold(M, a); IteCondsHold(M, b);
    case Mod(a, _) => IteCondsHold(M, a);
    case _ =>
  }

  lemma {:induction false} IteCondsSeqHold(M: Model, s: seq<Term>, parent: Term)
    requires forall i :: 0 <= i < |s| ==> s[i] < parent
    ensures forall k :: 0 <= k < |IteCondsSeq(M, s)| ==> Holds(M, IteCondsSeq(M, s)[k])
    decreases parent, 0, |s|
  {
    if s != [] {
      IteCondsSeqHold(M, s[..|s| - 1], parent);
      IteCondsHold(M, s[|s| - 1]);
    }
  }

  /** The recorded branch conditions weigh less than the term they come from. */
  lemma {:induction false} CondsWeight(M: Model, t: Term)
    ensures SumW(IteConds(M, t)) < WeightT(t)
    decreases t, 1
  {
    match t
    case Mul(args) =>
      if |args| == 2 {
        assert args[..1][..0] == [] && args[..1] == [args[0]];
        assert SumT(args[..1]) == WeightT(args[0]);
        assert SumT(args) == WeightT(args[0]) + WeightT(args[1]);
        CondsWeight(M, args[0]);
        CondsWeight(M, args[1]);
      }
    case Add(args) => CondsSeqWeight(M, args, t);
    case Sub(a, b) =>
      CondsWeight(M, a);
      CondsWeight(M, b);
      SumWAppend(IteConds(M, a), IteConds(M, b));
    case Neg(a) => CondsWeight(M, a);
    case Ite(c, a, b) =>
      CondsWeight(M, a);
      CondsWeight(M, b);
      SumWAppend(IteConds(M, a), [c]);
      SumWAppend([MkNot(c)], IteConds(M, b));
      MkNotWeight(c);
      assert SumW([c]) == WeightF(c) && SumW([MkNot(c)]) == WeightF(MkNot(c));
    case Mod(a, _) => CondsWeight(M, a);
    case _ =>
  }

  lemma {:induction false} CondsSeqWeight(M: Model, s: seq<Term>, parent: Term)
    requires forall i :: 0 <= i < |s| ==> s[i] < parent
    ensures SumW(IteCondsSeq(M, s)) <= SumT(s)
    decreases parent, 0, |s|
  {
    if s != [] {
      var n := |s| - 1;
      CondsSeqWeight(M, s[..n], parent);
      CondsWeight(M, s[n]);
      SumWAppend(IteCondsSeq(M, s[..n]), IteConds(M, s[n]));
    }
  }

  /** The multiplier the other factor of `k * t` (or `t * k`) is linearized with. */
  function Scale(mul: real, k: real): real {
    mul * k
  }

  /**
   * What `linearize` leaves in `c` and `ts` after folding in `mul * t`, case by
   * case in the order it tries them: a product with a numeral factor scales
   * the multiplier, sums, differences and negations distribute it, a numeral
   * goes into the constant, an `ite` contributes the branch the model selects,
   * `t1 mod k` its model value, and anything else is entered as an atom.
   */
  function Lin(M: Model, mul: real, t: Term, c: real, ts: Coeffs): (real, Coeffs)
    decreases t
  {
    match t
    case Mul(args) =>
      if |args| == 2 && IsNumeral(args[0]).Some? then Lin(M, Scale(mul, IsNumeral(args[0]).value), args[1], c, ts)
      else if |args| == 2 && IsNumeral(args[1]).Some? then Lin(M, Scale(mul, IsNumeral(args[1]).value), args[0], c, ts)
      else (c, InsertMul(ts, t, mul))
    case Add(args) => LinSeq(M, mul, args, c, ts)
    case Sub(a, b) =>
      var (c1, ts1) := Lin(M, mul, a, c, ts);
      Lin(M, -mul, b, c1, ts1)
    case Neg(a) => Lin(M, -mul, a, c, ts)
    case Num(v, _) => (c + mul * v, ts)
    case Ite(cond, a, b) => if Holds(M, cond) then Lin(M, mul, a, c, ts) else Lin(M, mul, b, c, ts)
    case Mod(_, k) => if IsNumeral(k).Some? then (c + Scale(mul, Eval(M, t)), ts) else (c, InsertMul(ts, t, mul))
    case _ => (c, InsertMul(ts, t, mul))
  }

  /** The arguments of a sum, linearized left to right with the same multiplier. */
  function LinSeq(M: Model, mul: real, s: seq<Term>, c: real, ts: Coeffs): (real, Coeffs)
    decreases s
  {
    if s == [] then (c, ts)
    else
      var (c1, ts1) := LinSeq(M, mul, s[..|s| - 1], c, ts);
      Lin(M, mul, s[|s| - 1], c1, ts1)
  }

  /** The atoms linearizing `t` enters into the map (those `Lin` hands to `insert_mul`). */
  function Atoms(M: Model, t: Term): set<Term>
    decreases t
  {
    match t
    case Mul(args) =>
      if |args| == 2 && IsNumeral(args[0]).Some? then Atoms(M, args[1])
      else if |args| == 2 && IsNumeral(args[1]).Some? then Atoms(M, args[0])
      else {t}
    case Add(args) => AtomsSeq(M, args)
    case Sub(a, b) => Atoms(M, a) + Atoms(M, b)
    case Neg(a) => Atoms(M, a)
    case Num(_, _) => {}
    case Ite(cond, a, b) => if Holds(M, cond) then Atoms(M, a) else Atoms(M, b)
    case Mod(_, k) => if IsNumeral(k).Some? then {} else {t}
    case _ => {t}
  }

  function AtomsSeq(M: Model, s: seq<Term>): set<Term>
    decreases s
  {
    if s == [] then {} else AtomsSeq(M, s[..|s| - 1]) + Atoms(M, s[|s| - 1])
  }

  /**
   * The atoms linearizing `t` registers with the engine along the way: for each
   * `t1 mod k` it resolves, the atoms of the row of `t1` (and, first, those
   * registered inside `t1`).
   */
  function ModAtoms(M: Model, t: Term): set<Term>
    decreases t
  {
    match t
    case Mul(args) =>
      if |args| == 2 && IsNumeral(args[0]).Some? then ModAtoms(M, args[1])
      else if |args| == 2 && IsNumeral(args[1]).Some? then ModAtoms(M, args[0])
      else {}
    case Add(args) => ModAtomsSeq(M, args)
    case Sub(a, b) => ModAtoms(M, a) + ModAtoms(M, b)
    case Neg(a) => ModAtoms(M, a)
    case Ite(cond, a, b) => if Holds(M, cond) then ModAtoms(M, a) else ModAtoms(M, b)
    case Mod(a, k) => if IsNumeral(k).Some? then ModAtoms(M, a) + Atoms(M, a) else {}
    case _ => {}
  }

  function ModAtomsSeq(M: Model, s: seq<Term>): set<Term>
    decreases s
  {
    if s == [] then {} else ModAtomsSeq(M, s[..|s| - 1]) + ModAtoms(M, s[|s| - 1])
  }

  /** Every atom linearizing `t` into a map of its own, and extracting that map, registers. */
  function TermAtoms(M: Model, t: Term): set<Term> {
    Atoms(M, t) + ModAtoms(M, t)
  }

  /** `t1 mod k` of model value `r` as `add_divides` sees it: `t1 - r` over a map of its own. */
  function ModLin(M: Model, t: Term): (real, Coeffs)
    requires t.Mod?
  {
    Lin(M, 1.0, t.dividend, -Eval(M, t), [])
  }

  /** A divisibility constraint before extraction: `m` divides the map's value plus `c`. */
  datatype DivRow = DivRow(c: real, ts: Coeffs, m: real)

  /**
   * The divisibility constraints linearizing `t` submits, in order: for each
   * `t1 mod k` it resolves, those submitted while linearizing `t1` and then
   * `t1 - r` modulo `k`.
   */
  function ModDivs(M: Model, t: Term): seq<DivRow>
    decreases t
  {
    match t
    case Mul(args) =>
      if |args| == 2 && IsNumeral(args[0]).Some? then ModDivs(M, args[1])
      else if |args| == 2 && IsNumeral(args[1]).Some? then ModDivs(M, args[0])
      else []
    case Add(args) => ModDivsSeq(M, args)
    case Sub(a, b) => ModDivs(M, a) + ModDivs(M, b)
    case Neg(a) => ModDivs(M, a)
    case Ite(cond, a, b) => if Holds(M, cond) then ModDivs(M, a) else ModDivs(M, b)
    case Mod(a, k) =>
      if IsNumeral(k).Some? then ModDivs(M, a) + [DivRow(ModLin(M, t).0, ModLin(M, t).1, IsNumeral(k).value)]
      else []
    case _ => []
  }

  function ModDivsSeq(M: Model, s: seq<Term>): seq<DivRow>
    decreases s
  {
    if s == [] then [] else ModDivsSeq(M, s[..|s| - 1]) + ModDivs(M, s[|s| - 1])
  }

  /** Every atom of every row is registered. */
  predicate DivsRegistered(ds: seq<DivRow>, tids: map<Term, nat>) {
    forall k :: 0 <= k < |ds| ==> InRegistry(ds[k].ts, tids)
  }

  /** The `add_divides` calls for the rows `ds`, each map extracted over the registry `tids`. */
  function DivSubs(ds: seq<DivRow>, tids: map<Term, nat>): seq<Submission>
    requires DivsRegistered(ds, tids)
  {
    if ds == [] then []
    else
      var d := ds[|ds| - 1];
      DivSubs(ds[..|ds| - 1], tids) + [Divides(ToVars(d.ts, tids), d.c, d.m)]
  }

  /** Registering more atoms changes none of the submissions. */
  lemma {:induction false} DivSubsExtend(ds: seq<DivRow>, tids: map<Term, nat>, tids': map<Term, nat>)
    requires DivsRegistered(ds, tids)
    requires forall x :: x in tids ==> x in tids' && tids'[x] == tids[x]
    ensures DivsRegistered(ds, tids') && DivSubs(ds, tids') == DivSubs(ds, tids)
  {
    forall k | 0 <= k < |ds| ensures InRegistry(ds[k].ts, tids') && ToVars(ds[k].ts, tids') == ToVars(ds[k].ts, tids) {
      ToVarsExtend(ds[k].ts, tids, tids');
    }
    if ds != [] {
      DivSubsExtend(ds[..|ds| - 1], tids, tids');
    }
  }

  /** The submissions of two runs of rows are those of each, one after the other. */
  lemma {:induction false} DivSubsAppend(ds1: seq<DivRow>, ds2: seq<DivRow>, tids: map<Term, nat>)
    requires DivsRegistered(ds1, tids) && DivsRegistered(ds2, tids)
    ensures DivsRegistered(ds1 + ds2, tids)
    ensures DivSubs(ds1 + ds2, tids) == DivSubs(ds1, tids) + DivSubs(ds2, tids)
    decreases |ds2|
  {
    if ds2 == [] {
      assert ds1 + ds2 == ds1;
    } else {
      var n := |ds2| - 1;
      assert (ds1 + ds2)[..|ds1 + ds2| - 1] == ds1 + ds2[..n];
      DivSubsAppend(ds1, ds2[..n], tids);
    }
  }

  /**
   * A log that grew by the submissions of `ds1` and then, over a registry that
   * only grew, by those of `ds2`, grew by those of `ds1 + ds2`.
   */
  lemma DivsThen(log0: seq<Submission>, log1: seq<Submission>, log2: seq<Submission>,
                 ds1: seq<DivRow>, ds2: seq<DivRow>, tids1: map<Term, nat>, tids2: map<Term, nat>)
    requires DivsRegistered(ds1, tids1) && log1 == log0 + DivSubs(ds1, tids1)
    requires forall x :: x in tids1 ==> x in tids2 && tids2[x] == tids1[x]
    requires DivsRegistered(ds2, tids2) && log2 == log1 + DivSubs(ds2, tids2)
    ensures DivsRegistered(ds1 + ds2, tids2) && log2 == log0 + DivSubs(ds1 + ds2, tids2)
  {
    DivSubsExtend(ds1, tids1, tids2);
    DivSubsAppend(ds1, ds2, tids2);
    SubsAssoc(log0, DivSubs(ds1, tids2), DivSubs(ds2, tids2));
  }

  lemma SubsAssoc(a: seq<Submission>, b: seq<Submission>, c: seq<Submission>)
    ensures a + b + c == a + (b + c)
  {
  }

  /** No rows, no submissions. */
  lemma DivsNone(log: seq<Submission>, tids: map<Term, nat>)
    ensures DivsRegistered([], tids) && log == log + DivSubs([], tids)
  {
  }

  /** One row, one `add_divides`. */
  lemma DivSubsOne(d: DivRow, tids: map<Term, nat>)
    requires InRegistry(d.ts, tids)
    ensures DivsRegistered([d], tids) && DivSubs([d], tids) == [Divides(ToVars(d.ts, tids), d.c, d.m)]
  {
    assert [d][..0] == [];
  }

  /** The row `d`, read in `M`, is a multiple of its modulus. */
  predicate DivRowHolds(M: Model, d: DivRow) {
    Divisible(d.c + SumVal(M, d.ts), d.m)
  }

  predicate DivsHold(M: Model, ds: seq<DivRow>) {
    forall k :: 0 <= k < |ds| ==> DivRowHolds(M, ds[k])
  }

  lemma DivsHoldAppend(M: Model, ds1: seq<DivRow>, ds2: seq<DivRow>)
    requires DivsHold(M, ds1) && DivsHold(M, ds2)
    ensures DivsHold(M, ds1 + ds2)
  {
    forall k | 0 <= k < |ds1 + ds2| ensures DivRowHolds(M, (ds1 + ds2)[k]) {
      if k >= |ds1| {
        assert (ds1 + ds2)[k] == ds2[k - |ds1|];
      }
    }
  }

  /**
   * Every divisibility row that linearizing `t` submits holds in the model:
   * for each resolved `t1 mod k`, the row of `t1` less the remainder is a
   * multiple of `k`.
   */
  lemma {:induction false} ModDivsHold(M: Model, t: Term)
    ensures DivsHold(M, ModDivs(M, t))
    decreases t, 1
  {
    match t
    case Mul(args) =>
      if |args| == 2 && IsNumeral(args[0]).Some? {
        ModDivsHold(M, args[1]);
      } else if |args| == 2 && IsNumeral(args[1]).Some? {
        ModDivsHold(M, args[0]);
      }
    case Add(args) => ModDivsSeqHold(M, args, t);
    case Sub(a, b) =>
      ModDivsHold(M, a);
      ModDivsHold(M, b);
      DivsHoldAppend(M, ModDivs(M, a), ModDivs(M, b));
    case Neg(a) => ModDivsHold(M, a);
    case Ite(cond, a, b) =>
      ModDivsHold(M, a);
      ModDivsHold(M, b);
    case Mod(a, k) =>
      if IsNumeral(k).Some? {
        ModDivsHold(M, a);
        ModLinHolds(M, t);
        DivsHoldAppend(M, ModDivs(M, a), [DivRow(ModLin(M, t).0, ModLin(M, t).1, IsNumeral(k).value)]);
      }
    case _ =>
  }

  lemma {:induction false} ModDivsSeqHold(M: Model, s: seq<Term>, parent: Term)
    requires forall i :: 0 <= i < |s| ==> s[i] < parent
    ensures DivsHold(M, ModDivsSeq(M, s))
    decreases parent, 0, |s|
  {
    if s != [] {
      var n := |s| - 1;
      ModDivsSeqHold(M, s[..n], parent);
      ModDivsHold(M, s[n]);
      DivsHoldAppend(M, ModDivsSeq(M, s[..n]), ModDivs(M, s[n]));
    }
  }

  /** The row of a resolved `mod`: the dividend less the remainder, a multiple of the numeral modulus. */
  lemma ModLinHolds(M: Model, t: Term)
    requires t.Mod? && IsNumeral(t.divisor).Some?
    ensures DivRowHolds(M, DivRow(ModLin(M, t).0, ModLin(M, t).1, IsNumeral(t.divisor).value))
  {
    LinValue(M, 1.0, t.dividend, -Eval(M, t), []);
    SumValNil(M, []);
    IsNumeralExact(M, t.divisor);
    ModRowDivides(M, t, IsNumeral(t.divisor).value, SumVal(M, ModLin(M, t).1), ModLin(M, t).0);
  }

  /** The reference linearization raises the constant plus the map's value by exactly `mul * value(t)`. */
  lemma {:induction false} LinValue(M: Model, mul: real, t: Term, c: real, ts: Coeffs)
    ensures Lin(M, mul, t, c, ts).0 + SumVal(M, Lin(M, mul, t, c, ts).1) == c + SumVal(M, ts) + Scale(mul, Eval(M, t))
    decreases t, 2
  {
    if t.Mul? && |t.args| == 2 && IsNumeral(t.args[0]).Some? {
      LinValueScaled(M, mul, t, 0, c, ts);
    } else if t.Mul? && |t.args| == 2 && IsNumeral(t.args[1]).Some? {
      LinValueScaled(M, mul, t, 1, c, ts);
    } else if t.Add? {
      LinSeqValue(M, mul, t.args, c, ts, t);
      ScaledSumValue(M, mul, t.args);
    } else if t.Sub? {
      LinValueDiff(M, mul, t, c, ts);
    } else if t.Neg? {
      LinValueNeg(M, mul, t, c, ts);
    } else if t.Ite? {
      LinValue(M, mul, t.thn, c, ts);
      LinValue(M, mul, t.els, c, ts);
    } else {
      LinValueLeaf(M, mul, t, c, ts);
    }
  }

  lemma {:induction false} LinValueNeg(M: Model, mul: real, t: Term, c: real, ts: Coeffs)
    requires t.Neg?
    ensures Lin(M, mul, t, c, ts).0 + SumVal(M, Lin(M, mul, t, c, ts).1) == c + SumVal(M, ts) + Scale(mul, Eval(M, t))
    decreases t, 1
  {
    LinValue(M, -mul, t.arg, c, ts);
    assert Scale(-mul, Eval(M, t.arg)) == Scale(mul, Eval(M, t));
  }

  /** A numeral, a resolved `mod` or an atom. */
  lemma LinValueLeaf(M: Model, mul: real, t: Term, c: real, ts: Coeffs)
    requires !t.Mul? || |t.args| != 2 || (IsNumeral(t.args[0]).None? && IsNumeral(t.args[1]).None?)
    requires !t.Add? && !t.Sub? && !t.Neg? && !t.Ite?
    ensures Lin(M, mul, t, c, ts).0 + SumVal(M, Lin(M, mul, t, c, ts).1) == c + SumVal(M, ts) + Scale(mul, Eval(M, t))
  {
    assert Scale(mul, Eval(M, t)) == mul * Eval(M, t);
    if !t.Num? && !(t.Mod? && IsNumeral(t.divisor).Some?) {
      assert Lin(M, mul, t, c, ts) == (c, InsertMul(ts, t, mul));
      InsertMulSum(M, ts, t, mul);
    }
  }

  /** `k * t` (`i == 0`) or `t * k` (`i == 1`): `t` with multiplier `mul * k` contributes `mul` times the product. */
  lemma {:induction false} LinValueScaled(M: Model, mul: real, t: Term, i: nat, c: real, ts: Coeffs)
    requires t.Mul? && |t.args| == 2 && i < 2 && IsNumeral(t.args[i]).Some?
    requires i == 1 ==> IsNumeral(t.args[0]).None?
    ensures Lin(M, mul, t, c, ts).0 + SumVal(M, Lin(M, mul, t, c, ts).1) == c + SumVal(M, ts) + Scale(mul, Eval(M, t))
    decreases t, 1
  {
    var k := IsNumeral(t.args[i]).value;
    var other := t.args[1 - i];
    var r := Lin(M, Scale(mul, k), other, c, ts);
    ScaledCase(M, mul, t, i, c, ts);
    LinValue(M, Scale(mul, k), other, c, ts);
    ScaledEval(M, t, i);
    ScaleTotal(r.0 + SumVal(M, r.1), c + SumVal(M, ts), mul, k, Eval(M, other), Eval(M, t));
  }

  /** A product with a numeral factor evaluates to the numeral times the other factor. */
  lemma ScaledEval(M: Model, t: Term, i: nat)
    requires t.Mul? && |t.args| == 2 && i < 2 && IsNumeral(t.args[i]).Some?
    ensures Eval(M, t) == Scale(IsNumeral(t.args[i]).value, Eval(M, t.args[1 - i]))
  {
    EvalBinaryProduct(M, t);
    IsNumeralExact(M, t.args[i]);
  }

  lemma ScaleTotal(x: real, x0: real, mul: real, k: real, e: real, p: real)
    requires x == x0 + Scale(Scale(mul, k), e) && p == Scale(k, e)
    ensures x == x0 + Scale(mul, p)
  {
    assert Scale(Scale(mul, k), e) == mul * (k * e);
  }

  /** `t1 - t2`: `t1` with `mul` and then `t2` with `-mul` contribute `mul` times the difference. */
  lemma {:induction false} LinValueDiff(M: Model, mul: real, t: Term, c: real, ts: Coeffs)
    requires t.Sub?
    ensures Lin(M, mul, t, c, ts).0 + SumVal(M, Lin(M, mul, t, c, ts).1) == c + SumVal(M, ts) + Scale(mul, Eval(M, t))
    decreases t, 1
  {
    var r1 := Lin(M, mul, t.lhs, c, ts);
    var r := Lin(M, -mul, t.rhs, r1.0, r1.1);
    DiffCase(M, mul, t, c, ts);
    LinValue(M, mul, t.lhs, c, ts);
    LinValue(M, -mul, t.rhs, r1.0, r1.1);
    DiffTotal(c + SumVal(M, ts), r1.0 + SumVal(M, r1.1), r.0 + SumVal(M, r.1),
              mul, Eval(M, t.lhs), Eval(M, t.rhs), Eval(M, t));
  }

  lemma {:induction false} LinSeqValue(M: Model, mul: real, s: seq<Term>, c: real, ts: Coeffs, parent: Term)
    requires forall i :: 0 <= i < |s| ==> s[i] < parent
    ensures LinSeq(M, mul, s, c, ts).0 + SumVal(M, LinSeq(M, mul, s, c, ts).1) == c + SumVal(M, ts) + ScaledSum(M, mul, s)
    decreases parent, 0, |s|
  {
    if s != [] {
      var n := |s| - 1;
      var (c1, ts1) := LinSeq(M, mul, s[..n], c, ts);
      LinSeqValue(M, mul, s[..n], c, ts, parent);
      LinValue(M, mul, s[n], c1, ts1);
    }
  }

  /** The atoms of the map after linearizing `t` are those before and the atoms of `t`. */
  lemma {:induction false} LinKeys(M: Model, mul: real, t: Term, c: real, ts: Coeffs)
    ensures KeySet(Lin(M, mul, t, c, ts).1) == KeySet(ts) + Atoms(M, t)
    decreases t, 1
  {
    match t
    case Mul(args) =>
      if |args| == 2 && IsNumeral(args[0]).Some? {
        var k := IsNumeral(args[0]).value;
        LinKeys(M, Scale(mul, k), args[1], c, ts);
      } else if |args| == 2 && IsNumeral(args[1]).Some? {
        var k := IsNumeral(args[1]).value;
        LinKeys(M, Scale(mul, k), args[0], c, ts);
      } else {
        InsertMulKeys(ts, t, mul);
      }
    case Add(args) => LinSeqKeys(M, mul, args, c, ts, t);
    case Sub(a, b) =>
      var (c1, ts1) := Lin(M, mul, a, c, ts);
      LinKeys(M, mul, a, c, ts);
      LinKeys(M, -mul, b, c1, ts1);
    case Neg(a) => LinKeys(M, -mul, a, c, ts);
    case Num(_, _) =>
    case Ite(cond, a, b) =>
      LinKeys(M, mul, a, c, ts);
      LinKeys(M, mul, b, c, ts);
    case Mod(_, k) =>
      if IsNumeral(k).None? {
        InsertMulKeys(ts, t, mul);
      }
    case Const(_) => InsertMulKeys(ts, t, mul);
    case App(_, _, _) => InsertMulKeys(ts, t, mul);
  }

  lemma {:induction false} LinSeqKeys(M: Model, mul: real, s: seq<Term>, c: real, ts: Coeffs, parent: Term)
    requires forall i :: 0 <= i < |s| ==> s[i] < parent
    ensures KeySet(LinSeq(M, mul, s, c, ts).1) == KeySet(ts) + AtomsSeq(M, s)
    decreases parent, 0, |s|
  {
    if s != [] {
      var n := |s| - 1;
      var (c1, ts1) := LinSeq(M, mul, s[..n], c, ts);
      LinSeqKeys(M, mul, s[..n], c, ts, parent);
      LinKeys(M, mul, s[n], c1, ts1);
    }
  }

  /** The reference linearization never gives an atom two entries. */
  lemma {:induction false} LinDistinct(M: Model, mul: real, t: Term, c: real, ts: Coeffs)
    requires DistinctKeys(ts)
    ensures DistinctKeys(Lin(M, mul, t, c, ts).1)
    decreases t, 1
  {
    match t
    case Mul(args) =>
      if |args| == 2 && IsNumeral(args[0]).Some? {
        LinDistinct(M, Scale(mul, IsNumeral(args[0]).value), args[1], c, ts);
      } else if |args| == 2 && IsNumeral(args[1]).Some? {
        LinDistinct(M, Scale(mul, IsNumeral(args[1]).value), args[0], c, ts);
      } else {
        InsertMulDistinct(ts, t, mul);
      }
    case Add(args) => LinSeqDistinct(M, mul, args, c, ts, t);
    case Sub(a, b) =>
      var (c1, ts1) := Lin(M, mul, a, c, ts);
      LinDistinct(M, mul, a, c, ts);
      LinDistinct(M, -mul, b, c1, ts1);
    case Neg(a) => LinDistinct(M, -mul, a, c, ts);
    case Num(_, _) =>
    case Ite(cond, a, b) =>
      LinDistinct(M, mul, a, c, ts);
      LinDistinct(M, mul, b, c, ts);
    case Mod(_, k) =>
      if IsNumeral(k).None? {
        InsertMulDistinct(ts, t, mul);
      }
    case Const(_) => InsertMulDistinct(ts, t, mul);
    case App(_, _, _) => InsertMulDistinct(ts, t, mul);
  }

  lemma {:induction false} LinSeqDistinct(M: Model, mul: real, s: seq<Term>, c: real, ts: Coeffs, parent: Term)
    requires forall i :: 0 <= i < |s| ==> s[i] < parent
    requires DistinctKeys(ts)
    ensures DistinctKeys(LinSeq(M, mul, s, c, ts).1)
    decreases parent, 0, |s|
  {
    if s != [] {
      var n := |s| - 1;
      var (c1, ts1) := LinSeq(M, mul, s[..n], c, ts);
      LinSeqDistinct(M, mul, s[..n], c, ts, parent);
      LinDistinct(M, mul, s[n], c1, ts1);
    }
  }

  lemma EvalBinaryProduct(M: Model, t: Term)
    requires t.Mul? && |t.args| == 2
    ensures Eval(M, t) == Eval(M, t.args[0]) * Eval(M, t.args[1])
  {
    var s := t.args;
    assert s[..1][..0] == [] && s[..1] == [s[0]];
    assert EvalProd(M, s[..1]) == 1.0 * Eval(M, s[0]);
  }

  lemma SumPrefixStep(M: Model, args: seq<Term>, i: nat)
    requires i < |args|
    ensures IteCondsSeq(M, args[..i + 1]) == IteCondsSeq(M, args[..i]) + IteConds(M, args[i])
  {
    assert args[..i + 1][..i] == args[..i];
  }

  /** `mul * t1 + ... + mul * tn`: the running total of a sum linearized argument by argument. */
  function ScaledSum(M: Model, mul: real, s: seq<Term>): real {
    if s == [] then 0.0 else ScaledSum(M, mul, s[..|s| - 1]) + Scale(mul, Eval(M, s[|s| - 1]))
  }

  /** Scaling every summand scales the sum. */
  lemma {:induction false} ScaledSumValue(M: Model, mul: real, s: seq<Term>)
    ensures ScaledSum(M, mul, s) == Scale(mul, EvalSum(M, s))
  {
    if s != [] {
      var n := |s| - 1;
      ScaledSumValue(M, mul, s[..n]);
      assert Scale(mul, EvalSum(M, s)) == Scale(mul, EvalSum(M, s[..n])) + Scale(mul, Eval(M, s[n]));
    }
  }

  /** Literal vectors grow by appending: regrouping the appended parts changes nothing. */
  lemma AppendAssoc(a: seq<Formula>, b: seq<Formula>, c: seq<Formula>)
    ensures a + b + c == a + (b + c)
  {
  }

  /** Every submission after the first `n` is a divisibility constraint. */
  predicate OnlyDivides(log: seq<Submission>, n: nat) {
    forall k :: n <= k < |log| ==> log[k].Divides?
  }

  /**
   * One linearization step: the registry stays exact, every submission holds
   * at the (model) values of the engine, the store, registry and log only grow.
   */
  ghost predicate Step(M: Model, vs0: seq<EngineVar>, log0: seq<Submission>, tids0: map<Term, nat>,
                       vs1: seq<EngineVar>, log1: seq<Submission>, tids1: map<Term, nat>) {
    Registered(M, vs1, tids1) && Good(log1, vs1) && Grows(vs0, vs1, tids0, tids1) &&
    |log0| <= |log1| && log1[..|log0|] == log0
  }

  lemma StepTrans(M: Model, vs0: seq<EngineVar>, log0: seq<Submission>, tids0: map<Term, nat>,
                  vs1: seq<EngineVar>, log1: seq<Submission>, tids1: map<Term, nat>,
                  vs2: seq<EngineVar>, log2: seq<Submission>, tids2: map<Term, nat>)
    requires Step(M, vs0, log0, tids0, vs1, log1, tids1)
    requires Step(M, vs1, log1, tids1, vs2, log2, tids2)
    ensures Step(M, vs0, log0, tids0, vs2, log2, tids2)
  {
    GrowsTrans(vs0, vs1, vs2, tids0, tids1, tids2);
    assert log2[..|log0|] == log2[..|log1|][..|log0|];
  }

  /** `extract_coefficients` as a step: the row it returns evaluates to the map's value. */
  method Extract(eng: Engine, M: Model, ts: Coeffs, tids: map<Term, nat>)
    returns (coeffs: seq<Var>, tids': map<Term, nat>)
    requires Registered(M, eng.vars, tids) && Good(eng.log, eng.vars)
    modifies eng
    ensures Step(M, old(eng.vars), old(eng.log), tids, eng.vars, eng.log, tids')
    ensures eng.log == old(eng.log)
    ensures InRegistry(ts, tids') && coeffs == ToVars(ts, tids')
    ensures RowValue(coeffs, eng.vars) == SumVal(M, ts) && Scoped(coeffs, eng.vars)
    ensures tids'.Keys == tids.Keys + KeySet(ts)
  {
    ghost var vs0 := eng.vars;
    coeffs, tids' := ExtractCoefficients(eng, M, ts, tids);
    assert eng.vars == vs0 + eng.vars[|vs0|..];
    GoodExtend(eng.log, vs0, eng.vars[|vs0|..]);
    ToVarsValue(M, ts, eng.vars, tids');
  }

  /**
   * `linearize` on a term: raises `c + sum coeff*value(atom)` by exactly
   * `mul * value(t)` under the model, appends the branch conditions of the
   * `ite`s it resolves, and submits only divisibility constraints, each of
   * which holds.
   */
  method LinearizeTerm(eng: Engine, M: Model, mul: real, t: Term, c: real, fmls: seq<Formula>,
                       ts: Coeffs, tids: map<Term, nat>)
    returns (c': real, fmls': seq<Formula>, ts': Coeffs, tids': map<Term, nat>)
    requires Registered(M, eng.vars, tids) && Good(eng.log, eng.vars) && DistinctKeys(ts)
    modifies eng
    ensures Step(M, old(eng.vars), old(eng.log), tids, eng.vars, eng.log, tids')
    ensures OnlyDivides(eng.log, |old(eng.log)|)
    ensures DistinctKeys(ts')
    ensures c' + SumVal(M, ts') == c + SumVal(M, ts) + Scale(mul, Eval(M, t))
    ensures fmls' == fmls + IteConds(M, t)
    ensures (c', ts') == Lin(M, mul, t, c, ts)
    ensures tids'.Keys == tids.Keys + ModAtoms(M, t)
    ensures DivsRegistered(ModDivs(M, t), tids') && eng.log == old(eng.log) + DivSubs(ModDivs(M, t), tids')
    decreases t, 2
  {
    if t.Mul? && |t.args| == 2 && (IsNumeral(t.args[0]).Some? || IsNumeral(t.args[1]).Some?) {
      c', fmls', ts', tids' := LinearizeScaled(eng, M, mul, t, c, fmls, ts, tids);
    } else if t.Add? {
      c', fmls', ts', tids' := LinearizeSum(eng, M, mul, t, c, fmls, ts, tids);
    } else if t.Sub? {
      c', fmls', ts', tids' := LinearizeDiff(eng, M, mul, t, c, fmls, ts, tids);
    } else if t.Neg? {
      c', fmls', ts', tids' := LinearizeTerm(eng, M, -mul, t.arg, c, fmls, ts, tids);
    } else if t.Ite? {
      c', fmls', ts', tids' := LinearizeIte(eng, M, mul, t, c, fmls, ts, tids);
    } else if t.Mod? && IsNumeral(t.divisor).Some? {
      var coeffs, c0;
      c', fmls', ts', tids', coeffs, c0 := LinearizeMod(eng, M, mul, t, c, fmls, ts, tids);
    } else {
      c', fmls', ts', tids' := LinearizeLeaf(eng, M, mul, t, c, fmls, ts, tids);
    }
    LinValue(M, mul, t, c, ts);
    LinDistinct(M, mul, t, c, ts);
  }

  /** `t1 - t2`: `t1` with multiplier `mul`, then `t2` with `-mul`. */
  method LinearizeDiff(eng: Engine, M: Model, mul: real, t: Term, c: real, fmls: seq<Formula>,
                       ts: Coeffs, tids: map<Term, nat>)
    returns (c': real, fmls': seq<Formula>, ts': Coeffs, tids': map<Term, nat>)
    requires t.Sub?
    requires Registered(M, eng.vars, tids) && Good(eng.log, eng.vars) && DistinctKeys(ts)
    modifies eng
    ensures Step(M, old(eng.vars), old(eng.log), tids, eng.vars, eng.log, tids')
    ensures OnlyDivides(eng.log, |old(eng.log)|)
    ensures fmls' == fmls + IteConds(M, t)
    ensures DistinctKeys(ts')
    ensures c' + SumVal(M, ts') == c + SumVal(M, ts) + Scale(mul, Eval(M, t))
    ensures (c', ts') == Lin(M, mul, t, c, ts)
    ensures tids'.Keys == tids.Keys + ModAtoms(M, t)
    ensures DivsRegistered(ModDivs(M, t), tids') && eng.log == old(eng.log) + DivSubs(ModDivs(M, t), tids')
    decreases t, 0
  {
    ghost var vs0, log0 := eng.vars, eng.log;
    var c1, fmls1, ts1, tids1 := LinearizeTerm(eng, M, mul, t.lhs, c, fmls, ts, tids);
    ghost var vs1, log1 := eng.vars, eng.log;
    c', fmls', ts', tids' := LinearizeTerm(eng, M, -mul, t.rhs, c1, fmls1, ts1, tids1);
    DiffDone(M, mul, t, c, ts, fmls, vs0, log0, tids, c1, fmls1, ts1, vs1, log1, tids1,
             c', fmls', ts', eng.vars, eng.log, tids');
  }

  /** What linearizing `t1` and then `t2` leaves behind is what linearizing `t1 - t2` promises. */
  lemma DiffDone(M: Model, mul: real, t: Term, c: real, ts: Coeffs, fmls: seq<Formula>,
                 vs0: seq<EngineVar>, log0: seq<Submission>, tids: map<Term, nat>,
                 c1: real, fmls1: seq<Formula>, ts1: Coeffs,
                 vs1: seq<EngineVar>, log1: seq<Submission>, tids1: map<Term, nat>,
                 c': real, fmls': seq<Formula>, ts': Coeffs,
                 vs: seq<EngineVar>, log: seq<Submission>, tids': map<Term, nat>)
    requires t.Sub? && DistinctKeys(ts)
    requires Step(M, vs0, log0, tids, vs1, log1, tids1) && OnlyDivides(log1, |log0|)
    requires fmls1 == fmls + IteConds(M, t.lhs) && (c1, ts1) == Lin(M, mul, t.lhs, c, ts)
    requires tids1.Keys == tids.Keys + ModAtoms(M, t.lhs)
    requires DivsRegistered(ModDivs(M, t.lhs), tids1) && log1 == log0 + DivSubs(ModDivs(M, t.lhs), tids1)
    requires Step(M, vs1, log1, tids1, vs, log, tids') && OnlyDivides(log, |log1|)
    requires fmls' == fmls1 + IteConds(M, t.rhs) && (c', ts') == Lin(M, -mul, t.rhs, c1, ts1)
    requires tids'.Keys == tids1.Keys + ModAtoms(M, t.rhs)
    requires DivsRegistered(ModDivs(M, t.rhs), tids') && log == log1 + DivSubs(ModDivs(M, t.rhs), tids')
    ensures Step(M, vs0, log0, tids, vs, log, tids') && OnlyDivides(log, |log0|)
    ensures fmls' == fmls + IteConds(M, t)
    ensures DistinctKeys(ts')
    ensures c' + SumVal(M, ts') == c + SumVal(M, ts) + Scale(mul, Eval(M, t))
    ensures (c', ts') == Lin(M, mul, t, c, ts)
    ensures tids'.Keys == tids.Keys + ModAtoms(M, t)
    ensures DivsRegistered(ModDivs(M, t), tids') && log == log0 + DivSubs(ModDivs(M, t), tids')
  {
    StepDivTrans(M, vs0, log0, tids, vs1, log1, tids1, vs, log, tids');
    DiffCase(M, mul, t, c, ts);
    DivsThen(log0, log1, log, ModDivs(M, t.lhs), ModDivs(M, t.rhs), tids1, tids');
    AppendAssoc(fmls, IteConds(M, t.lhs), IteConds(M, t.rhs));
    LinValue(M, mul, t, c, ts);
    LinDistinct(M, mul, t, c, ts);
  }

  lemma DiffTotal(x: real, x1: real, x2: real, mul: real, e1: real, e2: real, e: real)
    requires x1 == x + Scale(mul, e1) && x2 == x1 + Scale(-mul, e2) && e == e1 - e2
    ensures x2 == x + Scale(mul, e)
  {
    assert mul * e == mul * e1 - mul * e2;
  }

  /**
   * A numeral adds `mul * value` to the constant; anything else the
   * linearizer does not look into is an atom, entered with `insert_mul`.
   */
  method LinearizeLeaf(eng: Engine, M: Model, mul: real, t: Term, c: real, fmls: seq<Formula>,
                       ts: Coeffs, tids: map<Term, nat>)
    returns (c': real, fmls': seq<Formula>, ts': Coeffs, tids': map<Term, nat>)
    requires !t.Mul? || |t.args| != 2 || (IsNumeral(t.args[0]).None? && IsNumeral(t.args[1]).None?)
    requires !t.Add? && !t.Sub? && !t.Neg? && !t.Ite? && (t.Mod? ==> IsNumeral(t.divisor).None?)
    requires Registered(M, eng.vars, tids) && Good(eng.log, eng.vars) && DistinctKeys(ts)
    modifies eng
    ensures Step(M, old(eng.vars), old(eng.log), tids, eng.vars, eng.log, tids')
    ensures OnlyDivides(eng.log, |old(eng.log)|)
    ensures DistinctKeys(ts')
    ensures c' + SumVal(M, ts') == c + SumVal(M, ts) + Scale(mul, Eval(M, t))
    ensures fmls' == fmls + IteConds(M, t)
    ensures (c', ts') == Lin(M, mul, t, c, ts)
    ensures tids'.Keys == tids.Keys + ModAtoms(M, t)
    ensures DivsRegistered(ModDivs(M, t), tids') && eng.log == old(eng.log) + DivSubs(ModDivs(M, t), tids')
    ensures t.Num? ==> ts' == ts && c' == c + mul * t.value
    ensures !t.Num? ==> ts' == InsertMul(ts, t, mul) && c' == c
    ensures tids' == tids && eng.vars == old(eng.vars) && eng.log == old(eng.log)
  {
    assert eng.log[..|eng.log|] == eng.log;
    assert eng.vars[..|eng.vars|] == eng.vars;
    LeafCase(M, mul, t, c, ts);
    LinValueLeaf(M, mul, t, c, ts);
    DivsNone(eng.log, tids);
    if t.Num? {
      c', fmls', ts', tids' := c + mul * t.value, fmls, ts, tids;
    } else {
      ts' := InsertMul(ts, t, mul);
      InsertMulDistinct(ts, t, mul);
      c', fmls', tids' := c, fmls, tids;
    }
  }

  /** `k * t` or `t * k` with `k` a closed numeral: `t` is linearized with multiplier `mul * k`. */
  method LinearizeScaled(eng: Engine, M: Model, mul: real, t: Term, c: real, fmls: seq<Formula>,
                         ts: Coeffs, tids: map<Term, nat>)
    returns (c': real, fmls': seq<Formula>, ts': Coeffs, tids': map<Term, nat>)
    requires t.Mul? && |t.args| == 2 && (IsNumeral(t.args[0]).Some? || IsNumeral(t.args[1]).Some?)
    requires Registered(M, eng.vars, tids) && Good(eng.log, eng.vars) && DistinctKeys(ts)
    modifies eng
    ensures Step(M, old(eng.vars), old(eng.log), tids, eng.vars, eng.log, tids')
    ensures OnlyDivides(eng.log, |old(eng.log)|)
    ensures fmls' == fmls + IteConds(M, t)
    ensures DistinctKeys(ts')
    ensures c' + SumVal(M, ts') == c + SumVal(M, ts) + Scale(mul, Eval(M, t))
    ensures (c', ts') == Lin(M, mul, t, c, ts)
    ensures tids'.Keys == tids.Keys + ModAtoms(M, t)
    ensures DivsRegistered(ModDivs(M, t), tids') && eng.log == old(eng.log) + DivSubs(ModDivs(M, t), tids')
    decreases t, 0
  {
    var k, other;
    if IsNumeral(t.args[0]).Some? {
      k, other := IsNumeral(t.args[0]).value, t.args[1];
      ScaledCase(M, mul, t, 0, c, ts);
    } else {
      k, other := IsNumeral(t.args[1]).value, t.args[0];
      ScaledCase(M, mul, t, 1, c, ts);
    }
    c', fmls', ts', tids' := LinearizeTerm(eng, M, Scale(mul, k), other, c, fmls, ts, tids);
    LinValue(M, mul, t, c, ts);
    LinDistinct(M, mul, t, c, ts);
  }

  /** A product with a numeral factor linearizes, and records conditions, as its other factor scaled. */
  lemma ScaledCase(M: Model, mul: real, t: Term, i: nat, c: real, ts: Coeffs)
    requires t.Mul? && |t.args| == 2 && i < 2 && IsNumeral(t.args[i]).Some?
    requires i == 1 ==> IsNumeral(t.args[0]).None?
    ensures Lin(M, mul, t, c, ts) == Lin(M, Scale(mul, IsNumeral(t.args[i]).value), t.args[1 - i], c, ts)
    ensures ModAtoms(M, t) == ModAtoms(M, t.args[1 - i]) && IteConds(M, t) == IteConds(M, t.args[1 - i])
    ensures ModDivs(M, t) == ModDivs(M, t.args[1 - i])
  {
  }

  /** A difference linearizes its left side with `mul` and then its right side with `-mul`. */
  lemma DiffCase(M: Model, mul: real, t: Term, c: real, ts: Coeffs)
    requires t.Sub?
    ensures Lin(M, mul, t, c, ts) == Lin(M, -mul, t.rhs, Lin(M, mul, t.lhs, c, ts).0, Lin(M, mul, t.lhs, c, ts).1)
    ensures Eval(M, t) == Eval(M, t.lhs) - Eval(M, t.rhs)
    ensures ModAtoms(M, t) == ModAtoms(M, t.lhs) + ModAtoms(M, t.rhs)
    ensures IteConds(M, t) == IteConds(M, t.lhs) + IteConds(M, t.rhs)
    ensures ModDivs(M, t) == ModDivs(M, t.lhs) + ModDivs(M, t.rhs)
  {
  }

  /** A `mod` by a numeral counts as its value and registers the atoms of its dividend. */
  lemma ModCase(M: Model, mul: real, t: Term, c: real, ts: Coeffs)
    requires t.Mod? && IsNumeral(t.divisor).Some?
    ensures Lin(M, mul, t, c, ts) == (c + Scale(mul, Eval(M, t)), ts)
  {
  }

  /** A `mod` by a numeral registers the atoms of its dividend and records the dividend's conditions. */
  lemma ModCaseAtoms(M: Model, t: Term)
    requires t.Mod? && IsNumeral(t.divisor).Some?
    ensures ModAtoms(M, t) == ModAtoms(M, t.dividend) + Atoms(M, t.dividend)
    ensures IteConds(M, t) == IteConds(M, t.dividend)
    ensures ModDivs(M, t) == ModDivs(M, t.dividend) + [DivRow(ModLin(M, t).0, ModLin(M, t).1, IsNumeral(t.divisor).value)]
  {
  }

  /** A term the linearizer does not look into: a numeral goes to the constant, anything else is an atom. */
  lemma LeafCase(M: Model, mul: real, t: Term, c: real, ts: Coeffs)
    requires !t.Mul? || |t.args| != 2 || (IsNumeral(t.args[0]).None? && IsNumeral(t.args[1]).None?)
    requires !t.Add? && !t.Sub? && !t.Neg? && !t.Ite? && (t.Mod? ==> IsNumeral(t.divisor).None?)
    ensures Lin(M, mul, t, c, ts) == if t.Num? then (c + mul * t.value, ts) else (c, InsertMul(ts, t, mul))
    ensures ModAtoms(M, t) == {} && IteConds(M, t) == [] && ModDivs(M, t) == []
  {
  }

  /** The branch conditions of the first `i` arguments of the sum `t` were appended to `fmls0`. */
  predicate ArgsDone(M: Model, t: Term, i: nat, fmls0: seq<Formula>, fmls: seq<Formula>)
    requires t.Add? && i <= |t.args|
  {
    fmls == fmls0 + IteCondsSeq(M, t.args[..i])
  }

  /** After the last argument the whole sum is done. */
  lemma ArgsDoneEnds(M: Model, t: Term, fmls0: seq<Formula>, fmls: seq<Formula>)
    requires t.Add?
    requires ArgsDone(M, t, |t.args|, fmls0, fmls)
    ensures fmls == fmls0 + IteConds(M, t)
  {
    assert t.args[..|t.args|] == t.args;
  }

  /** One more argument linearized: its conditions follow. */
  lemma ArgsDoneStep(M: Model, t: Term, i: nat, fmls0: seq<Formula>, fmls1: seq<Formula>, fmls: seq<Formula>)
    requires t.Add? && i < |t.args|
    requires ArgsDone(M, t, i, fmls0, fmls1)
    requires fmls == fmls1 + IteConds(M, t.args[i])
    ensures ArgsDone(M, t, i + 1, fmls0, fmls)
  {
    CondsArgStep(M, t.args, i, fmls0, fmls1, fmls);
  }

  /** The divisibility constraints of the first `i` arguments of the sum `t` were appended to `log0`. */
  ghost predicate ArgsDivs(M: Model, t: Term, i: nat, log0: seq<Submission>, log: seq<Submission>,
                           tids: map<Term, nat>)
    requires t.Add? && i <= |t.args|
  {
    DivsRegistered(ModDivsSeq(M, t.args[..i]), tids) && log == log0 + DivSubs(ModDivsSeq(M, t.args[..i]), tids)
  }

  lemma ArgsDivsStep(M: Model, t: Term, i: nat, log0: seq<Submission>, log1: seq<Submission>, log: seq<Submission>,
                     tids1: map<Term, nat>, tids: map<Term, nat>)
    requires t.Add? && i < |t.args| && ArgsDivs(M, t, i, log0, log1, tids1)
    requires forall x :: x in tids1 ==> x in tids && tids[x] == tids1[x]
    requires DivsRegistered(ModDivs(M, t.args[i]), tids) && log == log1 + DivSubs(ModDivs(M, t.args[i]), tids)
    ensures ArgsDivs(M, t, i + 1, log0, log, tids)
  {
    DivsThen(log0, log1, log, ModDivsSeq(M, t.args[..i]), ModDivs(M, t.args[i]), tids1, tids);
    assert t.args[..i + 1][..i] == t.args[..i];
  }

  lemma ArgsDivsEnds(M: Model, t: Term, log0: seq<Submission>, log: seq<Submission>, tids: map<Term, nat>)
    requires t.Add? && ArgsDivs(M, t, |t.args|, log0, log, tids)
    ensures DivsRegistered(ModDivs(M, t), tids) && log == log0 + DivSubs(ModDivs(M, t), tids)
  {
    assert t.args[..|t.args|] == t.args;
  }

  /** An n-ary sum: every argument is linearized, in order, with the same multiplier. */
  method LinearizeSum(eng: Engine, M: Model, mul: real, t: Term, c: real, fmls: seq<Formula>,
                      ts: Coeffs, tids: map<Term, nat>)
    returns (c': real, fmls': seq<Formula>, ts': Coeffs, tids': map<Term, nat>)
    requires t.Add?
    requires Registered(M, eng.vars, tids) && Good(eng.log, eng.vars) && DistinctKeys(ts)
    modifies eng
    ensures Step(M, old(eng.vars), old(eng.log), tids, eng.vars, eng.log, tids')
    ensures OnlyDivides(eng.log, |old(eng.log)|)
    ensures fmls' == fmls + IteConds(M, t)
    ensures DistinctKeys(ts')
    ensures c' + SumVal(M, ts') == c + SumVal(M, ts) + Scale(mul, Eval(M, t))
    ensures (c', ts') == Lin(M, mul, t, c, ts)
    ensures tids'.Keys == tids.Keys + ModAtoms(M, t)
    ensures DivsRegistered(ModDivs(M, t), tids') && eng.log == old(eng.log) + DivSubs(ModDivs(M, t), tids')
    decreases t, 1
  {
    ghost var vs0, log0 := eng.vars, eng.log;
    c', fmls', ts', tids' := c, fmls, ts, tids;
    assert log0[..|log0|] == log0 && vs0[..|vs0|] == vs0 && t.args[..0] == [];
    DivsNone(log0, tids);
    for i := 0 to |t.args|
      invariant Step(M, vs0, log0, tids, eng.vars, eng.log, tids') && OnlyDivides(eng.log, |log0|)
      invariant DistinctKeys(ts') && ArgsDone(M, t, i, fmls, fmls') && ArgsDivs(M, t, i, log0, eng.log, tids')
      invariant LinArgs(M, mul, t, i, c, ts, tids, c', ts', tids')
    {
      c', fmls', ts', tids' := LinearizeArg(eng, M, mul, t, i, vs0, log0, tids, fmls, c, ts, c', fmls', ts', tids');
    }
    ArgsDoneEnds(M, t, fmls, fmls');
    assert t.args[..|t.args|] == t.args;
    ArgsDivsEnds(M, t, log0, eng.log, tids');
    LinValue(M, mul, t, c, ts);
    LinDistinct(M, mul, t, c, ts);
  }

  /** One round of the loop over the arguments of a sum: the `i`-th argument is linearized. */
  method LinearizeArg(eng: Engine, M: Model, mul: real, t: Term, i: nat,
                      ghost vs0: seq<EngineVar>, ghost log0: seq<Submission>, ghost tids0: map<Term, nat>,
                      ghost fmls0: seq<Formula>, ghost c0: real, ghost ts0: Coeffs,
                      c: real, fmls: seq<Formula>, ts: Coeffs, tids: map<Term, nat>)
    returns (c': real, fmls': seq<Formula>, ts': Coeffs, tids': map<Term, nat>)
    requires t.Add? && i < |t.args|
    requires Step(M, vs0, log0, tids0, eng.vars, eng.log, tids) && OnlyDivides(eng.log, |log0|)
    requires DistinctKeys(ts) && ArgsDone(M, t, i, fmls0, fmls) && ArgsDivs(M, t, i, log0, eng.log, tids)
    requires LinArgs(M, mul, t, i, c0, ts0, tids0, c, ts, tids)
    modifies eng
    ensures Step(M, vs0, log0, tids0, eng.vars, eng.log, tids') && OnlyDivides(eng.log, |log0|)
    ensures DistinctKeys(ts') && ArgsDone(M, t, i + 1, fmls0, fmls') && ArgsDivs(M, t, i + 1, log0, eng.log, tids')
    ensures LinArgs(M, mul, t, i + 1, c0, ts0, tids0, c', ts', tids')
    decreases t, 0
  {
    ghost var vs1, log1 := eng.vars, eng.log;
    c', fmls', ts', tids' := LinearizeTerm(eng, M, mul, t.args[i], c, fmls, ts, tids);
    StepDivTrans(M, vs0, log0, tids0, vs1, log1, tids, eng.vars, eng.log, tids');
    ArgsDoneStep(M, t, i, fmls0, fmls, fmls');
    ArgsDivsStep(M, t, i, log0, log1, eng.log, tids, tids');
    LinArgsStep(M, mul, t, i, c0, ts0, tids0, c, ts, tids, c', ts', tids');
  }

  /**
   * The first `i` arguments of the sum `t` are linearized, from `c0` and `ts0`,
   * as the reference linearization has it, and the atoms their `mod`s
   * registered were added to `tids0`.
   */
  ghost predicate LinArgs(M: Model, mul: real, t: Term, i: nat, c0: real, ts0: Coeffs, tids0: map<Term, nat>,
                          c: real, ts: Coeffs, tids: map<Term, nat>)
    requires t.Add? && i <= |t.args|
  {
    (c, ts) == LinSeq(M, mul, t.args[..i], c0, ts0) && tids.Keys == tids0.Keys + ModAtomsSeq(M, t.args[..i])
  }

  lemma LinArgsStep(M: Model, mul: real, t: Term, i: nat, c0: real, ts0: Coeffs, tids0: map<Term, nat>,
                    c1: real, ts1: Coeffs, tids1: map<Term, nat>, c: real, ts: Coeffs, tids: map<Term, nat>)
    requires t.Add? && i < |t.args|
    requires LinArgs(M, mul, t, i, c0, ts0, tids0, c1, ts1, tids1)
    requires (c, ts) == Lin(M, mul, t.args[i], c1, ts1) && tids.Keys == tids1.Keys + ModAtoms(M, t.args[i])
    ensures LinArgs(M, mul, t, i + 1, c0, ts0, tids0, c, ts, tids)
  {
    assert t.args[..i + 1][..i] == t.args[..i];
  }

  /** Two steps that each submit only divisibility constraints make one. */
  lemma StepDivTrans(M: Model, vs0: seq<EngineVar>, log0: seq<Submission>, tids0: map<Term, nat>,
                     vs1: seq<EngineVar>, log1: seq<Submission>, tids1: map<Term, nat>,
                     vs2: seq<EngineVar>, log2: seq<Submission>, tids2: map<Term, nat>)
    requires Step(M, vs0, log0, tids0, vs1, log1, tids1) && OnlyDivides(log1, |log0|)
    requires Step(M, vs1, log1, tids1, vs2, log2, tids2) && OnlyDivides(log2, |log1|)
    ensures Step(M, vs0, log0, tids0, vs2, log2, tids2) && OnlyDivides(log2, |log0|)
  {
    StepTrans(M, vs0, log0, tids0, vs1, log1, tids1, vs2, log2, tids2);
    assert forall k :: |log0| <= k < |log1| ==> log2[k] == log1[k];
  }

  /** The branch conditions of a sum after one more argument. */
  lemma CondsArgStep(M: Model, args: seq<Term>, i: nat, fmls0: seq<Formula>, fmls1: seq<Formula>, fmls: seq<Formula>)
    requires i < |args|
    requires fmls1 == fmls0 + IteCondsSeq(M, args[..i]) && fmls == fmls1 + IteConds(M, args[i])
    ensures fmls == fmls0 + IteCondsSeq(M, args[..i + 1])
  {
    SumPrefixStep(M, args, i);
    AppendAssoc(fmls0, IteCondsSeq(M, args[..i]), IteConds(M, args[i]));
  }

  /** `ite`: only the branch the model selects is linearized; its condition is recorded. */
  method LinearizeIte(eng: Engine, M: Model, mul: real, t: Term, c: real, fmls: seq<Formula>,
                      ts: Coeffs, tids: map<Term, nat>)
    returns (c': real, fmls': seq<Formula>, ts': Coeffs, tids': map<Term, nat>)
    requires t.Ite?
    requires Registered(M, eng.vars, tids) && Good(eng.log, eng.vars) && DistinctKeys(ts)
    modifies eng
    ensures Step(M, old(eng.vars), old(eng.log), tids, eng.vars, eng.log, tids')
    ensures OnlyDivides(eng.log, |old(eng.log)|)
    ensures fmls' == fmls + IteConds(M, t)
    ensures DistinctKeys(ts')
    ensures c' + SumVal(M, ts') == c + SumVal(M, ts) + Scale(mul, Eval(M, t))
    ensures (c', ts') == Lin(M, mul, t, c, ts)
    ensures tids'.Keys == tids.Keys + ModAtoms(M, t)
    ensures DivsRegistered(ModDivs(M, t), tids') && eng.log == old(eng.log) + DivSubs(ModDivs(M, t), tids')
    decreases t, 0
  {
    if Holds(M, t.cond) {
      c', fmls', ts', tids' := LinearizeTerm(eng, M, mul, t.thn, c, fmls, ts, tids);
      AppendAssoc(fmls, IteConds(M, t.thn), [t.cond]);
      fmls' := fmls' + [t.cond];
    } else {
      var notCond := MkNot(t.cond);
      c', fmls', ts', tids' := LinearizeTerm(eng, M, mul, t.els, c, fmls + [notCond], ts, tids);
      AppendAssoc(fmls, [notCond], IteConds(M, t.els));
    }
    LinValue(M, mul, t, c, ts);
    LinDistinct(M, mul, t, c, ts);
  }

  /**
   * `t1 mod k` with `k` a closed numeral: the term counts as its model value
   * `r`, and `t1 - r` is submitted as a multiple of `k` (it is one in the model).
   */
  method LinearizeMod(eng: Engine, M: Model, mul: real, t: Term, c: real, fmls: seq<Formula>,
                      ts: Coeffs, tids: map<Term, nat>)
    returns (c': real, fmls': seq<Formula>, ts': Coeffs, tids': map<Term, nat>,
             coeffs: seq<Var>, c0: real)
    requires t.Mod? && IsNumeral(t.divisor).Some?
    requires Registered(M, eng.vars, tids) && Good(eng.log, eng.vars) && DistinctKeys(ts)
    modifies eng
    ensures Step(M, old(eng.vars), old(eng.log), tids, eng.vars, eng.log, tids')
    ensures OnlyDivides(eng.log, |old(eng.log)|)
    ensures |eng.log| > |old(eng.log)| && eng.log[|eng.log| - 1] == Divides(coeffs, c0, IsNumeral(t.divisor).value)
    ensures Scoped(coeffs, eng.vars) && RowValue(coeffs, eng.vars) + c0 == Eval(M, t.dividend) - Eval(M, t)
    ensures InRegistry(ModLin(M, t).1, tids') && coeffs == ToVars(ModLin(M, t).1, tids') && c0 == ModLin(M, t).0
    ensures ts' == ts && c' == c + Scale(mul, Eval(M, t))
    ensures DistinctKeys(ts')
    ensures c' + SumVal(M, ts') == c + SumVal(M, ts) + Scale(mul, Eval(M, t))
    ensures fmls' == fmls + IteConds(M, t)
    ensures (c', ts') == Lin(M, mul, t, c, ts)
    ensures tids'.Keys == tids.Keys + ModAtoms(M, t)
    ensures DivsRegistered(ModDivs(M, t), tids') && eng.log == old(eng.log) + DivSubs(ModDivs(M, t), tids')
    decreases t, 1
  {
    var k := IsNumeral(t.divisor).value;
    var r := Eval(M, t);
    c' := c + Scale(mul, r);
    ghost var vs0, log0 := eng.vars, eng.log;
    coeffs, c0, fmls', tids' := ModRow(eng, M, t, fmls, tids);
    ghost var log2 := eng.log;
    eng.AddDivides(coeffs, c0, k);
    ts' := ts;
    ModDone(M, mul, t, c, ts, fmls, vs0, log0, tids, log2, coeffs, c0, c', fmls', ts', eng.vars, eng.log, tids');
  }

  /** The row of the dividend, submitted as a multiple of `k`, completes what a resolved `mod` promises. */
  lemma ModDone(M: Model, mul: real, t: Term, c: real, ts: Coeffs, fmls: seq<Formula>,
                vs0: seq<EngineVar>, log0: seq<Submission>, tids: map<Term, nat>, log2: seq<Submission>,
                coeffs: seq<Var>, c0: real, c': real, fmls': seq<Formula>, ts': Coeffs,
                vs: seq<EngineVar>, log: seq<Submission>, tids': map<Term, nat>)
    requires t.Mod? && IsNumeral(t.divisor).Some? && DistinctKeys(ts)
    requires Step(M, vs0, log0, tids, vs, log2, tids') && OnlyDivides(log2, |log0|)
    requires DivsRegistered(ModDivs(M, t.dividend), tids') && log2 == log0 + DivSubs(ModDivs(M, t.dividend), tids')
    requires Scoped(coeffs, vs) && RowValue(coeffs, vs) + c0 == Eval(M, t.dividend) - Eval(M, t)
    requires InRegistry(ModLin(M, t).1, tids') && coeffs == ToVars(ModLin(M, t).1, tids') && c0 == ModLin(M, t).0
    requires fmls' == fmls + IteConds(M, t.dividend)
    requires tids'.Keys == tids.Keys + ModAtoms(M, t.dividend) + Atoms(M, t.dividend)
    requires log == log2 + [Divides(coeffs, c0, IsNumeral(t.divisor).value)]
    requires ts' == ts && c' == c + Scale(mul, Eval(M, t))
    ensures Step(M, vs0, log0, tids, vs, log, tids') && OnlyDivides(log, |log0|)
    ensures |log| > |log0| && log[|log| - 1] == Divides(coeffs, c0, IsNumeral(t.divisor).value)
    ensures DistinctKeys(ts')
    ensures c' + SumVal(M, ts') == c + SumVal(M, ts) + Scale(mul, Eval(M, t))
    ensures fmls' == fmls + IteConds(M, t)
    ensures (c', ts') == Lin(M, mul, t, c, ts)
    ensures tids'.Keys == tids.Keys + ModAtoms(M, t)
    ensures DivsRegistered(ModDivs(M, t), tids') && log == log0 + DivSubs(ModDivs(M, t), tids')
  {
    ModAppend(M, t, vs0, log0, tids, vs, log2, tids', coeffs, c0);
    ModDivsDone(M, t, log0, log2, log, tids', coeffs, c0);
    ModCase(M, mul, t, c, ts);
    ModCaseAtoms(M, t);
  }

  /** `t1 - r` is a multiple of `k` in the model, so submitting it keeps the step. */
  lemma ModAppend(M: Model, t: Term, vs0: seq<EngineVar>, log0: seq<Submission>, tids0: map<Term, nat>,
                  vs: seq<EngineVar>, log: seq<Submission>, tids: map<Term, nat>, coeffs: seq<Var>, c0: real)
    requires t.Mod? && IsNumeral(t.divisor).Some?
    requires Step(M, vs0, log0, tids0, vs, log, tids) && OnlyDivides(log, |log0|)
    requires Scoped(coeffs, vs) && RowValue(coeffs, vs) + c0 == Eval(M, t.dividend) - Eval(M, t)
    ensures Step(M, vs0, log0, tids0, vs, log + [Divides(coeffs, c0, IsNumeral(t.divisor).value)], tids)
    ensures OnlyDivides(log + [Divides(coeffs, c0, IsNumeral(t.divisor).value)], |log0|)
  {
    var k := IsNumeral(t.divisor).value;
    IsNumeralExact(M, t.divisor);
    ModRowDivides(M, t, k, RowValue(coeffs, vs), c0);
    AppendDivides(M, vs0, log0, tids0, vs, log, tids, Divides(coeffs, c0, k));
  }

  /** The dividend's row, submitted after the constraints inside the dividend, completes the `mod`'s constraints. */
  lemma ModDivsDone(M: Model, t: Term, log0: seq<Submission>, log2: seq<Submission>, log: seq<Submission>,
                    tids: map<Term, nat>, coeffs: seq<Var>, c0: real)
    requires t.Mod? && IsNumeral(t.divisor).Some?
    requires DivsRegistered(ModDivs(M, t.dividend), tids) && log2 == log0 + DivSubs(ModDivs(M, t.dividend), tids)
    requires InRegistry(ModLin(M, t).1, tids) && coeffs == ToVars(ModLin(M, t).1, tids) && c0 == ModLin(M, t).0
    requires log == log2 + [Divides(coeffs, c0, IsNumeral(t.divisor).value)]
    ensures DivsRegistered(ModDivs(M, t), tids) && log == log0 + DivSubs(ModDivs(M, t), tids)
  {
    var row := DivRow(ModLin(M, t).0, ModLin(M, t).1, IsNumeral(t.divisor).value);
    ModCaseAtoms(M, t);
    DivSubsOne(row, tids);
    DivsThen(log0, log2, log, ModDivs(M, t.dividend), [row], tids, tids);
  }

  /** The row of `t1 - r` for `t1 mod k` of model value `r`, linearized into a fresh map and extracted. */
  method ModRow(eng: Engine, M: Model, t: Term, fmls: seq<Formula>, tids: map<Term, nat>)
    returns (coeffs: seq<Var>, c0: real, fmls': seq<Formula>, tids': map<Term, nat>)
    requires t.Mod?
    requires Registered(M, eng.vars, tids) && Good(eng.log, eng.vars)
    modifies eng
    ensures Step(M, old(eng.vars), old(eng.log), tids, eng.vars, eng.log, tids')
    ensures OnlyDivides(eng.log, |old(eng.log)|)
    ensures DivsRegistered(ModDivs(M, t.dividend), tids') && eng.log == old(eng.log) + DivSubs(ModDivs(M, t.dividend), tids')
    ensures Scoped(coeffs, eng.vars) && RowValue(coeffs, eng.vars) + c0 == Eval(M, t.dividend) - Eval(M, t)
    ensures InRegistry(ModLin(M, t).1, tids') && coeffs == ToVars(ModLin(M, t).1, tids') && c0 == ModLin(M, t).0
    ensures fmls' == fmls + IteConds(M, t.dividend)
    ensures tids'.Keys == tids.Keys + ModAtoms(M, t.dividend) + Atoms(M, t.dividend)
    decreases t, 0
  {
    ghost var vs0, log0 := eng.vars, eng.log;
    var r := Eval(M, t);
    var ts0, tids1;
    c0, fmls', ts0, tids1 := LinearizeTerm(eng, M, 1.0, t.dividend, -r, fmls, [], tids);
    ghost var vs1, log1 := eng.vars, eng.log;
    coeffs, tids' := Extract(eng, M, ts0, tids1);
    StepTrans(M, vs0, log0, tids, vs1, log1, tids1, eng.vars, eng.log, tids');
    DivSubsExtend(ModDivs(M, t.dividend), tids1, tids');
    assert SumVal(M, []) == 0.0;
    RowTotal(c0, SumVal(M, ts0), RowValue(coeffs, eng.vars), r, Eval(M, t.dividend), SumVal(M, []));
    RowKeys(M, t.dividend, r, c0, ts0);
  }

  /** A term linearized from nothing carries exactly the term's atoms. */
  lemma RowKeys(M: Model, t: Term, r: real, c0: real, ts0: Coeffs)
    requires (c0, ts0) == Lin(M, 1.0, t, -r, [])
    ensures KeySet(ts0) == Atoms(M, t)
  {
    LinKeys(M, 1.0, t, -r, []);
    assert KeySet([]) == {};
  }

  /** The row's value plus its constant is the dividend less the remainder. */
  lemma RowTotal(c0: real, s: real, rv: real, r: real, e: real, s0: real)
    requires c0 + s == -r + s0 + Scale(1.0, e) && s0 == 0.0 && rv == s
    ensures rv + c0 == e - r
  {
  }

  /** The dividend minus its remainder, as a row value, is a multiple of the modulus. */
  lemma ModRowDivides(M: Model, t: Term, k: real, rowValue: real, c0: real)
    requires t.Mod? && Eval(M, t.divisor) == k
    requires rowValue + c0 == Eval(M, t.dividend) - Eval(M, t)
    ensures Divisible(rowValue + c0, k)
  {
    if k != 0.0 {
      RemainderLeavesMultiple(Eval(M, t.dividend), k);
    }
  }

  /** Appending a divisibility constraint that holds keeps a linearization step. */
  lemma AppendDivides(M: Model, vs0: seq<EngineVar>, log0: seq<Submission>, tids0: map<Term, nat>,
                      vs: seq<EngineVar>, log: seq<Submission>, tids: map<Term, nat>, s: Submission)
    requires Step(M, vs0, log0, tids0, vs, log, tids) && OnlyDivides(log, |log0|)
    requires s.Divides? && SubmissionScoped(s, vs) && Satisfied(s, vs)
    ensures Step(M, vs0, log0, tids0, vs, log + [s], tids) && OnlyDivides(log + [s], |log0|)
    ensures |log + [s]| > |log0| && (log + [s])[|log + [s]| - 1] == s
  {
    assert (log + [s])[..|log0|] == log[..|log0|];
  }
}
