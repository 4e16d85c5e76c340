/**
 * Arithmetic terms and literals as the projection plugin sees them, and the
 * model under which they are evaluated.
 *
 * The grammar is closed: every shape the linearizer distinguishes has its own
 * constructor, and everything else (uninterpreted constants and function
 * applications, products of two non-numerals) is an atom.
 */
module Terms {

  datatype Option<T> = None | Some(value: T)

  datatype Sort = IntSort | RealSort | OtherSort

  /** An uninterpreted constant: the declaration the model assigns a value to. */
  datatype Decl = Decl(name: nat, sort: Sort)

  datatype Term =
    | Num(value: real, isInt: bool)
    | Const(decl: Decl)
    | Add(args: seq<Term>)
    | Sub(lhs: Term, rhs: Term)
    | Neg(arg: Term)
    | Mul(args: seq<Term>)
    | Mod(dividend: Term, divisor: Term)
    | Ite(cond: Formula, thn: Term, els: Term)
    | App(fn: nat, args: seq<Term>, sort: Sort)

  datatype Formula =
    | TrueF
    | FalseF
    | Le(lhs: Term, rhs: Term)
    | Ge(lhs: Term, rhs: Term)
    | Lt(lhs: Term, rhs: Term)
    | Gt(lhs: Term, rhs: Term)
    | Eq(lhs: Term, rhs: Term)
    | Distinct(args: seq<Term>)
    | Not(arg: Formula)
    | Pred(p: nat, args: seq<Term>)

  /**
   * A model: values of the uninterpreted constants, and the interpretations of
   * the uninterpreted functions, of `mod` by zero and of the predicates as
   * finite tables. Whatever a table does not mention evaluates to 0 (to false
   * for a predicate), as under model completion.
   */
  datatype Model = Model(
    consts: map<Decl, real>,
    apps: map<(nat, seq<real>), real>,
    modByZero: map<real, real>,
    preds: map<(nat, seq<real>), bool>)

  function SortOf(t: Term): Sort {
    match t
    case Num(_, isInt) => if isInt then IntSort else RealSort
    case Const(d) => d.sort
    case Add(args) => if |args| > 0 then SortOf(args[0]) else RealSort
    case Sub(a, _) => SortOf(a)
    case Neg(a) => SortOf(a)
    case Mul(args) => if |args| > 0 then SortOf(args[0]) else RealSort
    case Mod(_, _) => IntSort
    case Ite(_, a, _) => SortOf(a)
    case App(_, _, s) => s
  }

  predicate IsArith(t: Term) {
    SortOf(t) != OtherSort
  }

  predicate IsInt(t: Term) {
    SortOf(t) == IntSort
  }

  predicate IsInteger(x: real) {
    x.Floor as real == x
  }

  function Abs(x: real): (r: real)
    ensures r >= 0.0 && (r == x || r == -x)
  {
    if x < 0.0 then -x else x
  }

  /** Euclidean remainder, as SMT-LIB defines `mod`: never negative, below |y|. */
  function EuclidMod(x: real, y: real): (r: real)
    requires y != 0.0
    ensures 0.0 <= r < Abs(y)
  {
    var a := Abs(y);
    var q := (x / a).Floor as real;
    var d := x / a - q;
    assert 0.0 <= d < 1.0;
    assert x - a * q == a * d;
    assert a * d < a by {
      assert a - a * d == a * (1.0 - d);
    }
    x - a * q
  }

  /** `v` is a multiple of `m`; a modulus of zero constrains nothing. */
  predicate Divisible(v: real, m: real) {
    m == 0.0 || IsInteger(v / m)
  }

  function Eval(M: Model, t: Term): real
    decreases t
  {
    match t
    case Num(v, _) => v
    case Const(d) => if d in M.consts then M.consts[d] else 0.0
    case Add(args) => EvalSum(M, args)
    case Sub(a, b) => Eval(M, a) - Eval(M, b)
    case Neg(a) => -Eval(M, a)
    case Mul(args) => EvalProd(M, args)
    case Mod(a, k) =>
      var x, y := Eval(M, a), Eval(M, k);
      if y == 0.0 then (if x in M.modByZero then M.modByZero[x] else 0.0) else EuclidMod(x, y)
    case Ite(c, a, b) => if Holds(M, c) then Eval(M, a) else Eval(M, b)
    case App(f, args, _) =>
      var key := (f, EvalList(M, args));
      if key in M.apps then M.apps[key] else 0.0
  }

  function EvalSum(M: Model, s: seq<Term>): real
    decreases s
  {
    if s == [] then 0.0 else EvalSum(M, s[..|s| - 1]) + Eval(M, s[|s| - 1])
  }

  function EvalProd(M: Model, s: seq<Term>): real
    decreases s
  {
    if s == [] then 1.0 else EvalProd(M, s[..|s| - 1]) * Eval(M, s[|s| - 1])
  }

  function EvalList(M: Model, s: seq<Term>): seq<real>
    decreases s
  {
    if s == [] then [] else EvalList(M, s[..|s| - 1]) + [Eval(M, s[|s| - 1])]
  }

  predicate Holds(M: Model, f: Formula)
    decreases f
  {
    match f
    case TrueF => true
    case FalseF => false
    case Le(a, b) => Eval(M, a) <= Eval(M, b)
    case Ge(a, b) => Eval(M, a) >= Eval(M, b)
    case Lt(a, b) => Eval(M, a) < Eval(M, b)
    case Gt(a, b) => Eval(M, a) > Eval(M, b)
    case Eq(a, b) => Eval(M, a) == Eval(M, b)
    case Distinct(args) =>
      forall i, j :: 0 <= i < j < |args| ==> Eval(M, args[i]) != Eval(M, args[j])
    case Not(g) => !Holds(M, g)
    case Pred(p, args) =>
      var key := (p, EvalList(M, args));
      key in M.preds && M.preds[key]
  }

  /** Negation that strips a negation and folds the two boolean constants. */
  function MkNot(f: Formula): (r: Formula)
    ensures forall M :: Holds(M, r) == !Holds(M, f)
  {
    match f
    case Not(g) => g
    case TrueF => FalseF
    case FalseF => TrueF
    case _ => Not(f)
  }

  /** `v` is `t` or one of its sub-terms (conditions of `ite` included). */
  predicate OccursIn(v: Term, t: Term)
    decreases t
  {
    v == t ||
    match t
    case Num(_, _) => false
    case Const(_) => false
    case Add(args) => exists i :: 0 <= i < |args| && OccursIn(v, args[i])
    case Sub(a, b) => OccursIn(v, a) || OccursIn(v, b)
    case Neg(a) => OccursIn(v, a)
    case Mul(args) => exists i :: 0 <= i < |args| && OccursIn(v, args[i])
    case Mod(a, k) => OccursIn(v, a) || OccursIn(v, k)
    case Ite(c, a, b) => OccursInF(v, c) || OccursIn(v, a) || OccursIn(v, b)
    case App(_, args, _) => exists i :: 0 <= i < |args| && OccursIn(v, args[i])
  }

  predicate OccursInF(v: Term, f: Formula)
    decreases f
  {
    match f
    case TrueF => false
    case FalseF => false
    case Le(a, b) => OccursIn(v, a) || OccursIn(v, b)
    case Ge(a, b) => OccursIn(v, a) || OccursIn(v, b)
    case Lt(a, b) => OccursIn(v, a) || OccursIn(v, b)
    case Gt(a, b) => OccursIn(v, a) || OccursIn(v, b)
    case Eq(a, b) => OccursIn(v, a) || OccursIn(v, b)
    case Distinct(args) => exists i :: 0 <= i < |args| && OccursIn(v, args[i])
    case Not(g) => OccursInF(v, g)
    case Pred(_, args) => exists i :: 0 <= i < |args| && OccursIn(v, args[i])
  }

  /**
   * A size measure under which the branch conditions that linearizing a
   * literal appends always weigh less than the literal itself (a `distinct`
   * may hand each argument to two strict comparisons, hence its factor).
   */
  function WeightT(t: Term): nat
    decreases t
  {
    match t
    case Num(_, _) => 1
    case Const(_) => 1
    case Add(args) => 1 + SumT(args)
    case Sub(a, b) => 1 + WeightT(a) + WeightT(b)
    case Neg(a) => 1 + WeightT(a)
    case Mul(args) => 1 + SumT(args)
    case Mod(a, k) => 1 + WeightT(a) + WeightT(k)
    case Ite(c, a, b) => 2 + WeightF(c) + WeightT(a) + WeightT(b)
    case App(_, args, _) => 1 + SumT(args)
  }

  function SumT(s: seq<Term>): nat
    decreases s
  {
    if s == [] then 0 else SumT(s[..|s| - 1]) + WeightT(s[|s| - 1])
  }

  function WeightF(f: Formula): nat
    decreases f
  {
    match f
    case TrueF => 1
    case FalseF => 1
    case Le(a, b) => 1 + WeightT(a) + WeightT(b)
    case Ge(a, b) => 1 + WeightT(a) + WeightT(b)
    case Lt(a, b) => 1 + WeightT(a) + WeightT(b)
    case Gt(a, b) => 1 + WeightT(a) + WeightT(b)
    case Eq(a, b) => 1 + WeightT(a) + WeightT(b)
    case Distinct(args) => 1 + Doubled(|args|, SumT(args))
    case Not(g) => 1 + WeightF(g)
    case Pred(_, args) => 1 + SumT(args)
  }

  /** `2 * n * w`, spelled out as repeated addition. */
  function Doubled(n: nat, w: nat): nat {
    if n == 0 then 0 else 2 * w + Doubled(n - 1, w)
  }

  /** The total weight of a sequence of literals. */
  function SumW(s: seq<Formula>): nat {
    if s == [] then 0 else SumW(s[..|s| - 1]) + WeightF(s[|s| - 1])
  }

  lemma {:induction false} SumWAppend(a: seq<Formula>, b: seq<Formula>)
    ensures SumW(a + b) == SumW(a) + SumW(b)
    decreases |b|
  {
    if b == [] {
      assert a + b == a;
    } else {
      var n := |b| - 1;
      assert (a + b)[..|a + b| - 1] == a + b[..n];
      SumWAppend(a, b[..n]);
    }
  }

  lemma MkNotWeight(f: Formula)
    ensures WeightF(MkNot(f)) <= WeightF(f) + 1
  {
  }

  /** Every argument weighs at most the sum of the arguments. */
  lemma {:induction false} ElemWeight(s: seq<Term>, k: nat)
    requires k < |s|
    ensures WeightT(s[k]) <= SumT(s)
    decreases |s|
  {
    if k < |s| - 1 {
      ElemWeight(s[..|s| - 1], k);
    }
  }

  /** What is left after removing the Euclidean remainder is a multiple of the modulus. */
  lemma RemainderLeavesMultiple(x: real, y: real)
    requires y != 0.0
    ensures Divisible(x - EuclidMod(x, y), y)
  {
    var a := Abs(y);
    var q := (x / a).Floor;
    assert x - EuclidMod(x, y) == a * (q as real);
    if y > 0.0 {
      assert (a * (q as real)) / y == q as real;
    } else {
      assert (a * (q as real)) / y == (-q) as real;
    }
  }

  /** The remainder is zero exactly when the dividend is a multiple of the modulus. */
  lemma RemainderZeroIffDivisible(x: real, y: real)
    requires y != 0.0
    ensures EuclidMod(x, y) == 0.0 <==> Divisible(x, y)
  {
    ModZeroIffInteger(x, y);
    QuotientByAbs(x, y);
    IntegerUpToSign(x / Abs(y), x / y);
  }

  /** The remainder is zero exactly when the dividend over the modulus's absolute value is an integer. */
  lemma ModZeroIffInteger(x: real, y: real)
    requires y != 0.0
    ensures EuclidMod(x, y) == 0.0 <==> IsInteger(x / Abs(y))
  {
    var a := Abs(y);
    var w := x / a;
    assert EuclidMod(x, y) == a * w - a * (w.Floor as real);
    ScaleZero(a, w, w.Floor as real);
  }

  /** Two reals equal up to sign are integers together. */
  lemma IntegerUpToSign(w: real, z: real)
    requires w == z || w == -z
    ensures IsInteger(w) <==> IsInteger(z)
  {
    NegInteger(z);
  }

  /** Dividing by the absolute value gives the quotient up to sign. */
  lemma QuotientByAbs(x: real, y: real)
    requires y != 0.0
    ensures x / Abs(y) == if y > 0.0 then x / y else -(x / y)
  {
  }

  /** A non-zero factor cancels: `a*u - a*v` vanishes exactly when `u == v`. */
  lemma ScaleZero(a: real, u: real, v: real)
    requires a != 0.0
    ensures a * u - a * v == 0.0 <==> u == v
  {
    assert a * u - a * v == a * (u - v);
  }

  /** A real is an integer exactly when its negation is. */
  lemma NegInteger(z: real)
    ensures IsInteger(-z) <==> IsInteger(z)
  {
    if IsInteger(z) {
      FloorOfInteger(-(z.Floor), -z);
    }
    if IsInteger(-z) {
      FloorOfInteger(-((-z).Floor), z);
    }
  }

  lemma FloorOfInteger(k: int, z: real)
    requires z == k as real
    ensures z.Floor == k
  {
  }
}
