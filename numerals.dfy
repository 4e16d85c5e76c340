/**
 * Folding closed numeral expressions (`is_numeral`): the multipliers that
 * make a product linear are recognised this way.
 */
module Numerals {
  import opened Terms

  /**
   * The value of `t` if it is built from numerals by unary minus, n-ary
   * product, n-ary sum and binary difference; `None` as soon as any leaf is
   * something else.
   */
  function IsNumeral(t: Term): Option<real>
    decreases t
  {
    match t
    case Num(v, _) => Some(v)
    case Neg(a) =>
      (match IsNumeral(a)
       case Some(v) => Some(-v)
       case None => None)
    case Mul(args) => NumeralProduct(args)
    case Add(args) => NumeralSum(args)
    case Sub(a, b) =>
      (match (IsNumeral(a), IsNumeral(b))
       case (Some(v), Some(w)) => Some(v - w)
       case _ => None)
    case _ => None
  }

  /** The loop `r := 1; r *= r_i`, stopping at the first argument that is no numeral. */
  function NumeralProduct(s: seq<Term>): Option<real>
    decreases s
  {
    if s == [] then Some(1.0)
    else
      match (NumeralProduct(s[..|s| - 1]), IsNumeral(s[|s| - 1]))
      case (Some(p), Some(v)) => Some(p * v)
      case _ => None
  }

  /** The loop `r := 0; r += r_i`, stopping at the first argument that is no numeral. */
  function NumeralSum(s: seq<Term>): Option<real>
    decreases s
  {
    if s == [] then Some(0.0)
    else
      match (NumeralSum(s[..|s| - 1]), IsNumeral(s[|s| - 1]))
      case (Some(p), Some(v)) => Some(p + v)
      case _ => None
  }

  /** Reference definition: the term mentions nothing but numerals and `- * + -`. */
  predicate ClosedNumeral(t: Term)
    decreases t
  {
    match t
    case Num(_, _) => true
    case Neg(a) => ClosedNumeral(a)
    case Mul(args) => forall i :: 0 <= i < |args| ==> ClosedNumeral(args[i])
    case Add(args) => forall i :: 0 <= i < |args| ==> ClosedNumeral(args[i])
    case Sub(a, b) => ClosedNumeral(a) && ClosedNumeral(b)
    case _ => false
  }

  /**
   * `IsNumeral` succeeds exactly on closed numeral terms, and what it returns
   * is the value every model gives the term.
   */
  lemma {:induction false} IsNumeralExact(M: Model, t: Term)
    ensures IsNumeral(t).Some? <==> ClosedNumeral(t)
    ensures IsNumeral(t).Some? ==> IsNumeral(t).value == Eval(M, t)
    decreases t, 1
  {
    match t
    case Num(_, _) =>
    case Neg(a) => IsNumeralExact(M, a);
    case Mul(args) => NumeralProductExact(M, args, t);
    case Add(args) => NumeralSumExact(M, args, t);
    case Sub(a, b) => IsNumeralExact(M, a); IsNumeralExact(M, b);
    case _ =>
  }

  lemma {:induction false} NumeralProductExact(M: Model, s: seq<Term>, parent: Term)
    requires forall i :: 0 <= i < |s| ==> s[i] < parent
    ensures NumeralProduct(s).Some? <==> forall i :: 0 <= i < |s| ==> ClosedNumeral(s[i])
    ensures NumeralProduct(s).Some? ==> NumeralProduct(s).value == EvalProd(M, s)
    decreases parent, 0, |s|
  {
    if s != [] {
      var n := |s| - 1;
      NumeralProductExact(M, s[..n], parent);
      IsNumeralExact(M, s[n]);
      assert forall i :: 0 <= i < n ==> s[..n][i] == s[i];
    }
  }

  lemma {:induction false} NumeralSumExact(M: Model, s: seq<Term>, parent: Term)
    requires forall i :: 0 <= i < |s| ==> s[i] < parent
    ensures NumeralSum(s).Some? <==> forall i :: 0 <= i < |s| ==> ClosedNumeral(s[i])
    ensures NumeralSum(s).Some? ==> NumeralSum(s).value == EvalSum(M, s)
    decreases parent, 0, |s|
  {
    if s != [] {
      var n := |s| - 1;
      NumeralSumExact(M, s[..n], parent);
      IsNumeralExact(M, s[n]);
      assert forall i :: 0 <= i < n ==> s[..n][i] == s[i];
    }
  }
}
