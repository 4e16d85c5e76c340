/**
 * The atom-to-coefficient map that linearization accumulates (`ts`), the
 * atom registry that maps atoms to engine variable ids (`tids`), and
 * `extract_coefficients`, which turns the first into an engine row using the
 * second.
 *
 * `ts` is kept as an association list in insertion order, so that iterating
 * over it is deterministic.
 */
module Coeffs {
  import opened Terms
  import opened Mbo

  type Coeffs = seq<(Term, real)>

  /** No atom has two entries: the atom of each entry is absent from the entries after it. */
  predicate DistinctKeys(ts: Coeffs) {
    ts == [] || (Lookup(ts[1..], ts[0].0).None? && DistinctKeys(ts[1..]))
  }

  function Lookup(ts: Coeffs, x: Term): Option<real> {
    if ts == [] then None
    else if ts[0].0 == x then Some(ts[0].1)
    else Lookup(ts[1..], x)
  }

  /** `c + sum coeff * value(atom)` without the constant: the value of the map under a model. */
  function SumVal(M: Model, ts: Coeffs): real {
    if ts == [] then 0.0 else ts[0].1 * Eval(M, ts[0].0) + SumVal(M, ts[1..])
  }

  /**
   * `insert_mul`: adds `v` to the coefficient of `x`, or enters `x` with
   * coefficient `v` when it is absent; no other entry changes.
   */
  function InsertMul(ts: Coeffs, x: Term, v: real): (r: Coeffs)
    ensures Lookup(r, x) == Some(if Lookup(ts, x).Some? then Lookup(ts, x).value + v else v)
    ensures forall y :: y != x ==> Lookup(r, y) == Lookup(ts, y)
  {
    if ts == [] then [(x, v)]
    else if ts[0].0 == x then [(x, ts[0].1 + v)] + ts[1..]
    else
      var rest := InsertMul(ts[1..], x, v);
      var r := [ts[0]] + rest;
      assert r[1..] == rest;
      r
  }

  /** An atom is absent from the map exactly when no entry carries it. */
  lemma {:induction false} LookupNone(ts: Coeffs, y: Term)
    ensures Lookup(ts, y).None? <==> forall i :: 0 <= i < |ts| ==> ts[i].0 != y
  {
    if ts != [] {
      LookupNone(ts[1..], y);
      assert forall i :: 1 <= i < |ts| ==> ts[i] == ts[1..][i - 1];
    }
  }

  /** `insert_mul` never creates a second entry for the same atom. */
  lemma {:induction false} InsertMulDistinct(ts: Coeffs, x: Term, v: real)
    requires DistinctKeys(ts)
    ensures DistinctKeys(InsertMul(ts, x, v))
  {
    var r := InsertMul(ts, x, v);
    if ts == [] {
      assert r[1..] == [];
    } else if ts[0].0 == x {
      assert r[1..] == ts[1..];
    } else {
      var rest := InsertMul(ts[1..], x, v);
      assert r[1..] == rest;
      InsertMulDistinct(ts[1..], x, v);
    }
  }

  /** Inserting `v` for `x` raises the value of the map by `v * value(x)`. */
  lemma {:induction false} InsertMulSum(M: Model, ts: Coeffs, x: Term, v: real)
    ensures SumVal(M, InsertMul(ts, x, v)) == SumVal(M, ts) + v * Eval(M, x)
  {
    var e := Eval(M, x);
    if ts == [] {
      assert InsertMul(ts, x, v) == [(x, v)] + [];
      SumValCons(M, (x, v), []);
    } else {
      var h, rest := ts[0], ts[1..];
      SumValCons(M, h, rest);
      assert ts == [h] + rest;
      if h.0 == x {
        assert InsertMul(ts, x, v) == [(x, h.1 + v)] + rest;
        SumValCons(M, (x, h.1 + v), rest);
        Distribute(h.1, v, e, SumVal(M, rest));
      } else {
        assert InsertMul(ts, x, v) == [h] + InsertMul(rest, x, v);
        InsertMulSum(M, rest, x, v);
        SumValCons(M, h, InsertMul(rest, x, v));
      }
    }
  }

  /** The atoms that have an entry in the map. */
  function KeySet(ts: Coeffs): set<Term> {
    set i | 0 <= i < |ts| :: ts[i].0
  }

  /** `insert_mul` enters exactly its atom: the map's atoms gain `x` and nothing else. */
  lemma {:induction false} InsertMulKeys(ts: Coeffs, x: Term, v: real)
    ensures KeySet(InsertMul(ts, x, v)) == KeySet(ts) + {x}
  {
    var r := InsertMul(ts, x, v);
    if ts == [] {
      assert r[0].0 == x;
    } else if ts[0].0 == x {
      assert r == [(x, ts[0].1 + v)] + ts[1..];
      forall y | y in KeySet(ts) ensures y in KeySet(r) {
        var i :| 0 <= i < |ts| && ts[i].0 == y;
        if i > 0 {
          assert r[i] == ts[i];
        } else {
          assert r[0].0 == y;
        }
      }
      forall y | y in KeySet(r) ensures y in KeySet(ts) + {x} {
        var i :| 0 <= i < |r| && r[i].0 == y;
        if i > 0 {
          assert ts[i] == r[i];
        }
      }
    } else {
      var rest := InsertMul(ts[1..], x, v);
      assert r == [ts[0]] + rest;
      InsertMulKeys(ts[1..], x, v);
      KeySetCons(ts[0], rest);
      KeySetCons(ts[0], ts[1..]);
      assert [ts[0]] + ts[1..] == ts;
    }
  }

  lemma KeySetCons(h: (Term, real), rest: Coeffs)
    ensures KeySet([h] + rest) == {h.0} + KeySet(rest)
  {
    var s := [h] + rest;
    forall y | y in KeySet(s) ensures y in {h.0} + KeySet(rest) {
      var i :| 0 <= i < |s| && s[i].0 == y;
      if i > 0 {
        assert s[i] == rest[i - 1];
      }
    }
    forall y | y in KeySet(rest) ensures y in KeySet(s) {
      var i :| 0 <= i < |rest| && rest[i].0 == y;
      assert s[i + 1] == rest[i];
    }
    assert s[0] == h;
  }

  /** The atoms of a map's first `i + 1` entries are those of its first `i` and the `i`-th. */
  lemma KeySetSnoc(ts: Coeffs, i: nat)
    requires i < |ts|
    ensures KeySet(ts[..i + 1]) == KeySet(ts[..i]) + {ts[i].0}
  {
    var s := ts[..i + 1];
    forall y | y in KeySet(s) ensures y in KeySet(ts[..i]) + {ts[i].0} {
      var k :| 0 <= k < |s| && s[k].0 == y;
      if k < i {
        assert ts[..i][k] == s[k];
      }
    }
    forall y | y in KeySet(ts[..i]) ensures y in KeySet(s) {
      var k :| 0 <= k < i && ts[..i][k].0 == y;
      assert s[k] == ts[..i][k];
    }
    assert s[i] == ts[i];
  }

  /** The value of a map splits off its first entry. */
  lemma SumValCons(M: Model, h: (Term, real), rest: Coeffs)
    ensures SumVal(M, [h] + rest) == h.1 * Eval(M, h.0) + SumVal(M, rest)
  {
    assert ([h] + rest)[1..] == rest;
  }

  /** The empty map is worth nothing. */
  lemma SumValNil(M: Model, ts: Coeffs)
    requires ts == []
    ensures SumVal(M, ts) == 0.0
  {
  }

  lemma Distribute(w: real, v: real, e: real, s: real)
    ensures (w + v) * e + s == w * e + s + v * e
  {
  }

  /** The value of a map splits off its last entry. */
  lemma {:induction false} SumValSnoc(M: Model, ts: Coeffs)
    requires ts != []
    ensures SumVal(M, ts) == SumVal(M, ts[..|ts| - 1]) + ts[|ts| - 1].1 * Eval(M, ts[|ts| - 1].0)
  {
    if |ts| > 1 {
      SumValSnoc(M, ts[1..]);
      assert ts[1..][..|ts| - 2] == ts[..|ts| - 1][1..];
    }
  }

  /**
   * The atom registry: every registered atom has a distinct id of a variable
   * the engine knows, primed with the atom's value in the model and its
   * integrality; every engine variable belongs to a registered atom.
   */
  ghost predicate Registered(M: Model, vs: seq<EngineVar>, tids: map<Term, nat>) {
    (forall x :: x in tids ==> tids[x] < |vs| && vs[tids[x]] == EngineVar(Eval(M, x), IsInt(x))) &&
    (forall x :: x in tids ==> Owner(tids, tids[x]) == x) &&
    (forall id {:trigger vs[id]} :: 0 <= id < |vs| ==> id in tids.Values)
  }

  /**
   * An atom registered under `id`. The registry is injective exactly when each
   * atom is the one chosen for its own id, which is how `Registered` says it.
   */
  ghost function Owner(tids: map<Term, nat>, id: nat): (x: Term)
    requires exists y :: y in tids && tids[y] == id
    ensures x in tids && tids[x] == id
  {
    var y :| y in tids && tids[y] == id; y
  }

  /** No two registered atoms share an id. */
  lemma RegisteredInjective(M: Model, vs: seq<EngineVar>, tids: map<Term, nat>)
    requires Registered(M, vs, tids)
    ensures forall x, y :: x in tids && y in tids && tids[x] == tids[y] ==> x == y
  {
    forall x, y | x in tids && y in tids && tids[x] == tids[y] ensures x == y {
      assert Owner(tids, tids[x]) == x && Owner(tids, tids[y]) == y;
    }
  }

  /** The store and the registry only grow. */
  predicate Grows(vs: seq<EngineVar>, vs': seq<EngineVar>, tids: map<Term, nat>, tids': map<Term, nat>) {
    |vs| <= |vs'| && vs'[..|vs|] == vs &&
    (forall x :: x in tids ==> x in tids' && tids'[x] == tids[x])
  }

  lemma GrowsTrans(vs1: seq<EngineVar>, vs2: seq<EngineVar>, vs3: seq<EngineVar>,
                   t1: map<Term, nat>, t2: map<Term, nat>, t3: map<Term, nat>)
    requires Grows(vs1, vs2, t1, t2) && Grows(vs2, vs3, t2, t3)
    ensures Grows(vs1, vs3, t1, t3)
  {
    assert vs3[..|vs1|] == vs3[..|vs2|][..|vs1|];
  }

  /** Registering an unseen atom under the next id keeps the registry exact. */
  lemma RegisterFresh(M: Model, vs: seq<EngineVar>, tids: map<Term, nat>, x: Term)
    requires Registered(M, vs, tids) && x !in tids
    ensures Registered(M, vs + [EngineVar(Eval(M, x), IsInt(x))], tids[x := |vs|])
    ensures Grows(vs, vs + [EngineVar(Eval(M, x), IsInt(x))], tids, tids[x := |vs|])
  {
    var vs' := vs + [EngineVar(Eval(M, x), IsInt(x))];
    var tids' := tids[x := |vs|];
    forall y | y in tids' ensures Owner(tids', tids'[y]) == y {
      var z := Owner(tids', tids'[y]);
      if z != y {
        assert false;
      }
    }
    forall id | 0 <= id < |vs'| ensures id in tids'.Values {
      if id < |vs| {
        assert vs[id] == vs'[id];
        assert id in tids.Values;
        var y :| y in tids && tids[y] == id;
        assert tids'[y] == id;
      } else {
        assert tids'[x] == id;
      }
    }
    assert vs'[..|vs|] == vs;
  }

  predicate InRegistry(ts: Coeffs, tids: map<Term, nat>) {
    forall i :: 0 <= i < |ts| ==> ts[i].0 in tids
  }

  /** The row `extract_coefficients` builds: one entry per atom, zero coefficients dropped. */
  function ToVars(ts: Coeffs, tids: map<Term, nat>): (r: seq<Var>)
    requires InRegistry(ts, tids)
    ensures forall k :: 0 <= k < |r| ==> r[k].coeff != 0.0
    ensures |r| <= |ts|
  {
    if ts == [] then []
    else
      var n := |ts| - 1;
      ToVars(ts[..n], tids) + (if ts[n].1 != 0.0 then [Var(tids[ts[n].0], ts[n].1)] else [])
  }

  lemma {:induction false} ToVarsExtend(ts: Coeffs, tids: map<Term, nat>, tids': map<Term, nat>)
    requires InRegistry(ts, tids)
    requires forall x :: x in tids ==> x in tids' && tids'[x] == tids[x]
    ensures InRegistry(ts, tids') && ToVars(ts, tids') == ToVars(ts, tids)
  {
    if ts != [] {
      ToVarsExtend(ts[..|ts| - 1], tids, tids');
    }
  }

  lemma RegisteredValue(M: Model, vs: seq<EngineVar>, tids: map<Term, nat>, x: Term)
    requires Registered(M, vs, tids) && x in tids
    ensures tids[x] < |vs| && ValueOf(vs, tids[x]) == Eval(M, x)
  {
  }

  lemma ToVarsSnoc(ts: Coeffs, tids: map<Term, nat>)
    requires InRegistry(ts, tids) && ts != []
    ensures InRegistry(ts[..|ts| - 1], tids)
    ensures ToVars(ts, tids) == ToVars(ts[..|ts| - 1], tids) +
      (if ts[|ts| - 1].1 != 0.0 then [Var(tids[ts[|ts| - 1].0], ts[|ts| - 1].1)] else [])
  {
  }

  /** Every atom of `ts` has an id whose engine variable holds the atom's value in `M`. */
  predicate EntriesAgree(M: Model, ts: Coeffs, vs: seq<EngineVar>, tids: map<Term, nat>)
    requires InRegistry(ts, tids)
  {
    forall i :: 0 <= i < |ts| ==> tids[ts[i].0] < |vs| && vs[tids[ts[i].0]].value == Eval(M, ts[i].0)
  }

  lemma EntriesAgreePrefix(M: Model, ts: Coeffs, vs: seq<EngineVar>, tids: map<Term, nat>, n: nat)
    requires InRegistry(ts, tids) && EntriesAgree(M, ts, vs, tids) && n <= |ts|
    ensures InRegistry(ts[..n], tids) && EntriesAgree(M, ts[..n], vs, tids)
  {
    forall i | 0 <= i < n
      ensures ts[..n][i].0 in tids && tids[ts[..n][i].0] < |vs| && vs[tids[ts[..n][i].0]].value == Eval(M, ts[..n][i].0)
    {
      assert ts[..n][i] == ts[i];
    }
  }

  lemma {:induction false} EntriesRow(M: Model, ts: Coeffs, vs: seq<EngineVar>, tids: map<Term, nat>)
    requires InRegistry(ts, tids) && EntriesAgree(M, ts, vs, tids)
    ensures RowValue(ToVars(ts, tids), vs) == SumVal(M, ts)
    ensures Scoped(ToVars(ts, tids), vs)
  {
    if ts != [] {
      var n := |ts| - 1;
      EntriesAgreePrefix(M, ts, vs, tids, n);
      EntriesRow(M, ts[..n], vs, tids);
      EntriesRowStep(M, ts, vs, tids);
    }
  }

  /** The row of a map is the row of all but its last entry, extended by the last entry's variable. */
  lemma EntriesRowStep(M: Model, ts: Coeffs, vs: seq<EngineVar>, tids: map<Term, nat>)
    requires InRegistry(ts, tids) && EntriesAgree(M, ts, vs, tids) && ts != []
    requires InRegistry(ts[..|ts| - 1], tids)
    requires RowValue(ToVars(ts[..|ts| - 1], tids), vs) == SumVal(M, ts[..|ts| - 1])
    requires Scoped(ToVars(ts[..|ts| - 1], tids), vs)
    ensures RowValue(ToVars(ts, tids), vs) == SumVal(M, ts)
    ensures Scoped(ToVars(ts, tids), vs)
  {
    var n := |ts| - 1;
    var x, w := ts[n].0, ts[n].1;
    ToVarsSnoc(ts, tids);
    var pre := ToVars(ts[..n], tids);
    assert tids[x] < |vs| && ValueOf(vs, tids[x]) == Eval(M, x);
    SumValSnoc(M, ts);
    if w != 0.0 {
      EntryValue(pre, vs, tids[x], w, ToVars(ts, tids), SumVal(M, ts[..n]), SumVal(M, ts), Eval(M, x));
      assert Scoped(pre + [Var(tids[x], w)], vs);
    } else {
      assert ToVars(ts, tids) == pre;
    }
  }

  /** Appending a variable of value `e` with weight `w` adds `w * e` to the row. */
  lemma EntryValue(pre: seq<Var>, vs: seq<EngineVar>, id: nat, w: real, row: seq<Var>, s0: real, s: real, e: real)
    requires RowValue(pre, vs) == s0 && ValueOf(vs, id) == e
    requires row == pre + [Var(id, w)] && s == s0 + w * e
    ensures RowValue(row, vs) == s
  {
    RowValueSnoc(pre, Var(id, w), vs);
    AddEntry(RowValue(pre, vs), s0, w, ValueOf(vs, id), e, RowValue(row, vs), s);
  }

  /** Adding the same weighted value to two equal sums keeps them equal. */
  lemma AddEntry(r0: real, s0: real, w: real, v: real, e: real, r: real, s: real)
    requires r0 == s0 && v == e && r == r0 + w * v && s == s0 + w * e
    ensures r == s
  {
  }

  /**
   * Under an exact registry the row evaluates, at the engine's values, to the
   * value of the map under the model, and mentions only known variables.
   */
  lemma ToVarsValue(M: Model, ts: Coeffs, vs: seq<EngineVar>, tids: map<Term, nat>)
    requires Registered(M, vs, tids) && InRegistry(ts, tids)
    ensures RowValue(ToVars(ts, tids), vs) == SumVal(M, ts)
    ensures Scoped(ToVars(ts, tids), vs)
  {
    EntriesRow(M, ts, vs, tids);
  }

  /**
   * `extract_coefficients`: registers every atom of `ts` that has no id yet
   * (in the order of `ts`) and returns the row of its non-zero coefficients.
   */
  method ExtractCoefficients(eng: Engine, M: Model, ts: Coeffs, tids: map<Term, nat>)
    returns (coeffs: seq<Var>, tids': map<Term, nat>)
    requires Registered(M, eng.vars, tids)
    modifies eng
    ensures Registered(M, eng.vars, tids') && Grows(old(eng.vars), eng.vars, tids, tids')
    ensures eng.log == old(eng.log)
    ensures InRegistry(ts, tids') && coeffs == ToVars(ts, tids')
    ensures tids'.Keys == tids.Keys + KeySet(ts)
  {
    coeffs, tids' := [], tids;
    assert KeySet(ts[..0]) == {} && eng.vars[..|eng.vars|] == eng.vars;
    for i := 0 to |ts|
      invariant Extracted(M, old(eng.vars), tids, ts, i, eng.vars, tids', coeffs)
      invariant eng.log == old(eng.log)
    {
      coeffs, tids' := ExtractEntry(eng, M, ts, i, old(eng.vars), tids, coeffs, tids');
    }
    assert ts[..|ts|] == ts;
  }

  /**
   * The first `i` entries of `ts` are extracted: their atoms are registered
   * (and no others beyond `tids0`) and `coeffs` is their row.
   */
  ghost predicate Extracted(M: Model, vs0: seq<EngineVar>, tids0: map<Term, nat>, ts: Coeffs, i: nat,
                            vs: seq<EngineVar>, tids: map<Term, nat>, coeffs: seq<Var>)
    requires i <= |ts|
  {
    Registered(M, vs, tids) && Grows(vs0, vs, tids0, tids) &&
    InRegistry(ts[..i], tids) && coeffs == ToVars(ts[..i], tids) &&
    tids.Keys == tids0.Keys + KeySet(ts[..i])
  }

  /** One round of the loop of `extract_coefficients`: the entry `ts[i]`. */
  method ExtractEntry(eng: Engine, M: Model, ts: Coeffs, i: nat,
                      ghost vs0: seq<EngineVar>, ghost tids0: map<Term, nat>,
                      coeffs: seq<Var>, tids: map<Term, nat>)
    returns (coeffs': seq<Var>, tids': map<Term, nat>)
    requires i < |ts| && Extracted(M, vs0, tids0, ts, i, eng.vars, tids, coeffs)
    modifies eng
    ensures Extracted(M, vs0, tids0, ts, i + 1, eng.vars, tids', coeffs')
    ensures eng.log == old(eng.log)
  {
    var (x, w) := ts[i];
    ghost var vs1 := eng.vars;
    var id;
    id, tids' := IdOf(eng, M, x, tids);
    GrowsTrans(vs0, vs1, eng.vars, tids0, tids, tids');
    ToVarsExtend(ts[..i], tids, tids');
    coeffs' := if w != 0.0 then coeffs + [Var(id, w)] else coeffs;
    ExtractStep(ts, i, tids', coeffs, id, coeffs');
    KeySetSnoc(ts, i);
  }

  /** The id of `x`, registering `x` under the next id of the engine when it has none. */
  method IdOf(eng: Engine, M: Model, x: Term, tids: map<Term, nat>) returns (id: nat, tids': map<Term, nat>)
    requires Registered(M, eng.vars, tids)
    modifies eng
    ensures Registered(M, eng.vars, tids') && Grows(old(eng.vars), eng.vars, tids, tids')
    ensures eng.log == old(eng.log)
    ensures x in tids' && tids'[x] == id && tids'.Keys == tids.Keys + {x}
  {
    if x in tids {
      id, tids' := tids[x], tids;
      assert eng.vars[..|eng.vars|] == eng.vars;
    } else {
      RegisterFresh(M, eng.vars, tids, x);
      id := eng.AddVar(Eval(M, x), IsInt(x));
      tids' := tids[x := id];
    }
  }

  /** One round of that loop extends the row by the entry for `ts[i]`. */
  lemma ExtractStep(ts: Coeffs, i: nat, tids: map<Term, nat>, coeffs: seq<Var>, id: nat, coeffs': seq<Var>)
    requires i < |ts| && InRegistry(ts[..i], tids) && coeffs == ToVars(ts[..i], tids)
    requires ts[i].0 in tids && tids[ts[i].0] == id
    requires coeffs' == if ts[i].1 != 0.0 then coeffs + [Var(id, ts[i].1)] else coeffs
    ensures InRegistry(ts[..i + 1], tids) && coeffs' == ToVars(ts[..i + 1], tids)
  {
    var s := ts[..i + 1];
    assert s[..i] == ts[..i];
    assert InRegistry(s, tids) by {
      forall k | 0 <= k < |s| ensures s[k].0 in tids {
        if k < i {
          assert s[k] == ts[..i][k];
        }
      }
    }
    ToVarsSnoc(s, tids);
  }
}
