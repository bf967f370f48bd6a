/** Lowering preserves meaning: the lowered term runs as the source term does, call by value. */
module LoweringMeaning {
  import opened Options
  import opened CoreIr
  import opened Lowering
  import opened LoweringNulls
  import Decimal

  // ---- Direct evaluation of source terms -----------------------------------

  datatype Sv =
    | SInt(i: int)
    | SStr(s: string)
    | SUnit
    | SSym(name: Name)
    | SClo(param: SrcName, body: Term, env: SEnv)
    | SCon(name: Name, args: seq<Sv>)

  datatype SEnv = SEmpty | SBind(name: SrcName, val: Sv, next: SEnv)

  function SLookup(env: SEnv, x: SrcName): Option<Sv> {
    match env
    case SEmpty => None
    case SBind(y, v, next) => if y == x then Some(v) else SLookup(next, x)
  }

  function STruthy(v: Sv): bool {
    match v
    case SInt(i) => i != 0
    case SSym(name) => name != "false"
    case SUnit => false
    case _ => true
  }

  /**
    Call-by-value evaluation: the function first, then the arguments left to right. Only a closure call spends fuel.
   */
  function EvalT(t: Term, env: SEnv, fuel: nat): Option<Sv>
    decreases fuel, t, 1
  {
    match t
    case IntT(i) => Some(SInt(i))
    case StrT(s) => Some(SStr(s))
    case RefT(x) => (match SLookup(env, x) case Some(v) => Some(v) case None => Some(SSym(x)))
    case LamT(param, body) => Some(SClo(param, body, env))
    case ConT(name, args) =>
      if name == "()" && args == [] then Some(SUnit)
      else
        var vs := EvalTs(args, env, fuel);
        if vs.None? then None else Some(SCon(name, vs.value))
    case LetsT(body, binds) =>
      var env' := EvalBinds(binds, env, fuel);
      if env'.None? then None else EvalT(body, env'.value, fuel)
    case AppT(func, args) =>
      if IsConditional(t) then
        var c := EvalT(args[0], env, fuel);
        if c.None? then None else EvalT(if STruthy(c.value) then args[1] else args[2], env, fuel)
      else
        var f := EvalT(func, env, fuel);
        if f.None? then None
        else
          var xs := EvalTs(args, env, fuel);
          if xs.None? then None
          else if !f.value.SClo? || |xs.value| != 1 then Some(SUnit)
          else if fuel == 0 then None
          else EvalT(f.value.body, SBind(f.value.param, xs.value[0], f.value.env), fuel - 1)
  }

  function EvalTs(ts: seq<Term>, env: SEnv, fuel: nat): (r: Option<seq<Sv>>)
    ensures r.Some? ==> |r.value| == |ts|
    decreases fuel, ts, 0
  {
    if ts == [] then Some([])
    else
      var vs := EvalTs(ts[..|ts| - 1], env, fuel);
      if vs.None? then None
      else
        var v := EvalT(ts[|ts| - 1], env, fuel);
        if v.None? then None else Some(vs.value + [v.value])
  }

  /** Each binding sees the ones before it. */
  function EvalBinds(bs: seq<Binding>, env: SEnv, fuel: nat): Option<SEnv>
    decreases fuel, bs, 0
  {
    if bs == [] then Some(env)
    else
      var env' := EvalBinds(bs[..|bs| - 1], env, fuel);
      if env'.None? then None
      else
        var b := bs[|bs| - 1];
        assert b.rhs < b;
        var v := EvalT(b.rhs, env'.value, fuel);
        if v.None? then None else Some(SBind(b.x, v.value, env'.value))
  }

  // ---- What the two evaluations have to do with each other ----------------

  ghost predicate IsLowering(e: Expr, t: Term) {
    exists n: nat :: LowerExpr(t, n).0 == e
  }

  /** Equal values, closures being related to closures over the lowered body. */
  ghost predicate RelV(s: Sv, r: Rv)
    decreases r
  {
    match s
    case SInt(i) => r == RInt(i)
    case SStr(t) => r == RStr(t)
    case SUnit => r == RUnit
    case SSym(name) => r == RSym(name)
    case SClo(p, body, env) => r.RLam? && r.param == p && Lowerable(body) && IsLowering(r.body, body) &&
      RelE(env, r.env)
    case SCon(name, args) =>
      r.RCon? && r.name == name && |r.args| == |args| && forall i :: 0 <= i < |args| ==> RelV(args[i], r.args[i])
  }

  /** Equal environments once the bindings of generated names are dropped. */
  ghost predicate RelE(s: SEnv, r: Env)
    decreases r
  {
    if r.Bind? && '$' in r.name then RelE(s, r.next)
    else match s
      case SEmpty => r.Empty?
      case SBind(x, v, next) => r.Bind? && r.name == x && RelV(v, r.val) && RelE(next, r.next)
  }

  ghost predicate RelO(s: Option<Sv>, r: Option<Rv>) {
    (s.Some? <==> r.Some?) && (s.Some? ==> RelV(s.value, r.value))
  }

  lemma {:induction false} LookupRelated(s: SEnv, r: Env, x: SrcName)
    requires RelE(s, r)
    ensures RelO(SLookup(s, x), Lookup(r, x))
    decreases r
  {
    if r.Bind? && '$' in r.name {
      LookupRelated(s, r.next, x);
    } else if s.SBind? {
      LookupRelated(s.next, r.next, x);
    }
  }

  lemma {:induction false} TruthyRelated(s: Sv, r: Rv)
    requires RelV(s, r)
    ensures STruthy(s) == Truthy(r)
  {
  }

  lemma {:induction false} GensymDollar(prefix: string, n: nat)
    requires '$' in prefix
    ensures '$' in Gensym(prefix, n)
  {
    var i :| 0 <= i < |prefix| && prefix[i] == '$';
    assert Gensym(prefix, n)[i] == '$';
  }

  // ---- Generated names are distinct ----------------------------------------

  lemma {:induction false} GensymInjective(m: nat, n: nat)
    requires Gensym("a$", m) == Gensym("a$", n)
    ensures m == n
  {
    assert Gensym("a$", m)[2..] == Decimal.Digits(m) && Gensym("a$", n)[2..] == Decimal.Digits(n);
    Decimal.DigitsInjective(m, n);
  }

  /** The names of the operands of one application. */
  ghost predicate Fresh(os: seq<Operand>, n: nat) {
    && (forall i :: 0 <= i < |os| && os[i].Named? ==> exists k: nat :: k <= n && os[i].x == Gensym("a$", k))
    && (forall i, j :: 0 <= i < j < |os| && os[i].Named? && os[j].Named? ==> os[i].x != os[j].x)
  }

  lemma {:induction false} OperandsFresh(ts: seq<Term>, n: nat)
    ensures Fresh(LowerOperands(ts, n).0, LowerOperands(ts, n).1)
    decreases ts
  {
    if ts == [] {
    } else {
      var l := |ts| - 1;
      OperandsFresh(ts[..l], n);
      var (os, n1) := LowerOperands(ts[..l], n);
      var (o, n2) := LowerOperand(ts[l], "a$", n1);
      forall i | 0 <= i < l && os[i].Named?
        ensures exists k: nat :: k <= n2 && os[i].x == Gensym("a$", k)
        ensures o.Named? ==> os[i].x != o.x
      {
        var k: nat :| k <= n1 && os[i].x == Gensym("a$", k);
        if o.Named? && os[i].x == o.x {
          GensymInjective(k, n2);
        }
      }
    }
  }

  /** No operand of an application has the name its function was given. */
  /** Each named operand is bound to what its term means. */
  ghost predicate Bound(os: seq<Operand>, ds: seq<Sv>, r: Env)
    requires |os| == |ds|
  {
    forall i :: 0 <= i < |os| && os[i].Named? ==> RelO(Some(ds[i]), Lookup(r, os[i].x))
  }

  /** The two environments agree on all names but those of the operands. */
  ghost predicate SameElsewhere(os: seq<Operand>, r: Env, r2: Env) {
    forall x :: (forall i :: 0 <= i < |os| && os[i].Named? ==> os[i].x != x) ==> Lookup(r2, x) == Lookup(r, x)
  }

  lemma {:induction false} NoneBound(os: seq<Operand>, r: Env)
    requires os == []
    ensures Bound(os, [], r) && SameElsewhere(os, r, r)
  {
  }

  lemma {:induction false} FreshPrefix(os: seq<Operand>, n: nat)
    requires os != [] && Fresh(os, n)
    ensures Fresh(os[..|os| - 1], n)
  {
    hide Gensym;
  }

  lemma {:induction false} BoundStep(os: seq<Operand>, n: nat, ds: seq<Sv>, r: Env, r2: Env)
    requires |os| == |ds| && os != [] && Fresh(os, n)
    requires Bound(os[..|os| - 1], ds[..|os| - 1], r)
    requires var o := os[|os| - 1];
      && (o.Named? ==> RelO(Some(ds[|os| - 1]), Lookup(r2, o.x)))
      && (forall x :: o.Ready? || x != o.x ==> Lookup(r2, x) == Lookup(r, x))
    ensures Bound(os, ds, r2)
  {
    hide Lookup, RelO, Gensym;
    var l := |os| - 1;
    forall i | 0 <= i < l && os[i].Named?
      ensures RelO(Some(ds[i]), Lookup(r2, os[i].x))
    {
      assert os[..l][i] == os[i] && ds[..l][i] == ds[i];
    }
  }

  lemma {:induction false} SameStep(os: seq<Operand>, r: Env, r1: Env, r2: Env)
    requires os != [] && SameElsewhere(os[..|os| - 1], r, r1)
    requires var o := os[|os| - 1]; forall x :: o.Ready? || x != o.x ==> Lookup(r2, x) == Lookup(r1, x)
    ensures SameElsewhere(os, r, r2)
  {
    hide Lookup;
    var init := os[..|os| - 1];
    forall x | forall i :: 0 <= i < |os| && os[i].Named? ==> os[i].x != x
      ensures Lookup(r2, x) == Lookup(r, x)
    {
      assert forall i :: 0 <= i < |init| && init[i].Named? ==> init[i].x != x;
    }
  }

  lemma {:induction false} FunctionNameFresh(os: seq<Operand>, n: nat, k: nat, i: nat)
    requires Fresh(os, n) && i < |os| && os[i].Named?
    ensures os[i].x != Gensym("f$", k) && '$' in os[i].x
  {
    var j: nat :| j <= n && os[i].x == Gensym("a$", j);
    GensymDollar("a$", j);
    assert os[i].x[0] == 'a' && Gensym("f$", k)[0] == 'f';
  }

  // ---- Values --------------------------------------------------------------

  /** A term that is a value evaluates, without a call, to what its lowering evaluates to. */
  lemma {:induction false} ValueCorrect(t: Term, n: nat, s: SEnv, r: Env, fuel: nat)
    requires Lowerable(t) && RelE(s, r) && LowerValue(t, n).0.Some?
    ensures RelO(EvalT(t, s, fuel), Some(EvalValue(LowerValue(t, n).0.value, r)))
    decreases t, 1
  {
    match t
    case RefT(x) => LookupRelated(s, r, x);
    case LamT(param, body) => assert IsLowering(LowerExpr(body, n).0, body);
    case ConT(name, args) => ValuesCorrect(args, n, s, r, fuel);
    case _ =>
  }

  lemma {:induction false} ValuesCorrect(ts: seq<Term>, n: nat, s: SEnv, r: Env, fuel: nat)
    requires (forall i :: 0 <= i < |ts| ==> Lowerable(ts[i])) && RelE(s, r) && LowerValues(ts, n).0.Some?
    ensures EvalTs(ts, s, fuel).Some?
    ensures forall i :: 0 <= i < |ts| ==>
      RelV(EvalTs(ts, s, fuel).value[i], EvalValue(LowerValues(ts, n).0.value[i], r))
    decreases ts, 0
  {
    if ts == [] {
    } else {
      var l := |ts| - 1;
      ValuesCorrect(ts[..l], n, s, r, fuel);
      ValueCorrect(ts[l], LowerValues(ts[..l], n).1, s, r, fuel);
    }
  }

  /** An operand stands for its term once its name, if it has one, is bound to a related value. */
  lemma {:induction false} OperandCorrect(t: Term, prefix: string, n: nat, s: SEnv, r: Env, fuel: nat)
    requires Lowerable(t) && RelE(s, r)
    ensures var o := LowerOperand(t, prefix, n).0;
      && (o.Ready? ==> RelO(EvalT(t, s, fuel), Some(EvalValue(OperandVal(o), r))))
      && (o.Named? && RelO(EvalT(t, s, fuel), Lookup(r, o.x)) && EvalT(t, s, fuel).Some? ==>
            RelO(EvalT(t, s, fuel), Some(EvalValue(OperandVal(o), r))))
  {
    if LowerValue(t, n).0.Some? {
      ValueCorrect(t, n, s, r, fuel);
    }
  }

  /** The operands of an application in order, each from the counter the ones before it left. */
  lemma {:induction false} OperandsCorrect(ts: seq<Term>, n: nat, s: SEnv, r: Env, fuel: nat, i: nat)
    requires i < |ts| && Lowerable(ts[i]) && RelE(s, r) && EvalTs(ts, s, fuel).Some?
    ensures var o := LowerOperands(ts, n).0[i];
      && (o.Ready? ==> RelV(EvalTs(ts, s, fuel).value[i], EvalValue(OperandVal(o), r)))
      && (o.Named? && Lookup(r, o.x).Some? && RelV(EvalTs(ts, s, fuel).value[i], Lookup(r, o.x).value) ==>
            RelV(EvalTs(ts, s, fuel).value[i], EvalValue(OperandVal(o), r)))
    decreases ts
  {
    var l := |ts| - 1;
    if i < l {
      OperandsCorrect(ts[..l], n, s, r, fuel, i);
    } else {
      OperandCorrect(ts[l], "a$", LowerOperands(ts[..l], n).1, s, r, fuel);
    }
  }

  lemma {:induction false} ReadyTerminates(ts: seq<Term>, n: nat, s: SEnv, r: Env, fuel: nat, i: nat)
    requires i < |ts| && Lowerable(ts[i]) && RelE(s, r) && LowerOperands(ts, n).0[i].Ready?
    ensures EvalT(ts[i], s, fuel).Some?
    decreases ts
  {
    var l := |ts| - 1;
    if i < l {
      ReadyTerminates(ts[..l], n, s, r, fuel, i);
    } else {
      OperandCorrect(ts[l], "a$", LowerOperands(ts[..l], n).1, s, r, fuel);
    }
  }

  // ---- The main induction --------------------------------------------------

  lemma {:induction false} NotNull(t: Term, n: nat)
    requires Lowerable(t)
    ensures !LowerExpr(t, n).0.Null?
  {
    ExprWhole(t, n);
  }

  /** The `let` around an application that names one operand: `r2` and `tok2` are what the rest runs in. */
  lemma {:induction false} LetCorrect(m: Mode, t: Term, o: Operand, core: Expr, n: nat, s: SEnv, r: Env, tok: bool,
                                      fuel: nat)
    returns (r2: Env, tok2: bool)
    requires Lowerable(t) && RelE(s, r) && (o.Named? ==> '$' in o.x)
    ensures var e, d := LetOperand(t, o, core, n).0, EvalT(t, s, fuel);
      if o.Named? && d.None? then Eval(m, e, r, tok, fuel).val.None?
      else RelE(s, r2) && Eval(m, e, r, tok, fuel).val == Eval(m, core, r2, tok2, fuel).val
    ensures o.Ready? ==> r2 == r
    ensures o.Named? && EvalT(t, s, fuel).Some? ==> RelO(EvalT(t, s, fuel), Lookup(r2, o.x))
    ensures forall x :: o.Ready? || x != o.x ==> Lookup(r2, x) == Lookup(r, x)
    decreases fuel, t, 3
  {
    hide Eval, LowerExpr, EvalT, RelV;
    r2, tok2 := r, tok;
    if o.Named? {
      LowerCorrect(m, t, n, s, r, tok, fuel);
      var e := LowerExpr(t, n).0;
      var v := Eval(m, e, r, tok, fuel).val;
      LetRuns(m, o.x, e, core, r, tok, fuel);
      if v.Some? {
        r2, tok2 := Bind(o.x, v.value, r), tok || e.Token?;
      }
    }
  }

  lemma {:induction false} LetRuns(m: Mode, x: Name, e: Expr, core: Expr, r: Env, tok: bool, fuel: nat)
    ensures var v := Eval(m, e, r, tok, fuel).val;
      Eval(m, Let(x, e, core), r, tok, fuel).val ==
      if v.None? then None else Eval(m, core, Bind(x, v.value, r), tok || e.Token?, fuel).val
  {
  }

  /** The `let`s of all operands: afterwards each generated name is bound to the value of its operand. */
  lemma {:induction false} LetsCorrect(m: Mode, ts: seq<Term>, os: seq<Operand>, core: Expr, n: nat, k: nat, s: SEnv,
                                       r: Env, tok: bool, fuel: nat)
    returns (r2: Env, tok2: bool)
    requires |ts| == |os| && Fresh(os, k) && RelE(s, r)
    requires forall i :: 0 <= i < |ts| ==> Lowerable(ts[i]) && (os[i].Ready? ==> EvalT(ts[i], s, fuel).Some?)
    ensures var e, ds := LetOperands(ts, os, core, n).0, EvalTs(ts, s, fuel);
      if ds.None? then Eval(m, e, r, tok, fuel).val.None?
      else RelE(s, r2) && Eval(m, e, r, tok, fuel).val == Eval(m, core, r2, tok2, fuel).val
    ensures EvalTs(ts, s, fuel).Some? ==> Bound(os, EvalTs(ts, s, fuel).value, r2)
    ensures SameElsewhere(os, r, r2)
    decreases fuel, ts, 0
  {
    hide Eval, LowerExpr, EvalT, RelV, RelE, RelO, LetOperand, Lookup, Lowerable, Bound, SameElsewhere, Fresh;
    r2, tok2 := r, tok;
    if ts == [] {
      NoneBound(os, r);
    } else {
      var l := |ts| - 1;
      var (core', n') := LetOperand(ts[l], os[l], core, n);
      FreshPrefix(os, k);
      var r1, tok1 := LetsCorrect(m, ts[..l], os[..l], core', n', k, s, r, tok, fuel);
      r2, tok2 := r1, tok1;
      if EvalTs(ts[..l], s, fuel).Some? {
        if os[l].Named? {
          FunctionNameFresh(os, k, 0, l);
        }
        r2, tok2 := LetCorrect(m, ts[l], os[l], core, n, s, r1, tok1, fuel);
        if EvalTs(ts, s, fuel).Some? {
          BoundStep(os, k, EvalTs(ts, s, fuel).value, r1, r2);
        }
      }
      SameStep(os, r, r1, r2);
    }
  }

  lemma {:induction false} BindingsCorrect(m: Mode, bs: seq<Binding>, body: Expr, n: nat, s: SEnv, r: Env, tok: bool,
                                           fuel: nat)
    returns (r2: Env, tok2: bool)
    requires (forall i :: 0 <= i < |bs| ==> Lowerable(bs[i].rhs)) && !body.Null? && RelE(s, r)
    ensures var e, se := LowerBindings(bs, body, n).0, EvalBinds(bs, s, fuel);
      if se.None? then Eval(m, e, r, tok, fuel).val.None?
      else RelE(se.value, r2) && Eval(m, e, r, tok, fuel).val == Eval(m, body, r2, tok2, fuel).val
    decreases fuel, bs, 0
  {
    hide Eval, LowerExpr, EvalT, RelV, Lookup, Lowerable;
    r2, tok2 := r, tok;
    if bs == [] {
    } else {
      var l := |bs| - 1;
      var b := bs[l];
      assert b.rhs < b;
      var (rhs, n') := LowerExpr(b.rhs, n);
      NotNull(b.rhs, n);
      var r1, tok1 := BindingsCorrect(m, bs[..l], Let(b.x, rhs, body), n', s, r, tok, fuel);
      r2, tok2 := r1, tok1;
      var se := EvalBinds(bs[..l], s, fuel);
      if se.Some? {
        LowerCorrect(m, b.rhs, n, se.value, r1, tok1, fuel);
        LetRuns(m, b.x, rhs, body, r1, tok1, fuel);
        var v := Eval(m, rhs, r1, tok1, fuel).val;
        if v.Some? {
          r2, tok2 := Bind(b.x, v.value, r1), tok1 || rhs.Token?;
        }
      }
    }
  }

  /** Applying related functions to related arguments. */
  lemma {:induction false} CallCorrect(m: Mode, t: Term, f: Sv, xs: seq<Sv>, func: Val, args: seq<Val>, r: Env,
                                       tok: bool, fuel: nat)
    requires |args| == |xs| && RelV(f, EvalValue(func, r))
    requires forall i :: 0 <= i < |xs| ==> RelV(xs[i], EvalValue(args[i], r))
    ensures RelO(if !f.SClo? || |xs| != 1 then Some(SUnit)
                 else if fuel == 0 then None
                 else EvalT(f.body, SBind(f.param, xs[0], f.env), fuel - 1),
                 Eval(m, App(func, args), r, tok, fuel).val)
    decreases fuel, t, 0
  {
    hide EvalT, EvalTs, EvalValue, LowerExpr, Lowerable;
    var g := EvalValue(func, r);
    assert |EvalValues(args, r)| == |args| && (|args| == 1 ==> EvalValues(args, r)[0] == EvalValue(args[0], r));
    if f.SClo? && |xs| == 1 && fuel > 0 {
      var n: nat :| LowerExpr(f.body, n).0 == g.body;
      LowerCorrect(m, f.body, n, SBind(f.param, xs[0], f.env), Bind(g.param, EvalValue(args[0], r), g.env), tok,
        fuel - 1);
    }
  }

  lemma {:induction false} ConditionalCorrect(m: Mode, t: Term, n: nat, s: SEnv, r: Env, tok: bool, fuel: nat)
    requires Lowerable(t) && RelE(s, r) && IsConditional(t)
    ensures RelO(EvalT(t, s, fuel), Eval(m, LowerExpr(t, n).0, r, tok, fuel).val)
    decreases fuel, t, 1
  {
    hide RelV, RelE, LetOperand, LowerOperand, Lookup, EvalValue;
    var cond := t.args[0];
    var (c, n1) := LowerOperand(cond, "c$", n);
    var (thenE, n2) := LowerExpr(t.args[1], n1);
    var (elseE, n3) := LowerExpr(t.args[2], n2);
    var core := If(OperandVal(c), thenE, elseE);
    if c.Named? {
      GensymDollar("c$", n1);
    }
    OperandCorrect(cond, "c$", n, s, r, fuel);
    var r2, tok2 := LetCorrect(m, cond, c, core, n3, s, r, tok, fuel);
    var d := EvalT(cond, s, fuel);
    if d.Some? {
      OperandCorrect(cond, "c$", n, s, r2, fuel);
      TruthyRelated(d.value, EvalValue(OperandVal(c), r2));
      LowerCorrect(m, t.args[1], n1, s, r2, tok2, fuel);
      LowerCorrect(m, t.args[2], n2, s, r2, tok2, fuel);
    }
  }

  lemma {:induction false} ApplicationCorrect(m: Mode, t: Term, n: nat, s: SEnv, r: Env, tok: bool, fuel: nat)
    requires Lowerable(t) && RelE(s, r) && t.AppT? && !IsConditional(t)
    ensures RelO(EvalT(t, s, fuel), Eval(m, LowerExpr(t, n).0, r, tok, fuel).val)
    decreases fuel, t, 1
  {
    hide RelV, RelE, LetOperand, LetOperands, LowerOperand, LowerOperands, Lookup, EvalValue, EvalTs, Eval, Bound,
      SameElsewhere;
    var func, args := t.func, t.args;
    var (os, n1) := LowerOperands(args, n);
    OperandsFresh(args, n);
    var (f, n2) := LowerOperand(func, "f$", n1);
    var app := App(OperandVal(f), OperandVals(os));
    var (core, n3) := LetOperands(args, os, app, n2);
    if f.Named? {
      GensymDollar("f$", n2);
    }
    OperandCorrect(func, "f$", n1, s, r, fuel);
    var r1, tok1 := LetCorrect(m, func, f, core, n3, s, r, tok, fuel);
    var fv := EvalT(func, s, fuel);
    if fv.Some? {
      forall i | 0 <= i < |args| && os[i].Ready?
        ensures EvalT(args[i], s, fuel).Some?
      {
        ReadyTerminates(args, n, s, r1, fuel, i);
      }
      var r2, tok2 := LetsCorrect(m, args, os, app, n2, n1, s, r1, tok1, fuel);
      if EvalTs(args, s, fuel).Some? {
        OperandsMeet(func, args, n, s, r1, r2, fuel);
        CallCorrect(m, t, fv.value, EvalTs(args, s, fuel).value, OperandVal(f), OperandVals(os), r2, tok2, fuel);
      }
    }
  }

  /** Inside all the `let`s every operand evaluates to the value of its term. */
  lemma {:induction false} OperandsMeet(func: Term, args: seq<Term>, n: nat, s: SEnv, r1: Env, r2: Env, fuel: nat)
    requires Lowerable(func) && (forall i :: 0 <= i < |args| ==> Lowerable(args[i])) && RelE(s, r2)
    requires EvalT(func, s, fuel).Some? && EvalTs(args, s, fuel).Some?
    requires var (f, _) := LowerOperand(func, "f$", LowerOperands(args, n).1);
      f.Named? ==> RelO(EvalT(func, s, fuel), Lookup(r1, f.x))
    requires var os := LowerOperands(args, n).0; Bound(os, EvalTs(args, s, fuel).value, r2) && SameElsewhere(os, r1, r2)
    ensures var (f, _) := LowerOperand(func, "f$", LowerOperands(args, n).1);
      RelV(EvalT(func, s, fuel).value, EvalValue(OperandVal(f), r2))
    ensures var os := LowerOperands(args, n).0;
      forall i :: 0 <= i < |args| ==> RelV(EvalTs(args, s, fuel).value[i], EvalValue(OperandVals(os)[i], r2))
  {
    hide RelV, RelE, LowerOperand, LowerOperands, Lookup, EvalValue, EvalTs, EvalT;
    var (os, n1) := LowerOperands(args, n);
    var (f, n2) := LowerOperand(func, "f$", n1);
    OperandsFresh(args, n);
    OperandCorrect(func, "f$", n1, s, r2, fuel);
    if f.Named? {
      forall i | 0 <= i < |os| && os[i].Named?
        ensures os[i].x != f.x
      {
        FunctionNameFresh(os, n1, n2, i);
      }
    }
    forall i | 0 <= i < |args|
      ensures RelV(EvalTs(args, s, fuel).value[i], EvalValue(OperandVals(os)[i], r2))
    {
      OperandsCorrect(args, n, s, r2, fuel, i);
    }
  }

  /**
    Lowering preserves meaning. In related environments the lowered term and the source term need the same calls: with
    the same fuel both run out of it, or both finish with related values.
   */
  lemma {:induction false} LowerCorrect(m: Mode, t: Term, n: nat, s: SEnv, r: Env, tok: bool, fuel: nat)
    requires Lowerable(t) && RelE(s, r)
    ensures RelO(EvalT(t, s, fuel), Eval(m, LowerExpr(t, n).0, r, tok, fuel).val)
    decreases fuel, t, 2
  {
    hide RelV, RelE, LowerValue, LowerOperand, LowerOperands, LowerBindings, EvalTs, EvalBinds;
    if IsConditional(t) {
      ConditionalCorrect(m, t, n, s, r, tok, fuel);
    } else {
      match t
      case AppT(_, _) => ApplicationCorrect(m, t, n, s, r, tok, fuel);
      case LetsT(body, binds) =>
        var (e, n1) := LowerExpr(body, n);
        NotNull(body, n);
        var r2, tok2 := BindingsCorrect(m, binds, e, n1, s, r, tok, fuel);
        if EvalBinds(binds, s, fuel).Some? {
          LowerCorrect(m, body, n, EvalBinds(binds, s, fuel).value, r2, tok2, fuel);
        }
      case _ =>
        ValueIsValue(t, n);
        ValueCorrect(t, n, s, r, fuel);
    }
  }

  lemma {:induction false} ValueIsValue(t: Term, n: nat)
    requires Lowerable(t) && !t.AppT? && !t.LetsT?
    ensures LowerValue(t, n).0.Some? && LowerExpr(t, n).0 == Value(LowerValue(t, n).0.value)
  {
    ValueWhole(t, n);
  }

  /** A whole program, from the empty environment, by either evaluator. */
  lemma {:induction false} ProgramCorrect(m: Mode, t: Term, n: nat, fuel: nat)
    requires Lowerable(t)
    ensures RelO(EvalT(t, SEmpty, fuel), Eval(m, LowerExpr(t, n).0, Empty, false, fuel).val)
  {
    LowerCorrect(m, t, n, SEmpty, Empty, false, fuel);
  }

  /** The source term `ifthenelse 1 (Box (f 1)) 0`, in which nothing binds `f`. */
  const LOST_CALL: Term := AppT(RefT("f"), [IntT(1)])
  const LOST_BOX: Term := ConT("Box", [LOST_CALL])
  const LOST: Term := AppT(RefT("ifthenelse"), [IntT(1), LOST_BOX, IntT(0)])

  /** A constructor argument that is no value is lost: the lowered program gives unit instead of the constructor. */
  lemma {:induction false} LostConstructor(n: nat, fuel: nat)
    ensures !Lowerable(LOST) && EvalT(LOST, SEmpty, fuel) == Some(SCon("Box", [SUnit]))
    ensures Eval(Runtime, LowerExpr(LOST, n).0, Empty, false, fuel).val == Some(RUnit)
  {
    assert !Lowerable(LOST_BOX) by {
      assert !ValueForm(LOST_CALL) && LOST_BOX.args[0] == LOST_CALL;
    }
    assert LOST.args[1] == LOST_BOX;
    LostCall(n, fuel);
    assert EvalT(LOST, SEmpty, fuel) == EvalT(LOST_BOX, SEmpty, fuel);
  }

  lemma {:induction false} EvalOne(ts: seq<Term>, fuel: nat)
    requires |ts| == 1 && EvalT(ts[0], SEmpty, fuel).Some?
    ensures EvalTs(ts, SEmpty, fuel) == Some([EvalT(ts[0], SEmpty, fuel).value])
  {
    assert EvalTs(ts[..|ts| - 1], SEmpty, fuel) == Some([]);
    assert EvalTs(ts, SEmpty, fuel).value == [EvalT(ts[0], SEmpty, fuel).value];
  }

  lemma {:induction false} LostCall(n: nat, fuel: nat)
    ensures EvalT(LOST_BOX, SEmpty, fuel) == Some(SCon("Box", [SUnit])) && LowerExpr(LOST_BOX, n).0 == Null
  {
    var ts, ones := [LOST_CALL], [IntT(1)];
    EvalOne(ones, fuel);
    assert EvalT(LOST_CALL, SEmpty, fuel) == Some(SUnit);
    EvalOne(ts, fuel);
    assert ts[..0] == [];
    assert LowerValues([], n).0 == Some([]);
    assert LowerValues(ts, n).0.None?;
  }
}
