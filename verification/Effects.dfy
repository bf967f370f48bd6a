/** The effect validator, and why no effect happens without a token once it reports no error. */
module Effects {
  import opened Options
  import opened CoreIr

  /**
    What the validator looks into besides lambdas: namespace literals (the runtime's validator), nothing (the clean
    one), or constructor arguments (neither does).
   */
  datatype Visits = Visits(ns: bool, con: bool)

  const RUNTIME := Visits(true, false)
  const CLEAN := Visits(false, false)
  /** The clean validator, if it looked into constructors. */
  const THOROUGH := Visits(false, true)

  /** The number of errors in a value. A lambda body is checked with no token. */
  function ValErrors(vis: Visits, v: Val): nat {
    match v
    case LamV(_, body) => Errors(vis, body, false)
    case NsV(_, vals) => if vis.ns then SumErrors(vis, vals) else 0
    case ConV(_, args) => if vis.con then SumErrors(vis, args) else 0
    case _ => 0
  }

  function SumErrors(vis: Visits, vs: seq<Val>): nat {
    if vs == [] then 0 else SumErrors(vis, vs[..|vs| - 1]) + ValErrors(vis, vs[|vs| - 1])
  }

  function CaseErrors(vis: Visits, cs: seq<Case>, tok: bool): nat {
    if cs == [] then 0
    else
      var c := cs[|cs| - 1];
      assert c.body < c;
      CaseErrors(vis, cs[..|cs| - 1], tok) + Errors(vis, c.body, tok)
  }

  function Errors(vis: Visits, e: Expr, tok: bool): nat {
    match e
    case Null => 0
    case Value(v) => ValErrors(vis, v)
    case Let(_, bind, body) => Errors(vis, bind, tok) + Errors(vis, body, tok || bind.Token?)
    case App(func, args) => ValErrors(vis, func) + SumErrors(vis, args)
    case If(cond, thenE, elseE) => ValErrors(vis, cond) + Errors(vis, thenE, tok) + Errors(vis, elseE, tok)
    case Match(scrut, cases) => ValErrors(vis, scrut) + CaseErrors(vis, cases, tok)
    case EffApp(func, token, args) =>
      (if tok then 0 else 1) + ValErrors(vis, func) + (if token.VarV? then 0 else 1) + SumErrors(vis, args)
    case Token => 0
  }

  lemma {:induction false} SumErrorsZero(vis: Visits, vs: seq<Val>, i: nat)
    requires SumErrors(vis, vs) == 0 && i < |vs|
    ensures ValErrors(vis, vs[i]) == 0
  {
    var l := |vs| - 1;
    if i == l {
    } else {
      SumErrorsZero(vis, vs[..l], i);
      assert vs[..l][i] == vs[i];
    }
  }

  lemma {:induction false} CaseErrorsZero(vis: Visits, cs: seq<Case>, tok: bool, i: nat)
    requires CaseErrors(vis, cs, tok) == 0 && i < |cs|
    ensures Errors(vis, cs[i].body, tok) == 0
  {
    var l := |cs| - 1;
    if i == l {
    } else {
      CaseErrorsZero(vis, cs[..l], tok, i);
      assert cs[..l][i] == cs[i];
    }
  }

  // ---- The validators as they run ------------------------------------------

  method ValidateVal(vis: Visits, v: Val) returns (errs: nat)
    ensures errs == ValErrors(vis, v)
    decreases v, 0
  {
    errs := 0;
    match v {
      case LamV(_, body) => errs := ValidateExpr(vis, body, false);
      case NsV(_, vals) =>
        if vis.ns {
          errs := ValidateAll(vis, vals);
        }
      case ConV(_, args) =>
        if vis.con {
          errs := ValidateAll(vis, args);
        }
      case _ =>
    }
  }

  method ValidateAll(vis: Visits, vs: seq<Val>) returns (errs: nat)
    ensures errs == SumErrors(vis, vs)
    decreases vs, 1
  {
    errs := 0;
    for i := 0 to |vs|
      invariant errs == SumErrors(vis, vs[..i])
    {
      var n := ValidateVal(vis, vs[i]);
      assert vs[..i + 1][..i] == vs[..i];
      errs := errs + n;
    }
    assert vs[..|vs|] == vs;
  }

  method ValidateExpr(vis: Visits, e: Expr, hasToken: bool) returns (errs: nat)
    ensures errs == Errors(vis, e, hasToken)
    decreases e, 0
  {
    errs := 0;
    match e {
      case Null =>
      case Value(v) => errs := ValidateVal(vis, v);
      case Let(_, bind, body) =>
        var n := ValidateExpr(vis, bind, hasToken);
        errs := ValidateExpr(vis, body, hasToken || bind.Token?);
        errs := n + errs;
      case App(func, args) =>
        var n := ValidateVal(vis, func);
        errs := ValidateAll(vis, args);
        errs := n + errs;
      case If(cond, thenE, elseE) =>
        var n := ValidateVal(vis, cond);
        var t := ValidateExpr(vis, thenE, hasToken);
        errs := ValidateExpr(vis, elseE, hasToken);
        errs := n + t + errs;
      case Match(scrut, cases) =>
        errs := ValidateVal(vis, scrut);
        for i := 0 to |cases|
          invariant errs == ValErrors(vis, scrut) + CaseErrors(vis, cases[..i], hasToken)
        {
          var n := ValidateExpr(vis, cases[i].body, hasToken);
          assert cases[..i + 1][..i] == cases[..i];
          errs := errs + n;
        }
        assert cases[..|cases|] == cases;
      case EffApp(func, token, args) =>
        if !hasToken {
          errs := errs + 1;
        }
        var n := ValidateVal(vis, func);
        errs := errs + n;
        if !token.VarV? {
          errs := errs + 1;
        }
        n := ValidateAll(vis, args);
        errs := errs + n;
      case Token =>
    }
  }

  // ---- Soundness -----------------------------------------------------------

  /** Every effect application was reached with a token in scope, and names its token by a variable. */
  ghost predicate Authorized(trace: seq<Event>) {
    forall i :: 0 <= i < |trace| ==> trace[i].hasToken && trace[i].token.VarV?
  }

  /** Every closure that can come to be applied has a body that validates with no token. */
  ghost predicate Checked(vis: Visits, v: Rv) {
    match v
    case RLam(_, body, env) => Errors(vis, body, false) == 0 && EnvChecked(vis, env)
    case RCon(_, args) => vis.con ==> forall i :: 0 <= i < |args| ==> Checked(vis, args[i])
    case _ => true
  }

  ghost predicate EnvChecked(vis: Visits, env: Env) {
    env.Bind? ==> Checked(vis, env.val) && EnvChecked(vis, env.next)
  }

  lemma {:induction false} LookupChecked(vis: Visits, env: Env, x: Name)
    requires EnvChecked(vis, env)
    ensures Lookup(env, x).Some? ==> Checked(vis, Lookup(env, x).value)
  {
    if env.Empty? {
    } else {
      LookupChecked(vis, env.next, x);
    }
  }

  lemma {:induction false} EvalValueChecked(vis: Visits, v: Val, env: Env)
    requires ValErrors(vis, v) == 0 && EnvChecked(vis, env)
    ensures Checked(vis, EvalValue(v, env))
    decreases v
  {
    match v
    case VarV(x) => LookupChecked(vis, env, x);
    case ConV(_, args) =>
      if vis.con {
        forall i | 0 <= i < |args|
          ensures Checked(vis, EvalValue(args[i], env))
        {
          SumErrorsZero(vis, args, i);
          EvalValueChecked(vis, args[i], env);
        }
      }
    case _ =>
  }

  lemma {:induction false} MatchChecked(vis: Visits, p: Pat, v: Rv, base: Env)
    requires vis.con && Checked(vis, v) && EnvChecked(vis, base)
    ensures MatchPat(p, v, base).Some? ==> EnvChecked(vis, MatchPat(p, v, base).value)
    decreases p, 0
  {
    match p
    case ConP(name, subs) =>
      if v.RCon? && |subs| == |v.args| {
        MatchAllChecked(vis, subs, v.args, base);
      }
    case _ =>
  }

  lemma {:induction false} MatchAllChecked(vis: Visits, ps: seq<Pat>, vs: seq<Rv>, base: Env)
    requires vis.con && EnvChecked(vis, base) && |ps| == |vs|
    requires forall i :: 0 <= i < |vs| ==> Checked(vis, vs[i])
    ensures MatchPats(ps, vs, base).Some? ==> EnvChecked(vis, MatchPats(ps, vs, base).value)
    decreases ps
  {
    if ps == [] {
    } else {
      var l := |ps| - 1;
      MatchAllChecked(vis, ps[..l], vs[..l], base);
      if MatchPats(ps[..l], vs[..l], base).Some? {
        MatchChecked(vis, ps[l], vs[l], MatchPats(ps[..l], vs[..l], base).value);
      }
    }
  }

  /**
    The invariant of every run, at any depth and through any closure application: `stok` is the token scope the
    validator assumed, `tok` what the evaluator has.
   */
  lemma {:induction false} RunAuthorized(m: Mode, vis: Visits, e: Expr, env: Env, stok: bool, tok: bool, fuel: nat)
    requires m.Clean? ==> vis.con
    requires Errors(vis, e, stok) == 0 && EnvChecked(vis, env) && (stok ==> tok)
    ensures Authorized(Eval(m, e, env, tok, fuel).trace)
    ensures Eval(m, e, env, tok, fuel).val.Some? ==> Checked(vis, Eval(m, e, env, tok, fuel).val.value)
    decreases fuel, e
  {
    hide Select, MatchPat, EvalValue, EvalValues;
    match e
    case Value(v) => EvalValueChecked(vis, v, env);
    case Let(x, bind, body) =>
      RunAuthorized(m, vis, bind, env, stok, tok, fuel);
      var o := Eval(m, bind, env, tok, fuel);
      if o.val.Some? {
        RunAuthorized(m, vis, body, Bind(x, o.val.value, env), stok || bind.Token?, tok || bind.Token?, fuel);
      }
    case App(func, args) =>
      var f, xs := EvalValue(func, env), EvalValues(args, env);
      if f.RLam? && |xs| == 1 && fuel > 0 {
        EvalValueChecked(vis, func, env);
        ArgChecked(vis, args, env);
        RunAuthorized(m, vis, f.body, Bind(f.param, xs[0], f.env), false, tok, fuel - 1);
      }
    case If(_, thenE, elseE) =>
      RunAuthorized(m, vis, thenE, env, stok, tok, fuel);
      RunAuthorized(m, vis, elseE, env, stok, tok, fuel);
    case Match(scrut, cases) =>
      var v := EvalValue(scrut, env);
      EvalValueChecked(vis, scrut, env);
      var s := Select(m, cases, 0, v, env);
      if s.Some? {
        var (i, env') := s.value;
        CaseErrorsZero(vis, cases, stok, i);
        if m.Clean? {
          MatchChecked(vis, cases[i].pat, v, env);
        }
        RunAuthorized(m, vis, cases[i].body, env', stok, tok, fuel);
      } else {
        UnmatchedChecked(vis, v);
      }
    case _ =>
  }

  lemma {:induction false} UnmatchedChecked(vis: Visits, v: Rv)
    ensures Checked(vis, RBottom("match: no case", [v])) && Checked(vis, RUnit)
  {
  }

  lemma {:induction false} ArgChecked(vis: Visits, args: seq<Val>, env: Env)
    requires SumErrors(vis, args) == 0 && EnvChecked(vis, env) && |args| == 1
    ensures Checked(vis, EvalValues(args, env)[0])
  {
    SumErrorsZero(vis, args, 0);
    EvalValueChecked(vis, args[0], env);
  }

  /** No errors means no unauthorized effect, however long the program runs: the runtime never opens constructors. */
  lemma {:induction false} ValidatorSound(root: Expr, fuel: nat)
    requires Errors(RUNTIME, root, false) == 0
    ensures Authorized(Eval(Runtime, root, Empty, false, fuel).trace)
  {
    RunAuthorized(Runtime, RUNTIME, root, Empty, false, false, fuel);
  }

  // ---- The clean evaluator -------------------------------------------------

  /** A lambda occurs in the arguments of a constructor. */
  predicate LamInCon(v: Val, under: bool) {
    match v
    case LamV(_, body) => under || LamUnderCon(body)
    case ConV(_, args) => exists i :: 0 <= i < |args| && LamInCon(args[i], true)
    case _ => false
  }

  predicate LamUnderCon(e: Expr) {
    match e
    case Value(v) => LamInCon(v, false)
    case Let(_, bind, body) => LamUnderCon(bind) || LamUnderCon(body)
    case App(func, args) => LamInCon(func, false) || exists i :: 0 <= i < |args| && LamInCon(args[i], false)
    case If(cond, thenE, elseE) => LamInCon(cond, false) || LamUnderCon(thenE) || LamUnderCon(elseE)
    case Match(scrut, cases) =>
      LamInCon(scrut, false) || exists i :: 0 <= i < |cases| && LamUnderCon(cases[i].body)
    case EffApp(func, _, args) => LamInCon(func, false) || exists i :: 0 <= i < |args| && LamInCon(args[i], false)
    case _ => false
  }

  /** With no lambda under a constructor, looking into constructors finds no further error. */
  lemma {:induction false} ThoroughAddsNothing(e: Expr, tok: bool)
    requires !LamUnderCon(e)
    ensures Errors(THOROUGH, e, tok) == Errors(CLEAN, e, tok)
    decreases e, 0
  {
    match e
    case Value(v) => ThoroughVal(v, false);
    case Let(_, bind, body) =>
      ThoroughAddsNothing(bind, tok);
      ThoroughAddsNothing(body, tok || bind.Token?);
    case App(func, args) =>
      ThoroughVal(func, false);
      ThoroughAll(args, false);
    case If(cond, thenE, elseE) =>
      ThoroughVal(cond, false);
      ThoroughAddsNothing(thenE, tok);
      ThoroughAddsNothing(elseE, tok);
    case Match(scrut, cases) =>
      ThoroughVal(scrut, false);
      ThoroughCases(cases, tok);
    case EffApp(func, _, args) =>
      ThoroughVal(func, false);
      ThoroughAll(args, false);
    case _ =>
  }

  lemma {:induction false} ThoroughVal(v: Val, under: bool)
    requires !LamInCon(v, under)
    ensures ValErrors(THOROUGH, v) == ValErrors(CLEAN, v)
    ensures under ==> ValErrors(THOROUGH, v) == 0
    decreases v, 0
  {
    match v
    case LamV(_, body) => ThoroughAddsNothing(body, false);
    case ConV(_, args) => ThoroughAll(args, true);
    case _ =>
  }

  lemma {:induction false} ThoroughAll(vs: seq<Val>, under: bool)
    requires forall i :: 0 <= i < |vs| ==> !LamInCon(vs[i], under)
    ensures SumErrors(THOROUGH, vs) == SumErrors(CLEAN, vs)
    ensures under ==> SumErrors(THOROUGH, vs) == 0
    decreases vs
  {
    if vs == [] {
    } else {
      ThoroughAll(vs[..|vs| - 1], under);
      ThoroughVal(vs[|vs| - 1], under);
    }
  }

  lemma {:induction false} ThoroughCases(cs: seq<Case>, tok: bool)
    requires forall i :: 0 <= i < |cs| ==> !LamUnderCon(cs[i].body)
    ensures CaseErrors(THOROUGH, cs, tok) == CaseErrors(CLEAN, cs, tok)
    decreases cs
  {
    if cs == [] {
    } else {
      ThoroughCases(cs[..|cs| - 1], tok);
      var c := cs[|cs| - 1];
      assert c.body < c;
      ThoroughAddsNothing(c.body, tok);
    }
  }

  /**
    The clean evaluator, whose matches open constructors, is safe if the validator finds no error inside them either.
   */
  lemma {:induction false} CleanValidatorSound(root: Expr, fuel: nat)
    requires Errors(THOROUGH, root, false) == 0
    ensures Authorized(Eval(Clean, root, Empty, false, fuel).trace)
  {
    RunAuthorized(Clean, THOROUGH, root, Empty, false, false, fuel);
  }

  /** In particular it is safe if no lambda is under a constructor: then the clean validator misses nothing. */
  lemma {:induction false} CleanSoundWithoutLambdas(root: Expr, fuel: nat)
    requires Errors(CLEAN, root, false) == 0 && !LamUnderCon(root)
    ensures Authorized(Eval(Clean, root, Empty, false, fuel).trace)
  {
    ThoroughAddsNothing(root, false);
    CleanValidatorSound(root, fuel);
  }

  /** `match Box (\x -> effapp print t) with Box f -> f 0`, as a tree. */
  const HIDDEN: Val := LamV("x", EffApp(VarV("print"), VarV("t"), []))
  const USE: Expr := App(VarV("f"), [IntV(0)])
  const ESCAPE: Expr := Match(ConV("Box", [HIDDEN]), [Case(ConP("Box", [VarP("f")]), USE)])

  /**
    A report of no errors by the clean validator alone is not enough: a lambda taken out of a constructor runs an effect
    nothing validated. The tree is a well-formed one; the text reader of the repository builds no such `match`
    correctly.
   */
  lemma {:induction false} CleanValidatorUnsound()
    ensures Errors(CLEAN, ESCAPE, false) == 0 && !Authorized(Eval(Clean, ESCAPE, Empty, false, 1).trace)
  {
    EscapeUnreported();
    EscapeSelects();
    EscapeRuns();
    hide Select, EvalValue;
    assert Eval(Clean, ESCAPE, Empty, false, 1).trace[0] == Event(false, VarV("t"));
  }

  lemma {:induction false} EscapeUnreported()
    ensures Errors(CLEAN, ESCAPE, false) == 0
  {
    assert SumErrors(CLEAN, []) == 0 && SumErrors(CLEAN, USE.args) == 0 by {
      assert USE.args[..0] == [];
    }
    assert Errors(CLEAN, USE, false) == 0;
    assert ESCAPE.cases[..0] == [] && CaseErrors(CLEAN, ESCAPE.cases, false) == 0;
  }

  /** The environment of the body: the hidden lambda under the name `f`. */
  const OPENED: Env := Bind("f", RLam("x", HIDDEN.body, Empty), Empty)

  lemma {:induction false} EscapeSelects()
    ensures EvalValue(ESCAPE.scrut, Empty) == RCon("Box", [RLam("x", HIDDEN.body, Empty)])
    ensures Select(Clean, ESCAPE.cases, 0, EvalValue(ESCAPE.scrut, Empty), Empty) == Some((0, OPENED))
  {
    var lam, c := RLam("x", HIDDEN.body, Empty), ESCAPE.cases[0];
    assert EvalValue(ESCAPE.scrut, Empty) == RCon("Box", [lam]);
    assert [VarP("f")][..0] == [] && [lam][..0] == [];
    assert MatchPats([VarP("f")], [lam], Empty) == Some(OPENED);
    assert TakeCase(Clean, c.pat, RCon("Box", [lam]), Empty) == Some(OPENED);
  }

  lemma {:induction false} EscapeRuns()
    ensures Eval(Clean, USE, OPENED, false, 1).trace == [Event(false, VarV("t"))]
  {
    assert EvalValues(USE.args, OPENED) == [RInt(0)];
    assert Eval(Clean, HIDDEN.body, Bind("x", RInt(0), Empty), false, 0).trace == [Event(false, VarV("t"))];
  }
}
