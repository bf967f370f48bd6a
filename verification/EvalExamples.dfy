/** What the evaluators do, case by case: conditions, matches, scopes and calls that go wrong. */
module EvalExamples {
  import opened Options
  import opened CoreIr

  // ---- Conditions ----------------------------------------------------------

  /** Zero, unit and the symbol `false` are false, and nothing else is. */
  lemma {:induction false} ConditionTaken(m: Mode, cond: Val, thenE: Expr, elseE: Expr, env: Env, tok: bool, fuel: nat)
    ensures Eval(m, If(cond, thenE, elseE), env, tok, fuel) ==
      if EvalValue(cond, env) in {RInt(0), RUnit, RSym("false")} then Eval(m, elseE, env, tok, fuel)
      else Eval(m, thenE, env, tok, fuel)
  {
  }

  // ---- Matches -------------------------------------------------------------

  predicate Irrefutable(p: Pat) {
    p in {AnyPat, Wildcard} || p.VarP?
  }

  /** The runtime evaluator goes to the first case that cannot fail, and does not bind its variable. */
  lemma {:induction false} RuntimeMatch(scrut: Val, cases: seq<Case>, i: nat, env: Env, tok: bool, fuel: nat)
    requires i < |cases| && Irrefutable(cases[i].pat)
    requires forall k :: 0 <= k < i ==> !Irrefutable(cases[k].pat)
    ensures Eval(Runtime, Match(scrut, cases), env, tok, fuel) == Eval(Runtime, cases[i].body, env, tok, fuel)
  {
    var r := Select(Runtime, cases, 0, EvalValue(scrut, env), env);
    assert TakeCase(Runtime, cases[i].pat, EvalValue(scrut, env), env).Some?;
  }

  /** Without such a case the result is a bottom that holds the value matched on. */
  lemma {:induction false} RuntimeNoCase(scrut: Val, cases: seq<Case>, env: Env, tok: bool, fuel: nat)
    requires forall k :: 0 <= k < |cases| ==> !Irrefutable(cases[k].pat)
    ensures Eval(Runtime, Match(scrut, cases), env, tok, fuel) ==
      Outcome([], Some(RBottom("match: no case", [EvalValue(scrut, env)])))
  {
    var r := Select(Runtime, cases, 0, EvalValue(scrut, env), env);
  }

  ghost predicate InstanceOf(p: Pat, v: Rv) {
    exists hs: seq<Rv> :: |hs| == |Holes(p)| && Plug(p, hs) == v
  }

  lemma {:induction false} InstanceMatches(p: Pat, v: Rv, env: Env)
    ensures InstanceOf(p, v) <==> MatchPat(p, v, env).Some?
  {
    if InstanceOf(p, v) {
      var hs: seq<Rv> :| |hs| == |Holes(p)| && Plug(p, hs) == v;
      MatchInstance(p, hs, env);
    }
    if MatchPat(p, v, env).Some? {
      var hs := MatchIsInstance(p, v, env);
    }
  }

  /** The clean evaluator goes to the first case of which the value is an instance, and binds the parts. */
  lemma {:induction false} CleanMatch(scrut: Val, cases: seq<Case>, i: nat, hs: seq<Rv>, env: Env, tok: bool, fuel: nat)
    requires i < |cases| && |hs| == |Holes(cases[i].pat)| && Plug(cases[i].pat, hs) == EvalValue(scrut, env)
    requires forall k :: 0 <= k < i ==> !InstanceOf(cases[k].pat, EvalValue(scrut, env))
    ensures Eval(Clean, Match(scrut, cases), env, tok, fuel) ==
      Eval(Clean, cases[i].body, BindHoles(env, Holes(cases[i].pat), hs), tok, fuel)
  {
    hide MatchPat, Holes, Plug, InstanceOf, EvalValue;
    var v := EvalValue(scrut, env);
    MatchInstance(cases[i].pat, hs, env);
    forall k | 0 <= k < i
      ensures MatchPat(cases[k].pat, v, env).None?
    {
      InstanceMatches(cases[k].pat, v, env);
    }
    var r := Select(Clean, cases, 0, v, env);
    assert TakeCase(Clean, cases[i].pat, v, env).Some?;
    assert forall k :: 0 <= k < i ==> TakeCase(Clean, cases[k].pat, v, env).None?;
  }

  /** Without such a case it gives unit. */
  lemma {:induction false} CleanNoCase(scrut: Val, cases: seq<Case>, env: Env, tok: bool, fuel: nat)
    requires forall k :: 0 <= k < |cases| ==> !InstanceOf(cases[k].pat, EvalValue(scrut, env))
    ensures Eval(Clean, Match(scrut, cases), env, tok, fuel) == Outcome([], Some(RUnit))
  {
    hide MatchPat, InstanceOf, EvalValue;
    var v := EvalValue(scrut, env);
    forall k | 0 <= k < |cases|
      ensures MatchPat(cases[k].pat, v, env).None?
    {
      InstanceMatches(cases[k].pat, v, env);
    }
    var r := Select(Clean, cases, 0, v, env);
  }

  // ---- Scopes and calls ----------------------------------------------------

  /** The innermost binding counts, and an unbound variable is a symbol. */
  lemma {:induction false} VariableValue(x: Name, y: Name, v: Rv, env: Env)
    ensures EvalValue(VarV(x), Bind(y, v, env)) == if x == y then v else EvalValue(VarV(x), env)
    ensures EvalValue(VarV(x), Empty) == RSym(x)
  {
  }

  /** `(let x (int 1) (let f (lam y (var x)) (let x (int 2) (app (var f) (int 0)))))`. */
  const STATIC: Expr :=
    Let("x", Value(IntV(1)), Let("f", Value(LamV("y", Value(VarV("x")))),
      Let("x", Value(IntV(2)), App(VarV("f"), [IntV(0)]))))

  lemma {:induction false} LetValue(m: Mode, x: Name, v: Val, body: Expr, env: Env, tok: bool, fuel: nat)
    ensures Eval(m, Let(x, Value(v), body), env, tok, fuel) ==
      Eval(m, body, Bind(x, EvalValue(v, env), env), tok, fuel)
  {
    hide EvalValue;
    var o := Eval(m, body, Bind(x, EvalValue(v, env), env), tok, fuel);
    assert [] + o.trace == o.trace;
  }

  lemma {:induction false} CallClosure(m: Mode, func: Val, arg: Val, env: Env, tok: bool, fuel: nat)
    requires fuel > 0 && EvalValue(func, env).RLam?
    ensures var f := EvalValue(func, env);
      Eval(m, App(func, [arg]), env, tok, fuel) ==
      Eval(m, f.body, Bind(f.param, EvalValue(arg, env), f.env), tok, fuel - 1)
  {
    hide EvalValue;
    assert EvalValues([arg], env) == [EvalValue(arg, env)];
  }

  /** The call sees the `x` of the definition. */
  lemma {:induction false} StaticScope(m: Mode, env: Env, tok: bool, fuel: nat)
    requires fuel > 0
    ensures Eval(m, STATIC, env, tok, fuel) == Outcome([], Some(RInt(1)))
  {
    var env1 := Bind("x", RInt(1), env);
    var f := RLam("y", Value(VarV("x")), env1);
    var env2 := Bind("f", f, env1);
    var env3 := Bind("x", RInt(2), env2);
    var call := App(VarV("f"), [IntV(0)]);
    assert EvalValue(IntV(1), env) == RInt(1) && EvalValue(IntV(2), env2) == RInt(2) &&
      EvalValue(IntV(0), env3) == RInt(0);
    assert EvalValue(LamV("y", Value(VarV("x"))), env1) == f;
    VariableValue("f", "x", RInt(2), env2);
    VariableValue("f", "f", f, env1);
    VariableValue("x", "y", RInt(0), env1);
    VariableValue("x", "x", RInt(1), env);
    hide EvalValue;
    LetValue(m, "x", IntV(1), STATIC.body, env, tok, fuel);
    LetValue(m, "f", LamV("y", Value(VarV("x"))), STATIC.body.body, env1, tok, fuel);
    LetValue(m, "x", IntV(2), call, env2, tok, fuel);
    CallClosure(m, VarV("f"), IntV(0), env3, tok, fuel);
  }

  /** The constructor `()` without arguments is unit; with arguments it is a constructor. A namespace is unit. */
  lemma {:induction false} ConstructorValue(name: Name, x: Val, y: Val, names: seq<Name>, vals: seq<Val>, env: Env)
    ensures EvalValue(ConV("()", []), env) == RUnit && EvalValue(NsV(names, vals), env) == RUnit
    ensures EvalValue(ConV(name, [x, y]), env) == RCon(name, [EvalValue(x, env), EvalValue(y, env)])
  {
    var args := [x, y];
    assert EvalValue(ConV(name, args), env).args == [EvalValue(x, env), EvalValue(y, env)];
  }

  /** Calling what is no closure, or a closure with any number of arguments but one, gives unit. */
  lemma {:induction false} FailedCall(m: Mode, func: Val, args: seq<Val>, env: Env, tok: bool, fuel: nat)
    requires !EvalValue(func, env).RLam? || |args| != 1
    ensures Eval(m, App(func, args), env, tok, fuel) == Outcome([], Some(RUnit))
  {
  }
}
