/** What the effect validator counts: the effect applications of a program, by where they stand. */
module EffectSites {
  import Options
  import opened CoreIr
  import opened Effects

  /** A step from an expression into one of its parts. */
  datatype Step = ToBind | ToBody(bind: Expr) | ToBranch | ToCase | ToLambda

  /** An effect application: the steps that lead to it from the root, and its token operand. */
  datatype Site = Site(path: seq<Step>, token: Val)

  // ---- The sites -----------------------------------------------------------

  /** The effect applications in the values that are looked into. */
  function ValSites(vis: Visits, v: Val, path: seq<Step>): seq<Site> {
    match v
    case LamV(_, body) => Sites(vis, body, path + [ToLambda])
    case NsV(_, vals) => if vis.ns then AllSites(vis, vals, path) else []
    case ConV(_, args) => if vis.con then AllSites(vis, args, path) else []
    case _ => []
  }

  function AllSites(vis: Visits, vs: seq<Val>, path: seq<Step>): seq<Site> {
    if vs == [] then [] else AllSites(vis, vs[..|vs| - 1], path) + ValSites(vis, vs[|vs| - 1], path)
  }

  function CaseSites(vis: Visits, cs: seq<Case>, path: seq<Step>): seq<Site> {
    if cs == [] then []
    else
      var c := cs[|cs| - 1];
      assert c.body < c;
      CaseSites(vis, cs[..|cs| - 1], path) + Sites(vis, c.body, path + [ToCase])
  }

  function Sites(vis: Visits, e: Expr, path: seq<Step>): seq<Site> {
    match e
    case Null => []
    case Value(v) => ValSites(vis, v, path)
    case Let(_, bind, body) => Sites(vis, bind, path + [ToBind]) + Sites(vis, body, path + [ToBody(bind)])
    case App(func, args) => ValSites(vis, func, path) + AllSites(vis, args, path)
    case If(cond, thenE, elseE) =>
      ValSites(vis, cond, path) + Sites(vis, thenE, path + [ToBranch]) + Sites(vis, elseE, path + [ToBranch])
    case Match(scrut, cases) => ValSites(vis, scrut, path) + CaseSites(vis, cases, path)
    case EffApp(func, token, args) => [Site(path, token)] + ValSites(vis, func, path) + AllSites(vis, args, path)
    case Token => []
  }

  /** The path goes through the body of a `let` that binds a token, with no lambda after it. */
  ghost predicate Scoped(path: seq<Step>) {
    exists i :: 0 <= i < |path| && path[i] == ToBody(Token) && NoLambdaAfter(path, i)
  }

  ghost predicate NoLambdaAfter(path: seq<Step>, i: int) {
    forall j :: 0 <= j < |path| && i < j ==> path[j] != ToLambda
  }

  /** How many sites have no token in scope. */
  ghost function Bare(ss: seq<Site>): nat {
    if ss == [] then 0 else Bare(ss[..|ss| - 1]) + (if Scoped(ss[|ss| - 1].path) then 0 else 1)
  }

  /** How many sites do not name their token by a variable. */
  ghost function Unnamed(ss: seq<Site>): nat {
    if ss == [] then 0 else Unnamed(ss[..|ss| - 1]) + (if ss[|ss| - 1].token.VarV? then 0 else 1)
  }

  ghost function Faults(ss: seq<Site>): nat {
    Bare(ss) + Unnamed(ss)
  }

  lemma {:induction false} FaultsAppend(a: seq<Site>, b: seq<Site>)
    ensures Faults(a + b) == Faults(a) + Faults(b)
  {
    if b == [] {
      assert a + b == a;
    } else {
      var l := |b| - 1;
      assert (a + b)[..|a| + l] == a + b[..l];
      FaultsAppend(a, b[..l]);
    }
  }

  lemma {:induction false} FaultsOne(path: seq<Step>, token: Val)
    ensures Faults([Site(path, token)]) == (if Scoped(path) then 0 else 1) + (if token.VarV? then 0 else 1)
  {
    var ss := [Site(path, token)];
    assert ss[..0] == [] && Bare(ss[..0]) == 0 && Unnamed(ss[..0]) == 0;
  }

  /** What one more step does to the scope. */
  lemma {:induction false} ScopedStep(path: seq<Step>, s: Step)
    ensures Scoped(path + [s]) <==> s == ToBody(Token) || (s != ToLambda && Scoped(path))
  {
    var p, l := path + [s], |path|;
    if s == ToBody(Token) {
      assert p[l] == s && NoLambdaAfter(p, l);
    } else if s != ToLambda && Scoped(path) {
      var i :| 0 <= i < |path| && path[i] == ToBody(Token) && NoLambdaAfter(path, i);
      assert p[i] == path[i] && NoLambdaAfter(p, i);
    } else if Scoped(p) {
      var i :| 0 <= i < |p| && p[i] == ToBody(Token) && NoLambdaAfter(p, i);
      assert p[l] == s && i < l && path[i] == p[i];
      forall j | i < j < |path|
        ensures path[j] != ToLambda
      {
        assert p[j] == path[j];
      }
      assert NoLambdaAfter(path, i);
    }
  }

  // ---- The count -----------------------------------------------------------

  lemma {:induction false} ValCount(vis: Visits, v: Val, path: seq<Step>)
    ensures ValErrors(vis, v) == Faults(ValSites(vis, v, path))
    decreases v, 0
  {
    hide Faults;
    match v
    case LamV(_, body) =>
      ScopedStep(path, ToLambda);
      Count(vis, body, path + [ToLambda]);
    case NsV(_, vals) => AllCount(vis, vals, path); NoFaults();
    case ConV(_, args) => AllCount(vis, args, path); NoFaults();
    case _ => NoFaults();
  }

  lemma {:induction false} NoFaults()
    ensures Faults([]) == 0
  {
  }

  lemma {:induction false} AllCount(vis: Visits, vs: seq<Val>, path: seq<Step>)
    ensures SumErrors(vis, vs) == Faults(AllSites(vis, vs, path))
    decreases vs
  {
    hide Faults, ValErrors, ValSites;
    if vs == [] {
      NoFaults();
    } else {
      var l := |vs| - 1;
      AllCount(vis, vs[..l], path);
      ValCount(vis, vs[l], path);
      FaultsAppend(AllSites(vis, vs[..l], path), ValSites(vis, vs[l], path));
    }
  }

  lemma {:induction false} CaseCount(vis: Visits, cs: seq<Case>, path: seq<Step>)
    ensures CaseErrors(vis, cs, Scoped(path)) == Faults(CaseSites(vis, cs, path))
    decreases cs
  {
    hide Faults, Errors, Sites, Scoped;
    if cs == [] {
      NoFaults();
    } else {
      var l := |cs| - 1;
      var c := cs[l];
      assert c.body < c;
      CaseCount(vis, cs[..l], path);
      ScopedStep(path, ToCase);
      Count(vis, c.body, path + [ToCase]);
      FaultsAppend(CaseSites(vis, cs[..l], path), Sites(vis, c.body, path + [ToCase]));
    }
  }

  /**
    The validator reports exactly the effect applications that no `let` of a token encloses inside the nearest lambda,
    and those whose token operand is no variable.
   */
  lemma {:induction false} Count(vis: Visits, e: Expr, path: seq<Step>)
    ensures Errors(vis, e, Scoped(path)) == Faults(Sites(vis, e, path))
    decreases e, 0
  {
    hide Faults, ValErrors, ValSites, SumErrors, AllSites, CaseErrors, CaseSites, Scoped;
    match e
    case Value(v) => ValCount(vis, v, path);
    case Let(_, bind, body) =>
      ScopedStep(path, ToBind);
      ScopedStep(path, ToBody(bind));
      Count(vis, bind, path + [ToBind]);
      Count(vis, body, path + [ToBody(bind)]);
      FaultsAppend(Sites(vis, bind, path + [ToBind]), Sites(vis, body, path + [ToBody(bind)]));
    case App(func, args) =>
      ValCount(vis, func, path);
      AllCount(vis, args, path);
      FaultsAppend(ValSites(vis, func, path), AllSites(vis, args, path));
    case If(cond, thenE, elseE) =>
      ScopedStep(path, ToBranch);
      ValCount(vis, cond, path);
      Count(vis, thenE, path + [ToBranch]);
      Count(vis, elseE, path + [ToBranch]);
      var a, b := ValSites(vis, cond, path), Sites(vis, thenE, path + [ToBranch]);
      FaultsAppend(a, b);
      FaultsAppend(a + b, Sites(vis, elseE, path + [ToBranch]));
    case Match(scrut, cases) =>
      ValCount(vis, scrut, path);
      CaseCount(vis, cases, path);
      FaultsAppend(ValSites(vis, scrut, path), CaseSites(vis, cases, path));
    case EffApp(func, token, args) =>
      ValCount(vis, func, path);
      AllCount(vis, args, path);
      FaultsOne(path, token);
      var a, b := [Site(path, token)], ValSites(vis, func, path);
      FaultsAppend(a, b);
      FaultsAppend(a + b, AllSites(vis, args, path));
    case _ => NoFaults();
  }

  lemma {:induction false} FaultlessEach(ss: seq<Site>)
    ensures Faults(ss) == 0 <==> forall i :: 0 <= i < |ss| ==> Scoped(ss[i].path) && ss[i].token.VarV?
  {
    hide Scoped;
    if ss == [] {
    } else {
      var l := |ss| - 1;
      FaultlessEach(ss[..l]);
      assert forall i :: 0 <= i < l ==> ss[..l][i] == ss[i];
    }
  }

  /**
    A program is reported free of errors exactly if every effect application in it is in scope of a token it can name.
   */
  lemma {:induction false} ReportsExactly(root: Expr)
    ensures Errors(RUNTIME, root, false) == Bare(Sites(RUNTIME, root, [])) + Unnamed(Sites(RUNTIME, root, []))
    ensures Errors(RUNTIME, root, false) == 0 <==>
      forall i :: 0 <= i < |Sites(RUNTIME, root, [])| ==>
        Scoped(Sites(RUNTIME, root, [])[i].path) && Sites(RUNTIME, root, [])[i].token.VarV?
  {
    assert !Scoped([]);
    Count(RUNTIME, root, []);
    FaultlessEach(Sites(RUNTIME, root, []));
  }

  /** Both validators look into lambdas; the runtime's into namespaces too; neither into constructors. */
  lemma {:induction false} WhatIsVisited(x: Name, body: Expr, v: Val, name: Name, args: seq<Val>)
    ensures ValErrors(RUNTIME, LamV(x, body)) == Errors(RUNTIME, body, false)
    ensures ValErrors(CLEAN, LamV(x, body)) == Errors(CLEAN, body, false)
    ensures ValErrors(RUNTIME, NsV([x], [v])) == ValErrors(RUNTIME, v) && ValErrors(CLEAN, NsV([x], [v])) == 0
    ensures ValErrors(RUNTIME, ConV(name, args)) == 0 && ValErrors(CLEAN, ConV(name, args)) == 0
  {
    assert [v][..0] == [] && SumErrors(RUNTIME, []) == 0;
  }

  // ---- An example ----------------------------------------------------------

  /** `(let E$1 (token) (effapp (var println) (var E$1) (str "hi")))`. */
  const HELLO: Expr := Let("E$1", Token, EffApp(VarV("println"), VarV("E$1"), [StrV("hi")]))

  /** It is accepted, and its one effect application is reached with its token and gives unit. */
  lemma {:induction false} HelloAccepted(fuel: nat)
    ensures Errors(RUNTIME, HELLO, false) == 0
    ensures Eval(Runtime, HELLO, Empty, false, fuel) == Outcome([Event(true, VarV("E$1"))], Options.Some(RUnit))
  {
    var args := [StrV("hi")];
    assert args[..0] == [] && SumErrors(RUNTIME, []) == 0;
    assert SumErrors(RUNTIME, args) == 0;
    var env := Bind("E$1", RToken, Empty);
    assert Eval(Runtime, HELLO.body, env, true, fuel) == Outcome([Event(true, VarV("E$1"))], Options.Some(RUnit));
    assert [] + [Event(true, VarV("E$1"))] == [Event(true, VarV("E$1"))];
  }

  /** An effect application does not apply its function: whatever its operands are, it is noted and gives unit. */
  lemma {:induction false} EffectGivesUnit(m: Mode, func: Val, token: Val, args: seq<Val>, env: Env, tok: bool,
                                           fuel: nat)
    ensures Eval(m, EffApp(func, token, args), env, tok, fuel).val == Options.Some(RUnit)
    ensures Eval(m, EffApp(func, token, args), env, tok, fuel).trace == [Event(tok, token)]
  {
  }
}
