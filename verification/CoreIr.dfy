/** Core IR: values and expressions in A-normal form, and the two evaluators of it. */
module CoreIr {
  import opened Options
  import opened Words

  type Name = string

  /** A null value pointer, pattern pointer or expression pointer is the constructor `Absent`, `AnyPat` or `Null`. */
  datatype Val =
    | IntV(i: Int64)
    | StrV(s: string)
    | VarV(x: Name)
    | ConV(name: Name, args: seq<Val>)
    | LamV(param: Name, body: Expr)
    | NsV(names: seq<Name>, vals: seq<Val>)

  datatype Expr =
    | Value(v: Val)
    | Let(x: Name, bind: Expr, body: Expr)
    | App(func: Val, args: seq<Val>)
    | If(cond: Val, thenE: Expr, elseE: Expr)
    | EffApp(func: Val, token: Val, args: seq<Val>)
    | Token
    | Match(scrut: Val, cases: seq<Case>)
    | Null

  datatype Case = Case(pat: Pat, body: Expr)

  datatype Pat =
    | AnyPat
    | Wildcard
    | VarP(x: Name)
    | IntP(i: Int64)
    | StrP(s: string)
    | ConP(name: Name, subs: seq<Pat>)

  /** Runtime values. Native functions are never created and are not modelled. */
  datatype Rv =
    | RInt(i: int)
    | RStr(s: string)
    | RUnit
    | RToken
    | RSym(name: Name)
    | RLam(param: Name, body: Expr, env: Env)
    | RCon(name: Name, args: seq<Rv>)
    | RBottom(msg: string, args: seq<Rv>)

  datatype Env = Empty | Bind(name: Name, val: Rv, next: Env)

  /** The runtime evaluator, and the clean one, which opens constructors. */
  datatype Mode = Runtime | Clean

  /** An effect application reached while `hasToken` is as given, with `token` as its token operand. */
  datatype Event = Event(hasToken: bool, token: Val)

  /** What a run did: its effect applications, and its result unless it ran out of fuel. */
  datatype Outcome = Outcome(trace: seq<Event>, val: Option<Rv>)

  function Lookup(env: Env, x: Name): Option<Rv> {
    match env
    case Empty => None
    case Bind(y, v, next) => if y == x then Some(v) else Lookup(next, x)
  }

  function EvalValue(v: Val, env: Env): Rv {
    match v
    case IntV(i) => RInt(i)
    case StrV(s) => RStr(s)
    case VarV(x) => (match Lookup(env, x) case Some(r) => r case None => RSym(x))
    case ConV(name, args) =>
      if name == "()" && args == [] then RUnit
      else RCon(name, seq(|args|, i requires 0 <= i < |args| => EvalValue(args[i], env)))
    case LamV(param, body) => RLam(param, body, env)
    case NsV(_, _) => RUnit
  }

  function EvalValues(vs: seq<Val>, env: Env): (r: seq<Rv>)
    ensures |r| == |vs|
  {
    seq(|vs|, i requires 0 <= i < |vs| => EvalValue(vs[i], env))
  }

  function Truthy(v: Rv): bool {
    match v
    case RInt(i) => i != 0
    case RSym(name) => name != "false"
    case RUnit => false
    case _ => true
  }

  // ---- Patterns ------------------------------------------------------------

  function MatchPat(p: Pat, v: Rv, base: Env): Option<Env> {
    match p
    case AnyPat => Some(base)
    case Wildcard => Some(base)
    case VarP(x) => Some(Bind(x, v, base))
    case IntP(i) => if v == RInt(i) then Some(base) else None
    case StrP(s) => if v == RStr(s) then Some(base) else None
    case ConP(name, subs) =>
      if v.RCon? && v.name == name && |subs| == |v.args| then MatchPats(subs, v.args, base) else None
  }

  /** The sub-patterns in order, each in the environment the ones before it left. */
  function MatchPats(ps: seq<Pat>, vs: seq<Rv>, base: Env): Option<Env>
    requires |ps| == |vs|
  {
    if ps == [] then Some(base)
    else
      var l := |ps| - 1;
      match MatchPats(ps[..l], vs[..l], base)
      case None => None
      case Some(acc) => MatchPat(ps[l], vs[l], acc)
  }

  /** The runtime evaluator takes any case whose pattern cannot fail, and binds nothing. */
  function TakeCase(m: Mode, p: Pat, v: Rv, env: Env): Option<Env> {
    match m
    case Runtime => if p.AnyPat? || p.Wildcard? || p.VarP? then Some(env) else None
    case Clean => MatchPat(p, v, env)
  }

  /** The first case taken, from index `i` on. */
  function Select(m: Mode, cases: seq<Case>, i: nat, v: Rv, env: Env): (r: Option<(nat, Env)>)
    requires i <= |cases|
    ensures r.Some? ==> i <= r.value.0 < |cases| && TakeCase(m, cases[r.value.0].pat, v, env) == Some(r.value.1)
    ensures r.Some? ==> forall k :: i <= k < r.value.0 ==> TakeCase(m, cases[k].pat, v, env).None?
    ensures r.None? ==> forall k :: i <= k < |cases| ==> TakeCase(m, cases[k].pat, v, env).None?
    decreases |cases| - i
  {
    if i == |cases| then None
    else match TakeCase(m, cases[i].pat, v, env)
         case Some(env') => Some((i, env'))
         case None => Select(m, cases, i + 1, v, env)
  }

  // ---- Evaluation ----------------------------------------------------------

  /** Fuel is spent only by applying a closure: everything else goes to a part of the expression. */
  function Eval(m: Mode, e: Expr, env: Env, tok: bool, fuel: nat): Outcome
    decreases fuel, e
  {
    match e
    case Null => Outcome([], Some(RUnit))
    case Value(v) => Outcome([], Some(EvalValue(v, env)))
    case Let(x, bind, body) =>
      var o := Eval(m, bind, env, tok, fuel);
      if o.val.None? then o
      else
        var o' := Eval(m, body, Bind(x, o.val.value, env), tok || bind.Token?, fuel);
        Outcome(o.trace + o'.trace, o'.val)
    case App(func, args) =>
      var f, xs := EvalValue(func, env), EvalValues(args, env);
      if !f.RLam? || |xs| != 1 then Outcome([], Some(RUnit))
      else if fuel == 0 then Outcome([], None)
      else Eval(m, f.body, Bind(f.param, xs[0], f.env), tok, fuel - 1)
    case If(cond, thenE, elseE) =>
      if Truthy(EvalValue(cond, env)) then Eval(m, thenE, env, tok, fuel) else Eval(m, elseE, env, tok, fuel)
    case EffApp(_, token, _) => Outcome([Event(tok, token)], Some(RUnit))
    case Token => Outcome([], Some(RToken))
    case Match(scrut, cases) =>
      var v := EvalValue(scrut, env);
      match Select(m, cases, 0, v, env) {
        case Some((i, env')) => Eval(m, cases[i].body, env', tok, fuel)
        case None => Outcome([], Some(if m.Runtime? then RBottom("match: no case", [v]) else RUnit))
      }
  }

  /** More fuel never changes a result, and only extends what an unfinished run did. */
  lemma {:induction false} EvalMonotone(m: Mode, e: Expr, env: Env, tok: bool, fuel: nat, more: nat)
    requires fuel <= more
    ensures Eval(m, e, env, tok, fuel).trace <= Eval(m, e, env, tok, more).trace
    ensures Eval(m, e, env, tok, fuel).val.Some? ==> Eval(m, e, env, tok, more) == Eval(m, e, env, tok, fuel)
    decreases fuel, e
  {
    hide Select, EvalValue, EvalValues;
    match e
    case Let(x, bind, body) =>
      EvalMonotone(m, bind, env, tok, fuel, more);
      var o := Eval(m, bind, env, tok, fuel);
      if o.val.Some? {
        EvalMonotone(m, body, Bind(x, o.val.value, env), tok || bind.Token?, fuel, more);
      }
    case App(func, args) =>
      var f, xs := EvalValue(func, env), EvalValues(args, env);
      if f.RLam? && |xs| == 1 && fuel > 0 {
        EvalMonotone(m, f.body, Bind(f.param, xs[0], f.env), tok, fuel - 1, more - 1);
      }
    case If(_, thenE, elseE) =>
      EvalMonotone(m, thenE, env, tok, fuel, more);
      EvalMonotone(m, elseE, env, tok, fuel, more);
    case Match(scrut, cases) =>
      var s := Select(m, cases, 0, EvalValue(scrut, env), env);
      if s.Some? {
        EvalMonotone(m, cases[s.value.0].body, s.value.1, tok, fuel, more);
      }
    case _ =>
  }

  // ---- What a pattern means -----------------------------------------------

  /** The places of a pattern that take any value, left to right, with the name they bind. */
  function Holes(p: Pat): seq<Option<Name>> {
    match p
    case AnyPat => [None]
    case Wildcard => [None]
    case VarP(x) => [Some(x)]
    case IntP(_) => []
    case StrP(_) => []
    case ConP(_, subs) => HolesAll(subs)
  }

  function HolesAll(ps: seq<Pat>): seq<Option<Name>> {
    if ps == [] then [] else HolesAll(ps[..|ps| - 1]) + Holes(ps[|ps| - 1])
  }

  /** The instance of the pattern with these values in its holes. */
  function Plug(p: Pat, hs: seq<Rv>): Rv
    requires |hs| == |Holes(p)|
  {
    match p
    case AnyPat => hs[0]
    case Wildcard => hs[0]
    case VarP(_) => hs[0]
    case IntP(i) => RInt(i)
    case StrP(s) => RStr(s)
    case ConP(name, subs) => RCon(name, PlugAll(subs, hs))
  }

  function PlugAll(ps: seq<Pat>, hs: seq<Rv>): (vs: seq<Rv>)
    requires |hs| == |HolesAll(ps)|
    ensures |vs| == |ps|
  {
    if ps == [] then []
    else
      var l := |ps| - 1;
      var n := |HolesAll(ps[..l])|;
      PlugAll(ps[..l], hs[..n]) + [Plug(ps[l], hs[n..])]
  }

  /** The environment with the named holes bound in order. */
  function BindHoles(base: Env, names: seq<Option<Name>>, hs: seq<Rv>): Env
    requires |names| == |hs|
  {
    if names == [] then base
    else
      var l := |names| - 1;
      var env := BindHoles(base, names[..l], hs[..l]);
      if names[l].Some? then Bind(names[l].value, hs[l], env) else env
  }

  lemma {:induction false} BindHolesAppend(base: Env, ns: seq<Option<Name>>, hs: seq<Rv>, ns': seq<Option<Name>>,
                                           hs': seq<Rv>)
    requires |ns| == |hs| && |ns'| == |hs'|
    ensures BindHoles(base, ns + ns', hs + hs') == BindHoles(BindHoles(base, ns, hs), ns', hs')
  {
    if ns' == [] {
      assert ns + ns' == ns && hs + hs' == hs;
    } else {
      var l := |ns'| - 1;
      assert (ns + ns')[..|ns| + l] == ns + ns'[..l] && (hs + hs')[..|ns| + l] == hs + hs'[..l];
      BindHolesAppend(base, ns, hs, ns'[..l], hs'[..l]);
    }
  }

  /** An instance of the pattern matches, and binds exactly the variables, left to right. */
  lemma {:induction false} MatchInstance(p: Pat, hs: seq<Rv>, base: Env)
    requires |hs| == |Holes(p)|
    ensures MatchPat(p, Plug(p, hs), base) == Some(BindHoles(base, Holes(p), hs))
    decreases p, 0
  {
    match p
    case ConP(_, subs) => MatchInstances(subs, hs, base);
    case VarP(x) => assert BindHoles(base, [Some(x)][..0], hs[..0]) == base;
    case AnyPat => assert BindHoles(base, [None][..0], hs[..0]) == base;
    case Wildcard => assert BindHoles(base, [None][..0], hs[..0]) == base;
    case _ =>
  }

  lemma {:induction false} EmptyBinds(base: Env, hs: seq<Rv>)
    requires hs == []
    ensures BindHoles(base, [], hs) == base
  {
  }

  lemma {:induction false} MatchInstances(ps: seq<Pat>, hs: seq<Rv>, base: Env)
    requires |hs| == |HolesAll(ps)|
    ensures MatchPats(ps, PlugAll(ps, hs), base) == Some(BindHoles(base, HolesAll(ps), hs))
    decreases ps
  {
    hide Holes, Plug, MatchPat, BindHoles;
    if ps == [] {
      EmptyBinds(base, hs);
    } else {
      var l := |ps| - 1;
      var n := |HolesAll(ps[..l])|;
      MatchInstances(ps[..l], hs[..n], base);
      var acc := BindHoles(base, HolesAll(ps[..l]), hs[..n]);
      MatchInstance(ps[l], hs[n..], acc);
      BindHolesAppend(base, HolesAll(ps[..l]), hs[..n], Holes(ps[l]), hs[n..]);
      assert hs == hs[..n] + hs[n..];
      assert PlugAll(ps, hs)[..l] == PlugAll(ps[..l], hs[..n]);
    }
  }

  /** Only instances match. */
  lemma {:induction false} MatchIsInstance(p: Pat, v: Rv, base: Env) returns (hs: seq<Rv>)
    requires MatchPat(p, v, base).Some?
    ensures |hs| == |Holes(p)| && Plug(p, hs) == v
    decreases p, 0
  {
    match p
    case ConP(_, subs) => hs := MatchAreInstances(subs, v.args, base);
    case IntP(_) => hs := [];
    case StrP(_) => hs := [];
    case _ => hs := [v];
  }

  lemma {:induction false} MatchAreInstances(ps: seq<Pat>, vs: seq<Rv>, base: Env) returns (hs: seq<Rv>)
    requires |ps| == |vs| && MatchPats(ps, vs, base).Some?
    ensures |hs| == |HolesAll(ps)| && PlugAll(ps, hs) == vs
    decreases ps
  {
    if ps == [] {
      hs := [];
    } else {
      var l := |ps| - 1;
      var front := MatchAreInstances(ps[..l], vs[..l], base);
      var last := MatchIsInstance(ps[l], vs[l], MatchPats(ps[..l], vs[..l], base).value);
      hs := front + last;
      assert hs[..|front|] == front && hs[|front|..] == last;
    }
  }

  /** Matching succeeds exactly on the instances of the pattern. */
  lemma {:induction false} MatchExact(p: Pat, v: Rv, base: Env)
    ensures MatchPat(p, v, base).Some? <==> exists hs :: |hs| == |Holes(p)| && Plug(p, hs) == v
    ensures forall hs :: |hs| == |Holes(p)| && Plug(p, hs) == v ==>
      MatchPat(p, v, base) == Some(BindHoles(base, Holes(p), hs))
  {
    if MatchPat(p, v, base).Some? {
      var hs := MatchIsInstance(p, v, base);
    }
    forall hs | |hs| == |Holes(p)| && Plug(p, hs) == v
      ensures MatchPat(p, v, base) == Some(BindHoles(base, Holes(p), hs))
    {
      MatchInstance(p, hs, base);
    }
  }

  /** The matcher itself: the environment is threaded through a loop over the sub-patterns. */
  method PatMatchEnv(p: Pat, v: Rv, base: Env) returns (ok: bool, env: Env)
    ensures if ok then MatchPat(p, v, base) == Some(env) else MatchPat(p, v, base) == None
    decreases p
  {
    ok, env := true, base;
    match p {
      case AnyPat =>
      case Wildcard =>
      case VarP(x) => env := Bind(x, v, base);
      case IntP(i) => ok := v == RInt(i);
      case StrP(s) => ok := v == RStr(s);
      case ConP(name, subs) =>
        if !v.RCon? || v.name != name || |subs| != |v.args| {
          ok := false;
          return;
        }
        var i := 0;
        assert subs[..0] == [] && v.args[..0] == [];
        while i < |subs|
          invariant 0 <= i <= |subs| && ok
          invariant MatchPats(subs[..i], v.args[..i], base) == Some(env)
        {
          var matched, env' := PatMatchEnv(subs[i], v.args[i], env);
          assert subs[..i + 1][..i] == subs[..i] && v.args[..i + 1][..i] == v.args[..i];
          if !matched {
            MatchPatsFails(subs, v.args, base, i + 1);
            ok := false;
            return;
          }
          env := env';
          i := i + 1;
        }
        assert subs[..i] == subs && v.args[..i] == v.args;
    }
  }

  lemma {:induction false} MatchPatsFails(ps: seq<Pat>, vs: seq<Rv>, base: Env, i: nat)
    requires |ps| == |vs| && i <= |ps| && MatchPats(ps[..i], vs[..i], base).None?
    ensures MatchPats(ps, vs, base).None?
  {
    if i < |ps| {
      var l := |ps| - 1;
      assert ps[..l][..i] == ps[..i] && vs[..l][..i] == vs[..i];
      MatchPatsFails(ps[..l], vs[..l], base, i);
    } else {
      assert ps[..i] == ps && vs[..i] == vs;
    }
  }
}
