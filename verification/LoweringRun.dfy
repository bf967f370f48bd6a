/** The lowering as it runs: a counter of generated names, bumped in place, and loops that grow the operand lists. */
module LoweringRun {
  import opened Options
  import opened CoreIr
  import opened Lowering

  lemma {:induction false} GivesUp(ts: seq<Term>, n: nat, i: nat)
    requires i <= |ts| && LowerValues(ts[..i], n).0.None?
    ensures LowerValues(ts, n) == LowerValues(ts[..i], n)
  {
    if i < |ts| {
      var l := |ts| - 1;
      assert ts[..l][..i] == ts[..i];
      GivesUp(ts[..l], n, i);
    } else {
      assert ts[..i] == ts;
    }
  }

  class Lowerer {
    var gsym: nat

    constructor ()
      ensures gsym == 0
    {
      gsym := 0;
    }

    method Fresh(prefix: string) returns (x: Name)
      modifies this
      ensures gsym == old(gsym) + 1 && x == Gensym(prefix, gsym)
    {
      gsym := gsym + 1;
      x := Gensym(prefix, gsym);
    }

    method Values(args: seq<Term>) returns (vs: Option<seq<Val>>)
      modifies this
      ensures (vs, gsym) == LowerValues(args, old(gsym))
      decreases args, 1
    {
      var out: seq<Val> := [];
      var i := 0;
      while i < |args|
        invariant 0 <= i <= |args| && LowerValues(args[..i], old(gsym)) == (Some(out), gsym)
      {
        var v := Val(args[i]);
        assert args[..i + 1][..i] == args[..i];
        if v.None? {
          GivesUp(args, old(gsym), i + 1);
          return None;
        }
        out := out + [v.value];
        i := i + 1;
      }
      assert args[..i] == args;
      vs := Some(out);
    }

    method Val(t: Term) returns (v: Option<Val>)
      modifies this
      ensures (v, gsym) == LowerValue(t, old(gsym))
      decreases t, 0
    {
      match t {
        case IntT(i) => v := Some(IntV(i));
        case StrT(s) => v := Some(StrV(s));
        case RefT(x) => v := Some(VarV(x));
        case ConT(name, args) =>
          var vs := Values(args);
          v := if vs.Some? then Some(ConV(name, vs.value)) else None;
        case LamT(param, body) =>
          var e := Expr(body);
          v := if e.Null? then None else Some(LamV(param, e));
        case _ => v := None;
      }
    }

    method Operand(t: Term, prefix: string) returns (o: Operand)
      modifies this
      ensures (o, gsym) == LowerOperand(t, prefix, old(gsym))
      decreases t, 1
    {
      var v := Val(t);
      if v.Some? {
        o := Ready(v.value);
      } else {
        var x := Fresh(prefix);
        o := Named(x);
      }
    }

    /** The first loop of the application case: operands in order. */
    method Operands(args: seq<Term>) returns (os: seq<Operand>)
      modifies this
      ensures (os, gsym) == LowerOperands(args, old(gsym))
      decreases args, 1
    {
      os := [];
      var i := 0;
      while i < |args|
        invariant 0 <= i <= |args| && LowerOperands(args[..i], old(gsym)) == (os, gsym)
      {
        var o := Operand(args[i], "a$");
        assert args[..i + 1][..i] == args[..i];
        os := os + [o];
        i := i + 1;
      }
      assert args[..i] == args;
    }

    /** The second: `let`s from the last operand to the first. */
    method Lets(args: seq<Term>, os: seq<Operand>, app: Expr) returns (core: Expr)
      requires |args| == |os|
      modifies this
      ensures (core, gsym) == LetOperands(args, os, app, old(gsym))
      decreases args, 1
    {
      core := app;
      ghost var whole := LetOperands(args, os, core, gsym);
      var i := |args|;
      assert os[..i] == os && args[..i] == args;
      while i > 0
        invariant 0 <= i <= |args| && LetOperands(args[..i], os[..i], core, gsym) == whole
      {
        i := i - 1;
        assert args[..i + 1][..i] == args[..i] && os[..i + 1][..i] == os[..i];
        if os[i].Named? {
          var e := Expr(args[i]);
          core := Let(os[i].x, e, core);
        }
      }
    }

    method Application(func: Term, args: seq<Term>) returns (core: Expr)
      modifies this
      ensures var (os, n1) := LowerOperands(args, old(gsym));
        var (f, n2) := LowerOperand(func, "f$", n1);
        var (e, n3) := LetOperands(args, os, App(OperandVal(f), OperandVals(os)), n2);
        (core, gsym) == LetOperand(func, f, e, n3)
      decreases AppT(func, args), 1
    {
      hide LowerOperands, LetOperands, LowerOperand, LowerExpr;
      var os := Operands(args);
      var f := Operand(func, "f$");
      core := Lets(args, os, App(OperandVal(f), OperandVals(os)));
      if f.Named? {
        var e := Expr(func);
        core := Let(f.x, e, core);
      }
    }

    method Closure(body: Term, binds: seq<Binding>) returns (core: Expr)
      modifies this
      ensures var (e, n1) := LowerExpr(body, old(gsym));
        (core, gsym) == LowerBindings(binds, e, n1)
      decreases LetsT(body, binds), 1
    {
      hide LowerExpr;
      core := Expr(body);
      ghost var whole := LowerBindings(binds, core, gsym);
      if core.Null? {
        return;
      }
      var i := |binds|;
      assert binds[..i] == binds;
      while i > 0
        invariant 0 <= i <= |binds| && !core.Null? && LowerBindings(binds[..i], core, gsym) == whole
      {
        i := i - 1;
        assert binds[..i + 1][..i] == binds[..i];
        var rhs := Expr(binds[i].rhs);
        if rhs.Null? {
          return Null;
        }
        core := Let(binds[i].x, rhs, core);
      }
    }

    method Expr(t: Term) returns (e: Expr)
      modifies this
      ensures (e, gsym) == LowerExpr(t, old(gsym))
      decreases t, 2
    {
      if IsConditional(t) {
        var c := Operand(t.args[0], "c$");
        var thenE := Expr(t.args[1]);
        var elseE := Expr(t.args[2]);
        e := If(OperandVal(c), thenE, elseE);
        if c.Named? {
          var bind := Expr(t.args[0]);
          e := Let(c.x, bind, e);
        }
      } else {
        match t {
          case AppT(func, args) => e := Application(func, args);
          case LetsT(body, binds) => e := Closure(body, binds);
          case _ =>
            var v := Val(t);
            e := if v.Some? then Value(v.value) else Null;
        }
      }
    }
  }
}
