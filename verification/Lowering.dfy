/** Lowering of source terms to Core IR: every operand is given a name unless it is a value already. */
module Lowering {
  import opened Options
  import opened CoreIr
  import opened Words
  import Decimal

  /** Source names: `$` is kept for generated ones, and `prelude` heads are lowered in another way. */
  type SrcName = x: Name | '$' !in x && x != "prelude" witness "x"

  datatype Term =
    | IntT(i: Int64)
    | StrT(s: string)
    | RefT(x: SrcName)
    | ConT(name: Name, args: seq<Term>)
    | LamT(param: SrcName, body: Term)
    | AppT(func: Term, args: seq<Term>)
    | LetsT(body: Term, binds: seq<Binding>)

  datatype Binding = Binding(x: SrcName, rhs: Term)

  /** A conditional is an application of this name to three arguments, whatever the name is bound to. */
  predicate IsConditional(t: Term) {
    t.AppT? && t.func == RefT("ifthenelse") && |t.args| == 3
  }

  // ---- The lowering --------------------------------------------------------

  function Gensym(prefix: string, n: nat): Name {
    prefix + Decimal.Digits(n)
  }

  /** An operand: a value, or the name given to a term that is none. */
  datatype Operand = Ready(v: Val) | Named(x: Name)

  function OperandVal(o: Operand): Val {
    if o.Ready? then o.v else VarV(o.x)
  }

  function OperandVals(os: seq<Operand>): (vs: seq<Val>)
    ensures |vs| == |os| && forall i :: 0 <= i < |os| ==> vs[i] == OperandVal(os[i])
  {
    seq(|os|, i requires 0 <= i < |os| => OperandVal(os[i]))
  }

  /** `lower_value`, with the gensym counter before and after. A term that is no value gives `None`. */
  function LowerValue(t: Term, n: nat): (r: (Option<Val>, nat))
    ensures n <= r.1
    decreases t, 0
  {
    match t
    case IntT(i) => (Some(IntV(i)), n)
    case StrT(s) => (Some(StrV(s)), n)
    case RefT(x) => (Some(VarV(x)), n)
    case ConT(name, args) =>
      var (vs, n') := LowerValues(args, n);
      (if vs.Some? then Some(ConV(name, vs.value)) else None, n')
    case LamT(param, body) =>
      var (e, n') := LowerExpr(body, n);
      (if e.Null? then None else Some(LamV(param, e)), n')
    case _ => (None, n)
  }

  /** Constructor arguments in order, giving up at the first that is no value. */
  function LowerValues(ts: seq<Term>, n: nat): (r: (Option<seq<Val>>, nat))
    ensures n <= r.1 && (r.0.Some? ==> |r.0.value| == |ts|)
    decreases ts, 0
  {
    if ts == [] then (Some([]), n)
    else
      var (vs, n1) := LowerValues(ts[..|ts| - 1], n);
      if vs.None? then (None, n1)
      else
        var (v, n2) := LowerValue(ts[|ts| - 1], n1);
        (if v.Some? then Some(vs.value + [v.value]) else None, n2)
  }

  /** An operand that is no value gets the next name with this prefix. */
  function LowerOperand(t: Term, prefix: string, n: nat): (r: (Operand, nat))
    ensures n <= r.1
    ensures r.0.Named? ==> n < r.1 && r.0.x == Gensym(prefix, r.1)
    decreases t, 1
  {
    var (v, n1) := LowerValue(t, n);
    if v.Some? then (Ready(v.value), n1) else (Named(Gensym(prefix, n1 + 1)), n1 + 1)
  }

  function LowerOperands(ts: seq<Term>, n: nat): (r: (seq<Operand>, nat))
    ensures n <= r.1 && |r.0| == |ts|
    decreases ts, 0
  {
    if ts == [] then ([], n)
    else
      var (os, n1) := LowerOperands(ts[..|ts| - 1], n);
      var (o, n2) := LowerOperand(ts[|ts| - 1], "a$", n1);
      (os + [o], n2)
  }

  /** One `let` around `core` if the operand was named. */
  function LetOperand(t: Term, o: Operand, core: Expr, n: nat): (r: (Expr, nat))
    ensures n <= r.1
    decreases t, 3
  {
    if o.Ready? then (core, n)
    else
      var (e, n') := LowerExpr(t, n);
      (Let(o.x, e, core), n')
  }

  /** The `let`s around an application, made from the last operand to the first. */
  function LetOperands(ts: seq<Term>, os: seq<Operand>, core: Expr, n: nat): (r: (Expr, nat))
    requires |ts| == |os|
    ensures n <= r.1
    decreases ts, 0
  {
    if ts == [] then (core, n)
    else
      var l := |ts| - 1;
      var (core', n') := LetOperand(ts[l], os[l], core, n);
      LetOperands(ts[..l], os[..l], core', n')
  }

  /** The bindings of a closure as nested `let`s, made from the last to the first; `Null` as soon as a part is. */
  function LowerBindings(bs: seq<Binding>, body: Expr, n: nat): (r: (Expr, nat))
    ensures n <= r.1
    decreases bs, 0
  {
    if bs == [] || body.Null? then (body, n)
    else
      var b := bs[|bs| - 1];
      assert b.rhs < b;
      var (rhs, n') := LowerExpr(b.rhs, n);
      LowerBindings(bs[..|bs| - 1], if rhs.Null? then Null else Let(b.x, rhs, body), n')
  }

  /** `lower_expr`, with the gensym counter before and after. */
  function LowerExpr(t: Term, n: nat): (r: (Expr, nat))
    ensures n <= r.1
    decreases t, 2
  {
    if IsConditional(t) then
      var (c, n1) := LowerOperand(t.args[0], "c$", n);
      var (thenE, n2) := LowerExpr(t.args[1], n1);
      var (elseE, n3) := LowerExpr(t.args[2], n2);
      LetOperand(t.args[0], c, If(OperandVal(c), thenE, elseE), n3)
    else match t
      case AppT(func, args) =>
        var (os, n1) := LowerOperands(args, n);
        var (f, n2) := LowerOperand(func, "f$", n1);
        var (core, n3) := LetOperands(args, os, App(OperandVal(f), OperandVals(os)), n2);
        LetOperand(func, f, core, n3)
      case LetsT(body, binds) =>
        var (e, n1) := LowerExpr(body, n);
        LowerBindings(binds, e, n1)
      case _ =>
        var (v, n') := LowerValue(t, n);
        (if v.Some? then Value(v.value) else Null, n')
  }
}
