/** Which terms lower without leaving a null pointer behind. */
module LoweringNulls {
  import opened Options
  import opened CoreIr
  import opened Lowering

  /** The terms that are values: what may stand in a constructor. */
  predicate ValueForm(t: Term) {
    match t
    case AppT(_, _) => false
    case LetsT(_, _) => false
    case ConT(_, args) => forall i :: 0 <= i < |args| ==> ValueForm(args[i])
    case _ => true
  }

  /** Every constructor argument, at any depth, is a value. */
  predicate Lowerable(t: Term) {
    match t
    case ConT(_, args) => forall i :: 0 <= i < |args| ==> ValueForm(args[i]) && Lowerable(args[i])
    case LamT(_, body) => Lowerable(body)
    case AppT(func, args) => Lowerable(func) && forall i :: 0 <= i < |args| ==> Lowerable(args[i])
    case LetsT(body, binds) => Lowerable(body) && forall i :: 0 <= i < |binds| ==> Lowerable(binds[i].rhs)
    case _ => true
  }

  /** A null expression pointer occurs in a value. */
  predicate ValHasNull(v: Val) {
    match v
    case ConV(_, args) => exists i :: 0 <= i < |args| && ValHasNull(args[i])
    case LamV(_, body) => HasNull(body)
    case NsV(_, vals) => exists i :: 0 <= i < |vals| && ValHasNull(vals[i])
    case _ => false
  }

  predicate HasNull(e: Expr) {
    match e
    case Null => true
    case Value(v) => ValHasNull(v)
    case Let(_, bind, body) => HasNull(bind) || HasNull(body)
    case App(func, args) => ValHasNull(func) || exists i :: 0 <= i < |args| && ValHasNull(args[i])
    case If(cond, thenE, elseE) => ValHasNull(cond) || HasNull(thenE) || HasNull(elseE)
    case EffApp(func, token, args) =>
      ValHasNull(func) || ValHasNull(token) || exists i :: 0 <= i < |args| && ValHasNull(args[i])
    case Token => false
    case Match(scrut, cases) => ValHasNull(scrut) || exists i :: 0 <= i < |cases| && HasNull(cases[i].body)
  }

  predicate Whole(v: Option<Val>, t: Term) {
    && (Lowerable(t) ==> (v.Some? <==> ValueForm(t)))
    && (v.Some? ==> (ValHasNull(v.value) <==> !Lowerable(t)))
  }

  lemma {:induction false} ValueWhole(t: Term, n: nat)
    ensures Whole(LowerValue(t, n).0, t)
    decreases t, 0
  {
    match t
    case ConT(_, args) => ValuesWhole(args, n);
    case LamT(_, body) => ExprWhole(body, n);
    case _ =>
  }

  lemma {:induction false} ValuesWhole(ts: seq<Term>, n: nat)
    ensures var vs := LowerValues(ts, n).0;
      && ((forall i :: 0 <= i < |ts| ==> Lowerable(ts[i])) ==>
            (vs.Some? <==> forall i :: 0 <= i < |ts| ==> ValueForm(ts[i])))
      && (vs.Some? ==> forall i :: 0 <= i < |ts| ==>
              (Lowerable(ts[i]) ==> ValueForm(ts[i])) && (ValHasNull(vs.value[i]) <==> !Lowerable(ts[i])))
    decreases ts, 0
  {
    hide LowerValue, Lowerable, ValueForm, ValHasNull;
    if ts == [] {
    } else {
      var l := |ts| - 1;
      ValuesWhole(ts[..l], n);
      var (vs, n1) := LowerValues(ts[..l], n);
      ValueWhole(ts[l], n1);
      assert forall i :: 0 <= i < l ==> ts[..l][i] == ts[i];
    }
  }

  lemma {:induction false} OperandWhole(t: Term, prefix: string, n: nat)
    ensures var o := LowerOperand(t, prefix, n).0;
      && (Lowerable(t) ==> (o.Ready? <==> ValueForm(t)))
      && (o.Ready? ==> (ValHasNull(OperandVal(o)) <==> !Lowerable(t)))
    decreases t, 1
  {
    ValueWhole(t, n);
  }

  lemma {:induction false} OperandsWhole(ts: seq<Term>, n: nat)
    ensures var os := LowerOperands(ts, n).0;
      forall i :: 0 <= i < |ts| ==>
        && (Lowerable(ts[i]) ==> (os[i].Ready? <==> ValueForm(ts[i])))
        && (os[i].Ready? ==> (ValHasNull(OperandVal(os[i])) <==> !Lowerable(ts[i])))
    decreases ts, 0
  {
    hide LowerOperand, Lowerable, ValueForm, ValHasNull;
    if ts == [] {
    } else {
      var l := |ts| - 1;
      OperandsWhole(ts[..l], n);
      OperandWhole(ts[l], "a$", LowerOperands(ts[..l], n).1);
      assert forall i :: 0 <= i < l ==> ts[..l][i] == ts[i];
    }
  }

  lemma {:induction false} LetWhole(t: Term, o: Operand, core: Expr, n: nat)
    ensures HasNull(LetOperand(t, o, core, n).0) <==> HasNull(core) || (o.Named? && !Lowerable(t))
    decreases t, 3
  {
    ExprWhole(t, n);
  }

  lemma {:induction false} LetsWhole(ts: seq<Term>, os: seq<Operand>, core: Expr, n: nat)
    requires |ts| == |os|
    ensures HasNull(LetOperands(ts, os, core, n).0) <==>
            HasNull(core) || exists i :: 0 <= i < |ts| && os[i].Named? && !Lowerable(ts[i])
    decreases ts, 0
  {
    if ts == [] {
    } else {
      var l := |ts| - 1;
      var (core', n') := LetOperand(ts[l], os[l], core, n);
      LetWhole(ts[l], os[l], core, n);
      LetsWhole(ts[..l], os[..l], core', n');
      assert forall i :: 0 <= i < l ==> ts[..l][i] == ts[i] && os[..l][i] == os[i];
    }
  }

  lemma {:induction false} BindingsWhole(bs: seq<Binding>, body: Expr, n: nat)
    ensures HasNull(LowerBindings(bs, body, n).0) <==>
            HasNull(body) || exists i :: 0 <= i < |bs| && !Lowerable(bs[i].rhs)
    decreases bs, 0
  {
    hide LowerExpr, Lowerable, ValHasNull;
    if bs == [] || body.Null? {
    } else {
      var l := |bs| - 1;
      var b := bs[l];
      assert b.rhs < b;
      ExprWhole(b.rhs, n);
      var (rhs, n') := LowerExpr(b.rhs, n);
      BindingsWhole(bs[..l], if rhs.Null? then Null else Let(b.x, rhs, body), n');
      assert forall i :: 0 <= i < l ==> bs[..l][i] == bs[i];
    }
  }

  lemma {:induction false} ConditionalParts(t: Term)
    requires IsConditional(t)
    ensures Lowerable(t) <==> Lowerable(t.args[0]) && Lowerable(t.args[1]) && Lowerable(t.args[2])
  {
    assert Lowerable(t.func);
  }

  lemma {:induction false} ConditionalWhole(t: Term, n: nat)
    requires IsConditional(t)
    ensures HasNull(LowerExpr(t, n).0) <==> !Lowerable(t)
    decreases t, 1
  {
    ConditionalParts(t);
    hide LetOperand, LowerOperand, ValueForm, Lowerable, ValHasNull;
    var (c, n1) := LowerOperand(t.args[0], "c$", n);
    OperandWhole(t.args[0], "c$", n);
    var (thenE, n2) := LowerExpr(t.args[1], n1);
    ExprWhole(t.args[1], n1);
    var (elseE, n3) := LowerExpr(t.args[2], n2);
    ExprWhole(t.args[2], n2);
    LetWhole(t.args[0], c, If(OperandVal(c), thenE, elseE), n3);
  }

  lemma {:induction false} ApplicationWhole(t: Term, n: nat)
    requires t.AppT? && !IsConditional(t)
    ensures HasNull(LowerExpr(t, n).0) <==> !Lowerable(t)
    decreases t, 1
  {
    hide LetOperand, LetOperands, LowerOperand, LowerOperands, ValueForm;
    var (os, n1) := LowerOperands(t.args, n);
    OperandsWhole(t.args, n);
    var (f, n2) := LowerOperand(t.func, "f$", n1);
    OperandWhole(t.func, "f$", n1);
    var app := App(OperandVal(f), OperandVals(os));
    var (core, n3) := LetOperands(t.args, os, app, n2);
    LetsWhole(t.args, os, app, n2);
    LetWhole(t.func, f, core, n3);
  }

  /** Lowering leaves no null pointer exactly for the terms whose constructor arguments are values. */
  lemma {:induction false} ExprWhole(t: Term, n: nat)
    ensures HasNull(LowerExpr(t, n).0) <==> !Lowerable(t)
    decreases t, 2
  {
    hide LowerBindings, LowerValue;
    if IsConditional(t) {
      ConditionalWhole(t, n);
    } else {
      match t
      case AppT(_, _) => ApplicationWhole(t, n);
      case LetsT(body, binds) =>
        ExprWhole(body, n);
        var (e, n1) := LowerExpr(body, n);
        BindingsWhole(binds, e, n1);
      case _ => ValueWhole(t, n);
    }
  }
}
