/** From the source term through lowering, printing and reading to evaluation. */
module Pipeline {
  import opened CoreIr
  import opened Lowering
  import opened LoweringNulls
  import opened LoweringMeaning
  import opened IrText
  import opened IrRoundTrip
  import Decimal

  /** Every name and string of the term survives the text form. */
  predicate PlainTerm(t: Term) {
    match t
    case IntT(_) => true
    case StrT(s) => '"' !in s
    case RefT(x) => PlainName(x)
    case ConT(name, args) =>
      && PlainName(name) && NoValKeyword(name) && NoExprKeyword(name)
      && forall i :: 0 <= i < |args| ==> PlainTerm(args[i])
    case LamT(param, body) => PlainName(param) && PlainTerm(body)
    case AppT(func, args) => PlainTerm(func) && forall i :: 0 <= i < |args| ==> PlainTerm(args[i])
    case LetsT(body, binds) =>
      PlainTerm(body) && forall i :: 0 <= i < |binds| ==> PlainName(binds[i].x) && PlainTerm(binds[i].rhs)
  }

  predicate Fit(t: Term) {
    Lowerable(t) && PlainTerm(t)
  }

  /** Generated names survive it too. */
  lemma {:induction false} GensymPlain(prefix: string, n: nat)
    requires PlainName(prefix)
    ensures PlainName(Gensym(prefix, n))
  {
    var x := Gensym(prefix, n);
    assert x[0] == prefix[0];
    forall i | 0 <= i < |x|
      ensures !IsDelimiter(x[i])
    {
      if i >= |prefix| {
        assert x[i] == Decimal.Digits(n)[i - |prefix|];
      }
    }
  }

  lemma {:induction false} ValueReadable(t: Term, n: nat)
    requires Fit(t) && LowerValue(t, n).0.Some?
    ensures Readable(Value(LowerValue(t, n).0.value))
    decreases t, 0
  {
    match t
    case ConT(_, args) => ValuesReadable(args, n);
    case LamT(_, body) => LoweredReadable(body, n);
    case _ =>
  }

  lemma {:induction false} ValuesReadable(ts: seq<Term>, n: nat)
    requires (forall i :: 0 <= i < |ts| ==> Fit(ts[i])) && LowerValues(ts, n).0.Some?
    ensures forall i :: 0 <= i < |ts| ==> ReadableVal(LowerValues(ts, n).0.value[i])
    decreases ts, 0
  {
    hide ReadableVal, Fit, LowerValue;
    if ts == [] {
    } else {
      var l := |ts| - 1;
      ValuesReadable(ts[..l], n);
      var n1 := LowerValues(ts[..l], n).1;
      ValueReadable(ts[l], n1);
      ReadableValue(LowerValue(ts[l], n1).0.value);
    }
  }

  lemma {:induction false} ReadableValue(v: Val)
    requires Readable(Value(v))
    ensures ReadableVal(v)
  {
  }

  lemma {:induction false} OperandReadable(t: Term, prefix: string, n: nat)
    requires Fit(t) && PlainName(prefix)
    ensures var o := LowerOperand(t, prefix, n).0; ReadableVal(OperandVal(o)) && (o.Named? ==> PlainName(o.x))
    decreases t, 1
  {
    hide ReadableVal, PlainName, LowerValue, Fit, Readable;
    var v := LowerValue(t, n).0;
    if v.Some? {
      ValueReadable(t, n);
      ReadableValue(v.value);
    } else {
      var x := LowerOperand(t, prefix, n).0.x;
      GensymPlain(prefix, LowerOperand(t, prefix, n).1);
      ReadableVar(x);
    }
  }

  lemma {:induction false} ReadableVar(x: Name)
    ensures ReadableVal(VarV(x)) <==> PlainName(x)
  {
  }

  predicate PlainOperands(os: seq<Operand>) {
    forall i :: 0 <= i < |os| ==> ReadableVal(OperandVal(os[i])) && (os[i].Named? ==> PlainName(os[i].x))
  }

  lemma {:induction false} OperandsReadable(ts: seq<Term>, n: nat)
    requires forall i :: 0 <= i < |ts| ==> Fit(ts[i])
    ensures PlainOperands(LowerOperands(ts, n).0)
    decreases ts, 0
  {
    if ts == [] {
    } else {
      var l := |ts| - 1;
      assert PlainName("a$");
      hide PlainName, Fit, LowerOperand;
      OperandsReadable(ts[..l], n);
      OperandReadable(ts[l], "a$", LowerOperands(ts[..l], n).1);
    }
  }

  lemma {:induction false} LetReadable(t: Term, o: Operand, core: Expr, n: nat)
    requires Fit(t) && Readable(core) && (o.Named? ==> PlainName(o.x))
    ensures Readable(LetOperand(t, o, core, n).0)
    decreases t, 3
  {
    hide LowerExpr, Fit, PlainName;
    LoweredReadable(t, n);
  }

  lemma {:induction false} LetsReadable(ts: seq<Term>, os: seq<Operand>, core: Expr, n: nat)
    requires |ts| == |os| && Readable(core) && PlainOperands(os) && forall i :: 0 <= i < |ts| ==> Fit(ts[i])
    ensures Readable(LetOperands(ts, os, core, n).0)
    decreases ts, 0
  {
    hide LetOperand, Fit, PlainName, Readable;
    if ts == [] {
    } else {
      var l := |ts| - 1;
      LetReadable(ts[l], os[l], core, n);
      var (core', n') := LetOperand(ts[l], os[l], core, n);
      LetsReadable(ts[..l], os[..l], core', n');
    }
  }

  lemma {:induction false} BindingsReadable(bs: seq<Binding>, body: Expr, n: nat)
    requires Readable(body) && forall i :: 0 <= i < |bs| ==> PlainName(bs[i].x) && Fit(bs[i].rhs)
    ensures Readable(LowerBindings(bs, body, n).0)
    decreases bs, 0
  {
    hide LowerExpr, Fit, PlainName;
    if bs == [] {
    } else {
      var b := bs[|bs| - 1];
      assert b.rhs < b;
      LoweredReadable(b.rhs, n);
      var (rhs, n') := LowerExpr(b.rhs, n);
      BindingsReadable(bs[..|bs| - 1], Let(b.x, rhs, body), n');
    }
  }

  /** What lowering makes of a plain term can be read back. */
  lemma {:induction false} LoweredReadable(t: Term, n: nat)
    requires Fit(t)
    ensures Readable(LowerExpr(t, n).0)
    decreases t, 2
  {
    if IsConditional(t) {
      ConditionalReadable(t, n);
    } else {
      match t
      case AppT(_, _) => ApplicationReadable(t, n);
      case LetsT(body, binds) =>
        LoweredReadable(body, n);
        var (e, n1) := LowerExpr(body, n);
        BindingsReadable(binds, e, n1);
      case _ =>
        ValueIsValue(t, n);
        ValueReadable(t, n);
    }
  }

  lemma {:induction false} ConditionalReadable(t: Term, n: nat)
    requires Fit(t) && IsConditional(t)
    ensures Readable(LowerExpr(t, n).0)
    decreases t, 1
  {
    assert PlainName("c$");
    hide LetOperand, LowerOperand, ReadableVal, PlainName;
    var (c, n1) := LowerOperand(t.args[0], "c$", n);
    OperandReadable(t.args[0], "c$", n);
    var (thenE, n2) := LowerExpr(t.args[1], n1);
    LoweredReadable(t.args[1], n1);
    var (elseE, n3) := LowerExpr(t.args[2], n2);
    LoweredReadable(t.args[2], n2);
    LetReadable(t.args[0], c, If(OperandVal(c), thenE, elseE), n3);
  }

  lemma {:induction false} ApplicationReadable(t: Term, n: nat)
    requires Fit(t) && t.AppT? && !IsConditional(t)
    ensures Readable(LowerExpr(t, n).0)
    decreases t, 1
  {
    assert PlainName("f$");
    hide LetOperand, LetOperands, LowerOperand, LowerOperands, PlainName;
    var (os, n1) := LowerOperands(t.args, n);
    OperandsReadable(t.args, n);
    var (f, n2) := LowerOperand(t.func, "f$", n1);
    OperandReadable(t.func, "f$", n1);
    var app := App(OperandVal(f), OperandVals(os));
    assert AllReadable(OperandVals(os));
    var (core, n3) := LetOperands(t.args, os, app, n2);
    LetsReadable(t.args, os, app, n2);
    LetReadable(t.func, f, core, n3);
  }

  /** Lowering, printing, reading and evaluating gives what the source term gives, with the same calls. */
  lemma {:induction false} EndToEnd(m: Mode, t: Term, n: nat, fuel: nat)
    requires Lowerable(t) && PlainTerm(t)
    ensures ReadProgram(PrintProgram(LowerExpr(t, n).0)).Some?
    ensures RelO(EvalT(t, SEmpty, fuel),
      Eval(m, ReadProgram(PrintProgram(LowerExpr(t, n).0)).value, Empty, false, fuel).val)
  {
    hide LowerExpr, ReadProgram, PrintProgram, Eval, EvalT, RelV;
    LoweredReadable(t, n);
    PipeIdentity(LowerExpr(t, n).0);
    ProgramCorrect(m, t, n, fuel);
  }
}
