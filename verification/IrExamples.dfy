/** Programs whose text is known, and the short form of a variable that is only ever read. */
module IrExamples {
  import opened Options
  import opened CoreIr
  import opened IrText
  import Decimal
  import opened Words
  import Lowering
  import RoundTrip = IrRoundTrip
  import Sites = EffectSites

  /** The digits. */
  lemma {:induction false} DigitTable(d: nat)
    requires d < 10
    ensures Decimal.Digits(d) == ["0123456789"[d]]
  {
    assert d == 0 || d == 1 || d == 2 || d == 3 || d == 4 || d == 5 || d == 6 || d == 7 || d == 8 || d == 9;
  }

  lemma {:induction false} IntText(d: nat, k: string)
    requires d < 10
    ensures PrintVal(IntV(d), k) == "(int " + (["0123456789"[d]] + (")" + k))
  {
    DigitTable(d);
    hide Decimal.Digits;
    var t := ["0123456789"[d]] + (")" + k);
    assert "(" + ("int" + (" " + t)) == "(int " + t;
  }

  lemma {:induction false} VarText(x: Name, k: string)
    ensures PrintVal(VarV(x), k) == "(var " + (x + (")" + k))
  {
    assert "(" + ("var" + (" " + (x + (")" + k)))) == "(var " + (x + (")" + k));
  }

  lemma {:induction false} StrText(s: string, k: string)
    ensures PrintVal(StrV(s), k) == "(str \"" + (s + ("\")" + k))
  {
    var t := "\"" + (")" + k);
    assert t == "\")" + k;
    assert "(" + ("str" + (" \"" + (s + t))) == "(str \"" + (s + t);
  }

  /** `(let E$1 (token) (effapp (var println) (var E$1) (str "hi")))`, in pieces. */
  lemma {:induction false} HelloText()
    ensures PrintExpr(Sites.HELLO, "\n")
         == "(let E$1 (token) " + ("(effapp " + ("(var println) " + ("(var E$1) " + ("(str \"hi\")" + "))\n"))))
  {
    var args := [StrV("hi")];
    assert args[1..] == [];
    hide PrintVal;
    var k4 := ")" + (")" + "\n");
    assert k4 == "))\n";
    assert PrintVals(args, k4) == " " + PrintVal(StrV("hi"), k4);
    var k3 := PrintVals(args, k4);
    var k2 := " " + PrintVal(VarV("E$1"), k3);
    var k1 := "(" + ("effapp" + (" " + PrintVal(VarV("println"), k2)));
    assert PrintExpr(Sites.HELLO.body, ")" + "\n") == k1;
    assert PrintExpr(Sites.HELLO, "\n")
      == "(" + ("let" + (" " + ("E$1" + (" " + ("(" + ("token" + (")" + (" " + k1))))))));
    HiText(k4);
    EffectText(PrintVal(StrV("hi"), k4), k2);
    LetText(k1);
  }

  lemma {:induction false} HiText(k: string)
    ensures PrintVal(StrV("hi"), k) == "(str \"hi\")" + k
  {
    StrText("hi", k);
    assert "(str \"" + ("hi" + ("\")" + k)) == "(str \"hi\")" + k;
  }

  lemma {:induction false} EffectText(k: string, k2: string)
    requires k2 == " " + PrintVal(VarV("E$1"), " " + k)
    ensures "(" + ("effapp" + (" " + PrintVal(VarV("println"), k2)))
         == "(effapp " + ("(var println) " + ("(var E$1) " + k))
  {
    VarText("E$1", " " + k);
    VarText("println", k2);
    hide PrintVal;
    NameText(k);
    assert k2 == " " + ("(var E$1) " + k);
    PrintlnText("(var E$1) " + k);
    OpenText("(var println) " + ("(var E$1) " + k));
  }

  lemma {:induction false} NameText(k: string)
    ensures "(var " + ("E$1" + (")" + (" " + k))) == "(var E$1) " + k
  {
  }

  lemma {:induction false} PrintlnText(k: string)
    ensures "(var " + ("println" + (")" + (" " + k))) == "(var println) " + k
  {
  }

  lemma {:induction false} OpenText(k: string)
    ensures "(" + ("effapp" + (" " + k)) == "(effapp " + k
  {
  }

  lemma {:induction false} LetText(k: string)
    ensures "(" + ("let" + (" " + ("E$1" + (" " + ("(" + ("token" + (")" + (" " + k))))))))
         == "(let E$1 (token) " + k
  {
  }

  // ---- The form of each kind -----------------------------------------------

  lemma {:induction false} ConText(name: Name, args: seq<Val>, k: string)
    ensures PrintVal(ConV(name, args), k) == "(" + (name + PrintVals(args, ")" + k))
  {
  }

  lemma {:induction false} ArgsText(v: Val, vs: seq<Val>, k: string)
    ensures PrintVals([v] + vs, k) == " " + PrintVal(v, PrintVals(vs, k)) && PrintVals([], k) == k
  {
    assert ([v] + vs)[1..] == vs;
  }

  lemma {:induction false} LamText(param: Name, body: Expr, k: string)
    ensures PrintVal(LamV(param, body), k) == "(lam " + (param + (" " + PrintExpr(body, ")" + k)))
  {
    var t := param + (" " + PrintExpr(body, ")" + k));
    assert "(" + ("lam" + (" " + t)) == "(lam " + t;
  }

  lemma {:induction false} NsText(x: Name, v: Val, k: string)
    ensures PrintVal(NsV([x], [v]), k) == "(nslit (" + (x + (" " + PrintVal(v, "))" + k)))
  {
    var names, vals := [x], [v];
    assert names[1..] == [] && vals[1..] == [];
    assert ")" + (")" + k) == "))" + k;
    var t := x + (" " + PrintVal(v, "))" + k));
    assert PrintMembers(names, vals, ")" + k) == " " + ("(" + t);
    assert "(" + ("nslit" + (" " + ("(" + t))) == "(nslit (" + t;
  }

  lemma {:induction false} AppText(func: Val, args: seq<Val>, k: string)
    ensures PrintExpr(App(func, args), k) == "(app " + PrintVal(func, PrintVals(args, ")" + k))
  {
    hide PrintVal, PrintVals;
    var t := PrintVal(func, PrintVals(args, ")" + k));
    assert "(" + ("app" + (" " + t)) == "(app " + t;
  }

  lemma {:induction false} BindText(x: Name, bind: Expr, body: Expr, k: string)
    ensures PrintExpr(Let(x, bind, body), k)
         == "(let " + (x + (" " + PrintExpr(bind, " " + PrintExpr(body, ")" + k))))
  {
    var t := x + (" " + PrintExpr(bind, " " + PrintExpr(body, ")" + k)));
    assert "(" + ("let" + (" " + t)) == "(let " + t;
  }

  lemma {:induction false} IfText(cond: Val, thenE: Expr, elseE: Expr, k: string)
    ensures PrintExpr(If(cond, thenE, elseE), k)
         == "(if " + PrintVal(cond, " " + PrintExpr(thenE, " " + PrintExpr(elseE, ")" + k)))
  {
    var t := PrintVal(cond, " " + PrintExpr(thenE, " " + PrintExpr(elseE, ")" + k)));
    assert "(" + ("if" + (" " + t)) == "(if " + t;
  }

  lemma {:induction false} TokenText(k: string)
    ensures PrintExpr(Token, k) == "(token)" + k
  {
    assert "(" + ("token" + (")" + k)) == "(token)" + k;
  }

  // ---- Lowering ------------------------------------------------------------

  const CHOICE: Lowering.Term :=
    Lowering.AppT(Lowering.RefT("ifthenelse"), [Lowering.RefT("true"), Lowering.IntT(1), Lowering.IntT(2)])

  /** `ifthenelse true 1 2` is printed as `(if (var true) (int 1) (int 2))`. */
  lemma {:induction false} ChoiceText(n: nat)
    ensures PrintExpr(Lowering.LowerExpr(CHOICE, n).0, "\n")
         == "(if " + ("(var true) " + ("(int 1) " + ("(int 2)" + ")\n")))
  {
    ChoiceLowered(n);
    hide Lowering.LowerExpr;
    IfText(VarV("true"), Value(IntV(1)), Value(IntV(2)), "\n");
    var k := ")" + "\n";
    assert k == ")\n";
    VarText("true", " " + PrintVal(IntV(1), " " + PrintVal(IntV(2), k)));
    IntText(1, " " + PrintVal(IntV(2), k));
    IntText(2, k);
    hide PrintVal;
    TrueText(PrintVal(IntV(1), " " + PrintVal(IntV(2), k)));
    OneText(PrintVal(IntV(2), k));
    TwoText(k);
  }

  lemma {:induction false} ChoiceLowered(n: nat)
    ensures Lowering.LowerExpr(CHOICE, n).0 == If(VarV("true"), Value(IntV(1)), Value(IntV(2)))
  {
  }

  lemma {:induction false} TrueText(k: string)
    ensures "(var " + ("true" + (")" + (" " + k))) == "(var true) " + k
  {
  }

  lemma {:induction false} OneText(k: string)
    ensures "(int " + (["0123456789"[1]] + (")" + (" " + k))) == "(int 1) " + k
  {
  }

  lemma {:induction false} TwoText(k: string)
    ensures "(int " + (["0123456789"[2]] + (")" + k)) == "(int 2)" + k
  {
  }

  lemma {:induction false} ConditionName()
    ensures Lowering.LowerOperand(CALL_G, "c$", 0) == (Lowering.Named("c$1"), 1)
  {
    DigitTable(1);
    hide Decimal.Digits;
    assert Lowering.LowerValue(CALL_G, 0) == (None, 0);
    assert "c$" + ["0123456789"[1]] == "c$1";
  }

  lemma {:induction false} NumberLowered(i: Int64, n: nat)
    ensures Lowering.LowerExpr(Lowering.IntT(i), n) == (Value(IntV(i)), n)
  {
  }

  /** A condition that is no value is named `c$1`, the first name there is. */
  lemma {:induction false} NamedCondition()
    ensures Lowering.LowerExpr(NAMED, 0).0
         == Let("c$1", App(VarV("g"), [IntV(3)]), If(VarV("c$1"), Value(IntV(1)), Value(IntV(2))))
  {
    hide Lowering.LowerOperand, Lowering.LowerValue, Lowering.LowerOperands, Lowering.LowerBindings,
      Lowering.LetOperands;
    ConditionName();
    NumberLowered(1, 1);
    NumberLowered(2, 1);
    CallLowered(1);
    assert Lowering.IsConditional(NAMED);
  }

  /** `ifthenelse (g 3) 1 2` */
  const NAMED: Lowering.Term := Lowering.AppT(Lowering.RefT("ifthenelse"), NAMED_ARGS)
  const NAMED_ARGS: seq<Lowering.Term> := [CALL_G, Lowering.IntT(1), Lowering.IntT(2)]
  const CALL_G: Lowering.Term := Lowering.AppT(Lowering.RefT("g"), [Lowering.IntT(3)])

  lemma {:induction false} CallLowered(n: nat)
    ensures Lowering.LowerExpr(CALL_G, n) == (App(VarV("g"), [IntV(3)]), n)
  {
    var ts := [Lowering.IntT(3)];
    assert ts[..0] == [] && Lowering.LowerOperands([], n) == ([], n);
    var os := [Lowering.Ready(IntV(3))];
    assert Lowering.LowerOperand(ts[0], "a$", n) == (os[0], n);
    assert [] + [os[0]] == os && Lowering.LowerOperands(ts[..|ts| - 1], n) == ([], n);
    assert Lowering.LowerOperands(ts, n) == (os, n);
    assert Lowering.OperandVals(os) == [IntV(3)];
    assert os[..0] == [];
    assert Lowering.LetOperands([], [], App(VarV("g"), [IntV(3)]), n) == (App(VarV("g"), [IntV(3)]), n);
    assert Lowering.LetOperands(ts, os, App(VarV("g"), [IntV(3)]), n) == (App(VarV("g"), [IntV(3)]), n);
  }

  lemma {:induction false} ArgumentName(n: nat)
    requires n < 9
    ensures Lowering.LowerOperand(CALL_G, "a$", n) == (Lowering.Named("a$" + ["0123456789"[n + 1]]), n + 1)
  {
    DigitTable(n + 1);
    hide Decimal.Digits;
    assert Lowering.LowerValue(CALL_G, n) == (None, n);
  }

  const CALLS: seq<Lowering.Term> := [CALL_G, CALL_G]

  lemma {:induction false} PairBuilt<T>(x: T, y: T)
    ensures [] + [x] == [x] && [x] + [y] == [x, y]
  {
  }

  lemma {:induction false} NextOperand(ts: seq<Lowering.Term>, t: Lowering.Term, n: nat, os: seq<Lowering.Operand>,
                                       n1: nat, o: Lowering.Operand, n2: nat)
    requires Lowering.LowerOperands(ts, n) == (os, n1) && Lowering.LowerOperand(t, "a$", n1) == (o, n2)
    ensures Lowering.LowerOperands(ts + [t], n) == (os + [o], n2)
  {
    hide Lowering.LowerOperand;
    assert (ts + [t])[..|ts|] == ts;
  }

  lemma {:induction false} TwoNames()
    ensures Lowering.LowerOperand(CALL_G, "a$", 0) == (Lowering.Named("a$1"), 1)
    ensures Lowering.LowerOperand(CALL_G, "a$", 1) == (Lowering.Named("a$2"), 2)
  {
    hide Lowering.LowerOperand;
    ArgumentName(0);
    ArgumentName(1);
    assert "a$" + ["0123456789"[1]] == "a$1" && "a$" + ["0123456789"[2]] == "a$2";
  }

  lemma {:induction false} ArgumentNames()
    ensures Lowering.LowerOperands(CALLS, 0) == ([Lowering.Named("a$1"), Lowering.Named("a$2")], 2)
  {
    var a, b := Lowering.Named("a$1"), Lowering.Named("a$2");
    assert Lowering.LowerOperands([], 0) == ([], 0);
    hide Lowering.LowerOperand, Lowering.LowerOperands;
    TwoNames();
    PairBuilt(CALL_G, CALL_G);
    PairBuilt(a, b);
    NextOperand([], CALL_G, 0, [], 0, a, 1);
    NextOperand([CALL_G], CALL_G, 0, [a], 1, b, 2);
  }

  const INNER: Expr := App(VarV("f"), [VarV("a$1"), VarV("a$2")])
  const CALLED: Expr := App(VarV("g"), [IntV(3)])

  lemma {:induction false} NextLet(ts: seq<Lowering.Term>, t: Lowering.Term, os: seq<Lowering.Operand>,
                                   o: Lowering.Operand, core: Expr, n: nat)
    requires |ts| == |os|
    ensures var (e, n1) := Lowering.LetOperand(t, o, core, n);
      Lowering.LetOperands(ts + [t], os + [o], core, n) == Lowering.LetOperands(ts, os, e, n1)
  {
    hide Lowering.LetOperand;
    assert (ts + [t])[..|ts|] == ts && (os + [o])[..|os|] == os;
  }

  lemma {:induction false} ArgumentLets()
    ensures Lowering.LetOperands(CALLS, [Lowering.Named("a$1"), Lowering.Named("a$2")], INNER, 2).0
         == Let("a$1", CALLED, Let("a$2", CALLED, INNER))
  {
    var a, b := Lowering.Named("a$1"), Lowering.Named("a$2");
    var e := Let("a$2", CALLED, INNER);
    CallLowered(2);
    LastLet(Let("a$1", CALLED, e), 2);
    hide Lowering.LowerExpr, Lowering.LetOperands;
    PairBuilt(CALL_G, CALL_G);
    PairBuilt(a, b);
    NextLet([CALL_G], CALL_G, [a], b, INNER, 2);
    NextLet([], CALL_G, [], a, e, 2);
  }

  lemma {:induction false} LastLet(core: Expr, n: nat)
    ensures Lowering.LetOperands([], [], core, n) == (core, n)
  {
  }

  /** `f (g 3) (g 3)`: arguments that are no values are named in order, the first outermost. */
  lemma {:induction false} NamedArguments()
    ensures Lowering.LowerExpr(Lowering.AppT(Lowering.RefT("f"), CALLS), 0).0
         == Let("a$1", CALLED, Let("a$2", CALLED, INNER))
  {
    hide Lowering.LowerOperands, Lowering.LetOperands, Lowering.LowerBindings;
    ArgumentNames();
    ArgumentLets();
    var os := [Lowering.Named("a$1"), Lowering.Named("a$2")];
    assert Lowering.OperandVals(os) == [VarV("a$1"), VarV("a$2")];
    assert Lowering.LowerOperand(Lowering.RefT("f"), "f$", 2) == (Lowering.Ready(VarV("f")), 2);
  }

  function Refs(xs: seq<Lowering.SrcName>): (ts: seq<Lowering.Term>)
    ensures |ts| == |xs|
  {
    seq(|xs|, i requires 0 <= i < |xs| => Lowering.RefT(xs[i]))
  }

  function Vars(xs: seq<Lowering.SrcName>): (vs: seq<Val>)
    ensures |vs| == |xs|
  {
    seq(|xs|, i requires 0 <= i < |xs| => VarV(xs[i]))
  }

  function Readies(xs: seq<Lowering.SrcName>): (os: seq<Lowering.Operand>)
    ensures |os| == |xs|
  {
    seq(|xs|, i requires 0 <= i < |xs| => Lowering.Ready(VarV(xs[i])))
  }

  lemma {:induction false} SplitLast(xs: seq<Lowering.SrcName>)
    requires xs != []
    ensures var l := |xs| - 1;
      && Refs(xs) == Refs(xs[..l]) + [Lowering.RefT(xs[l])]
      && Readies(xs) == Readies(xs[..l]) + [Lowering.Ready(VarV(xs[l]))]
  {
  }

  lemma {:induction false} ReadyOperands(xs: seq<Lowering.SrcName>, n: nat)
    ensures Lowering.LowerOperands(Refs(xs), n) == (Readies(xs), n)
  {
    if xs == [] {
    } else {
      var l := |xs| - 1;
      SplitLast(xs);
      ReadyOperands(xs[..l], n);
      var o := Lowering.Ready(VarV(xs[l]));
      assert Lowering.LowerOperand(Lowering.RefT(xs[l]), "a$", n) == (o, n);
      hide Lowering.LowerOperands, Lowering.LowerOperand;
      NextOperand(Refs(xs[..l]), Lowering.RefT(xs[l]), n, Readies(xs[..l]), n, o, n);
    }
  }

  lemma {:induction false} NoLets(xs: seq<Lowering.SrcName>, core: Expr, n: nat)
    ensures Lowering.LetOperands(Refs(xs), Readies(xs), core, n) == (core, n)
  {
    if xs == [] {
    } else {
      var l := |xs| - 1;
      SplitLast(xs);
      NoLets(xs[..l], core, n);
      hide Lowering.LetOperands;
      NextLet(Refs(xs[..l]), Lowering.RefT(xs[l]), Readies(xs[..l]), Lowering.Ready(VarV(xs[l])), core, n);
    }
  }

  /** An application to variables is lowered as it stands, whatever its head but `ifthenelse` with three arguments. */
  lemma {:induction false} PlainApplication(f: Lowering.SrcName, xs: seq<Lowering.SrcName>, n: nat)
    requires f != "ifthenelse" || |xs| != 3
    ensures Lowering.LowerExpr(Lowering.AppT(Lowering.RefT(f), Refs(xs)), n) == (App(VarV(f), Vars(xs)), n)
  {
    hide Lowering.LowerOperands, Lowering.LetOperands, Lowering.LowerBindings;
    ReadyOperands(xs, n);
    NoLets(xs, App(VarV(f), Vars(xs)), n);
    assert Lowering.OperandVals(Readies(xs)) == Vars(xs);
    assert Lowering.LowerOperand(Lowering.RefT(f), "f$", n) == (Lowering.Ready(VarV(f)), n);
  }

  // ---- The short form of a variable ----------------------------------------

  /** A bare symbol is read as the variable of that name, just as the long form, which alone is printed. */
  lemma {:induction false} BareSymbol(x: Name, rest: string)
    requires PlainName(x) && rest != "" && IsDelimiter(rest[0])
    ensures ParseVal(x + rest) == Some((VarV(x), rest)) && ParseVal(PrintVal(VarV(x), rest)) == Some((VarV(x), rest))
  {
    RoundTrip.SymbolHit(x, rest);
    BareIsNoParenthesis(x, rest);
    hide Accept, Symbol, PrintVal;
    RoundTrip.ReadVal(VarV(x), rest);
  }

  lemma {:induction false} BareIsNoParenthesis(x: Name, rest: string)
    requires PlainName(x)
    ensures Accept(x + rest, '(') == None
  {
    var t := x + rest;
    assert t[0] == x[0] && !IsDelimiter(x[0]);
    assert SkipWs(t) == t;
  }

  /** As a whole expression too. */
  lemma {:induction false} BareExpression(x: Name, rest: string)
    requires PlainName(x) && rest != "" && IsDelimiter(rest[0])
    ensures ParseExpr(x + rest) == Some((Value(VarV(x)), rest))
  {
    BareSymbol(x, rest);
    BareIsNoParenthesis(x, rest);
    hide Accept, ParseVal, PrintVal;
  }
}
