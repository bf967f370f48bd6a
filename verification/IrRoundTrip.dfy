/** Reading back what was printed gives the same expression, for exactly the readable ones. */
module IrRoundTrip {
  import opened Options
  import opened CoreIr
  import opened IrText
  import opened Words
  import Decimal

  // ---- Tokens --------------------------------------------------------------

  /** Text the reader does not skip at. */
  predicate Tight(t: string) {
    t != "" && !IsSpace(t[0]) && t[0] != ';'
  }

  lemma {:induction false} SkipSpace(t: string)
    ensures SkipWs(" " + t) == SkipWs(t)
  {
    assert (" " + t)[1..] == t;
  }

  lemma {:induction false} AcceptHead(c: char, t: string)
    requires !IsSpace(c) && c != ';'
    ensures Accept([c] + t, c) == Some(t) && Accept(" " + ([c] + t), c) == Some(t)
    ensures forall d :: d != c ==> Accept([c] + t, d) == None && Accept(" " + ([c] + t), d) == None
  {
    SkipSpace([c] + t);
    assert ([c] + t)[1..] == t;
  }

  /** A word followed by a delimiter is recognized as a keyword exactly if the keyword is a prefix of it. */
  lemma {:induction false} KeywordMiss(kw: string, x: string, rest: string)
    requires x != "" && x[0] != ';' && !IsDelimiter(x[0]) && !(kw <= x)
    requires (rest == "" || IsDelimiter(rest[0])) && forall i :: 0 <= i < |kw| ==> !IsDelimiter(kw[i])
    ensures Keyword(x + rest, kw) == None
  {
    var t := x + rest;
    assert t[0] == x[0] && SkipWs(t) == t;
    if |kw| <= |x| {
      var i :| 0 <= i < |kw| && kw[i] != x[i];
      assert t[i] == x[i];
    } else if rest != "" {
      assert t[|x|] == rest[0];
    }
  }

  lemma {:induction false} KeywordHit(kw: string, rest: string)
    requires Tight(kw)
    ensures Keyword(kw + rest, kw) == Some(rest)
  {
    assert (kw + rest)[0] == kw[0] && (kw + rest)[|kw|..] == rest;
  }

  lemma {:induction false} SymbolLengthHit(x: string, rest: string)
    requires (forall i :: 0 <= i < |x| ==> !IsDelimiter(x[i])) && rest != "" && IsDelimiter(rest[0])
    ensures SymbolLength(x + rest) == |x|
  {
    var t := x + rest;
    assert t[|x|] == rest[0] && forall i :: 0 <= i < |x| ==> t[i] == x[i];
  }

  lemma {:induction false} SymbolHit(x: Name, rest: string)
    requires PlainName(x) && rest != "" && IsDelimiter(rest[0])
    ensures Symbol(x + rest) == Some((x, rest)) && Symbol(" " + (x + rest)) == Some((x, rest))
  {
    var t := x + rest;
    assert t[0] == x[0];
    SkipSpace(t);
    SymbolLengthHit(x, rest);
    assert t[..|x|] == x && t[|x|..] == rest;
  }

  lemma {:induction false} QuotedHit(s: string, rest: string)
    requires '"' !in s
    ensures Quoted(" \"" + (s + ("\"" + rest))) == Some((s, rest))
  {
    var t := s + ("\"" + rest);
    AcceptHead('"', t);
    assert " \"" + t == " " + (['"'] + t);
    assert t[|s|] == '"' && forall i :: 0 <= i < |s| ==> t[i] == s[i];
    assert QuoteLength(t) == |s|;
    assert t[..|s|] == s && t[|s| + 1..] == rest;
  }

  lemma {:induction false} ReadSplit(s: string, rest: string, v: Int64)
    requires forall i :: 0 <= i < |s| ==> Decimal.IsDigit(s[i])
    ensures ReadDigits(s + rest, v) == ReadDigits(rest, ReadDigits(s, v).0)
    decreases |s|
  {
    if s == "" {
      assert s + rest == rest;
    } else {
      assert (s + rest)[1..] == s[1..] + rest;
      ReadSplit(s[1..], rest, Wrap64(v * 10 + Decimal.DigitValue(s[0])));
    }
  }

  lemma {:induction false} LastDigit(d: nat, v: Int64)
    requires d < 10
    ensures ReadDigits([Decimal.Digit(d)], v).0 == Wrap64(v * 10 + d)
  {
    var s := [Decimal.Digit(d)];
    assert s[1..] == "";
    hide Wrap64;
    assert ReadDigits(s, v) == ReadDigits(s[1..], Wrap64(v * 10 + d));
  }

  /** The digits of any number up to 2^63 read as that number, wrapped. */
  lemma {:induction false} DigitsRead(n: nat)
    requires n <= 0x8000_0000_0000_0000
    ensures ReadDigits(Decimal.Digits(n), 0).0 == Wrap64(n)
  {
    hide ReadDigits;
    LastDigit(n % 10, if n < 10 then 0 else n / 10);
    if n < 10 {
    } else {
      DigitsRead(n / 10);
      ReadSplit(Decimal.Digits(n / 10), [Decimal.Digit(n % 10)], 0);
      assert Wrap64(n / 10) == n / 10;
    }
  }

  lemma {:induction false} IntegerSign(ds: string, rest: string)
    requires ds != "" && Decimal.IsDigit(ds[0])
    ensures Integer(" " + (ds + rest)) == ReadDigits(ds + rest, 0)
    ensures var (v, r) := ReadDigits(ds + rest, 0); Integer(" " + ("-" + ds + rest)) == (Wrap64(-(v as int)), r)
  {
    hide ReadDigits, Wrap64;
    SkipSpace(ds + rest);
    assert (ds + rest)[0] == ds[0];
    var t := "-" + ds + rest;
    SkipSpace(t);
    assert t[0] == '-' && t[1..] == ds + rest;
  }

  lemma {:induction false} IntegerHit(i: Int64, rest: string)
    requires rest != "" && !Decimal.IsDigit(rest[0])
    ensures Integer(" " + (Decimal.Print(i) + rest)) == (i, rest)
  {
    hide Integer, Decimal.Digits;
    var n: nat := if i < 0 then -(i as int) else i;
    var ds := Decimal.Digits(n);
    DigitsRead(n);
    ReadSplit(ds, rest, 0);
    IntegerSign(ds, rest);
  }

  lemma {:induction false} SpacedVal(t: string)
    ensures ParseVal(" " + t) == ParseVal(t)
  {
    SkipSpace(t);
  }

  lemma {:induction false} SpacedExpr(t: string)
    ensures ParseExpr(" " + t) == ParseExpr(t)
  {
    SkipSpace(t);
    SpacedVal(t);
  }

  // ---- Values --------------------------------------------------------------

  /** A word no keyword of a value is a prefix of. */
  lemma {:induction false} NoValHead(x: string, rest: string)
    requires PlainName(x) && NoValKeyword(x) && (rest == "" || IsDelimiter(rest[0]))
    ensures Keyword(x + rest, "int").None? && Keyword(x + rest, "str").None? && Keyword(x + rest, "var").None?
    ensures Keyword(x + rest, "lam").None? && Keyword(x + rest, "nslit").None?
  {
    KeywordMiss("int", x, rest);
    KeywordMiss("str", x, rest);
    KeywordMiss("var", x, rest);
    KeywordMiss("lam", x, rest);
    KeywordMiss("nslit", x, rest);
  }

  lemma {:induction false} NoExprHead(x: string, rest: string)
    requires PlainName(x) && NoExprKeyword(x) && (rest == "" || IsDelimiter(rest[0]))
    ensures Keyword(x + rest, "app").None? && Keyword(x + rest, "let").None? && Keyword(x + rest, "if").None?
    ensures Keyword(x + rest, "match").None? && Keyword(x + rest, "effapp").None? && Keyword(x + rest, "token").None?
  {
    KeywordMiss("app", x, rest);
    KeywordMiss("let", x, rest);
    KeywordMiss("if", x, rest);
    KeywordMiss("match", x, rest);
    KeywordMiss("effapp", x, rest);
    KeywordMiss("token", x, rest);
  }

  lemma {:induction false} DelimitedArgs(vs: seq<Val>, k: string)
    ensures PrintVals(vs, [')'] + k) != "" && IsDelimiter(PrintVals(vs, [')'] + k)[0])
  {
  }

  lemma {:induction false} DelimitedMembers(names: seq<Name>, vals: seq<Val>, k: string)
    requires |names| == |vals|
    ensures PrintMembers(names, vals, [')'] + k) != "" && IsDelimiter(PrintMembers(names, vals, [')'] + k)[0])
  {
  }

  lemma {:induction false} ReadVal(v: Val, k: string)
    requires ReadableVal(v)
    ensures ParseVal(PrintVal(v, k)) == Some((v, k)) && ParseVal(" " + PrintVal(v, k)) == Some((v, k))
    ensures Accept(" " + PrintVal(v, k), ')').None?
    decreases v, 1
  {
    hide PrintBody, ParseValTail, ReadableVal, Accept;
    AcceptHead('(', PrintBody(v, k));
    ReadBody(v, k);
    SpacedVal(PrintVal(v, k));
  }

  /** What follows the opening parenthesis of a value. */
  lemma {:induction false} ReadBody(v: Val, k: string)
    requires ReadableVal(v)
    ensures ParseValTail(PrintBody(v, k)) == Some((v, k))
    decreases v, 0
  {
    hide PrintVal, PrintVals, PrintMembers, PrintExpr;
    match v
    case IntV(i) => ReadInt(i, k);
    case StrV(s) => ReadStr(s, k);
    case VarV(x) => ReadVar(x, k);
    case ConV(name, args) => ReadCon(name, args, k);
    case LamV(param, body) => ReadLam(param, body, k);
    case NsV(names, vals) => ReadNs(names, vals, k);
  }

  lemma {:induction false} ReadInt(i: Int64, k: string)
    ensures ParseValTail("int" + (" " + (Decimal.Print(i) + ([')'] + k)))) == Some((IntV(i), k))
  {
    hide Integer, Decimal.Print, Accept, Keyword;
    KeywordHit("int", " " + (Decimal.Print(i) + ([')'] + k)));
    IntegerHit(i, [')'] + k);
    AcceptHead(')', k);
  }

  lemma {:induction false} ReadStr(s: string, k: string)
    requires '"' !in s
    ensures ParseValTail("str" + (" \"" + (s + ("\"" + ([')'] + k))))) == Some((StrV(s), k))
  {
    hide Quoted, Accept, Keyword;
    var p := " \"" + (s + ("\"" + ([')'] + k)));
    KeywordMiss("int", "str", p);
    KeywordHit("str", p);
    QuotedHit(s, [')'] + k);
    AcceptHead(')', k);
  }

  lemma {:induction false} ReadVar(x: Name, k: string)
    requires PlainName(x)
    ensures ParseValTail("var" + (" " + (x + ([')'] + k)))) == Some((VarV(x), k))
  {
    hide Symbol, Accept, Keyword, PlainName;
    var p := " " + (x + ([')'] + k));
    KeywordMiss("int", "var", p);
    KeywordMiss("str", "var", p);
    KeywordHit("var", p);
    SymbolHit(x, [')'] + k);
    AcceptHead(')', k);
  }

  lemma {:induction false} ReadCon(name: Name, args: seq<Val>, k: string)
    requires ReadableVal(ConV(name, args))
    ensures ParseValTail(name + PrintVals(args, [')'] + k)) == Some((ConV(name, args), k))
    decreases args, 1
  {
    hide Symbol, Accept, Keyword, PlainName, NoValKeyword, PrintVals;
    var p := PrintVals(args, [')'] + k);
    DelimitedArgs(args, k);
    NoValHead(name, p);
    SymbolHit(name, p);
    ReadArgs(args, [], k);
    assert [] + args == args;
  }

  lemma {:induction false} ReadArgs(vs: seq<Val>, acc: seq<Val>, k: string)
    requires AllReadable(vs)
    ensures ParseArgs(PrintVals(vs, [')'] + k), acc) == Some((acc + vs, k))
    decreases vs, 0
  {
    hide PrintVal, ParseVal, ReadableVal, Accept;
    if vs == [] {
      AcceptHead(')', k);
      assert acc + vs == acc;
    } else {
      ReadVal(vs[0], PrintVals(vs[1..], [')'] + k));
      ReadArgs(vs[1..], acc + [vs[0]], k);
      assert acc + [vs[0]] + vs[1..] == acc + vs;
    }
  }

  lemma {:induction false} ReadLam(param: Name, body: Expr, k: string)
    requires PlainName(param) && Readable(body)
    ensures ParseValTail("lam" + (" " + (param + (" " + PrintExpr(body, [')'] + k))))) == Some((LamV(param, body), k))
    decreases body, 5
  {
    hide Symbol, Accept, Keyword, PlainName, PrintExpr, ParseExpr, Readable;
    var t1 := " " + PrintExpr(body, [')'] + k);
    var p := " " + (param + t1);
    KeywordMiss("int", "lam", p);
    KeywordMiss("str", "lam", p);
    KeywordMiss("var", "lam", p);
    KeywordHit("lam", p);
    SymbolHit(param, t1);
    ReadExpr(body, [')'] + k);
    AcceptHead(')', k);
  }

  lemma {:induction false} ReadNs(names: seq<Name>, vals: seq<Val>, k: string)
    requires ReadableVal(NsV(names, vals))
    ensures ParseValTail("nslit" + PrintMembers(names, vals, [')'] + k)) == Some((NsV(names, vals), k))
    decreases vals, 1
  {
    hide Accept, Keyword, PrintMembers, ParseMembers;
    var p := PrintMembers(names, vals, [')'] + k);
    DelimitedMembers(names, vals, k);
    KeywordMiss("int", "nslit", p);
    KeywordMiss("str", "nslit", p);
    KeywordMiss("var", "nslit", p);
    KeywordMiss("lam", "nslit", p);
    KeywordHit("nslit", p);
    ReadMembers(names, vals, [], [], k);
    assert [] + names == names && [] + vals == vals;
  }

  lemma {:induction false} ReadMembers(names: seq<Name>, vals: seq<Val>, ns: seq<Name>, vs: seq<Val>, k: string)
    requires |names| == |vals| && forall i :: 0 <= i < |vals| ==> PlainName(names[i]) && ReadableVal(vals[i])
    ensures ParseMembers(PrintMembers(names, vals, [')'] + k), ns, vs) == Some((NsV(ns + names, vs + vals), k))
    decreases vals, 0
  {
    hide PrintVal, ParseVal, ReadableVal, Accept, Symbol, PlainName;
    if vals == [] {
      AcceptHead(')', k);
      assert ns + names == ns && vs + vals == vs;
    } else {
      var t4 := PrintMembers(names[1..], vals[1..], [')'] + k);
      var t2 := " " + PrintVal(vals[0], [')'] + t4);
      AcceptHead('(', names[0] + t2);
      SymbolHit(names[0], t2);
      ReadVal(vals[0], [')'] + t4);
      AcceptHead(')', t4);
      ReadMembers(names[1..], vals[1..], ns + [names[0]], vs + [vals[0]], k);
      assert ns + [names[0]] + names[1..] == ns + names && vs + [vals[0]] + vals[1..] == vs + vals;
    }
  }

  // ---- Expressions ---------------------------------------------------------

  lemma {:induction false} ReadExpr(e: Expr, k: string)
    requires Readable(e)
    ensures ParseExpr(PrintExpr(e, k)) == Some((e, k)) && ParseExpr(" " + PrintExpr(e, k)) == Some((e, k))
    decreases e, 3
  {
    SpacedExpr(PrintExpr(e, k));
    match e
    case Value(v) => ReadValue(v, k);
    case App(func, args) => ReadApp(func, args, k);
    case Let(x, bind, body) => ReadLet(x, bind, body, k);
    case If(cond, thenE, elseE) => ReadIf(cond, thenE, elseE, k);
    case EffApp(func, token, args) => ReadEffApp(func, token, args, k);
    case Token => ReadToken(k);
  }

  lemma {:induction false} ReadValue(v: Val, k: string)
    requires Readable(Value(v))
    ensures ParseExpr(PrintVal(v, k)) == Some((Value(v), k))
    decreases v, 2
  {
    hide PrintBody, ParseValTail, ReadableVal, Accept, Keyword;
    OpenExpr(PrintBody(v, k));
    ReadBody(v, k);
    BodyIsNoExpr(v, k);
  }

  /** No keyword of an expression stands at the head of a value. */
  lemma {:induction false} BodyIsNoExpr(v: Val, k: string)
    requires Readable(Value(v))
    ensures var t := PrintBody(v, k);
      && Keyword(t, "app").None? && Keyword(t, "let").None? && Keyword(t, "if").None?
      && Keyword(t, "match").None? && Keyword(t, "effapp").None? && Keyword(t, "token").None?
  {
    hide Keyword, PrintExpr;
    assert "let"[1] != "lam"[1] && "if"[1] != "int"[1];
    match v
    case IntV(i) => NoExprHead("int", " " + (Decimal.Print(i) + ([')'] + k)));
    case StrV(s) => NoExprHead("str", " \"" + (s + ("\"" + ([')'] + k))));
    case VarV(x) => NoExprHead("var", " " + (x + ([')'] + k)));
    case ConV(name, args) =>
      DelimitedArgs(args, k);
      NoExprHead(name, PrintVals(args, [')'] + k));
    case LamV(param, body) => NoExprHead("lam", " " + (param + (" " + PrintExpr(body, [')'] + k))));
    case NsV(names, vals) =>
      DelimitedMembers(names, vals, k);
      NoExprHead("nslit", PrintMembers(names, vals, [')'] + k));
  }

  lemma {:induction false} OpenExpr(t: string)
    ensures ParseExpr(['('] + t) == ParseExprTail(t)
  {
    AcceptHead('(', t);
  }

  lemma {:induction false} OpenLet(t: string)
    requires t != "" && IsDelimiter(t[0])
    ensures ParseExpr(['('] + ("let" + t)) == ParseLet(t)
  {
    hide Keyword, ParseExpr, ParseLet;
    OpenExpr("let" + t);
    KeywordMiss("app", "let", t);
    KeywordHit("let", t);
  }

  lemma {:induction false} OpenIf(t: string)
    requires t != "" && IsDelimiter(t[0])
    ensures ParseExpr(['('] + ("if" + t)) == ParseIf(t)
  {
    hide Keyword, ParseExpr, ParseIf;
    OpenExpr("if" + t);
    KeywordMiss("app", "if", t);
    KeywordMiss("let", "if", t);
    KeywordHit("if", t);
  }

  lemma {:induction false} OpenEffApp(t: string)
    requires t != "" && IsDelimiter(t[0])
    ensures ParseExpr(['('] + ("effapp" + t)) == ParseEffApp(t)
  {
    hide Keyword, ParseExpr, ParseEffApp;
    OpenExpr("effapp" + t);
    KeywordMiss("app", "effapp", t);
    KeywordMiss("let", "effapp", t);
    KeywordMiss("if", "effapp", t);
    KeywordMiss("match", "effapp", t);
    KeywordHit("effapp", t);
  }

  lemma {:induction false} ReadApp(func: Val, args: seq<Val>, k: string)
    requires Readable(App(func, args))
    ensures ParseExpr(PrintExpr(App(func, args), k)) == Some((App(func, args), k))
    decreases App(func, args), 2
  {
    hide PrintVal, ParseVal, ParseArgs, PrintVals, Accept, Keyword, ParseExpr;
    var t1 := " " + PrintVal(func, PrintVals(args, [')'] + k));
    OpenExpr("app" + t1);
    KeywordHit("app", t1);
    ReadVal(func, PrintVals(args, [')'] + k));
    ReadArgs(args, [], k);
    assert [] + args == args;
  }

  lemma {:induction false} ReadLet(x: Name, bind: Expr, body: Expr, k: string)
    requires Readable(Let(x, bind, body))
    ensures ParseExpr(PrintExpr(Let(x, bind, body), k)) == Some((Let(x, bind, body), k))
    decreases Let(x, bind, body), 2
  {
    var t3 := " " + PrintExpr(body, [')'] + k);
    var t2 := " " + PrintExpr(bind, t3);
    var t1 := " " + (x + t2);
    assert PrintExpr(Let(x, bind, body), k) == ['('] + ("let" + t1);
    assert PlainName(x) && Readable(bind) && Readable(body);
    hide PrintExpr, ParseExpr, Accept, Symbol, Readable, ParseExprTail, PlainName;
    OpenLet(t1);
    SymbolHit(x, t2);
    ReadExpr(bind, t3);
    ReadExpr(body, [')'] + k);
    AcceptHead(')', k);
  }

  lemma {:induction false} ReadIf(cond: Val, thenE: Expr, elseE: Expr, k: string)
    requires Readable(If(cond, thenE, elseE))
    ensures ParseExpr(PrintExpr(If(cond, thenE, elseE), k)) == Some((If(cond, thenE, elseE), k))
    decreases If(cond, thenE, elseE), 2
  {
    var t3 := " " + PrintExpr(elseE, [')'] + k);
    var t2 := " " + PrintExpr(thenE, t3);
    var t1 := " " + PrintVal(cond, t2);
    assert PrintExpr(If(cond, thenE, elseE), k) == ['('] + ("if" + t1);
    assert ReadableVal(cond) && Readable(thenE) && Readable(elseE);
    hide PrintExpr, ParseExpr, Accept, PrintVal, ParseVal, Readable, ReadableVal, ParseExprTail;
    OpenIf(t1);
    ReadVal(cond, t2);
    ReadExpr(thenE, t3);
    ReadExpr(elseE, [')'] + k);
    AcceptHead(')', k);
  }

  lemma {:induction false} PrintedEffApp(func: Val, token: Val, args: seq<Val>, k: string)
    ensures PrintExpr(EffApp(func, token, args), k)
         == ['('] + ("effapp" + (" " + PrintVal(func, " " + PrintVal(token, PrintVals(args, [')'] + k)))))
  {
    hide PrintVal, PrintVals;
  }

  lemma {:induction false} ReadEffApp(func: Val, token: Val, args: seq<Val>, k: string)
    requires Readable(EffApp(func, token, args))
    ensures ParseExpr(PrintExpr(EffApp(func, token, args), k)) == Some((EffApp(func, token, args), k))
    decreases EffApp(func, token, args), 2
  {
    var t3 := PrintVals(args, [')'] + k);
    var t2 := " " + PrintVal(token, t3);
    var t1 := " " + PrintVal(func, t2);
    PrintedEffApp(func, token, args, k);
    assert ReadableVal(func) && ReadableVal(token) && AllReadable(args);
    hide PrintExpr, PrintVal, PrintVals, ParseExpr, ParseExprTail, ParseVal, ParseArgs, ParseEffApp, Readable,
      ReadableVal, AllReadable, Accept;
    OpenEffApp(t1);
    ReadVal(func, t2);
    ReadVal(token, t3);
    ReadArgs(args, [], k);
    assert [] + args == args;
    EffAppParsed(t1, t2, t3, k, func, token, args);
  }

  lemma {:induction false} EffAppParsed(t1: string, t2: string, t3: string, k: string, func: Val, token: Val,
                                        args: seq<Val>)
    requires ParseVal(t1) == Some((func, t2)) && ParseVal(t2) == Some((token, t3)) &&
      ParseArgs(t3, []) == Some((args, k))
    ensures ParseEffApp(t1) == Some((EffApp(func, token, args), k))
  {
    hide ParseVal, ParseArgs;
  }

  lemma {:induction false} ReadToken(k: string)
    ensures ParseExpr(PrintExpr(Token, k)) == Some((Token, k))
  {
    var p := [')'] + k;
    assert PrintExpr(Token, k) == ['('] + ("token" + p);
    hide Accept, Keyword, ParseExpr, PrintExpr;
    KeywordMiss("app", "token", p);
    KeywordMiss("let", "token", p);
    KeywordMiss("if", "token", p);
    KeywordMiss("match", "token", p);
    KeywordMiss("effapp", "token", p);
    KeywordHit("token", p);
    AcceptHead(')', k);
    OpenExpr("token" + p);
  }

  // ---- The converse: what the reader returns is readable -------------------

  lemma {:induction false} KeywordPrefix(t: string, kw: string)
    requires Keyword(t, kw).None? && Symbol(t).Some?
    ensures !(kw <= Symbol(t).value.0)
  {
    var x, s := Symbol(t).value.0, SkipWs(t);
    if |kw| <= |x| {
      var i :| 0 <= i < |kw| && kw[i] != s[i];
      assert x[i] == s[i];
    }
  }

  lemma {:induction false} SymbolPlain(t: string)
    requires Symbol(t).Some?
    ensures PlainName(Symbol(t).value.0)
  {
  }

  lemma {:induction false} ValImage(t: string)
    requires ParseVal(t).Some?
    ensures ReadableVal(ParseVal(t).value.0)
    decreases |t|, 2
  {
    hide ParseValTail, Symbol, PlainName;
    match Accept(t, '(')
    case Some(rest) => ValTailImage(rest);
    case None => SymbolPlain(t);
  }

  lemma {:induction false} ValTailImage(t: string)
    requires ParseValTail(t).Some?
    ensures ReadableVal(ParseValTail(t).value.0)
    ensures ParseValTail(t).value.0.ConV? ==> Symbol(t).Some? && ParseValTail(t).value.0.name == Symbol(t).value.0
    decreases |t|, 1
  {
    hide Keyword, Symbol, PlainName, ParseExpr, ParseMembers, ParseArgs, NoValKeyword, Integer, Readable;
    if Keyword(t, "int").Some? {
    } else if Keyword(t, "str").Some? {
      QuotedImage(Keyword(t, "str").value);
    } else if Keyword(t, "var").Some? {
      SymbolPlain(Keyword(t, "var").value);
    } else if Keyword(t, "lam").Some? {
      var s := Keyword(t, "lam").value;
      SymbolPlain(s);
      ExprImage(Symbol(s).value.1);
    } else if Keyword(t, "nslit").Some? {
      MembersImage(Keyword(t, "nslit").value, [], []);
    } else {
      ConImage(t);
    }
  }

  lemma {:induction false} ConImage(t: string)
    requires ParseValTail(t).Some? && Keyword(t, "int").None? && Keyword(t, "str").None? && Keyword(t, "var").None?
    requires Keyword(t, "lam").None? && Keyword(t, "nslit").None?
    ensures Symbol(t).Some? && ParseValTail(t).value.0.ConV? && ParseValTail(t).value.0.name == Symbol(t).value.0
    ensures ReadableVal(ParseValTail(t).value.0)
    decreases |t|, 0
  {
    hide Keyword, Symbol, PlainName, ParseExpr, ParseMembers, ParseArgs, NoValKeyword, Integer, Readable;
    SymbolPlain(t);
    NameImage(t);
    var (name, t1) := Symbol(t).value;
    ArgsImage(t1, []);
    var args := ParseArgs(t1, []).value.0;
    assert ParseValTail(t).value.0 == ConV(name, args);
  }

  lemma {:induction false} QuotedImage(t: string)
    ensures Quoted(t).Some? ==> '"' !in Quoted(t).value.0
  {
  }

  lemma {:induction false} NameImage(t: string)
    requires Keyword(t, "int").None? && Keyword(t, "str").None? && Keyword(t, "var").None?
    requires Keyword(t, "lam").None? && Keyword(t, "nslit").None? && Symbol(t).Some?
    ensures NoValKeyword(Symbol(t).value.0)
  {
    hide Keyword, Symbol;
    KeywordPrefix(t, "int");
    KeywordPrefix(t, "str");
    KeywordPrefix(t, "var");
    KeywordPrefix(t, "lam");
    KeywordPrefix(t, "nslit");
  }

  lemma {:induction false} MembersImage(t: string, names: seq<Name>, vals: seq<Val>)
    requires ReadableVal(NsV(names, vals))
    ensures ParseMembers(t, names, vals).Some? ==> ParseMembers(t, names, vals).value.0.NsV?
    ensures ParseMembers(t, names, vals).Some? ==> ReadableVal(ParseMembers(t, names, vals).value.0)
    decreases |t|, 3
  {
    hide Symbol, PlainName, ParseVal, Accept;
    if Accept(t, '(').None? {
    } else {
      var t1 := Accept(t, '(').value;
      if Symbol(t1).Some? {
        SymbolPlain(t1);
        var (x, t2) := Symbol(t1).value;
        if ParseVal(t2).Some? {
          ValImage(t2);
          var (v, t3) := ParseVal(t2).value;
          if Accept(t3, ')').Some? {
            MembersImage(Accept(t3, ')').value, names + [x], vals + [v]);
          }
        }
      }
    }
  }

  lemma {:induction false} ArgsImage(t: string, args: seq<Val>)
    requires AllReadable(args)
    ensures ParseArgs(t, args).Some? ==> AllReadable(ParseArgs(t, args).value.0)
    decreases |t|, 3
  {
    hide ParseVal, Accept;
    if Accept(t, ')').Some? || ParseVal(t).None? {
    } else {
      ValImage(t);
      var (v, rest) := ParseVal(t).value;
      ArgsImage(rest, args + [v]);
      assert ParseArgs(t, args) == ParseArgs(rest, args + [v]);
    }
  }

  lemma {:induction false} ExprImage(t: string)
    requires ParseExpr(t).Some?
    ensures Readable(ParseExpr(t).value.0)
    decreases |t|, 3
  {
    hide ParseExprTail, ReadableVal, Symbol;
    match Accept(t, '(')
    case Some(rest) => ExprTailImage(rest);
    case None =>
      ValImage(t);
      assert ParseVal(t).value.0.VarV?;
  }

  lemma {:induction false} ExprTailImage(t: string)
    requires ParseExprTail(t).Some?
    ensures Readable(ParseExprTail(t).value.0)
    decreases |t|, 2
  {
    hide Keyword, ParseApp, ParseLet, ParseIf, ParseEffApp, ParseValTail, ReadableVal, NoExprKeyword;
    if Keyword(t, "app").Some? {
      AppImage(Keyword(t, "app").value);
    } else if Keyword(t, "let").Some? {
      LetImage(Keyword(t, "let").value);
    } else if Keyword(t, "if").Some? {
      IfImage(Keyword(t, "if").value);
    } else if Keyword(t, "effapp").Some? {
      EffAppImage(Keyword(t, "effapp").value);
    } else if Keyword(t, "token").None? {
      ValTailImage(t);
      if ParseValTail(t).value.0.ConV? {
        HeadImage(t);
      }
    }
  }

  lemma {:induction false} HeadImage(t: string)
    requires Keyword(t, "app").None? && Keyword(t, "let").None? && Keyword(t, "if").None?
    requires Keyword(t, "match").None? && Keyword(t, "effapp").None? && Keyword(t, "token").None? && Symbol(t).Some?
    ensures NoExprKeyword(Symbol(t).value.0)
  {
    hide Keyword, Symbol;
    KeywordPrefix(t, "app");
    KeywordPrefix(t, "let");
    KeywordPrefix(t, "if");
    KeywordPrefix(t, "match");
    KeywordPrefix(t, "effapp");
    KeywordPrefix(t, "token");
  }

  lemma {:induction false} AppImage(t: string)
    requires ParseApp(t).Some?
    ensures Readable(ParseApp(t).value.0)
    decreases |t|, 4
  {
    hide ParseVal, ParseArgs;
    ValImage(t);
    var (f, t1) := ParseVal(t).value;
    ArgsImage(t1, []);
  }

  lemma {:induction false} LetImage(t: string)
    requires ParseLet(t).Some?
    ensures Readable(ParseLet(t).value.0)
    decreases |t|, 4
  {
    hide ParseExpr, Symbol, PlainName;
    SymbolPlain(t);
    var t1 := Symbol(t).value.1;
    ExprImage(t1);
    ExprImage(ParseExpr(t1).value.1);
  }

  lemma {:induction false} IfImage(t: string)
    requires ParseIf(t).Some?
    ensures Readable(ParseIf(t).value.0)
    decreases |t|, 4
  {
    hide ParseVal, ParseExpr, ReadableVal;
    ValImage(t);
    var t1 := ParseVal(t).value.1;
    ExprImage(t1);
    ExprImage(ParseExpr(t1).value.1);
  }

  lemma {:induction false} EffAppImage(t: string)
    requires ParseEffApp(t).Some?
    ensures Readable(ParseEffApp(t).value.0)
    decreases |t|, 4
  {
    hide ParseVal, ParseArgs;
    ValImage(t);
    var t1 := ParseVal(t).value.1;
    ValImage(t1);
    var (token, t2) := ParseVal(t1).value;
    ArgsImage(t2, []);
  }

  // ---- The pipe ------------------------------------------------------------

  /**
    No text is ever refused for its header, and none is cut: the check of the header sees a line only after all comment
    lines have been skipped.
   */
  lemma {:induction false} HeaderNeverChecked(t: string)
    ensures CheckHeader(SkipWs(t)) == Some(SkipWs(t))
    ensures ReadProgram(t) == if ParseExpr(t).Some? then Some(ParseExpr(t).value.0) else None
  {
    SkippedExpr(t);
  }

  /** Whatever version a header line names, the text after it is read as if the line were not there. */
  lemma {:induction false} HeaderIgnored(line: string, t: string)
    requires '\n' !in line
    ensures ReadProgram(";" + (line + ("\n" + t))) == ReadProgram(t)
  {
    hide ParseExpr, SkipWs, CheckHeader;
    SkipHeader(line, t);
  }

  /** The check would refuse another version, if it were asked. */
  lemma {:induction false} HeaderCheckRefuses(t: string)
    ensures CheckHeader("; LCIR v1\n" + t) == None
  {
    var line := " LCIR v1";
    var s := line + ("\n" + t);
    assert "; LCIR v1\n" + t == ";" + s;
    assert (";" + s)[1..] == s;
    SkipToNewline(line, t);
    assert (";" + s)[1..|";" + s| - |"\n" + t|] == line;
    assert line[1..] == "LCIR v1" && TrimLeft("LCIR v1") == "LCIR v1" && TrimLeft(line) == "LCIR v1";
    assert HEADER[6] != "LCIR v1"[6];
  }

  /** The comment line in front is skipped as white space, which is why a header line is never looked at. */
  lemma {:induction false} SkipHeader(line: string, t: string)
    requires '\n' !in line
    ensures SkipWs(";" + (line + ("\n" + t))) == SkipWs(t)
  {
    var s := line + ("\n" + t);
    assert (";" + s)[1..] == s;
    SkipToNewline(line, t);
    assert ("\n" + t)[1..] == t;
  }

  lemma {:induction false} SkipToNewline(line: string, t: string)
    requires '\n' !in line
    ensures SkipLine(line + ("\n" + t)) == "\n" + t
    decreases |line|
  {
    var s := line + ("\n" + t);
    if line == "" {
      assert s == "\n" + t;
    } else {
      assert s[0] == line[0] && line[0] in line;
      assert s[1..] == line[1..] + ("\n" + t);
      SkipToNewline(line[1..], t);
    }
  }

  lemma {:induction false} HeaderLine(line: string, t: string)
    ensures (";" + (line + "\n")) + t == ";" + (line + ("\n" + t))
  {
  }

  lemma {:induction false} HeaderSkipped(e: Expr)
    ensures SkipWs(PrintProgram(e)) == SkipWs(PrintExpr(e, "\n"))
  {
    hide PrintExpr, SkipWs;
    var line, t := " CoreIR dump (temporary)", PrintExpr(e, "\n");
    assert "; CoreIR dump (temporary)\n" == ";" + (line + "\n");
    HeaderLine(line, t);
    SkipHeader(line, t);
  }

  /** Printing a program and reading it back gives the same program exactly if the program is readable. */
  lemma {:induction false} PipeIdentity(e: Expr)
    ensures ReadProgram(PrintProgram(e)) == Some(e) <==> Readable(e)
  {
    hide PrintExpr, ParseExpr, Readable, SkipWs, PrintProgram, ReadProgram, CheckHeader;
    var t := PrintExpr(e, "\n");
    HeaderSkipped(e);
    SkippedExpr(t);
    HeaderNeverChecked(PrintProgram(e));
    SkippedExpr(PrintProgram(e));
    if Readable(e) {
      ReadExpr(e, "\n");
    }
    if ParseExpr(t).Some? {
      ExprImage(t);
    }
  }

  lemma {:induction false} SkippedExpr(t: string)
    ensures ParseExpr(SkipWs(t)) == ParseExpr(t)
  {
    assert SkipWs(SkipWs(t)) == SkipWs(t);
  }
}
