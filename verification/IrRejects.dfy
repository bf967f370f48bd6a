/** Texts the reader refuses: those in which something else, or nothing, stands where a parenthesis must close. */
module IrRejects {
  import opened Options
  import opened CoreIr
  import opened IrText
  import opened Words
  import Decimal
  import RoundTrip = IrRoundTrip

  /** The end of the text, or the start of another item. */
  predicate Open(rest: string) {
    rest == "" || rest[0] == '('
  }

  lemma {:induction false} OpenIsNoClose(rest: string)
    requires Open(rest)
    ensures Accept(rest, ')') == None
  {
  }

  /** No text ends inside an integer. */
  lemma {:induction false} UnclosedInt(i: Int64, rest: string)
    requires rest != "" && Open(rest)
    ensures ParseVal("(" + ("int" + (" " + (Decimal.Print(i) + rest)))) == None
  {
    hide Integer, Decimal.Print, Accept, Keyword;
    var t := "int" + (" " + (Decimal.Print(i) + rest));
    RoundTrip.AcceptHead('(', t);
    RoundTrip.KeywordHit("int", " " + (Decimal.Print(i) + rest));
    RoundTrip.IntegerHit(i, rest);
    OpenIsNoClose(rest);
    assert ParseValTail(t) == None;
  }

  lemma {:induction false} UnclosedStr(s: string, rest: string)
    requires '"' !in s && Open(rest)
    ensures ParseVal("(" + ("str" + (" \"" + (s + ("\"" + rest))))) == None
  {
    hide Quoted, Accept, Keyword;
    var p := " \"" + (s + ("\"" + rest));
    RoundTrip.AcceptHead('(', "str" + p);
    RoundTrip.KeywordMiss("int", "str", p);
    RoundTrip.KeywordHit("str", p);
    RoundTrip.QuotedHit(s, rest);
    OpenIsNoClose(rest);
    assert ParseValTail("str" + p) == None;
  }

  lemma {:induction false} UnclosedVar(x: Name, rest: string)
    requires PlainName(x) && rest != "" && Open(rest)
    ensures ParseVal("(" + ("var" + (" " + (x + rest)))) == None
  {
    hide Symbol, Accept, Keyword, PlainName;
    var p := " " + (x + rest);
    RoundTrip.AcceptHead('(', "var" + p);
    RoundTrip.KeywordMiss("int", "var", p);
    RoundTrip.KeywordMiss("str", "var", p);
    RoundTrip.KeywordHit("var", p);
    RoundTrip.SymbolHit(x, rest);
    OpenIsNoClose(rest);
    assert ParseValTail("var" + p) == None;
  }

  lemma {:induction false} UnclosedLam(param: Name, body: Expr, rest: string)
    requires PlainName(param) && Readable(body) && Open(rest)
    ensures ParseVal("(" + ("lam" + (" " + (param + (" " + PrintExpr(body, rest)))))) == None
  {
    hide Symbol, Accept, Keyword, PlainName, PrintExpr, ParseExpr, Readable;
    var t1 := " " + PrintExpr(body, rest);
    var p := " " + (param + t1);
    RoundTrip.AcceptHead('(', "lam" + p);
    RoundTrip.KeywordMiss("int", "lam", p);
    RoundTrip.KeywordMiss("str", "lam", p);
    RoundTrip.KeywordMiss("var", "lam", p);
    RoundTrip.KeywordHit("lam", p);
    RoundTrip.SymbolHit(param, t1);
    RoundTrip.ReadExpr(body, rest);
    OpenIsNoClose(rest);
    assert ParseValTail("lam" + p) == None;
  }

  /** Arguments up to the end of the text, where the loop of the source makes no progress any more. */
  lemma {:induction false} UnclosedArgs(vs: seq<Val>, acc: seq<Val>)
    requires AllReadable(vs)
    ensures ParseArgs(PrintVals(vs, ""), acc) == None
    decreases |vs|
  {
    hide PrintVal, ParseVal, ReadableVal, Accept;
    if vs == [] {
      OpenIsNoClose("");
      NothingToRead();
    } else {
      RoundTrip.ReadVal(vs[0], PrintVals(vs[1..], ""));
      UnclosedArgs(vs[1..], acc + [vs[0]]);
    }
  }

  lemma {:induction false} NothingToRead()
    ensures ParseVal("") == None && ParseExpr("") == None
  {
  }

  lemma {:induction false} UnclosedApp(func: Val, args: seq<Val>)
    requires Readable(App(func, args))
    ensures ParseExpr("(" + ("app" + (" " + PrintVal(func, PrintVals(args, ""))))) == None
  {
    hide PrintVal, ParseVal, ParseArgs, PrintVals, Accept, Keyword, ParseExpr;
    var t1 := " " + PrintVal(func, PrintVals(args, ""));
    RoundTrip.OpenExpr("app" + t1);
    RoundTrip.KeywordHit("app", t1);
    RoundTrip.ReadVal(func, PrintVals(args, ""));
    UnclosedArgs(args, []);
    assert ParseExprTail("app" + t1) == None;
  }

  lemma {:induction false} UnclosedLet(x: Name, bind: Expr, body: Expr, rest: string)
    requires PlainName(x) && Readable(bind) && Readable(body) && Open(rest)
    ensures ParseExpr("(" + ("let" + (" " + (x + (" " + PrintExpr(bind, " " + PrintExpr(body, rest))))))) == None
  {
    hide PrintExpr, ParseExpr, Accept, Symbol, Readable, ParseExprTail, PlainName;
    var t3 := " " + PrintExpr(body, rest);
    var t2 := " " + PrintExpr(bind, t3);
    var t1 := " " + (x + t2);
    RoundTrip.OpenLet(t1);
    RoundTrip.SymbolHit(x, t2);
    RoundTrip.ReadExpr(bind, t3);
    RoundTrip.ReadExpr(body, rest);
    OpenIsNoClose(rest);
  }

  lemma {:induction false} UnclosedIf(cond: Val, thenE: Expr, elseE: Expr, rest: string)
    requires ReadableVal(cond) && Readable(thenE) && Readable(elseE) && Open(rest)
    ensures ParseExpr("(" + ("if" + (" " + PrintVal(cond, " " + PrintExpr(thenE, " " + PrintExpr(elseE, rest))))))
      == None
  {
    hide PrintExpr, ParseExpr, Accept, PrintVal, ParseVal, Readable, ReadableVal, ParseExprTail;
    var t3 := " " + PrintExpr(elseE, rest);
    var t2 := " " + PrintExpr(thenE, t3);
    var t1 := " " + PrintVal(cond, t2);
    RoundTrip.OpenIf(t1);
    RoundTrip.ReadVal(cond, t2);
    RoundTrip.ReadExpr(thenE, t3);
    RoundTrip.ReadExpr(elseE, rest);
    OpenIsNoClose(rest);
  }

  lemma {:induction false} UnclosedToken(rest: string)
    requires Open(rest)
    ensures ParseExpr("(" + ("token" + rest)) == None
  {
    hide Accept, Keyword, ParseExpr;
    RoundTrip.KeywordMiss("app", "token", rest);
    RoundTrip.KeywordMiss("let", "token", rest);
    RoundTrip.KeywordMiss("if", "token", rest);
    RoundTrip.KeywordMiss("match", "token", rest);
    RoundTrip.KeywordMiss("effapp", "token", rest);
    RoundTrip.KeywordHit("token", rest);
    OpenIsNoClose(rest);
    RoundTrip.OpenExpr("token" + rest);
    assert ParseExprTail("token" + rest) == None;
  }

  /** A text that starts with a closing parenthesis holds no program. */
  lemma {:induction false} StrayClose(rest: string)
    ensures ParseExpr(")" + rest) == None && ParseExpr("") == None
  {
    RoundTrip.AcceptHead(')', rest);
    NothingToRead();
    assert (")" + rest)[0] == ')';
    assert SymbolLength(")" + rest) == 0;
  }
}
