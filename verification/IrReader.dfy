/** The reader as it runs: a cursor advanced in place over the text. */
module IrReader {
  import opened Options
  import opened CoreIr
  import opened IrText
  import opened Words
  import Decimal

  lemma {:induction false} SkipTwice(t: string)
    ensures SkipWs(SkipWs(t)) == SkipWs(t)
  {
  }

  /** Skipping white space first changes nothing: every function of the reader starts with it. */
  lemma {:induction false} Skipped(t: string)
    ensures forall c :: Accept(SkipWs(t), c) == Accept(t, c)
    ensures forall kw :: Keyword(SkipWs(t), kw) == Keyword(t, kw)
    ensures Symbol(SkipWs(t)) == Symbol(t)
  {
    SkipTwice(t);
  }

  lemma {:induction false} SkipLineHead(t: string)
    requires t != "" && t[0] == ';'
    ensures SkipLine(t) == SkipLine(t[1..]) && |SkipLine(t)| < |t|
  {
  }

  lemma {:induction false} Slices(s: string, st: nat, i: nat)
    requires st <= i <= |s|
    ensures s[st..][..i - st] == s[st..i] && s[st..][i - st..] == s[i..]
    ensures i < |s| ==> s[st..][i - st + 1..] == s[i + 1..] && s[i..][1..] == s[i + 1..]
  {
  }

  lemma {:induction false} QuoteHere(t: string)
    requires t == "" || t[0] == '"'
    ensures Accept(t, '"') == if t == "" then None else Some(t[1..])
    ensures SkipWs(t) == t && QuoteLength(t) == 0
  {
  }

  lemma {:induction false} PrefixIsSlice(s: string, i: nat, kw: string)
    requires i <= |s|
    ensures kw <= s[i..] <==> i + |kw| <= |s| && s[i..i + |kw|] == kw
  {
    if i + |kw| <= |s| {
      assert s[i..][..|kw|] == s[i..i + |kw|];
    }
  }

  class Reader {
    const s: string
    var i: nat

    ghost predicate Valid()
      reads this
    {
      i <= |s|
    }

    /** The text still to be read. */
    ghost function Rest(): string
      requires Valid()
      reads this
    {
      s[i..]
    }

    constructor (text: string)
      ensures Valid() && s == text && Rest() == text
    {
      s, i := text, 0;
    }

    /** The loop over a comment. */
    method SkipComment()
      requires Valid()
      modifies this`i
      ensures Valid() && i >= old(i) && Rest() == SkipLine(old(Rest()))
    {
      ghost var whole := SkipLine(s[i..]);
      while i < |s| && s[i] != '\n'
        invariant old(i) <= i <= |s| && SkipLine(s[i..]) == whole
      {
        assert s[i..][1..] == s[i + 1..];
        i := i + 1;
      }
    }

    method SkipSpace()
      requires Valid()
      modifies this`i
      ensures Valid() && i >= old(i) && Rest() == SkipWs(old(Rest()))
    {
      hide SkipLine;
      ghost var whole := SkipWs(s[i..]);
      while i < |s|
        invariant old(i) <= i <= |s| && SkipWs(s[i..]) == whole
      {
        assert s[i..][1..] == s[i + 1..];
        if IsSpace(s[i]) {
          i := i + 1;
          continue;
        }
        if s[i] == ';' {
          SkipLineHead(s[i..]);
          SkipComment();
          continue;
        }
        break;
      }
    }

    method AcceptChar(c: char) returns (ok: bool)
      requires Valid()
      modifies this`i
      ensures Valid() && i >= old(i)
      ensures if ok then Accept(old(Rest()), c) == Some(Rest())
              else Accept(old(Rest()), c) == None && Rest() == SkipWs(old(Rest()))
    {
      SkipSpace();
      ok := i < |s| && s[i] == c;
      if ok {
        assert s[i..][1..] == s[i + 1..];
        i := i + 1;
      }
    }

    method PeekChar(c: char) returns (ok: bool)
      requires Valid()
      modifies this`i
      ensures Valid() && i >= old(i) && Rest() == SkipWs(old(Rest())) && ok == Peek(old(Rest()), c)
    {
      SkipSpace();
      ok := i < |s| && s[i] == c;
    }

    method AcceptKeyword(kw: string) returns (ok: bool)
      requires Valid()
      modifies this`i
      ensures Valid() && i >= old(i)
      ensures if ok then Keyword(old(Rest()), kw) == Some(Rest())
              else Keyword(old(Rest()), kw) == None && Rest() == SkipWs(old(Rest()))
    {
      SkipSpace();
      PrefixIsSlice(s, i, kw);
      ok := i + |kw| <= |s| && s[i..i + |kw|] == kw;
      if ok {
        assert s[i..][|kw|..] == s[i + |kw|..];
        i := i + |kw|;
      }
    }

    /** The scanning loop of a symbol. */
    method ScanSymbol()
      requires Valid()
      modifies this`i
      ensures Valid() && i == old(i) + SymbolLength(old(Rest()))
    {
      ghost var n := SymbolLength(s[i..]);
      while i < |s| && !IsDelimiter(s[i])
        invariant old(i) <= i <= |s| && n == i - old(i) + SymbolLength(s[i..])
      {
        assert s[i..][1..] == s[i + 1..];
        i := i + 1;
      }
    }

    method ReadSymbol() returns (x: Option<Name>)
      requires Valid()
      modifies this`i
      ensures Valid() && i >= old(i)
      ensures if x.Some? then Symbol(old(Rest())) == Some((x.value, Rest())) else Symbol(old(Rest())) == None
    {
      hide SkipWs, SymbolLength, IsSpace;
      SkipSpace();
      var st := i;
      ScanSymbol();
      Slices(s, st, i);
      x := if i == st then None else Some(s[st..i]);
    }

    /** The scanning loop of a string literal. */
    method ScanQuoted()
      requires Valid()
      modifies this`i
      ensures Valid() && i == old(i) + QuoteLength(old(Rest())) && (i < |s| ==> s[i] == '"')
    {
      ghost var n := QuoteLength(s[i..]);
      while i < |s| && s[i] != '"'
        invariant old(i) <= i <= |s| && n == i - old(i) + QuoteLength(s[i..])
      {
        assert s[i..][1..] == s[i + 1..];
        i := i + 1;
      }
    }

    method ReadString() returns (q: Option<string>)
      requires Valid()
      modifies this`i
      ensures Valid() && i >= old(i)
      ensures if q.Some? then Quoted(old(Rest())) == Some((q.value, Rest())) else Quoted(old(Rest())) == None
    {
      hide SkipWs, QuoteLength, Accept;
      var ok := AcceptChar('"');
      if !ok {
        return None;
      }
      var st := i;
      ScanQuoted();
      Slices(s, st, i);
      q := Some(s[st..i]);
      QuoteHere(s[i..]);
      ok := AcceptChar('"');
    }

    /** The digit loop. */
    method ScanDigits() returns (v: Int64)
      requires Valid()
      modifies this`i
      ensures Valid() && i >= old(i) && ReadDigits(old(Rest()), 0) == (v, Rest())
    {
      hide Wrap64;
      v := 0;
      while i < |s| && Decimal.IsDigit(s[i])
        invariant old(i) <= i <= |s| && ReadDigits(s[i..], v) == ReadDigits(old(s[i..]), 0)
      {
        assert s[i..][1..] == s[i + 1..];
        v := Wrap64(v as int * 10 + Decimal.DigitValue(s[i]));
        i := i + 1;
      }
    }

    method ReadInt() returns (v: Int64)
      requires Valid()
      modifies this`i
      ensures Valid() && i >= old(i) && Integer(old(Rest())) == (v, Rest())
    {
      hide SkipWs, ReadDigits, Wrap64;
      SkipSpace();
      var negative := i < |s| && s[i] == '-';
      if negative {
        assert s[i..][1..] == s[i + 1..];
        i := i + 1;
      }
      v := ScanDigits();
      if negative {
        v := Wrap64(-(v as int));
      }
    }

    /** Closes a list: `match(r, ')')` and give up otherwise. */
    method Close<T>(v: T) returns (r: Option<T>)
      requires Valid()
      modifies this`i
      ensures Valid() && i >= old(i)
      ensures if r.Some? then Closed(v, old(Rest())) == Some((r.value, Rest())) else Closed(v, old(Rest())) == None
    {
      var ok := AcceptChar(')');
      r := if ok then Some(v) else None;
    }

    method ReadVal() returns (v: Option<Val>)
      requires Valid()
      modifies this`i
      ensures Valid() && i >= old(i)
      ensures if v.Some? then ParseVal(old(Rest())) == Some((v.value, Rest())) else ParseVal(old(Rest())) == None
      decreases |s| - i, 1
    {
      Skipped(Rest());
      SkipSpace();
      Skipped(Rest());
      var ok := AcceptChar('(');
      if ok {
        v := ReadValTail();
      } else {
        var x := ReadSymbol();
        v := if x.Some? then Some(VarV(x.value)) else None;
      }
    }

    method ReadValTail() returns (v: Option<Val>)
      requires Valid()
      modifies this`i
      ensures Valid() && i >= old(i)
      ensures if v.Some? then ParseValTail(old(Rest())) == Some((v.value, Rest()))
        else ParseValTail(old(Rest())) == None
      decreases |s| - i, 0
    {
      hide Integer, Quoted, Symbol, Keyword, Accept, SkipWs, ParseExpr, ParseArgs, ParseMembers, ParseLam, Closed;
      Skipped(Rest());
      SkipTwice(Rest());
      var ok := AcceptKeyword("int");
      if ok {
        var n := ReadInt();
        v := Close(IntV(n));
        return;
      }
      ok := AcceptKeyword("str");
      if ok {
        var q := ReadString();
        if q.None? {
          return None;
        }
        v := Close(StrV(q.value));
        return;
      }
      ok := AcceptKeyword("var");
      if ok {
        var x := ReadSymbol();
        if x.None? {
          return None;
        }
        v := Close(VarV(x.value));
        return;
      }
      ok := AcceptKeyword("lam");
      if ok {
        v := ReadLam();
        return;
      }
      ok := AcceptKeyword("nslit");
      if ok {
        v := ReadMembers();
        return;
      }
      var name := ReadSymbol();
      if name.None? {
        return None;
      }
      var args := ReadArgs();
      v := if args.Some? then Some(ConV(name.value, args.value)) else None;
    }

    method ReadLam() returns (v: Option<Val>)
      requires Valid()
      modifies this`i
      ensures Valid() && i >= old(i)
      ensures if v.Some? then ParseLam(old(Rest())) == Some((v.value, Rest())) else ParseLam(old(Rest())) == None
      decreases |s| - i, 3
    {
      hide Symbol, ParseExpr;
      var x := ReadSymbol();
      if x.None? {
        return None;
      }
      var body := ReadExpr();
      if body.None? {
        return None;
      }
      v := Close(LamV(x.value, body.value));
    }

    method ReadMembers() returns (v: Option<Val>)
      requires Valid()
      modifies this`i
      ensures Valid() && i >= old(i)
      ensures if v.Some? then ParseMembers(old(Rest()), [], []) == Some((v.value, Rest()))
              else ParseMembers(old(Rest()), [], []) == None
      decreases |s| - i, 2
    {
      hide Symbol, ParseVal, SkipWs;
      var names: seq<Name>, vals: seq<Val> := [], [];
      SkippedMembers(Rest(), names, vals);
      var more := PeekChar('(');
      while more
        invariant Valid() && i >= old(i) && (more <==> Peek(Rest(), '('))
        invariant ParseMembers(Rest(), names, vals) == ParseMembers(old(Rest()), [], [])
        decreases |s| - i
      {
        var _ := AcceptChar('(');
        var x := ReadSymbol();
        if x.None? {
          return None;
        }
        var val := ReadVal();
        if val.None? {
          return None;
        }
        var ok := AcceptChar(')');
        if !ok {
          return None;
        }
        names, vals := names + [x.value], vals + [val.value];
        SkippedMembers(Rest(), names, vals);
        more := PeekChar('(');
      }
      v := Close(NsV(names, vals));
    }

    /** Arguments up to the closing parenthesis. */
    method ReadArgs() returns (args: Option<seq<Val>>)
      requires Valid()
      modifies this`i
      ensures Valid() && i >= old(i)
      ensures if args.Some? then ParseArgs(old(Rest()), []) == Some((args.value, Rest()))
        else ParseArgs(old(Rest()), []) == None
      decreases |s| - i, 2
    {
      hide ParseVal, SkipWs;
      var vs: seq<Val> := [];
      SkippedArgs(Rest(), vs);
      var done := PeekChar(')');
      while !done
        invariant Valid() && i >= old(i) && (done <==> Peek(Rest(), ')'))
        invariant ParseArgs(Rest(), vs) == ParseArgs(old(Rest()), [])
        decreases |s| - i
      {
        var v := ReadVal();
        if v.None? {
          return None;
        }
        vs := vs + [v.value];
        SkippedArgs(Rest(), vs);
        done := PeekChar(')');
      }
      var _ := AcceptChar(')');
      args := Some(vs);
    }

    method ReadExpr() returns (e: Option<Expr>)
      requires Valid()
      modifies this`i
      ensures Valid() && i >= old(i)
      ensures if e.Some? then ParseExpr(old(Rest())) == Some((e.value, Rest())) else ParseExpr(old(Rest())) == None
      decreases |s| - i, 2
    {
      SkippedVal(Rest());
      Skipped(Rest());
      SkipTwice(Rest());
      SkipSpace();
      var ok := AcceptChar('(');
      if ok {
        e := ReadExprTail();
      } else {
        var v := ReadVal();
        e := if v.Some? then Some(Value(v.value)) else None;
      }
    }

    method ReadExprTail() returns (e: Option<Expr>)
      requires Valid()
      modifies this`i
      ensures Valid() && i >= old(i)
      ensures if e.Some? then ParseExprTail(old(Rest())) == Some((e.value, Rest()))
        else ParseExprTail(old(Rest())) == None
      decreases |s| - i, 1
    {
      hide Symbol, Keyword, Accept, ParseVal, ParseArgs, ParseExpr, ParseValTail, SkipWs, ParseApp, ParseLet, ParseIf,
        ParseEffApp, Closed;
      Skipped(Rest());
      SkipTwice(Rest());
      SkippedTail(Rest());
      var ok := AcceptKeyword("app");
      if ok {
        e := ReadApp();
        return;
      }
      ok := AcceptKeyword("let");
      if ok {
        e := ReadLet();
        return;
      }
      ok := AcceptKeyword("if");
      if ok {
        e := ReadIf();
        return;
      }
      ok := AcceptKeyword("match");
      if ok {
        return None;
      }
      ok := AcceptKeyword("effapp");
      if ok {
        e := ReadEffApp();
        return;
      }
      ok := AcceptKeyword("token");
      if ok {
        e := Close(Token);
        return;
      }
      var v := ReadValTail();
      e := if v.Some? then Some(Value(v.value)) else None;
    }

    method ReadApp() returns (e: Option<Expr>)
      requires Valid()
      modifies this`i
      ensures Valid() && i >= old(i)
      ensures if e.Some? then ParseApp(old(Rest())) == Some((e.value, Rest())) else ParseApp(old(Rest())) == None
      decreases |s| - i, 3
    {
      hide ParseVal, ParseArgs;
      var f := ReadVal();
      if f.None? {
        return None;
      }
      var args := ReadArgs();
      e := if args.Some? then Some(App(f.value, args.value)) else None;
    }

    method ReadLet() returns (e: Option<Expr>)
      requires Valid()
      modifies this`i
      ensures Valid() && i >= old(i)
      ensures if e.Some? then ParseLet(old(Rest())) == Some((e.value, Rest())) else ParseLet(old(Rest())) == None
      decreases |s| - i, 3
    {
      hide Symbol, ParseExpr;
      var x := ReadSymbol();
      if x.None? {
        return None;
      }
      var bind := ReadExpr();
      if bind.None? {
        return None;
      }
      var body := ReadExpr();
      if body.None? {
        return None;
      }
      e := Close(Let(x.value, bind.value, body.value));
    }

    method ReadIf() returns (e: Option<Expr>)
      requires Valid()
      modifies this`i
      ensures Valid() && i >= old(i)
      ensures if e.Some? then ParseIf(old(Rest())) == Some((e.value, Rest())) else ParseIf(old(Rest())) == None
      decreases |s| - i, 3
    {
      hide ParseVal, ParseExpr;
      var cond := ReadVal();
      if cond.None? {
        return None;
      }
      var thenE := ReadExpr();
      if thenE.None? {
        return None;
      }
      var elseE := ReadExpr();
      if elseE.None? {
        return None;
      }
      e := Close(If(cond.value, thenE.value, elseE.value));
    }

    method ReadEffApp() returns (e: Option<Expr>)
      requires Valid()
      modifies this`i
      ensures Valid() && i >= old(i)
      ensures if e.Some? then ParseEffApp(old(Rest())) == Some((e.value, Rest())) else ParseEffApp(old(Rest())) == None
      decreases |s| - i, 3
    {
      hide ParseVal, ParseArgs;
      var f := ReadVal();
      if f.None? {
        return None;
      }
      var token := ReadVal();
      if token.None? {
        return None;
      }
      var args := ReadArgs();
      e := if args.Some? then Some(EffApp(f.value, token.value, args.value)) else None;
    }
  }

  lemma {:induction false} SkippedVal(t: string)
    ensures ParseVal(SkipWs(t)) == ParseVal(t)
  {
    SkipTwice(t);
    Skipped(t);
  }

  lemma {:induction false} SkippedArgs(t: string, args: seq<Val>)
    ensures ParseArgs(SkipWs(t), args) == ParseArgs(t, args)
    ensures forall c :: Peek(SkipWs(t), c) == Peek(t, c)
  {
    hide ParseVal, SkipWs;
    SkipTwice(t);
    SkippedVal(t);
  }

  lemma {:induction false} SkippedMembers(t: string, names: seq<Name>, vals: seq<Val>)
    ensures ParseMembers(SkipWs(t), names, vals) == ParseMembers(t, names, vals)
    ensures forall c :: Peek(SkipWs(t), c) == Peek(t, c)
  {
    hide ParseVal, SkipWs, Symbol;
    SkipTwice(t);
    Skipped(t);
  }

  lemma {:induction false} SkippedTail(t: string)
    ensures ParseValTail(SkipWs(t)) == ParseValTail(t)
  {
    hide Symbol, Keyword, SkipWs, ParseMembers, ParseArgs, Closed, Quoted, Integer;
    Skipped(t);
  }

  lemma {:induction false} TrimStep(s: string, st: nat, e: nat)
    requires st < e <= |s| && IsSpace(s[st])
    ensures TrimLeft(s[st..e]) == TrimLeft(s[st + 1..e])
  {
    assert s[st..e][1..] == s[st + 1..e];
  }

  lemma {:induction false} TrimDone(s: string, st: nat, e: nat)
    requires st <= e <= |s| && (st < e ==> !IsSpace(s[st]))
    ensures TrimLeft(s[st..e]) == s[st..e]
    ensures st + |HEADER| <= e ==> (HEADER <= s[st..e] <==> s[st..st + |HEADER|] == HEADER)
  {
    if st + |HEADER| <= e {
      assert s[st..e][..|HEADER|] == s[st..st + |HEADER|];
    }
  }

  /** The loop that trims the line, and the comparison. */
  method HeaderFits(s: string, start: nat, e: nat) returns (ok: bool)
    requires start <= e <= |s|
    ensures ok == GoodHeader(s[start..e])
  {
    hide TrimLeft, IsSpace;
    var st, hlen := start, e - start;
    while hlen > 0 && IsSpace(s[st])
      invariant 0 <= hlen && st + hlen == e && TrimLeft(s[st..e]) == TrimLeft(s[start..e])
    {
      TrimStep(s, st, e);
      st, hlen := st + 1, hlen - 1;
    }
    TrimDone(s, st, e);
    ok := hlen < |HEADER| || s[st..st + |HEADER|] == HEADER;
  }

  /** The check of a header line, if there is one at the cursor. */
  method ReadHeader(r: Reader) returns (ok: bool)
    requires r.Valid()
    modifies r
    ensures r.Valid()
    ensures if ok then CheckHeader(old(r.Rest())) == Some(r.Rest()) else CheckHeader(old(r.Rest())) == None
  {
    hide SkipLine, GoodHeader;
    ok := true;
    if r.i < |r.s| && r.s[r.i] == ';' {
      SkipLineHead(r.Rest());
      var st := r.i + 1;
      r.SkipComment();
      HeaderLine(r.s, st - 1, r.i);
      ok := HeaderFits(r.s, st, r.i);
    }
  }

  lemma {:induction false} HeaderLine(s: string, i: nat, e: nat)
    requires i < e <= |s|
    ensures s[i..][1..|s[i..]| - |s[e..]|] == s[i + 1..e]
  {
  }

  /** Reading a whole text: leading space and comments, a header, then one expression. */
  method ReadText(text: string) returns (root: Option<Expr>)
    ensures root == ReadProgram(text)
  {
    hide SkipWs, CheckHeader, ParseExpr;
    var r := new Reader(text);
    r.SkipSpace();
    var ok := ReadHeader(r);
    if !ok {
      return None;
    }
    root := r.ReadExpr();
  }
}
