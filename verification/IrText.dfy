/** The text form of Core IR: the printer, and the reader as functions of the text still to be read. */
module IrText {
  import opened Options
  import opened CoreIr
  import opened Words
  import Decimal

  // ---- Printing ------------------------------------------------------------

  /** Printing appends to a stream: these are the texts of a value or expression with `k` written after it. */
  function PrintVal(v: Val, k: string): string
    decreases v, 1
  {
    "(" + PrintBody(v, k)
  }

  function PrintBody(v: Val, k: string): string
    decreases v, 0
  {
    match v
    case IntV(i) => "int" + (" " + (Decimal.Print(i) + (")" + k)))
    case StrV(s) => "str" + (" \"" + (s + ("\"" + (")" + k))))
    case VarV(x) => "var" + (" " + (x + (")" + k)))
    case ConV(name, args) => name + PrintVals(args, ")" + k)
    case LamV(param, body) => "lam" + (" " + (param + (" " + PrintExpr(body, ")" + k))))
    case NsV(names, vals) => "nslit" + (if |names| == |vals| then PrintMembers(names, vals, ")" + k) else ")" + k)
  }

  /** Each value after a space. */
  function PrintVals(vs: seq<Val>, k: string): string
    decreases vs
  {
    if vs == [] then k else " " + PrintVal(vs[0], PrintVals(vs[1..], k))
  }

  function PrintMembers(names: seq<Name>, vals: seq<Val>, k: string): string
    requires |names| == |vals|
    decreases vals
  {
    if vals == [] then k
    else " " + ("(" + (names[0] + (" " + PrintVal(vals[0], ")" + PrintMembers(names[1..], vals[1..], k)))))
  }

  function PrintExpr(e: Expr, k: string): string
    decreases e, 0
  {
    match e
    case Value(v) => PrintVal(v, k)
    case App(func, args) => "(" + ("app" + (" " + PrintVal(func, PrintVals(args, ")" + k))))
    case Let(x, bind, body) => "(" + ("let" + (" " + (x + (" " + PrintExpr(bind, " " + PrintExpr(body, ")" + k))))))
    case If(cond, thenE, elseE) =>
      "(" + ("if" + (" " + PrintVal(cond, " " + PrintExpr(thenE, " " + PrintExpr(elseE, ")" + k)))))
    case EffApp(func, token, args) =>
      "(" + ("effapp" + (" " + PrintVal(func, " " + PrintVal(token, PrintVals(args, ")" + k)))))
    case Token => "(" + ("token" + (")" + k))
    case Match(_, _) => "<unimpl>" + k
    case Null => "<null-expr>" + k
  }

  function PrintProgram(root: Expr): string {
    "; CoreIR dump (temporary)\n" + PrintExpr(root, "\n")
  }

  // ---- Tokens --------------------------------------------------------------

  predicate IsSpace(c: char) {
    c == ' ' || '\t' <= c <= '\r'
  }

  /** The characters that end a symbol. */
  predicate IsDelimiter(c: char) {
    IsSpace(c) || c == '(' || c == ')' || c == '"'
  }

  function SkipLine(t: string): (r: string)
    ensures |r| <= |t|
  {
    if t == "" || t[0] == '\n' then t else SkipLine(t[1..])
  }

  /** White space, and comments from `;` to the end of the line. */
  function SkipWs(t: string): (r: string)
    ensures |r| <= |t|
    ensures r != "" ==> !IsSpace(r[0]) && r[0] != ';'
    decreases |t|
  {
    if t == "" then t
    else if IsSpace(t[0]) then SkipWs(t[1..])
    else if t[0] == ';' then SkipWs(SkipLine(t[1..]))
    else t
  }

  predicate Peek(t: string, c: char) {
    var r := SkipWs(t);
    r != "" && r[0] == c
  }

  /** The text after the next character, if that is `c`. */
  function Accept(t: string, c: char): (r: Option<string>)
    ensures r.Some? ==> |r.value| < |t|
  {
    if Peek(t, c) then Some(SkipWs(t)[1..]) else None
  }

  /** The text after a keyword. A keyword is recognized as a prefix: what follows it does not matter. */
  function Keyword(t: string, kw: string): (r: Option<string>)
    ensures r.Some? ==> |r.value| + |kw| <= |t|
  {
    var r := SkipWs(t);
    if kw <= r then Some(r[|kw|..]) else None
  }

  function SymbolLength(t: string): (n: nat)
    ensures n <= |t| && (forall i :: 0 <= i < n ==> !IsDelimiter(t[i])) && (n < |t| ==> IsDelimiter(t[n]))
  {
    if t == "" || IsDelimiter(t[0]) then 0 else 1 + SymbolLength(t[1..])
  }

  function Symbol(t: string): (r: Option<(Name, string)>)
    ensures r.Some? ==> |r.value.1| < |t|
  {
    var s := SkipWs(t);
    var n := SymbolLength(s);
    if n == 0 then None else Some((s[..n], s[n..]))
  }

  function QuoteLength(t: string): (n: nat)
    ensures n <= |t| && (forall i :: 0 <= i < n ==> t[i] != '"') && (n < |t| ==> t[n] == '"')
  {
    if t == "" || t[0] == '"' then 0 else 1 + QuoteLength(t[1..])
  }

  /** A string literal; an unterminated one ends with the text. There are no escapes. */
  function Quoted(t: string): (r: Option<(string, string)>)
    ensures r.Some? ==> |r.value.1| < |t|
  {
    match Accept(t, '"')
    case None => None
    case Some(s) =>
      var n := QuoteLength(s);
      Some((s[..n], if n < |s| then s[n + 1..] else ""))
  }

  /** The digits read so far make `v`; arithmetic wraps at every digit. */
  function ReadDigits(t: string, v: Int64): (r: (Int64, string))
    ensures |r.1| <= |t|
  {
    if t == "" || !Decimal.IsDigit(t[0]) then (v, t)
    else ReadDigits(t[1..], Wrap64(v * 10 + Decimal.DigitValue(t[0])))
  }

  function Integer(t: string): (r: (Int64, string))
    ensures |r.1| <= |t|
  {
    var s := SkipWs(t);
    if s != "" && s[0] == '-' then
      var (v, rest) := ReadDigits(s[1..], 0);
      (Wrap64(-(v as int)), rest)
    else ReadDigits(s, 0)
  }

  // ---- Parsing -------------------------------------------------------------

  type Parsed<T> = Option<(T, string)>

  /** `v` if a closing parenthesis follows. */
  function Closed<T>(v: T, t: string): (r: Parsed<T>)
    ensures r.Some? ==> r.value.0 == v && |r.value.1| < |t|
  {
    match Accept(t, ')')
    case None => None
    case Some(rest) => Some((v, rest))
  }

  /** `None` also stands for a tree with a null pointer in it, and for an argument loop that makes no progress. */
  function ParseVal(t: string): (r: Parsed<Val>)
    ensures r.Some? ==> |r.value.1| < |t|
    decreases |t|, 1
  {
    match Accept(t, '(')
    case Some(rest) => ParseValTail(rest)
    case None => (match Symbol(t) case None => None case Some((x, rest)) => Some((VarV(x), rest)))
  }

  /** A value whose opening parenthesis has been read. */
  function ParseValTail(t: string): (r: Parsed<Val>)
    ensures r.Some? ==> |r.value.1| < |t|
    decreases |t|, 0
  {
    if Keyword(t, "int").Some? then
      var (i, rest) := Integer(Keyword(t, "int").value);
      Closed(IntV(i), rest)
    else if Keyword(t, "str").Some? then
      (match Quoted(Keyword(t, "str").value) case None => None case Some((s, rest)) => Closed(StrV(s), rest))
    else if Keyword(t, "var").Some? then
      (match Symbol(Keyword(t, "var").value) case None => None case Some((x, rest)) => Closed(VarV(x), rest))
    else if Keyword(t, "lam").Some? then ParseLam(Keyword(t, "lam").value)
    else if Keyword(t, "nslit").Some? then ParseMembers(Keyword(t, "nslit").value, [], [])
    else
      match Symbol(t)
      case None => None
      case Some((name, t1)) =>
        match ParseArgs(t1, [])
        case None => None
        case Some((args, t2)) => Some((ConV(name, args), t2))
  }

  function ParseLam(t: string): (r: Parsed<Val>)
    ensures r.Some? ==> |r.value.1| < |t|
    decreases |t|, 3
  {
    match Symbol(t)
    case None => None
    case Some((x, t1)) =>
      match ParseExpr(t1)
      case None => None
      case Some((body, t2)) => Closed(LamV(x, body), t2)
  }

  function ParseMembers(t: string, names: seq<Name>, vals: seq<Val>): (r: Parsed<Val>)
    ensures r.Some? ==> |r.value.1| < |t|
    decreases |t|, 2
  {
    match Accept(t, '(')
    case None => Closed(NsV(names, vals), t)
    case Some(t1) =>
      match Symbol(t1)
      case None => None
      case Some((x, t2)) =>
        match ParseVal(t2)
        case None => None
        case Some((v, t3)) =>
          match Accept(t3, ')')
          case None => None
          case Some(t4) => ParseMembers(t4, names + [x], vals + [v])
  }

  /** Arguments up to the closing parenthesis, which is read too. */
  function ParseArgs(t: string, args: seq<Val>): (r: Parsed<seq<Val>>)
    ensures r.Some? ==> |r.value.1| < |t|
    decreases |t|, 2
  {
    match Accept(t, ')')
    case Some(rest) => Some((args, rest))
    case None =>
      match ParseVal(t)
      case None => None
      case Some((v, rest)) => ParseArgs(rest, args + [v])
  }

  function ParseExpr(t: string): (r: Parsed<Expr>)
    ensures r.Some? ==> |r.value.1| < |t|
    decreases |t|, 2
  {
    match Accept(t, '(')
    case Some(rest) => ParseExprTail(rest)
    case None => (match ParseVal(t) case None => None case Some((v, rest)) => Some((Value(v), rest)))
  }

  function ParseApp(t: string): (r: Parsed<Expr>)
    ensures r.Some? ==> |r.value.1| < |t|
    decreases |t|, 3
  {
    match ParseVal(t)
    case None => None
    case Some((f, t1)) =>
      match ParseArgs(t1, [])
      case None => None
      case Some((args, t2)) => Some((App(f, args), t2))
  }

  function ParseLet(t: string): (r: Parsed<Expr>)
    ensures r.Some? ==> |r.value.1| < |t|
    decreases |t|, 3
  {
    match Symbol(t)
    case None => None
    case Some((x, t1)) =>
      match ParseExpr(t1)
      case None => None
      case Some((bind, t2)) =>
        match ParseExpr(t2)
        case None => None
        case Some((body, t3)) => Closed(Let(x, bind, body), t3)
  }

  function ParseIf(t: string): (r: Parsed<Expr>)
    ensures r.Some? ==> |r.value.1| < |t|
    decreases |t|, 3
  {
    match ParseVal(t)
    case None => None
    case Some((cond, t1)) =>
      match ParseExpr(t1)
      case None => None
      case Some((thenE, t2)) =>
        match ParseExpr(t2)
        case None => None
        case Some((elseE, t3)) => Closed(If(cond, thenE, elseE), t3)
  }

  function ParseEffApp(t: string): (r: Parsed<Expr>)
    ensures r.Some? ==> |r.value.1| < |t|
    decreases |t|, 3
  {
    match ParseVal(t)
    case None => None
    case Some((f, t1)) =>
      match ParseVal(t1)
      case None => None
      case Some((token, t2)) =>
        match ParseArgs(t2, [])
        case None => None
        case Some((args, t3)) => Some((EffApp(f, token, args), t3))
  }

  /** An expression whose opening parenthesis has been read. Reading `match` is not modelled: it gives `None`. */
  function ParseExprTail(t: string): (r: Parsed<Expr>)
    ensures r.Some? ==> |r.value.1| < |t|
    decreases |t|, 1
  {
    if Keyword(t, "app").Some? then ParseApp(Keyword(t, "app").value)
    else if Keyword(t, "let").Some? then ParseLet(Keyword(t, "let").value)
    else if Keyword(t, "if").Some? then ParseIf(Keyword(t, "if").value)
    else if Keyword(t, "match").Some? then None
    else if Keyword(t, "effapp").Some? then ParseEffApp(Keyword(t, "effapp").value)
    else if Keyword(t, "token").Some? then Closed(Token, Keyword(t, "token").value)
    else (match ParseValTail(t) case None => None case Some((v, rest)) => Some((Value(v), rest)))
  }

  const HEADER: string := "LCIR v0"

  function TrimLeft(t: string): string {
    if t != "" && IsSpace(t[0]) then TrimLeft(t[1..]) else t
  }

  /** A header line must carry the version, unless it is shorter than that. */
  predicate GoodHeader(line: string) {
    |TrimLeft(line)| < |HEADER| || HEADER <= TrimLeft(line)
  }

  /** The check of a header line, if the text starts with one. What follows the line is read on. */
  function CheckHeader(t: string): Option<string> {
    if t == "" || t[0] != ';' then Some(t)
    else
      var rest := SkipLine(t[1..]);
      if GoodHeader(t[1..|t| - |rest|]) then Some(rest) else None
  }

  /** The whole text: what follows the first expression is not looked at. */
  function ReadProgram(t: string): Option<Expr> {
    match CheckHeader(SkipWs(t))
    case None => None
    case Some(t1) =>
      match ParseExpr(t1)
      case None => None
      case Some((e, _)) => Some(e)
  }

  // ---- What can be read back -----------------------------------------------

  /** A name the symbol reader reads whole. */
  predicate PlainName(x: Name) {
    x != "" && x[0] != ';' && forall i :: 0 <= i < |x| ==> !IsDelimiter(x[i])
  }

  /** Not taken for the head of another value. */
  predicate NoValKeyword(x: Name) {
    !("int" <= x) && !("str" <= x) && !("var" <= x) && !("lam" <= x) && !("nslit" <= x)
  }

  /** Not taken for the head of an expression. */
  predicate NoExprKeyword(x: Name) {
    !("app" <= x) && !("let" <= x) && !("if" <= x) && !("match" <= x) && !("effapp" <= x) && !("token" <= x)
  }

  predicate ReadableVal(v: Val) {
    match v
    case IntV(_) => true
    case StrV(s) => '"' !in s
    case VarV(x) => PlainName(x)
    case ConV(name, args) => PlainName(name) && NoValKeyword(name) && AllReadable(args)
    case LamV(param, body) => PlainName(param) && Readable(body)
    case NsV(names, vals) =>
      && |names| == |vals|
      && forall i :: 0 <= i < |vals| ==> PlainName(names[i]) && ReadableVal(vals[i])
  }

  predicate AllReadable(vs: seq<Val>) {
    forall i :: 0 <= i < |vs| ==> ReadableVal(vs[i])
  }

  predicate Readable(e: Expr) {
    match e
    case Value(v) => ReadableVal(v) && (v.ConV? ==> NoExprKeyword(v.name))
    case App(func, args) => ReadableVal(func) && AllReadable(args)
    case Let(x, bind, body) => PlainName(x) && Readable(bind) && Readable(body)
    case If(cond, thenE, elseE) => ReadableVal(cond) && Readable(thenE) && Readable(elseE)
    case EffApp(func, token, args) => ReadableVal(func) && ReadableVal(token) && AllReadable(args)
    case Token => true
    case Match(_, _) => false
    case Null => false
  }
}
