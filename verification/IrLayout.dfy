/** Texts the reader takes although no printer writes them: layout between tokens, and numerals of any length. */
module IrLayout {
  import opened Options
  import opened CoreIr
  import opened IrText
  import opened Words
  import Decimal
  import RoundTrip = IrRoundTrip

  // ---- Layout --------------------------------------------------------------

  /** A blank, tab or line break, or a comment with the line break that ends it. */
  datatype Gap = Blank(c: char) | Comment(line: string)

  ghost predicate Layout(g: Gap) {
    match g
    case Blank(c) => c as int in {32, 9, 10, 11, 12, 13}
    case Comment(line) => '\n' !in line
  }

  function GapText(g: Gap): string {
    match g
    case Blank(c) => [c]
    case Comment(line) => ";" + (line + "\n")
  }

  function LayoutText(gs: seq<Gap>): string {
    if gs == [] then "" else GapText(gs[0]) + LayoutText(gs[1..])
  }

  lemma {:induction false} GapIgnored(g: Gap, t: string)
    requires Layout(g)
    ensures SkipWs(GapText(g) + t) == SkipWs(t)
  {
    match g
    case Blank(c) =>
      assert ([c] + t)[1..] == t;
    case Comment(line) =>
      RoundTrip.HeaderLine(line, t);
      RoundTrip.SkipHeader(line, t);
  }

  lemma {:induction false} LayoutIgnored(gs: seq<Gap>, t: string)
    requires forall i :: 0 <= i < |gs| ==> Layout(gs[i])
    ensures SkipWs(LayoutText(gs) + t) == SkipWs(t)
  {
    hide SkipWs, Layout, GapText;
    if gs == [] {
      assert "" + t == t;
    } else {
      LayoutIgnored(gs[1..], t);
      GapIgnored(gs[0], LayoutText(gs[1..]) + t);
      assert GapText(gs[0]) + LayoutText(gs[1..]) + t == GapText(gs[0]) + (LayoutText(gs[1..]) + t);
    }
  }

  /** So every token, value and expression is read the same after any layout. */
  lemma {:induction false} ReadAfterLayout(gs: seq<Gap>, t: string)
    requires forall i :: 0 <= i < |gs| ==> Layout(gs[i])
    ensures var s := LayoutText(gs) + t;
      && (forall c :: Accept(s, c) == Accept(t, c))
      && Symbol(s) == Symbol(t) && Integer(s) == Integer(t) && Quoted(s) == Quoted(t)
      && ParseVal(s) == ParseVal(t) && ParseExpr(s) == ParseExpr(t)
  {
    hide SkipWs, LayoutText, Layout, SymbolLength, QuoteLength, ReadDigits, ParseValTail, ParseExprTail;
    LayoutIgnored(gs, t);
  }

  // ---- Numerals ------------------------------------------------------------

  lemma {:induction false} WrapEarlier(x: int, d: int)
    ensures Wrap64(Wrap64(x) as int * 10 + d) == Wrap64(x * 10 + d)
  {
    var q := (x + 0x8000_0000_0000_0000) / 0x1_0000_0000_0000_0000;
    assert Wrap64(x) == x - q * 0x1_0000_0000_0000_0000;
    WrapShift(x * 10 + d, -10 * q);
  }

  lemma {:induction false} WrapShift(y: int, k: int)
    ensures Wrap64(y + k * 0x1_0000_0000_0000_0000) == Wrap64(y)
    decreases if k < 0 then -k else k
  {
    if k > 0 {
      WrapShift(y + 0x1_0000_0000_0000_0000, k - 1);
      WrapOnce(y);
    } else if k < 0 {
      WrapShift(y - 0x1_0000_0000_0000_0000, k + 1);
      WrapOnce(y - 0x1_0000_0000_0000_0000);
    }
  }

  lemma {:induction false} WrapOnce(y: int)
    ensures Wrap64(y + 0x1_0000_0000_0000_0000) == Wrap64(y)
  {
  }

  predicate Digital(ds: string) {
    forall i :: 0 <= i < |ds| ==> ds[i] in "0123456789"
  }

  /** The number a numeral stands for. */
  function Number(ds: string): nat
    requires Digital(ds)
  {
    if ds == "" then 0 else 10 * Number(ds[..|ds| - 1]) + Place(ds[|ds| - 1])
  }

  function Place(c: char): (d: nat)
    requires c in "0123456789"
    ensures d < 10 && "0123456789"[d] == c
  {
    var d :| 0 <= d < 10 && "0123456789"[d] == c;
    d
  }

  lemma {:induction false} DigitIs(c: char)
    requires c in "0123456789"
    ensures Decimal.IsDigit(c) && Decimal.DigitValue(c) == Place(c)
  {
    var d := Place(c);
    assert d == 0 || d == 1 || d == 2 || d == 3 || d == 4 || d == 5 || d == 6 || d == 7 || d == 8 || d == 9;
  }

  lemma {:induction false} DigitsAre(ds: string)
    requires Digital(ds)
    ensures forall i :: 0 <= i < |ds| ==> Decimal.IsDigit(ds[i])
  {
    forall i | 0 <= i < |ds|
      ensures Decimal.IsDigit(ds[i])
    {
      DigitIs(ds[i]);
    }
  }

  lemma {:induction false} NextDigit(front: string, c: char)
    requires Digital(front) && c in "0123456789"
    ensures ReadDigits(front + [c], 0).0 == Wrap64(ReadDigits(front, 0).0 * 10 + Place(c))
  {
    hide ReadDigits, Wrap64, Place;
    DigitsAre(front);
    DigitIs(c);
    RoundTrip.ReadSplit(front, [c], 0);
    OneDigit(c, ReadDigits(front, 0).0);
  }

  lemma {:induction false} NumberSplit(ds: string)
    requires Digital(ds) && ds != ""
    ensures var l := |ds| - 1;
      ds == ds[..l] + [ds[l]] && Digital(ds[..l]) && Number(ds) == Number(ds[..l]) * 10 + Place(ds[l])
  {
  }

  lemma {:induction false} NumeralNext(front: string, c: char)
    requires Digital(front) && c in "0123456789" && ReadDigits(front, 0).0 == Wrap64(Number(front))
    ensures ReadDigits(front + [c], 0).0 == Wrap64(Number(front) * 10 + Place(c))
  {
    hide Wrap64, ReadDigits, Number, Place;
    NextDigit(front, c);
    WrapEarlier(Number(front), Place(c));
  }

  /** Any numeral, with leading zeros or out of range, is read as its number, wrapped to 64 bits. */
  lemma {:induction false} NumeralRead(ds: string)
    requires Digital(ds)
    ensures ReadDigits(ds, 0).0 == Wrap64(Number(ds))
  {
    hide Wrap64, ReadDigits, Number, Place;
    if ds == "" {
      EmptyNumeral();
    } else {
      NumberSplit(ds);
      NumeralRead(ds[..|ds| - 1]);
      NumeralNext(ds[..|ds| - 1], ds[|ds| - 1]);
    }
  }

  lemma {:induction false} EmptyNumeral()
    ensures ReadDigits("", 0).0 == Wrap64(Number(""))
  {
  }

  lemma {:induction false} OneDigit(c: char, v: Int64)
    requires Decimal.IsDigit(c)
    ensures ReadDigits([c], v).0 == Wrap64(v * 10 + Decimal.DigitValue(c))
  {
    hide Wrap64;
    assert [c][1..] == "";
    assert ReadDigits("", Wrap64(v * 10 + Decimal.DigitValue(c))).0 == Wrap64(v * 10 + Decimal.DigitValue(c));
  }

  /** A numeral ends at what is no digit, and a sign in front negates it. */
  lemma {:induction false} IntegerRead(ds: string, rest: string)
    requires Digital(ds) && (rest == "" || rest[0] !in "0123456789") && ds != ""
    ensures Integer(ds + rest) == (Wrap64(Number(ds)), rest)
    ensures Integer("-" + (ds + rest)) == (Wrap64(-(Wrap64(Number(ds)) as int)), rest)
  {
    hide Wrap64;
    DigitsAre(ds);
    NumeralRead(ds);
    RoundTrip.ReadSplit(ds, rest, 0);
    RestStays(rest, ReadDigits(ds, 0).0);
    hide ReadDigits;
    var t := ds + rest;
    assert t[0] == ds[0] && SkipWs(t) == t;
    var u := "-" + t;
    assert u[0] == '-' && u[1..] == t && SkipWs(u) == u;
  }

  lemma {:induction false} RestStays(rest: string, v: Int64)
    requires rest == "" || rest[0] !in "0123456789"
    ensures ReadDigits(rest, v) == (v, rest)
  {
    if rest != "" && Decimal.IsDigit(rest[0]) {
      DigitListed(rest[0]);
    }
  }

  lemma {:induction false} DigitListed(c: char)
    requires Decimal.IsDigit(c)
    ensures c in "0123456789"
  {
    var d := c as int - '0' as int;
    assert d == 0 || d == 1 || d == 2 || d == 3 || d == 4 || d == 5 || d == 6 || d == 7 || d == 8 || d == 9;
    assert "0123456789"[d] == c;
  }
}
