/**
  What the escapes of a string literal mean, by tables of digits and letters, whether the printer writes them or not.
 */
module StrEscapes {
  import opened Options
  import opened StrLiteral

  const LOWER: seq<Char> := "0123456789abcdef"
  const UPPER: seq<Char> := "0123456789ABCDEF"
  const OCTAL: seq<Char> := "01234567"
  const LETTERS: seq<Char> := "ntrabfv"
  const CAPITALS: seq<Char> := "NTRABFV"
  const CONTROLS: seq<int> := [10, 9, 13, 7, 8, 12, 11]

  /** `c` is a hexadecimal digit of value `d`, in either case. */
  predicate HexFor(c: Char, d: nat) {
    d < 16 && (c == LOWER[d] || c == UPPER[d])
  }

  predicate NoHex(c: Char) {
    c !in LOWER && c !in UPPER
  }

  lemma {:induction false} HexForValue(c: Char, d: nat)
    requires HexFor(c, d)
    ensures IsHex(Signed(c)) && HexValue(Signed(c)) == d && Signed(c) == c as int
  {
    assert d == 0 || d == 1 || d == 2 || d == 3 || d == 4 || d == 5 || d == 6 || d == 7 || d == 8 || d == 9 || d == 10
      || d == 11 || d == 12 || d == 13 || d == 14 || d == 15;
  }

  lemma {:induction false} HexIsListed(c: Char)
    requires IsHex(Signed(c))
    ensures c in LOWER || c in UPPER
  {
    var d := HexValue(Signed(c));
    assert LOWER[d] in LOWER && UPPER[d] in UPPER;
    assert d == 0 || d == 1 || d == 2 || d == 3 || d == 4 || d == 5 || d == 6 || d == 7 || d == 8 || d == 9 || d == 10
      || d == 11 || d == 12 || d == 13 || d == 14 || d == 15;
  }

  lemma {:induction false} NoHexNotHex(c: Char)
    requires NoHex(c)
    ensures !IsHex(Signed(c))
  {
    if IsHex(Signed(c)) {
      HexIsListed(c);
    }
  }

  /** The next character of a text that starts with one below 128. */
  lemma {:induction false} NextIs(c: Char, t: seq<Char>)
    ensures Next([c] + t) == (Signed(c), t)
  {
    assert ([c] + t)[1..] == t;
  }

  /** Two hexadecimal digits, in any mix of cases. */
  lemma {:induction false} HexPair(x: Char, c1: Char, c2: Char, d1: nat, d2: nat, rest: seq<Char>)
    requires (x == 'x' || x == 'X') && HexFor(c1, d1) && HexFor(c2, d2)
    ensures ParseEsc([x] + ([c1] + ([c2] + rest))) == (16 * d1 + d2, rest)
  {
    HexForValue(c1, d1);
    HexForValue(c2, d2);
    NextIs(x, [c1] + ([c2] + rest));
    NextIs(c1, [c2] + rest);
    NextIs(c2, rest);
    hide Next, IsHex, HexValue;
    assert ParseHex([c1] + ([c2] + rest)) == (16 * d1 + d2, rest);
  }

  /** One digit and another character, which is lost. */
  lemma {:induction false} HexSingle(x: Char, c1: Char, c: Char, d1: nat, rest: seq<Char>)
    requires (x == 'x' || x == 'X') && HexFor(c1, d1) && NoHex(c) && c as int != 255
    ensures ParseEsc([x] + ([c1] + ([c] + rest))) == (d1, rest)
  {
    HexForValue(c1, d1);
    NoHexNotHex(c);
    NextIs(x, [c1] + ([c] + rest));
    NextIs(c1, [c] + rest);
    NextIs(c, rest);
    hide Next, IsHex, HexValue;
    assert ParseHex([c1] + ([c] + rest)) == (d1, rest);
  }

  /** No digit: the letter x, and the character is lost. */
  lemma {:induction false} HexNone(x: Char, c: Char, rest: seq<Char>)
    requires (x == 'x' || x == 'X') && NoHex(c) && c as int != 255
    ensures ParseEsc([x] + ([c] + rest)) == ('x' as int, rest)
  {
    NoHexNotHex(c);
    NextIs(x, [c] + rest);
    NextIs(c, rest);
    hide Next, IsHex, HexValue;
    assert ParseHex([c] + rest) == ('x' as int, rest);
  }

  lemma {:induction false} OctForValue(d: nat)
    requires d < 8
    ensures OCTAL[d] as int == 48 + d
  {
    assert d == 0 || d == 1 || d == 2 || d == 3 || d == 4 || d == 5 || d == 6 || d == 7;
  }

  lemma {:induction false} OctIsListed(c: Char)
    requires 48 <= Signed(c) < 56
    ensures c in OCTAL
  {
    var d := Signed(c) - 48;
    OctForValue(d);
    assert OCTAL[d] in OCTAL;
  }

  /** Two octal digits. A leading 0 stands for itself alone. */
  lemma {:induction false} OctPair(d1: nat, d2: nat, rest: seq<Char>)
    requires 0 < d1 < 8 && d2 < 8
    ensures ParseEsc([OCTAL[d1]] + ([OCTAL[d2]] + rest)) == (8 * d1 + d2, rest)
  {
    OctForValue(d1);
    OctForValue(d2);
    NextIs(OCTAL[d1], [OCTAL[d2]] + rest);
    NextIs(OCTAL[d2], rest);
    hide Next;
    assert ParseOct([OCTAL[d2]] + rest, OCTAL[d1] as int) == (8 * d1 + d2, rest);
  }

  lemma {:induction false} OctSingle(d1: nat, c: Char, rest: seq<Char>)
    requires 0 < d1 < 8 && c !in OCTAL && c as int != 255
    ensures ParseEsc([OCTAL[d1]] + ([c] + rest)) == (d1, rest)
  {
    OctForValue(d1);
    NextIs(OCTAL[d1], [c] + rest);
    NextIs(c, rest);
    if 48 <= Signed(c) < 56 {
      OctIsListed(c);
    }
    hide Next;
    assert ParseOct([c] + rest, OCTAL[d1] as int) == (d1, rest);
  }

  lemma {:induction false} OctZero(rest: seq<Char>)
    ensures ParseEsc(['0'] + rest) == (0, rest)
  {
    NextIs('0', rest);
  }

  /** The letters, small and capital. */
  lemma {:induction false} LetterEscape(k: nat, rest: seq<Char>)
    requires k < 7
    ensures ParseEsc([LETTERS[k]] + rest) == (CONTROLS[k], rest) &&
      ParseEsc([CAPITALS[k]] + rest) == (CONTROLS[k], rest)
  {
    NextIs(LETTERS[k], rest);
    NextIs(CAPITALS[k], rest);
    hide Next;
    assert k == 0 || k == 1 || k == 2 || k == 3 || k == 4 || k == 5 || k == 6;
  }

  lemma {:induction false} NoLetter(c: Char)
    ensures c !in LETTERS ==> c != 'n' && c != 't' && c != 'r' && c != 'a' && c != 'b' && c != 'f' && c != 'v'
    ensures c !in CAPITALS ==> c != 'N' && c != 'T' && c != 'R' && c != 'A' && c != 'B' && c != 'F' && c != 'V'
  {
    assert LETTERS[0] == 'n' && LETTERS[1] == 't' && LETTERS[2] == 'r' && LETTERS[3] == 'a' && LETTERS[4] == 'b'
      && LETTERS[5] == 'f' && LETTERS[6] == 'v';
    assert CAPITALS[0] == 'N' && CAPITALS[1] == 'T' && CAPITALS[2] == 'R' && CAPITALS[3] == 'A' && CAPITALS[4] == 'B'
      && CAPITALS[5] == 'F' && CAPITALS[6] == 'V';
  }

  /** Every other character stands for itself. */
  lemma {:induction false} OtherEscape(c: Char, rest: seq<Char>)
    requires c !in LETTERS && c !in CAPITALS && c !in OCTAL && c != 'x' && c != 'X'
    ensures ParseEsc([c] + rest) == (Signed(c), rest)
  {
    NextIs(c, rest);
    if 48 <= Signed(c) < 56 {
      OctIsListed(c);
    }
    NoLetter(c);
    hide Next;
  }

  /** An escape that is read to a character, as a whole literal. */
  lemma {:induction false} EscapedLiteral(c: Char, esc: seq<Char>, v: int, rest: seq<Char>)
    requires ParseEsc([c] + (esc + (['"'] + rest))) == (v, ['"'] + rest) && 0 <= v < 256
    ensures Parse(['"'] + (['\\'] + ([c] + (esc + (['"'] + rest))))) == Some([v as char])
  {
    NextIs('"', ['\\'] + ([c] + (esc + (['"'] + rest))));
    NextIs('"', rest);
    EscapeStep(c, v, esc + (['"'] + rest), ['"'] + rest, []);
    hide ParseEsc, Next;
    assert [] + [v as char] == [v as char];
    assert ParseBody(['"'] + rest, [v as char]) == Some([v as char]);
  }

  /** The literal of two hexadecimal digits is the character of that code. */
  lemma {:induction false} HexLiteral(x: Char, c1: Char, c2: Char, d1: nat, d2: nat, rest: seq<Char>)
    requires (x == 'x' || x == 'X') && HexFor(c1, d1) && HexFor(c2, d2)
    ensures Parse(['"'] + (['\\'] + ([x] + ([c1, c2] + (['"'] + rest))))) == Some([(16 * d1 + d2) as char])
  {
    hide Parse, ParseEsc;
    var t := ['"'] + rest;
    assert [c1, c2] + t == [c1] + ([c2] + t);
    HexPair(x, c1, c2, d1, d2, t);
    EscapedLiteral(x, [c1, c2], 16 * d1 + d2, rest);
  }

  /** `"\x4A"` is the letter J. */
  lemma {:induction false} HexExample()
    ensures Parse("\"\\x4A\"") == Some("J")
  {
    hide Parse;
    assert HexFor('4', 4) && HexFor('A', 10);
    HexLiteral('x', '4', 'A', 4, 10, []);
    assert "\"\\x4A\"" == ['"'] + (['\\'] + (['x'] + (['4', 'A'] + (['"'] + []))));
  }

  // ---- What is no literal --------------------------------------------------

  /** `r` is the end of `t`. */
  predicate EndOf(r: seq<Char>, t: seq<Char>) {
    |r| <= |t| && r == t[|t| - |r|..]
  }

  lemma {:induction false} NextConsumes(t: seq<Char>)
    ensures EndOf(Next(t).1, t)
  {
  }

  lemma {:induction false} EndOfEnd(r: seq<Char>, s: seq<Char>, t: seq<Char>)
    requires EndOf(r, s) && EndOf(s, t)
    ensures EndOf(r, t)
  {
  }

  lemma {:induction false} EndHasNo(c: Char, r: seq<Char>, t: seq<Char>)
    requires EndOf(r, t) && c !in t
    ensures c !in r
  {
  }

  lemma {:induction false} HexConsumes(t: seq<Char>)
    ensures EndOf(ParseHex(t).1, t)
  {
    hide Next, EndOf, IsHex, HexValue;
    NextConsumes(t);
    NextConsumes(Next(t).1);
    EndOfEnd(Next(Next(t).1).1, Next(t).1, t);
  }

  lemma {:induction false} OctConsumes(t: seq<Char>, first: int)
    ensures EndOf(ParseOct(t, first).1, t)
  {
    hide Next, EndOf;
    NextConsumes(t);
  }

  /** An escape consumes a front part of the text. */
  lemma {:induction false} EscapeConsumes(t: seq<Char>)
    ensures EndOf(ParseEsc(t).1, t)
  {
    hide Next, EndOf, ParseHex, ParseOct;
    var (c, t1) := Next(t);
    NextConsumes(t);
    HexConsumes(t1);
    OctConsumes(t1, c);
    EndOfEnd(ParseHex(t1).1, t1, t);
    EndOfEnd(ParseOct(t1, c).1, t1, t);
  }

  /** Without a closing quote there is no literal. */
  lemma {:induction false} Unclosed(t: seq<Char>, acc: seq<Char>)
    requires '"' !in t
    ensures ParseBody(t, acc) == None
    decreases |t|
  {
    hide ParseEsc, EndOf;
    var (c, t1) := Next(t);
    assert t != [] ==> t[0] in t;
    if c != -1 {
      NextConsumes(t);
      EndHasNo('"', t1, t);
      EscapeConsumes(t1);
      EndHasNo('"', ParseEsc(t1).1, t1);
      var (d, t2) := if c == '\\' as int then ParseEsc(t1) else (c, t1);
      Unclosed(t2, acc + [ToChar(d)]);
    }
  }

  /** Nor without an opening one. */
  lemma {:induction false} NoLiteral(t: seq<Char>)
    requires t == [] || t[0] != '"' || '"' !in t[1..]
    ensures Parse(t) == None
  {
    if t != [] && t[0] == '"' {
      Unclosed(t[1..], []);
    }
  }

  // ---- What the printer writes ---------------------------------------------

  /** Printable characters as they are, except quotes and the backslash, which get a backslash. */
  lemma {:induction false} PrintedPlain(c: Char)
    requires 32 <= c as int < 127
    ensures Escape(c) == if c in "\"'\\" then ['\\', c] else [c]
  {
  }

  /** The control characters that have a letter, and zero. */
  lemma {:induction false} PrintedLetter(k: nat)
    requires k < 7
    ensures Escape(CONTROLS[k] as char) == ['\\', LETTERS[k]] && Escape('\0') == ['\\', '0']
  {
    assert k == 0 || k == 1 || k == 2 || k == 3 || k == 4 || k == 5 || k == 6;
  }

  lemma {:induction false} HexDigitListed(d: nat)
    requires d < 16
    ensures HexDigit(d) == LOWER[d]
  {
    assert d == 0 || d == 1 || d == 2 || d == 3 || d == 4 || d == 5 || d == 6 || d == 7 || d == 8 || d == 9 || d == 10
      || d == 11 || d == 12 || d == 13 || d == 14 || d == 15;
  }

  /** Any other in two small hexadecimal digits, or in eight from 128 on. */
  lemma {:induction false} PrintedHex(c: Char)
    requires (c as int < 32 || c as int >= 127) && c != '\0' && c as int !in CONTROLS
    ensures Escape(c) == "\\x"
      + ((if c as int < 128 then "" else "ffffff") + [LOWER[c as int / 16], LOWER[c as int % 16]])
  {
    HexDigitListed(c as int / 16);
    HexDigitListed(c as int % 16);
    assert CONTROLS[0] in CONTROLS && CONTROLS[1] in CONTROLS && CONTROLS[2] in CONTROLS && CONTROLS[3] in CONTROLS
      && CONTROLS[4] in CONTROLS && CONTROLS[5] in CONTROLS && CONTROLS[6] in CONTROLS;
    hide HexDigit;
  }
}
