/** String literals: what the printer writes and what the parser makes of it. */
module StrLiteral {
  import opened Options
  import opened Sequences

  /** A C string's characters, as bytes. */
  type Char = c: char | c as int < 256

  /** As a C `char`, which is signed: what the code compares and formats. */
  function Signed(c: Char): int {
    if c as int >= 128 then c as int - 256 else c as int
  }

  /** The cast back to `char`. */
  function ToChar(c: int): Char {
    (c % 256) as char
  }

  function HexDigit(d: nat): (c: Char)
    requires d < 16
    ensures IsHex(c as int) && HexValue(c as int) == d
  {
    if d < 10 then '0' + d as char else 'a' + (d - 10) as char
  }

  predicate IsHex(c: int) {
    '0' as int <= c <= '9' as int || 'a' as int <= c <= 'f' as int || 'A' as int <= c <= 'F' as int
  }

  function HexValue(c: int): (d: nat)
    requires IsHex(c)
    ensures d < 16
  {
    if c <= '9' as int then c - '0' as int
    else if c <= 'F' as int then c - 'A' as int + 10
    else c - 'a' as int + 10
  }

  // ---- Printing ------------------------------------------------------------

  /** `%02x` of the character as an `int`: a negative one takes eight digits. */
  function Hex(c: Char): seq<Char> {
    (if c as int >= 128 then "ffffff" else "") + [HexDigit(c as int / 16), HexDigit(c as int % 16)]
  }

  function Escape(c: Char): seq<Char> {
    if c == '\n' then "\\n"
    else if c == '\t' then "\\t"
    else if c == '\r' then "\\r"
    else if c == '\0' then "\\0"
    else if c == '\\' then "\\\\"
    else if c == '"' then "\\\""
    else if c == '\'' then "\\'"
    else if c as int == 7 then "\\a"
    else if c as int == 8 then "\\b"
    else if c as int == 12 then "\\f"
    else if c as int == 11 then "\\v"
    else if Signed(c) < 32 || Signed(c) >= 127 then "\\x" + Hex(c)
    else [c]
  }

  function EscapeAll(s: seq<Char>): seq<Char> {
    if s == [] then [] else Escape(s[0]) + EscapeAll(s[1..])
  }

  function Print(s: seq<Char>): seq<Char> {
    "\"" + EscapeAll(s) + "\""
  }

  // ---- Parsing -------------------------------------------------------------

  /** The next character, or -1 at the end; the character 255 is -1 too. */
  function Next(t: seq<Char>): (r: (int, seq<Char>))
    ensures |r.1| <= |t| && (r.0 != -1 ==> |r.1| < |t|)
  {
    if t == [] then (-1, t) else (Signed(t[0]), t[1..])
  }

  function ParseHex(t: seq<Char>): (r: (int, seq<Char>))
    ensures |r.1| <= |t|
  {
    var (c1, t1) := Next(t);
    if c1 == -1 then (-1, t1)
    else if !IsHex(c1) then ('x' as int, t1)
    else
      var (c2, t2) := Next(t1);
      if c2 == -1 then (-1, t2)
      else if IsHex(c2) then (HexValue(c1) * 16 + HexValue(c2), t2)
      else (HexValue(c1), t2)
  }

  function ParseOct(t: seq<Char>, first: int): (r: (int, seq<Char>))
    ensures |r.1| <= |t|
  {
    var (c, t1) := Next(t);
    if c == -1 then (-1, t1)
    else if '0' as int <= c <= '7' as int then ((first - '0' as int) * 8 + (c - '0' as int), t1)
    else (first - '0' as int, t1)
  }

  function ParseEsc(t: seq<Char>): (r: (int, seq<Char>))
    ensures |r.1| <= |t|
  {
    var (c, t1) := Next(t);
    if c == 'n' as int || c == 'N' as int then (10, t1)
    else if c == 't' as int || c == 'T' as int then (9, t1)
    else if c == 'r' as int || c == 'R' as int then (13, t1)
    else if c == '0' as int then (0, t1)
    else if c == 'a' as int || c == 'A' as int then (7, t1)
    else if c == 'b' as int || c == 'B' as int then (8, t1)
    else if c == 'f' as int || c == 'F' as int then (12, t1)
    else if c == 'v' as int || c == 'V' as int then (11, t1)
    else if c == 'x' as int || c == 'X' as int then ParseHex(t1)
    else if '0' as int <= c <= '7' as int then ParseOct(t1, c)
    else (c, t1)
  }

  /** The loop after the opening quote; `acc` is what has been parsed. */
  function ParseBody(t: seq<Char>, acc: seq<Char>): Option<seq<Char>>
    decreases |t|
  {
    var (c, t1) := Next(t);
    if c == '"' as int then Some(acc)
    else if c == -1 then None
    else
      var (d, t2) := if c == '\\' as int then ParseEsc(t1) else (c, t1);
      if d == -1 then None else ParseBody(t2, acc + [ToChar(d)])
  }

  /** What follows the closing quote is not looked at. */
  function Parse(t: seq<Char>): Option<seq<Char>> {
    var (c, t1) := Next(t);
    if c != '"' as int then None else ParseBody(t1, [])
  }

  // ---- Round trip ----------------------------------------------------------

  /** What a character comes back as: itself, or, from 128 on, the seven characters of a misread escape. */
  function Reread(c: Char): seq<Char> {
    if c as int < 128 then [c] else [255 as char] + ("ffff" + [HexDigit(c as int / 16), HexDigit(c as int % 16)])
  }

  function RereadAll(s: seq<Char>): seq<Char> {
    if s == [] then [] else Reread(s[0]) + RereadAll(s[1..])
  }

  /** A character that stands for itself. */
  lemma {:induction false} PlainStep(c: Char, t: seq<Char>, acc: seq<Char>)
    requires 32 <= c as int < 127 && c != '"' && c != '\\'
    ensures ParseBody([c] + t, acc) == ParseBody(t, acc + [c])
  {
    assert ([c] + t)[0] == c && ([c] + t)[1..] == t;
  }

  /** A backslash and an escape that stands for the character `v`. */
  lemma {:induction false} EscapeStep(c: Char, v: int, t: seq<Char>, rest: seq<Char>, acc: seq<Char>)
    requires ParseEsc([c] + t) == (v, rest) && 0 <= v < 256
    ensures ParseBody(['\\'] + ([c] + t), acc) == ParseBody(rest, acc + [v as char])
  {
    hide ParseEsc;
    var s := ['\\'] + ([c] + t);
    assert s[0] == '\\' && s[1..] == [c] + t;
  }

  lemma {:induction false} HexRead(c: Char, t: seq<Char>)
    ensures ParseEsc(['x'] + ([HexDigit(c as int / 16)] + ([HexDigit(c as int % 16)] + t))) == (c as int, t)
  {
    var h, l := HexDigit(c as int / 16), HexDigit(c as int % 16);
    HexIsAscii(c as int / 16);
    HexIsAscii(c as int % 16);
    hide HexDigit;
    var t2 := [l] + t;
    var t1 := [h] + t2;
    assert t2[1..] == t && t1[1..] == t2 && (['x'] + t1)[1..] == t1;
    assert ParseHex(t1) == (c as int, t);
  }

  lemma {:induction false} HexStep(c: Char, t: seq<Char>, acc: seq<Char>)
    ensures ParseBody("\\x" + ([HexDigit(c as int / 16), HexDigit(c as int % 16)] + t), acc) == ParseBody(t, acc + [c])
  {
    hide ParseEsc, ParseBody, HexDigit;
    var h, l := HexDigit(c as int / 16), HexDigit(c as int % 16);
    HexRead(c, t);
    EscapeStep('x', c as int, [h] + ([l] + t), t, acc);
    assert [h, l] + t == [h] + ([l] + t);
    assert "\\x" + ([h] + ([l] + t)) == ['\\'] + (['x'] + ([h] + ([l] + t)));
  }

  lemma {:induction false} HexIsAscii(d: nat)
    requires d < 16
    ensures 32 <= HexDigit(d) as int < 127 && HexDigit(d) != '"' && HexDigit(d) != '\\'
  {
  }

  /** One printed character. */
  lemma {:induction false} CharStep(c: Char, t: seq<Char>, acc: seq<Char>)
    ensures ParseBody(Escape(c) + t, acc) == ParseBody(t, acc + Reread(c))
  {
    hide ParseBody, ParseEsc, HexDigit;
    if |Escape(c)| == 1 {
      PlainStep(c, t, acc);
    } else if |Escape(c)| == 2 {
      var e := Escape(c)[1];
      assert Escape(c) + t == ['\\'] + ([e] + t);
      LetterMeans(c, t);
      EscapeStep(e, c as int, t, t, acc);
    } else if c as int < 128 {
      var h := [HexDigit(c as int / 16), HexDigit(c as int % 16)];
      assert Escape(c) + t == "\\x" + (h + t);
      HexStep(c, t, acc);
    } else {
      HighStep(c, t, acc);
    }
  }

  /** The two-character escapes mean the characters they were printed for. */
  lemma {:induction false} LetterMeans(c: Char, t: seq<Char>)
    requires |Escape(c)| == 2
    ensures c as int < 128 && Escape(c)[0] == '\\' && ParseEsc([Escape(c)[1]] + t) == (c as int, t)
    ensures Escape(c)[1] as int < 128
  {
    var s := [Escape(c)[1]] + t;
    assert s[0] == Escape(c)[1] && s[1..] == t;
  }

  lemma {:induction false} PlainRun(u: seq<Char>, t: seq<Char>, acc: seq<Char>)
    requires forall i :: 0 <= i < |u| ==> 32 <= u[i] as int < 127 && u[i] != '"' && u[i] != '\\'
    ensures ParseBody(u + t, acc) == ParseBody(t, acc + u)
    decreases |u|
  {
    hide ParseBody;
    if u == [] {
      assert u + t == t && acc + u == acc;
    } else {
      assert u + t == [u[0]] + (u[1..] + t);
      PlainStep(u[0], u[1..] + t, acc);
      PlainRun(u[1..], t, acc + [u[0]]);
      assert acc + [u[0]] + u[1..] == acc + u;
    }
  }

  lemma {:induction false} HighText(c: Char)
    requires c as int >= 128
    ensures var u := "ffff" + [HexDigit(c as int / 16), HexDigit(c as int % 16)];
      Escape(c) == "\\x" + (['f', 'f'] + u) && Reread(c) == [255 as char] + u
  {
    var hl := [HexDigit(c as int / 16), HexDigit(c as int % 16)];
    assert Hex(c) == "ffffff" + hl;
    hide HexDigit;
    assert "ffffff" == ['f', 'f'] + "ffff";
    Assoc(['f', 'f'], "ffff", hl);
  }

  /** A character from 128 on: two of the eight digits are read, the other six stand for themselves. */
  lemma {:induction false} HighStep(c: Char, t: seq<Char>, acc: seq<Char>)
    requires c as int >= 128
    ensures ParseBody(Escape(c) + t, acc) == ParseBody(t, acc + Reread(c))
  {
    hide ParseBody, HexDigit, Escape, Reread;
    var h, l := HexDigit(c as int / 16), HexDigit(c as int % 16);
    HexIsAscii(c as int / 16);
    HexIsAscii(c as int % 16);
    var u: seq<Char> := "ffff" + [h, l];
    HighText(c);
    Assoc("\\x", ['f', 'f'] + u, t);
    Assoc(['f', 'f'], u, t);
    FullByte(u + t, acc);
    PlainRun(u, t, acc + [255 as char]);
    Assoc(acc, [255 as char], u);
  }

  lemma {:induction false} FullByte(t: seq<Char>, acc: seq<Char>)
    ensures ParseBody("\\x" + (['f', 'f'] + t), acc) == ParseBody(t, acc + [255 as char])
  {
    assert HexDigit(15) == 'f';
    hide ParseBody, HexDigit;
    HexStep(255 as char, t, acc);
  }

  lemma {:induction false} BodyReread(s: seq<Char>, rest: seq<Char>, acc: seq<Char>)
    ensures ParseBody(EscapeAll(s) + ("\"" + rest), acc) == Some(acc + RereadAll(s))
    decreases |s|
  {
    hide Escape, Reread;
    var q := "\"" + rest;
    if s == [] {
      assert EscapeAll(s) + q == q && q[0] == '"';
      assert acc + RereadAll(s) == acc;
    } else {
      assert EscapeAll(s) + q == Escape(s[0]) + (EscapeAll(s[1..]) + q);
      CharStep(s[0], EscapeAll(s[1..]) + q, acc);
      BodyReread(s[1..], rest, acc + Reread(s[0]));
      assert acc + Reread(s[0]) + RereadAll(s[1..]) == acc + RereadAll(s);
    }
  }

  lemma {:induction false} RereadLength(s: seq<Char>)
    ensures |RereadAll(s)| >= |s|
    ensures RereadAll(s) == s <==> forall i :: 0 <= i < |s| ==> s[i] as int < 128
    ensures |RereadAll(s)| == |s| ==> forall i :: 0 <= i < |s| ==> s[i] as int < 128
  {
    if s == [] {
    } else {
      RereadLength(s[1..]);
      if s[0] as int < 128 {
        assert RereadAll(s) == [s[0]] + RereadAll(s[1..]);
        assert s == [s[0]] + s[1..];
        assert RereadAll(s)[1..] == RereadAll(s[1..]);
      }
    }
  }

  /** The parsed literal is the printed string, whatever follows it, exactly if all its characters are below 128. */
  lemma {:induction false} LiteralRoundTrip(s: seq<Char>, rest: seq<Char>)
    ensures Parse(Print(s) + rest) == Some(s) <==> forall i :: 0 <= i < |s| ==> s[i] as int < 128
  {
    hide EscapeAll, ParseBody, RereadAll;
    var t := EscapeAll(s) + ("\"" + rest);
    assert Print(s) + rest == ['"'] + t;
    assert (['"'] + t)[1..] == t;
    BodyReread(s, rest, []);
    assert [] + RereadAll(s) == RereadAll(s);
    RereadLength(s);
  }

  // ---- As they run ---------------------------------------------------------

  method PrintLiteral(s: seq<Char>) returns (out: seq<Char>)
    ensures out == Print(s)
  {
    hide Escape;
    out := "\"";
    var i := 0;
    while i < |s|
      invariant 0 <= i <= |s| && out + EscapeAll(s[i..]) == "\"" + EscapeAll(s)
    {
      assert s[i..][1..] == s[i + 1..];
      assert out + (Escape(s[i]) + EscapeAll(s[i + 1..])) == out + Escape(s[i]) + EscapeAll(s[i + 1..]);
      out := out + Escape(s[i]);
      i := i + 1;
    }
    out := out + "\"";
  }

  /** The cursor `*pi` over the text, shared by the parsing routines. */
  class Cursor {
    const str: seq<Char>
    var i: nat

    ghost predicate Valid()
      reads this
    {
      i <= |str|
    }

    ghost function Rest(): seq<Char>
      requires Valid()
      reads this
    {
      str[i..]
    }

    constructor (s: seq<Char>)
      ensures Valid() && str == s && Rest() == s
    {
      str, i := s, 0;
    }

    method Take() returns (c: int)
      requires Valid()
      modifies this
      ensures Valid() && Next(old(Rest())) == (c, Rest())
    {
      if i < |str| {
        c := Signed(str[i]);
        i := i + 1;
      } else {
        c := -1;
      }
    }

    method TakeHex() returns (hex: int)
      requires Valid()
      modifies this
      ensures Valid() && ParseHex(old(Rest())) == (hex, Rest())
    {
      hide Next;
      var c1 := Take();
      if c1 == -1 {
        return -1;
      }
      if !IsHex(c1) {
        return 'x' as int;
      }
      hex := HexValue(c1);
      var c2 := Take();
      if c2 == -1 {
        return -1;
      }
      if IsHex(c2) {
        hex := hex * 16 + HexValue(c2);
      }
    }

    method TakeEsc() returns (c: int)
      requires Valid()
      modifies this
      ensures Valid() && ParseEsc(old(Rest())) == (c, Rest())
    {
      hide Next, ParseHex;
      c := Take();
      if c == 'n' as int || c == 'N' as int {
        c := 10;
      } else if c == 't' as int || c == 'T' as int {
        c := 9;
      } else if c == 'r' as int || c == 'R' as int {
        c := 13;
      } else if c == '0' as int {
        c := 0;
      } else if c == 'a' as int || c == 'A' as int {
        c := 7;
      } else if c == 'b' as int || c == 'B' as int {
        c := 8;
      } else if c == 'f' as int || c == 'F' as int {
        c := 12;
      } else if c == 'v' as int || c == 'V' as int {
        c := 11;
      } else if c == 'x' as int || c == 'X' as int {
        c := TakeHex();
      } else if '0' as int <= c <= '7' as int {
        var oct := c - '0' as int;
        c := Take();
        if c == -1 {
          return;
        }
        c := if '0' as int <= c <= '7' as int then oct * 8 + (c - '0' as int) else oct;
      }
    }
  }

  /** A buffer twice as large with the same contents. */
  method Realloc(buf: array<Char>, len: nat) returns (bigger: array<Char>)
    requires 0 < buf.Length && len <= buf.Length
    ensures fresh(bigger) && bigger.Length == 2 * buf.Length && bigger[..len] == buf[..len]
  {
    bigger := new Char[2 * buf.Length](j requires j >= 0 reads buf => if j < buf.Length then buf[j] else '\0');
  }

  /** Stores one more character, after doubling the buffer if there would be no room left for the closing zero. */
  method Push(buf: array<Char>, len: nat, c: Char) returns (buf': array<Char>)
    requires len < buf.Length
    modifies buf
    ensures (buf' == buf || fresh(buf')) && len + 1 < buf'.Length && buf'[..len + 1] == old(buf[..len]) + [c]
  {
    buf' := buf;
    if buf'.Length <= len + 1 {
      buf' := Realloc(buf', len);
    }
    ghost var before := buf'[..len];
    buf'[len] := c;
    assert buf'[..len + 1] == before + [c];
  }

  lemma {:induction false} BodyStep(t: seq<Char>, acc: seq<Char>)
    ensures var (c, t1) := Next(t);
      ParseBody(t, acc) ==
      if c == '"' as int then Some(acc)
      else if c == -1 then None
      else
        var (d, t2) := if c == '\\' as int then ParseEsc(t1) else (c, t1);
        if d == -1 then None else ParseBody(t2, acc + [ToChar(d)])
  {
  }

  /** The parser with its growing buffer: every write, the closing zero included, is inside the capacity. */
  method ParseLiteral(text: seq<Char>) returns (r: Option<seq<Char>>)
    ensures r == Parse(text)
  {
    hide ParseEsc, Next, Signed, ParseBody;
    var cur := new Cursor(text);
    var c := cur.Take();
    if c != '"' as int {
      return None;
    }
    var strval := new Char[16](_ => '\0');
    var len: nat := 0;
    ghost var body := cur.Rest();
    assert strval[..len] == [];
    while true
      invariant cur.Valid() && fresh(strval) && fresh(cur) && len < strval.Length
      invariant ParseBody(cur.Rest(), strval[..len]) == ParseBody(body, [])
      decreases |cur.Rest()|
    {
      ghost var t, acc := cur.Rest(), strval[..len];
      BodyStep(t, acc);
      c := cur.Take();
      if c == '"' as int {
        break;
      }
      if c == -1 {
        return None;
      }
      if c == '\\' as int {
        c := cur.TakeEsc();
        if c == -1 {
          return None;
        }
      }
      assert ParseBody(t, acc) == ParseBody(cur.Rest(), acc + [ToChar(c)]);
      strval := Push(strval, len, ToChar(c));
      len := len + 1;
    }
    ghost var acc := strval[..len];
    strval[len] := '\0';
    assert strval[..len] == acc;
    r := Some(strval[..len]);
  }
}
