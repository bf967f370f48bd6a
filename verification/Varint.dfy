/** ULEB128 and SLEB128 (section 7.6 of DWARF Version 5) over the full 64-bit range. */
module Varint {
  import opened Bytes
  import opened Options
  import opened Words

  // ---- What a byte sequence encodes ----------------------------------------

  function Pow128(k: nat): (p: nat)
    ensures p > 0
  {
    if k == 0 then 1 else 128 * Pow128(k - 1)
  }

  /** The seven low bits of each byte, least significant group first. */
  function Groups(s: seq<byte>): (v: nat)
    ensures v < Pow128(|s|)
  {
    if s == [] then 0 else s[0] as int % 128 + 128 * Groups(s[1..])
  }

  /** As a signed number: bit 6 of the last byte is the sign. */
  function SignedGroups(s: seq<byte>): int {
    if s != [] && s[|s| - 1] as int % 128 >= 64 then Groups(s) - Pow128(|s|) else Groups(s)
  }

  /** All bytes but the last have the continuation bit. */
  predicate Terminated(s: seq<byte>) {
    s != [] && s[|s| - 1] < 128 && forall i :: 0 <= i < |s| - 1 ==> s[i] >= 128
  }

  // ---- Encoding ------------------------------------------------------------

  /** A byte in front of a terminated group. */
  lemma {:induction false} GroupsCons(b: byte, rest: seq<byte>)
    requires b >= 128 && Terminated(rest)
    ensures var s := [b] + rest;
      && Terminated(s) && Groups(s) == b as int - 128 + 128 * Groups(rest)
      && SignedGroups(s) == b as int - 128 + 128 * SignedGroups(rest)
  {
    var s := [b] + rest;
    assert s[1..] == rest && s[|s| - 1] == rest[|rest| - 1];
    assert forall i :: 0 < i < |s| ==> s[i] == rest[i - 1];
    assert Pow128(|s|) == 128 * Pow128(|rest|);
  }

  function Uleb(v: nat): (s: seq<byte>)
    ensures Terminated(s) && Groups(s) == v
  {
    if v < 128 then
      assert [v as byte][1..] == [];
      [v as byte]
    else
      GroupsCons((v % 128 + 128) as byte, Uleb(v / 128));
      [(v % 128 + 128) as byte] + Uleb(v / 128)
  }

  /** The shift is arithmetic: it rounds down. */
  function Sleb(v: int): (s: seq<byte>)
    ensures Terminated(s) && SignedGroups(s) == v
    decreases if v < 0 then -v else v
  {
    if -64 <= v < 64 then SlebLast(v)
    else
      var q, b := v / 128, (v % 128 + 128) as byte;
      assert v == 128 * q + (b as int - 128) && 0 <= b as int - 128 < 128;
      assert (v < 0 ==> v < q < 0) && (v >= 0 ==> 0 <= q < v);
      GroupsCons(b, Sleb(q));
      [b] + Sleb(q)
  }

  function SlebLast(v: int): (s: seq<byte>)
    requires -64 <= v < 64
    ensures |s| == 1 && Terminated(s) && SignedGroups(s) == v
  {
    var s := [(v % 128) as byte];
    assert s[1..] == [] && Pow128(1) == 128 * Pow128(0);
    s
  }

  /** An n-byte ULEB128 encoding suffices exactly for the values below 2^(7n). */
  lemma {:induction false} UlebLength(v: nat, n: nat)
    requires n > 0
    ensures |Uleb(v)| <= n <==> v < Pow128(n)
  {
    hide Groups, Terminated;
    assert Pow128(n) == 128 * Pow128(n - 1);
    DivBelow(v, Pow128(n - 1));
    if v < 128 {
    } else {
      if n > 1 {
        UlebLength(v / 128, n - 1);
      } else {
        assert Terminated(Uleb(v / 128)) && |Uleb(v / 128)| > 0;
      }
    }
  }

  /** An n-byte SLEB128 encoding suffices exactly for the values of 7n bits, sign included. */
  lemma {:induction false} SlebLength(v: int, n: nat)
    requires n > 0
    ensures |Sleb(v)| <= n <==> -64 * Pow128(n - 1) <= v < 64 * Pow128(n - 1)
    decreases n
  {
    if !(-64 <= v < 64) && n > 1 {
      SlebLength(v / 128, n - 1);
      assert Pow128(n - 1) == 128 * Pow128(n - 2);
      DivBelow(v, 64 * Pow128(n - 2));
      DivAbove(v, -64 * Pow128(n - 2));
    }
  }

  lemma {:induction false} DivBelow(v: int, m: int)
    ensures v / 128 < m <==> v < 128 * m
  {
  }

  lemma {:induction false} DivAbove(v: int, m: int)
    ensures m <= v / 128 <==> 128 * m <= v
  {
  }

  lemma {:induction false} Pow128Ten()
    ensures Pow128(10) == 0x40_0000_0000_0000_0000 && Pow128(9) == 0x8000_0000_0000_0000
  {
    assert Pow128(3) == 128 * 128 * 128 by {
      assert Pow128(1) == 128 * Pow128(0);
      assert Pow128(2) == 128 * Pow128(1);
    }
    assert Pow128(6) == 128 * 128 * 128 * Pow128(3) by {
      assert Pow128(5) == 128 * Pow128(4);
    }
    assert Pow128(9) == 128 * 128 * 128 * Pow128(6) by {
      assert Pow128(8) == 128 * Pow128(7);
    }
  }

  /** Ten bytes hold every 64-bit value. */
  lemma {:induction false} AtMostTenBytes(u: nat, i: int)
    requires u < 0x1_0000_0000_0000_0000 && -0x8000_0000_0000_0000 <= i < 0x8000_0000_0000_0000
    ensures |Uleb(u)| <= 10 && |Sleb(i)| <= 10
  {
    Pow128Ten();
    UlebLength(u, 10);
    SlebLength(i, 10);
  }

  // ---- Decoding ------------------------------------------------------------

  /** What the decoding loop leaves: the groups modulo 2^64, their number, the last byte, and the unread bytes. */
  datatype Decoded = Decoded(value: nat, n: nat, last: byte, rest: seq<byte>)

  /** One group shifted into a 64-bit word: bits beyond the word are lost. */
  function Shifted(b: byte, k: nat): nat {
    b as int % 128 * Pow128(k) % 0x1_0000_0000_0000_0000
  }

  /** The loop after `k` bytes. The bits are disjoint, so that joining them is adding. An eleventh byte is refused. */
  function DecodeFrom(s: seq<byte>, k: nat, acc: nat): (r: Option<Decoded>)
    decreases |s|
  {
    if s == [] then None
    else
      var acc' := acc + Shifted(s[0], k);
      if s[0] < 128 then Some(Decoded(acc', k + 1, s[0], s[1..]))
      else if 7 * (k + 1) > 63 then None
      else DecodeFrom(s[1..], k + 1, acc')
  }

  function ReadUnsigned(s: seq<byte>): Option<(nat, seq<byte>)> {
    match DecodeFrom(s, 0, 0)
    case None => None
    case Some(d) => Some((d.value, d.rest))
  }

  /** Sign extension when the word is not full, then the cast to a signed word. */
  function SignExtend(d: Decoded): int {
    var r := if 7 * d.n < 64 && d.last as int % 128 >= 64 then d.value + (0x1_0000_0000_0000_0000 - Pow128(d.n))
      else d.value;
    if r >= 0x8000_0000_0000_0000 then r - 0x1_0000_0000_0000_0000 else r
  }

  function ReadSigned(s: seq<byte>): Option<(int, seq<byte>)> {
    match DecodeFrom(s, 0, 0)
    case None => None
    case Some(d) => Some((SignExtend(d), d.rest))
  }

  lemma {:induction false} GroupsSnoc(p: seq<byte>, b: byte)
    ensures Groups(p + [b]) == Groups(p) + b as int % 128 * Pow128(|p|)
  {
    if p == [] {
      assert ([] + [b])[1..] == [];
    } else {
      assert (p + [b])[1..] == p[1..] + [b];
      GroupsSnoc(p[1..], b);
      Regroup(b as int % 128, Pow128(|p| - 1));
    }
  }

  lemma {:induction false} Regroup(g: int, p: int)
    ensures 128 * (g * p) == g * (128 * p)
  {
  }

  /** Up to nine groups fit in 63 bits. */
  lemma {:induction false} Pow128Mono(k: nat, n: nat)
    requires k <= n
    ensures Pow128(k) <= Pow128(n)
  {
    if k == n {
    } else {
      Pow128Mono(k, n - 1);
    }
  }

  lemma {:induction false} ShiftedFits(b: byte, k: nat)
    requires k < 9
    ensures Shifted(b, k) == b as int % 128 * Pow128(k)
  {
    Pow128Ten();
    Pow128Mono(k + 1, 9);
    GroupBelow(b as int % 128, Pow128(k));
  }

  lemma {:induction false} GroupBelow(g: int, p: int)
    requires 0 <= g < 128 && p > 0
    ensures 0 <= g * p < 128 * p
  {
  }

  /** The tenth group: only its lowest bit is kept. */
  lemma {:induction false} TenthGroup(acc: nat, b: byte)
    requires acc < 0x8000_0000_0000_0000
    ensures acc + Shifted(b, 9) == (acc + b as int % 128 * Pow128(9)) % 0x1_0000_0000_0000_0000
  {
    Pow128Ten();
    var g := b as int % 128;
    var h := g / 2;
    assert g * 0x8000_0000_0000_0000 == h * 0x1_0000_0000_0000_0000 + (g % 2) * 0x8000_0000_0000_0000;
    ModOf(g * 0x8000_0000_0000_0000, h, (g % 2) * 0x8000_0000_0000_0000);
    ModOf(acc + g * 0x8000_0000_0000_0000, h, acc + (g % 2) * 0x8000_0000_0000_0000);
  }

  lemma {:induction false} ModOf(x: int, q: int, r: int)
    requires x == q * 0x1_0000_0000_0000_0000 + r && 0 <= r < 0x1_0000_0000_0000_0000
    ensures x % 0x1_0000_0000_0000_0000 == r
  {
  }

  /** One more group: up to nine fit in the word, and the tenth is cut off to its lowest bit. */
  lemma {:induction false} OneGroup(p: seq<byte>, b: byte)
    requires |p| <= 9
    ensures Groups(p) + Shifted(b, |p|) == Groups(p + [b]) % 0x1_0000_0000_0000_0000
    ensures |p| < 9 ==> Groups(p + [b]) % 0x1_0000_0000_0000_0000 == Groups(p + [b]) < 0x8000_0000_0000_0000
  {
    hide Shifted;
    GroupsSnoc(p, b);
    Pow128Ten();
    Pow128Mono(|p|, 9);
    if |p| == 9 {
      TenthGroup(Groups(p), b);
    } else {
      ShiftedFits(b, |p|);
      Pow128Mono(|p| + 1, 9);
      assert Groups(p + [b]) < Pow128(|p| + 1);
      ModOf(Groups(p + [b]), 0, Groups(p + [b]));
    }
  }

  /** The loop on a stream: `p` has been read, `q` and the terminated group it ends with are next. */
  lemma {:induction false} DecodeTerminated(p: seq<byte>, q: seq<byte>, rest: seq<byte>)
    requires Terminated(q) && |p| + |q| <= 10
    ensures DecodeFrom(q + rest, |p|, Groups(p)) ==
            Some(Decoded(Groups(p + q) % 0x1_0000_0000_0000_0000, |p| + |q|, q[|q| - 1], rest))
    decreases |q|
  {
    hide Groups, Shifted;
    var s, b := q + rest, q[0];
    assert s[0] == b && s[1..] == q[1..] + rest;
    OneGroup(p, b);
    if |q| == 1 {
      assert q == [b] && q[1..] + rest == rest;
    } else {
      assert p + [b] + q[1..] == p + q;
      DecodeTerminated(p + [b], q[1..], rest);
    }
  }

  /** The decoder reads what it should from every stream that starts with a terminated group of at most ten bytes... */
  lemma {:induction false} DecodeExact(q: seq<byte>, rest: seq<byte>)
    requires Terminated(q) && |q| <= 10
    ensures ReadUnsigned(q + rest) == Some((Groups(q) % 0x1_0000_0000_0000_0000, rest))
    ensures ReadSigned(q + rest) == Some((Wrap64(SignedGroups(q)), rest))
  {
    assert Groups([]) == 0 && [] + q == q;
    DecodeTerminated([], q, rest);
    SignExtendExact(q, rest);
  }

  lemma {:induction false} WrapSmall(i: int)
    requires -0x8000_0000_0000_0000 <= i < 0x8000_0000_0000_0000
    ensures Wrap64(i) == i
  {
    ModOf(i + 0x8000_0000_0000_0000, 0, i + 0x8000_0000_0000_0000);
  }

  /** The sign extension of at most nine groups, on the numbers: `g` the groups, `p` one past their range. */
  lemma {:induction false} ExtendShort(g: nat, p: nat, negative: bool)
    requires g < p <= 0x8000_0000_0000_0000 && if negative then 2 * g >= p else 2 * g < p
    ensures var r := if negative then g + (0x1_0000_0000_0000_0000 - p) else g;
      (if r >= 0x8000_0000_0000_0000 then r - 0x1_0000_0000_0000_0000 else r) == Wrap64(if negative then g - p else g)
  {
    WrapSmall(if negative then g - p else g);
  }

  lemma {:induction false} SignExtendExact(q: seq<byte>, rest: seq<byte>)
    requires Terminated(q) && |q| <= 10
    ensures SignExtend(Decoded(Groups(q) % 0x1_0000_0000_0000_0000, |q|, q[|q| - 1], rest)) == Wrap64(SignedGroups(q))
  {
    assert q != [];
    hide Groups, Terminated, Wrap64, Pow128;
    Pow128Ten();
    var g, negative := Groups(q), q[|q| - 1] as int % 128 >= 64;
    LastGroup(q);
    if |q| <= 9 {
      Pow128Mono(|q|, 9);
      ModOf(g, 0, g);
      ExtendShort(g, Pow128(|q|), negative);
    } else {
      WrapMod(g);
      WrapTen(g);
    }
  }

  /** Ten groups fill the word: their sign is beyond it. */
  lemma {:induction false} WrapTen(g: int)
    ensures Wrap64(g - 0x40_0000_0000_0000_0000) == Wrap64(g)
  {
    var x := g + 0x8000_0000_0000_0000;
    var q, r := x / 0x1_0000_0000_0000_0000, x % 0x1_0000_0000_0000_0000;
    ModOf(x - 0x40_0000_0000_0000_0000, q - 64, r);
  }

  /** With bit 6 set in its last byte a group sequence is in the upper half of its range, and else in the lower. */
  lemma {:induction false} LastGroup(q: seq<byte>)
    requires q != []
    ensures var g, p := Groups(q), Pow128(|q|);
      g < p && if q[|q| - 1] as int % 128 >= 64 then 2 * g >= p else 2 * g < p
  {
    var l := |q| - 1;
    assert q == q[..l] + [q[l]];
    GroupsSnoc(q[..l], q[l]);
    HighGroup(q[l] as int % 128, Pow128(l));
  }

  lemma {:induction false} HighGroup(g: int, p: int)
    requires 0 <= g && p > 0
    ensures if g >= 64 then g * p >= 64 * p else g * p + p <= 64 * p
  {
    if g >= 64 {
      assert (g - 64) * p >= 0;
    } else {
      assert (63 - g) * p >= 0;
    }
  }

  /** Casting a 64-bit word to signed is wrapping. */
  lemma {:induction false} WrapMod(x: int)
    ensures var r := x % 0x1_0000_0000_0000_0000;
      Wrap64(x) == if r >= 0x8000_0000_0000_0000 then r - 0x1_0000_0000_0000_0000 else r
  {
    var q, r := x / 0x1_0000_0000_0000_0000, x % 0x1_0000_0000_0000_0000;
    if r >= 0x8000_0000_0000_0000 {
      ModOf(x + 0x8000_0000_0000_0000, q + 1, r - 0x8000_0000_0000_0000);
    } else {
      ModOf(x + 0x8000_0000_0000_0000, q, r + 0x8000_0000_0000_0000);
    }
  }

  lemma {:induction false} TerminatedCons(b: byte, t: seq<byte>)
    requires b >= 128
    ensures Terminated(t) ==> Terminated([b] + t)
  {
    var s := [b] + t;
    assert forall i :: 0 < i < |s| ==> s[i] == t[i - 1];
  }

  /** ... and refuses every other stream. */
  lemma {:induction false} DecodeRefuses(p: seq<byte>, s: seq<byte>)
    requires |p| < 10 && forall n :: 0 < n <= |s| && |p| + n <= 10 ==> !Terminated(s[..n])
    ensures forall acc :: DecodeFrom(s, |p|, acc) == None
    decreases |s|
  {
    if s == [] {
    } else {
      assert !Terminated(s[..1]) && s[..1][0] == s[0];
      assert s[0] >= 128;
      if |p| < 9 {
        forall n | 0 < n <= |s[1..]| && |p| + 1 + n <= 10
          ensures !Terminated(s[1..][..n])
        {
          assert s[..n + 1] == [s[0]] + s[1..][..n];
          TerminatedCons(s[0], s[1..][..n]);
        }
        DecodeRefuses(p + [s[0]], s[1..]);
      }
    }
  }

  /** Encoder output is never refused and reads back, whatever follows it: every 64-bit value, the minimum included. */
  lemma {:induction false} VarintRoundTrip(u: nat, i: int, rest: seq<byte>)
    requires u < 0x1_0000_0000_0000_0000 && -0x8000_0000_0000_0000 <= i < 0x8000_0000_0000_0000
    ensures ReadUnsigned(Uleb(u) + rest) == Some((u, rest))
    ensures ReadSigned(Sleb(i) + rest) == Some((i, rest))
  {
    hide Uleb, Sleb, Groups, SignedGroups, Wrap64, ReadUnsigned, ReadSigned;
    AtMostTenBytes(u, i);
    DecodeExact(Uleb(u), rest);
    DecodeExact(Sleb(i), rest);
    ModOf(u, 0, u);
    WrapSmall(i);
  }

  /** A value cut off before its last byte is refused. */
  lemma {:induction false} TruncatedRefused(q: seq<byte>, n: nat)
    requires Terminated(q) && n < |q|
    ensures ReadUnsigned(q[..n]) == None && ReadSigned(q[..n]) == None
  {
    var s := q[..n];
    forall m | 0 < m <= |s|
      ensures !Terminated(s[..m])
    {
      assert s[..m][m - 1] == q[m - 1];
    }
    DecodeRefuses([], s);
  }

  /** The last byte is the one below 128; in the signed form its bit 6 is the sign. */
  lemma {:induction false} Examples()
    ensures Uleb(127) == [0x7F] && Uleb(128) == [0x80, 0x01] && Uleb(624485) == [0xE5, 0x8E, 0x26]
    ensures Sleb(63) == [0x3F] && Sleb(64) == [0xC0, 0x00] && Sleb(-64) == [0x40] && Sleb(-65) == [0xBF, 0x7F]
    ensures Sleb(-123456) == [0xC0, 0xBB, 0x78]
  {
    assert Uleb(1) == [0x01] && Uleb(38) == [0x26] && Uleb(4878) == [0x8E, 0x26];
    assert Sleb(0) == [0x00] && Sleb(-1) == [0x7F] && Sleb(-8) == [0x78] && Sleb(-965) == [0xBB, 0x78];
  }
}
