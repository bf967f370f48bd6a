/** Bytes, fixed-width little-endian fields, and a seekable output file. */
module Bytes {

  newtype byte = b: int | 0 <= b < 256


  function Pow256(n: nat): (p: nat)
    ensures p > 0
  {
    if n == 0 then 1 else 256 * Pow256(n - 1)
  }

  /** The low `n` bytes of `v`, least significant first: what writing an n-byte unsigned integer stores. */
  function LittleEndian(v: nat, n: nat): (s: seq<byte>)
    ensures |s| == n
  {
    if n == 0 then [] else [(v % 256) as byte] + LittleEndian(v / 256, n - 1)
  }

  function FromLittleEndian(s: seq<byte>): (v: nat)
  {
    if s == [] then 0 else s[0] as int + 256 * FromLittleEndian(s[1..])
  }

  /** Reading back an n-byte field gives the value modulo 256^n. */
  lemma {:induction false} LittleEndianRoundTrip(v: nat, n: nat)
    requires v < Pow256(n)
    ensures FromLittleEndian(LittleEndian(v, n)) == v
  {
    if n == 0 {
    } else {
      var s := LittleEndian(v, n);
      assert s[1..] == LittleEndian(v / 256, n - 1);
      LittleEndianRoundTrip(v / 256, n - 1);
    }
  }

  function U16(v: nat): (s: seq<byte>) ensures |s| == 2 { LittleEndian(v, 2) }
  function U32(v: nat): (s: seq<byte>) ensures |s| == 4 { LittleEndian(v, 4) }
  function U64(v: nat): (s: seq<byte>) ensures |s| == 8 { LittleEndian(v, 8) }

  /** The n-byte unsigned field of `s` at offset `off`. */
  function Get(s: seq<byte>, off: nat, n: nat): (v: nat)
    requires off + n <= |s|
  {
    FromLittleEndian(s[off..off + n])
  }

  function GetU16(s: seq<byte>, off: nat): nat requires off + 2 <= |s| { Get(s, off, 2) }
  function GetU32(s: seq<byte>, off: nat): nat requires off + 4 <= |s| { Get(s, off, 4) }
  function GetU64(s: seq<byte>, off: nat): nat requires off + 8 <= |s| { Get(s, off, 8) }

  /** `piece` is found in `s` at offset `off`. */
  predicate At(s: seq<byte>, off: nat, piece: seq<byte>) {
    off + |piece| <= |s| && s[off..off + |piece|] == piece
  }

  lemma {:induction false} AtFits(s: seq<byte>, off: nat, piece: seq<byte>)
    requires At(s, off, piece)
    ensures off + |piece| <= |s|
  {
  }

  /** The positions these lemmas speak of are parameters, so that the solver need not normalize sums. */
  lemma {:induction false} AtSplit(s: seq<byte>, off: nat, a: seq<byte>, b: seq<byte>, mid: nat)
    requires At(s, off, a + b) && mid == off + |a|
    ensures At(s, off, a) && At(s, mid, b)
  {
    var w := s[off..off + |a + b|];
    assert w[..|a|] == a && w[|a|..] == b;
    assert s[off..off + |a|] == w[..|a|];
    assert s[off + |a|..off + |a| + |b|] == w[|a|..];
  }

  /** A piece of a piece. */
  lemma {:induction false} AtWithin(s: seq<byte>, off: nat, piece: seq<byte>, lo: nat, sub: seq<byte>, at: nat)
    requires At(s, off, piece) && At(piece, lo, sub) && at == off + lo
    ensures At(s, at, sub)
  {
    var a, b := s[at..at + |sub|], piece[lo..lo + |sub|];
    forall k | 0 <= k < |sub|
      ensures a[k] == b[k]
    {
      assert a[k] == s[off + (lo + k)] == s[off..off + |piece|][lo + k];
    }
  }

  lemma {:induction false} AtAppend(s: seq<byte>, t: seq<byte>, off: nat, piece: seq<byte>)
    requires At(s, off, piece)
    ensures At(s + t, off, piece)
  {
    assert (s + t)[off..off + |piece|] == s[off..off + |piece|];
  }

  lemma {:induction false} AtEnd(s: seq<byte>, t: seq<byte>)
    ensures At(s + t, |s|, t)
  {
  }

  lemma {:induction false} AtGet(s: seq<byte>, off: nat, v: nat, n: nat)
    requires v < Pow256(n) && At(s, off, LittleEndian(v, n))
    ensures Get(s, off, n) == v
  {
    LittleEndianRoundTrip(v, n);
  }

  lemma {:induction false} Pow256Values()
    ensures Pow256(1) == 256 && Pow256(2) == 0x1_0000 && Pow256(4) == 0x1_0000_0000 &&
      Pow256(8) == 0x1_0000_0000_0000_0000
  {
    assert Pow256(2) == 256 * Pow256(1);
    assert Pow256(4) == 256 * 256 * Pow256(2);
    assert Pow256(8) == 256 * 256 * (256 * 256 * Pow256(4)) by {
      assert Pow256(8) == 256 * Pow256(7);
      assert Pow256(7) == 256 * Pow256(6);
      assert Pow256(6) == 256 * Pow256(5);
      assert Pow256(5) == 256 * Pow256(4);
    }
  }

  /** A stored field at the head of a longer piece, and what follows it. */
  lemma {:induction false} AtU16(s: seq<byte>, off: nat, v: nat, rest: seq<byte>, next: nat)
    requires v < 0x1_0000 && At(s, off, U16(v) + rest) && next == off + 2
    ensures GetU16(s, off) == v && At(s, next, rest)
  {
    hide LittleEndian, FromLittleEndian;
    AtSplit(s, off, U16(v), rest, next);
    AtLastU16(s, off, v);
  }

  lemma {:induction false} AtLastU16(s: seq<byte>, off: nat, v: nat)
    requires v < 0x1_0000 && At(s, off, U16(v))
    ensures GetU16(s, off) == v
  {
    hide LittleEndian, FromLittleEndian;
    Pow256Values();
    AtGet(s, off, v, 2);
  }

  lemma {:induction false} AtU32(s: seq<byte>, off: nat, v: nat, rest: seq<byte>, next: nat)
    requires v < 0x1_0000_0000 && At(s, off, U32(v) + rest) && next == off + 4
    ensures GetU32(s, off) == v && At(s, next, rest)
  {
    hide LittleEndian, FromLittleEndian;
    AtSplit(s, off, U32(v), rest, next);
    AtLastU32(s, off, v);
  }

  lemma {:induction false} AtLastU32(s: seq<byte>, off: nat, v: nat)
    requires v < 0x1_0000_0000 && At(s, off, U32(v))
    ensures GetU32(s, off) == v
  {
    hide LittleEndian, FromLittleEndian;
    Pow256Values();
    AtGet(s, off, v, 4);
  }

  lemma {:induction false} AtU64(s: seq<byte>, off: nat, v: nat, rest: seq<byte>, next: nat)
    requires v < 0x1_0000_0000_0000_0000 && At(s, off, U64(v) + rest) && next == off + 8
    ensures GetU64(s, off) == v && At(s, next, rest)
  {
    hide LittleEndian, FromLittleEndian;
    AtSplit(s, off, U64(v), rest, next);
    AtLastU64(s, off, v);
  }

  lemma {:induction false} AtLastU64(s: seq<byte>, off: nat, v: nat)
    requires v < 0x1_0000_0000_0000_0000 && At(s, off, U64(v))
    ensures GetU64(s, off) == v
  {
    hide LittleEndian, FromLittleEndian;
    Pow256Values();
    AtGet(s, off, v, 8);
  }

  /** A C `FILE` open for writing: the bytes so far and the position. */
  class File {
    var data: seq<byte>
    var pos: nat

    ghost predicate Valid()
      reads this
    {
      pos <= |data|
    }

    constructor ()
      ensures Valid() && data == [] && pos == 0
    {
      data, pos := [], 0;
    }

    /** `fwrite`: replaces the bytes at the position, extending the file at its end. */
    method Write(b: seq<byte>)
      requires Valid()
      modifies this
      ensures Valid() && pos == old(pos) + |b|
      ensures old(pos == |data|) ==> data == old(data) + b
      ensures old(pos + |b| >= |data|) ==> data == old(data)[..old(pos)] + b
      ensures old(pos + |b| <= |data|) ==> data == old(data)[..old(pos)] + b + old(data)[old(pos) + |b|..]
    {
      assert data[..|data|] == data;
      data := data[..pos] + b + (if pos + |b| <= |data| then data[pos + |b|..] else []);
      pos := pos + |b|;
    }

    /** `fseek` to an absolute position. */
    method Seek(p: nat)
      requires Valid() && p <= |data|
      modifies this`pos
      ensures Valid() && pos == p
    {
      pos := p;
    }
  }
}
