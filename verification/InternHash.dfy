/** What the hash of a string is: its bytes as the digits of a number to the base 31, cut to 32 bits. */
module InternHash {
  import opened Bytes
  import opened InternProbe

  function Power31(n: nat): nat {
    if n == 0 then 1 else 31 * Power31(n - 1)
  }

  /** The first byte is the most significant digit. */
  function Digits31(b: seq<byte>): nat {
    if b == [] then 0 else b[0] as int * Power31(|b| - 1) + Digits31(b[1..])
  }

  lemma {:induction false} LastDigit(b: seq<byte>)
    requires b != []
    ensures Digits31(b) == 31 * Digits31(b[..|b| - 1]) + b[|b| - 1] as int
  {
    var l := |b| - 1;
    if l == 0 {
      assert b[1..] == [] && b[..0] == [] && Power31(0) == 1;
    } else {
      LastDigit(b[1..]);
      assert b[1..][..l - 1] == b[..l][1..];
      var p := Power31(l - 1);
      Distribute(b[0] as int, p, Digits31(b[..l][1..]));
    }
  }

  lemma {:induction false} Distribute(x: nat, p: nat, d: nat)
    ensures 31 * (x * p + d) == x * (31 * p) + 31 * d
  {
  }

  lemma {:induction false} CutEarlier(x: nat, c: nat)
    ensures (x % 0x1_0000_0000 * 31 + c) % 0x1_0000_0000 == (31 * x + c) % 0x1_0000_0000
  {
    var q, r := x / 0x1_0000_0000, x % 0x1_0000_0000;
    CutMultiple(31 * q, r * 31 + c);
    assert 31 * x + c == 31 * q * 0x1_0000_0000 + (r * 31 + c);
  }

  lemma {:induction false} CutMultiple(k: nat, y: nat)
    ensures (k * 0x1_0000_0000 + y) % 0x1_0000_0000 == y % 0x1_0000_0000
  {
    if k > 0 {
      CutMultiple(k - 1, y);
      CutOnce((k - 1) * 0x1_0000_0000 + y);
    }
  }

  lemma {:induction false} CutOnce(y: nat)
    ensures (y + 0x1_0000_0000) % 0x1_0000_0000 == y % 0x1_0000_0000
  {
  }

  /** The wrapping loop computes the number modulo 2^32, and probing starts at its remainder by the capacity. */
  lemma {:induction false} HashIsNumber(b: seq<byte>)
    ensures Hash(b) == Digits31(b) % 0x1_0000_0000
    ensures forall cap: nat :: cap > 0 ==> Home(b, cap) == Digits31(b) % 0x1_0000_0000 % cap
  {
    if b == [] {
    } else {
      HashIsNumber(b[..|b| - 1]);
      LastDigit(b);
      CutEarlier(Digits31(b[..|b| - 1]), b[|b| - 1] as int);
    }
  }
}
