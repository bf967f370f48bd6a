/** The varint loops on files, and pools of C strings with varint lengths. */
module Pool {
  import opened Bytes
  import opened Options
  import opened Sequences
  import opened Varint
  import opened ThunkGraph

  /** A C `FILE` open for reading. */
  class Input {
    const data: seq<byte>
    var pos: nat

    ghost predicate Valid()
      reads this
    {
      pos <= |data|
    }

    /** The bytes not read yet. */
    ghost function Rest(): seq<byte>
      requires Valid()
      reads this
    {
      data[pos..]
    }

    constructor (bytes: seq<byte>)
      ensures Valid() && data == bytes && Rest() == bytes
    {
      data, pos := bytes, 0;
    }

    /** `fgetc`: `None` at the end of the file. */
    method Next() returns (b: Option<byte>)
      requires Valid()
      modifies this
      ensures Valid() && pos >= old(pos)
      ensures if old(Rest()) == [] then b == None && Rest() == []
              else b == Some(old(Rest())[0]) && Rest() == old(Rest())[1..] && pos == old(pos) + 1
    {
      if pos < |data| {
        b := Some(data[pos]);
        pos := pos + 1;
      } else {
        b := None;
      }
    }

    /** `fread` of `n` bytes, which fails if there are fewer. */
    method Read(n: nat) returns (b: Option<seq<byte>>)
      requires Valid()
      modifies this
      ensures Valid() && pos >= old(pos)
      ensures if n <= |old(Rest())| then b == Some(old(Rest())[..n]) && Rest() == old(Rest())[n..] else b == None
    {
      if pos + n <= |data| {
        assert data[pos..][..n] == data[pos..pos + n] && data[pos..][n..] == data[pos + n..];
        b := Some(data[pos..pos + n]);
        pos := pos + n;
      } else {
        b := None;
        pos := |data|;
      }
    }
  }

  // ---- Varints -------------------------------------------------------------

  lemma {:induction false} UlebStep(v: nat)
    ensures Uleb(v) == if v < 128 then [v as byte] else [(v % 128 + 128) as byte] + Uleb(v / 128)
  {
  }

  lemma {:induction false} SlebStep(v: int)
    ensures var w, b := v / 128, v % 128;
      Sleb(v) == if (w == 0 && b < 64) || (w == -1 && b >= 64) then [b as byte] else [(b + 128) as byte] + Sleb(w)
  {
  }

  method WriteVaruint(f: File, v: nat)
    requires f.Valid() && f.pos == |f.data|
    modifies f
    ensures f.Valid() && f.pos == |f.data| && f.data == old(f.data) + Uleb(v)
  {
    hide Uleb, Groups, Terminated;
    var w := v;
    while true
      invariant f.Valid() && f.pos == |f.data| && f.data + Uleb(w) == old(f.data) + Uleb(v)
      decreases w
    {
      UlebStep(w);
      var b := w % 128;
      w := w / 128;
      if w != 0 {
        b := b + 128;
      }
      Assoc(f.data, [b as byte], Uleb(w));
      f.Write([b as byte]);
      if w == 0 {
        return;
      }
    }
  }

  method WriteVarint(f: File, i: int)
    requires f.Valid() && f.pos == |f.data|
    modifies f
    ensures f.Valid() && f.pos == |f.data| && f.data == old(f.data) + Sleb(i)
  {
    hide Sleb, SignedGroups, Terminated;
    var w := i;
    while true
      invariant f.Valid() && f.pos == |f.data| && f.data + Sleb(w) == old(f.data) + Sleb(i)
      decreases if w < 0 then -w else w
    {
      SlebStep(w);
      var b := w % 128;
      w := w / 128;
      var more := !((w == 0 && b < 64) || (w == -1 && b >= 64));
      if more {
        b := b + 128;
      }
      Assoc(f.data, [b as byte], Sleb(w));
      f.Write([b as byte]);
      if !more {
        return;
      }
    }
  }

  /** The decoding loop that both readers share. */
  method DecodeGroups(f: Input) returns (d: Option<Decoded>)
    requires f.Valid()
    modifies f
    ensures f.Valid() && f.pos >= old(f.pos) && d == DecodeFrom(old(f.Rest()), 0, 0)
    ensures d.Some? ==> f.Rest() == d.value.rest
  {
    var result: nat, k: nat := 0, 0;
    hide Shifted;
    while true
      invariant f.Valid() && f.pos >= old(f.pos) && DecodeFrom(f.Rest(), k, result) == DecodeFrom(old(f.Rest()), 0, 0)
      decreases |f.data| - f.pos
    {
      ghost var s := f.Rest();
      var b := f.Next();
      if b.None? {
        return None;
      }
      result := result + Shifted(b.value, k);
      k := k + 1;
      if b.value < 128 {
        return Some(Decoded(result, k, b.value, f.data[f.pos..]));
      }
      if 7 * k > 63 {
        return None;
      }
    }
  }

  method ReadVaruint(f: Input) returns (v: Option<nat>)
    requires f.Valid()
    modifies f
    ensures f.Valid() && f.pos >= old(f.pos)
    ensures if v.Some? then ReadUnsigned(old(f.Rest())) == Some((v.value, f.Rest()))
      else ReadUnsigned(old(f.Rest())) == None
  {
    var d := DecodeGroups(f);
    v := if d.Some? then Some(d.value.value) else None;
  }

  method ReadVarint(f: Input) returns (v: Option<int>)
    requires f.Valid()
    modifies f
    ensures f.Valid() && f.pos >= old(f.pos)
    ensures if v.Some? then ReadSigned(old(f.Rest())) == Some((v.value, f.Rest()))
      else ReadSigned(old(f.Rest())) == None
  {
    var d := DecodeGroups(f);
    v := if d.Some? then Some(SignExtend(d.value)) else None;
  }

  // ---- Pools ---------------------------------------------------------------

  function PoolBody(ss: seq<Text>): seq<byte> {
    if ss == [] then [] else PoolBody(ss[..|ss| - 1]) + (Uleb(|ss[|ss| - 1]|) + ss[|ss| - 1])
  }

  function PoolBytes(ss: seq<Text>): seq<byte> {
    Uleb(|ss|) + PoolBody(ss)
  }

  /** `n` strings in order, each with its length in front. */
  function ReadStrings(s: seq<byte>, n: nat, acc: seq<Text>): (r: Option<(seq<Text>, seq<byte>)>)
    requires |acc| <= n
    decreases n - |acc|
  {
    if |acc| == n then Some((acc, s))
    else
      match ReadUnsigned(s)
      case None => None
      case Some((len, t)) =>
        if len > |t| then None else ReadStrings(t[len..], n, acc + [t[..len]])
  }

  /** The count is cut to 32 bits, as the type of the source's sizes does. */
  function ReadPoolFrom(s: seq<byte>): Option<(seq<Text>, seq<byte>)> {
    match ReadUnsigned(s)
    case None => None
    case Some((count, t)) => ReadStrings(t, count % 0x1_0000_0000, [])
  }

  lemma {:induction false} PoolBodyFront(ss: seq<Text>)
    requires ss != []
    ensures PoolBody(ss) == (Uleb(|ss[0]|) + ss[0]) + PoolBody(ss[1..])
  {
    hide Uleb;
    var l := |ss| - 1;
    if l == 0 {
      assert ss[..0] == [] && ss[1..] == [];
    } else {
      PoolBodyFront(ss[..l]);
      assert ss[..l][1..] == ss[1..][..l - 1];
      Assoc(Uleb(|ss[0]|) + ss[0], PoolBody(ss[1..][..l - 1]), Uleb(|ss[l]|) + ss[l]);
    }
  }

  lemma {:induction false} OneString(x: Text, tail: seq<byte>, n: nat, acc: seq<Text>)
    requires |acc| < n && |x| < 0x1_0000_0000_0000_0000
    ensures ReadStrings(Uleb(|x|) + (x + tail), n, acc) == ReadStrings(tail, n, acc + [x])
  {
    hide Uleb, ReadUnsigned;
    var t := x + tail;
    VarintRoundTrip(|x|, 0, t);
    assert t[..|x|] == x && t[|x|..] == tail;
  }

  lemma {:induction false} StringsRoundTrip(ss: seq<Text>, acc: seq<Text>, n: nat, rest: seq<byte>)
    requires |acc| + |ss| == n && forall i :: 0 <= i < |ss| ==> |ss[i]| < 0x1_0000_0000_0000_0000
    ensures ReadStrings(PoolBody(ss) + rest, n, acc) == Some((acc + ss, rest))
    decreases |ss|
  {
    hide Uleb, ReadUnsigned;
    if ss == [] {
      assert PoolBody(ss) + rest == rest && acc + ss == acc;
    } else {
      hide ReadStrings, PoolBody;
      PoolBodyFront(ss);
      var x, body := ss[0], PoolBody(ss[1..]);
      Assoc(Uleb(|x|) + x, body, rest);
      Assoc(Uleb(|x|), x, body + rest);
      OneString(x, body + rest, n, acc);
      StringsRoundTrip(ss[1..], acc + [x], n, rest);
      assert acc + [x] + ss[1..] == acc + ss;
    }
  }

  /** A pool reads back as the same strings and leaves exactly the bytes that follow it. */
  lemma {:induction false} PoolRoundTrip(ss: seq<Text>, rest: seq<byte>)
    requires |ss| < 0x1_0000_0000 && forall i :: 0 <= i < |ss| ==> |ss[i]| < 0x1_0000_0000_0000_0000
    ensures ReadPoolFrom(PoolBytes(ss) + rest) == Some((ss, rest))
  {
    hide Uleb, ReadUnsigned, ReadStrings, PoolBody;
    assert PoolBytes(ss) + rest == Uleb(|ss|) + (PoolBody(ss) + rest);
    VarintRoundTrip(|ss|, 0, PoolBody(ss) + rest);
    StringsRoundTrip(ss, [], |ss|, rest);
    assert [] + ss == ss;
  }

  // ---- Truncated pools -----------------------------------------------------

  /** A string cut off in its length or in its text, where at least one more is wanted. */
  lemma {:induction false} CutString(x: Text, n: nat, acc: seq<Text>, cut: nat)
    requires |acc| < n && |x| < 0x1_0000_0000_0000_0000 && cut < |Uleb(|x|) + x|
    ensures ReadStrings((Uleb(|x|) + x)[..cut], n, acc) == None
  {
    var u := Uleb(|x|);
    hide Uleb, ReadUnsigned, Terminated;
    if cut < |u| {
      assert (u + x)[..cut] == u[..cut];
      TruncatedRefused(u, cut);
    } else {
      assert (u + x)[..cut] == u + x[..cut - |u|];
      VarintRoundTrip(|x|, 0, x[..cut - |u|]);
    }
  }

  lemma {:induction false} CutStrings(ss: seq<Text>, acc: seq<Text>, n: nat, cut: nat)
    requires |acc| + |ss| == n && forall i :: 0 <= i < |ss| ==> |ss[i]| < 0x1_0000_0000_0000_0000
    requires cut < |PoolBody(ss)|
    ensures ReadStrings(PoolBody(ss)[..cut], n, acc) == None
    decreases |ss|
  {
    hide Uleb, ReadUnsigned, ReadStrings;
    assert ss != [];
    hide PoolBody;
    PoolBodyFront(ss);
    var x, body := ss[0], PoolBody(ss[1..]);
    var front := Uleb(|x|) + x;
    if cut < |front| {
      assert PoolBody(ss)[..cut] == front[..cut];
      CutString(x, n, acc, cut);
    } else {
      var c := cut - |front|;
      assert PoolBody(ss)[..cut] == front + body[..c];
      Assoc(Uleb(|x|), x, body[..c]);
      OneString(x, body[..c], n, acc);
      CutStrings(ss[1..], acc + [x], n, c);
    }
  }

  lemma {:induction false} CutSplit(u: seq<byte>, body: seq<byte>, cut: nat)
    requires cut <= |u + body|
    ensures (u + body)[..cut] == if cut < |u| then u[..cut] else u + body[..cut - |u|]
  {
  }

  lemma {:induction false} PoolFromParts(s: seq<byte>, n: nat, t: seq<byte>)
    requires ReadUnsigned(s) == Some((n, t)) && n < 0x1_0000_0000
    ensures ReadPoolFrom(s) == ReadStrings(t, n, [])
  {
    hide ReadUnsigned, ReadStrings;
  }

  /** No proper prefix of a pool is read as a pool. */
  lemma {:induction false} TruncatedPool(ss: seq<Text>, cut: nat)
    requires |ss| < 0x1_0000_0000 && forall i :: 0 <= i < |ss| ==> |ss[i]| < 0x1_0000_0000_0000_0000
    requires cut < |PoolBytes(ss)|
    ensures ReadPoolFrom(PoolBytes(ss)[..cut]) == None
  {
    hide Uleb, ReadUnsigned, ReadSigned, ReadStrings, PoolBody, Terminated, Groups;
    var u, body := Uleb(|ss|), PoolBody(ss);
    CutSplit(u, body, cut);
    if cut < |u| {
      TruncatedRefused(u, cut);
    } else {
      var t := body[..cut - |u|];
      VarintRoundTrip(|ss|, 0, t);
      hide ReadPoolFrom;
      PoolFromParts(u + t, |ss|, t);
      CutStrings(ss, [], |ss|, cut - |u|);
    }
  }

  /** The pool of "ab" and the empty string: the count, then each length and text, and nothing else. */
  lemma {:induction false} TwoStrings()
    ensures PoolBytes([[97, 98], []]) == [2, 2, 97, 98, 0]
  {
    var ss: seq<Text> := [[97, 98], []];
    assert ss[..1] == [[97, 98]] && ss[..1][..0] == [] && PoolBody([]) == [];
    assert PoolBody(ss[..1]) == [] + (Uleb(2) + [97, 98]);
    assert Uleb(0) == [0] && Uleb(2) == [2];
  }

  method WritePool(f: File, ss: seq<CText>)
    requires f.Valid() && f.pos == |f.data|
    modifies f
    ensures f.Valid() && f.pos == |f.data| && f.data == old(f.data) + PoolBytes(ss)
  {
    hide Uleb;
    WriteVaruint(f, |ss|);
    ghost var head := f.data;
    for i := 0 to |ss|
      invariant f.Valid() && f.pos == |f.data| && f.data == head + PoolBody(ss[..i])
    {
      WriteVaruint(f, |ss[i]|);
      if |ss[i]| != 0 {
        f.Write(ss[i]);
      }
      Assoc(head, PoolBody(ss[..i]), Uleb(|ss[i]|) + ss[i]);
      Assoc(head + PoolBody(ss[..i]), Uleb(|ss[i]|), ss[i]);
      assert ss[..i + 1][..i] == ss[..i];
    }
    assert ss[..|ss|] == ss;
  }

  method ReadPool(f: Input) returns (ss: Option<seq<Text>>)
    requires f.Valid()
    modifies f
    ensures f.Valid()
    ensures if ss.Some? then ReadPoolFrom(old(f.Rest())) == Some((ss.value, f.Rest()))
      else ReadPoolFrom(old(f.Rest())) == None
  {
    hide ReadUnsigned;
    var count := ReadVaruint(f);
    if count.None? {
      return None;
    }
    var n := count.value % 0x1_0000_0000;
    var arr: seq<Text> := [];
    while |arr| < n
      invariant f.Valid() && |arr| <= n && ReadStrings(f.Rest(), n, arr) == ReadPoolFrom(old(f.Rest()))
      decreases n - |arr|
    {
      var len := ReadVaruint(f);
      if len.None? {
        return None;
      }
      ghost var t := f.Rest();
      var s := f.Read(len.value);
      if s.None? {
        return None;
      }
      arr := arr + [s.value];
    }
    ss := Some(arr);
  }

  /** Writing a pool and reading the file back. */
  method PoolThroughFile(ss: seq<CText>, trailer: seq<byte>) returns (back: Option<seq<Text>>, rest: seq<byte>)
    requires |ss| < 0x1_0000_0000 && forall i :: 0 <= i < |ss| ==> |ss[i]| < 0x1_0000_0000_0000_0000
    ensures back == Some(ss) && rest == trailer
  {
    hide ReadPoolFrom, PoolBytes;
    var f := new File();
    WritePool(f, ss);
    f.Write(trailer);
    assert f.data == PoolBytes(ss) + trailer;
    var g := new Input(f.data);
    PoolRoundTrip(ss, trailer);
    back := ReadPool(g);
    rest := g.data[g.pos..];
  }
}
