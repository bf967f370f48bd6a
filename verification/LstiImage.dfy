/** Layer two of the thunk image: a numbered table against the bytes of the file. */
module LstiImage {
  import opened Bytes
  import opened Sequences
  import opened ThunkGraph
  import opened Words
  import opened LstiTable

  const MAGIC: nat := 0x4C53_5449
  const VERSION_MAJOR: nat := 1
  const VERSION_MINOR: nat := 0

  const SECT_STRING_BLOB: nat := 1
  const SECT_SYMBOL_BLOB: nat := 2
  const SECT_PATTERN_TAB: nat := 3
  const SECT_THUNK_TAB: nat := 4
  const SECT_ROOTS: nat := 5

  const KIND_ALGE: byte := 0
  const KIND_APPL: byte := 1
  const KIND_CHOICE: byte := 2
  const KIND_LAMBDA: byte := 3
  const KIND_REF: byte := 4
  const KIND_INT: byte := 5
  const KIND_STR: byte := 6
  const KIND_SYMBOL: byte := 7
  const KIND_BUILTIN: byte := 8
  const KIND_BOTTOM: byte := 9

  /** log2 of the section alignment: 8 or 16 bytes. */
  type AlignLog2 = a: nat | a == 3 || a == 4 witness 3

  // ---- Pools ---------------------------------------------------------------

  function PoolString(pool: seq<Text>, t: Thunk): (r: seq<Text>)
    ensures pool <= r
  {
    match t
    case Str(s) => AddNew(pool, s)
    case Bottom(m, _) => AddNew(pool, m)
    case _ => pool
  }

  function PoolSymbol(pool: seq<Text>, t: Thunk): (r: seq<Text>)
    ensures pool <= r
  {
    match t
    case Symbol(s) => AddNew(pool, s)
    case Alge(c, _) => AddNew(pool, c)
    case Ref(n) => AddNew(pool, n)
    case Builtin(n) => AddNew(pool, n)
    case _ => pool
  }

  function Strings(ts: seq<Thunk>): seq<Text> {
    if ts == [] then [] else PoolString(Strings(ts[..|ts| - 1]), ts[|ts| - 1])
  }

  function Symbols(ts: seq<Thunk>): seq<Text> {
    if ts == [] then [] else PoolSymbol(Symbols(ts[..|ts| - 1]), ts[|ts| - 1])
  }

  /** The pooled texts an entry refers to. */
  predicate Pooled(strs: seq<Text>, syms: seq<Text>, t: Thunk) {
    match t
    case Str(s) => s in strs
    case Bottom(m, _) => m in strs
    case Symbol(s) => s in syms
    case Alge(c, _) => c in syms
    case Ref(n) => n in syms
    case Builtin(n) => n in syms
    case _ => true
  }

  lemma {:induction false} AllPooled(ts: seq<Thunk>)
    ensures forall i :: 0 <= i < |ts| ==> Pooled(Strings(ts), Symbols(ts), ts[i])
  {
    if ts == [] {
    } else {
      AllPooled(ts[..|ts| - 1]);
    }
  }

  /** Offset of `s` inside the blob of its pool. */
  function TextOffset(pool: seq<Text>, s: Text): nat
    requires s in pool
  {
    |Concat(pool[..IndexOf(pool, s)])|
  }

  function Blob(pool: seq<Text>): seq<byte> {
    U32(0) + Concat(pool)
  }

  // ---- Entries -------------------------------------------------------------

  /** The cast of a C `int` to a 32-bit unsigned integer. */
  function Cast32(v: int): nat
    requires -0x8000_0000 <= v
  {
    if v < 0 then v + 0x1_0000_0000 else v
  }

  function ToInt32(v: nat): Int32
    requires v < 0x1_0000_0000
  {
    if v < 0x8000_0000 then v else v - 0x1_0000_0000
  }

  function EntryHeader(kind: byte, aorl: nat, extra: nat): (s: seq<byte>)
    ensures |s| == 12
  {
    [kind, 0] + (U16(0) + (U32(aorl) + U32(extra)))
  }

  function Ids(ps: seq<Ptr>): (s: seq<byte>)
    ensures |s| == 4 * |ps|
  {
    if ps == [] then [] else Ids(ps[..|ps| - 1]) + U32(Cast32(ps[|ps| - 1]))
  }

  /** The payload of an entry follows its header. */
  function EncodeEntry(strs: seq<Text>, syms: seq<Text>, t: Thunk): (s: seq<byte>)
    requires Pooled(strs, syms, t)
  {
    match t
    case Int(v) => EntryHeader(KIND_INT, 0, Cast32(v))
    case Str(s) => EntryHeader(KIND_STR, |s|, TextOffset(strs, s))
    case Symbol(s) => EntryHeader(KIND_SYMBOL, |s|, TextOffset(syms, s))
    case Alge(c, args) => EntryHeader(KIND_ALGE, |args|, TextOffset(syms, c)) + (U32(|c|) + Ids(args))
    case Appl(f, args) => EntryHeader(KIND_APPL, |args|, Cast32(f)) + Ids(args)
    case Choice(k, l, r) => EntryHeader(KIND_CHOICE, k, 0) + (U32(Cast32(l)) + U32(Cast32(r)))
    case Ref(n) => EntryHeader(KIND_REF, |n|, TextOffset(syms, n))
    case Builtin(n) => EntryHeader(KIND_REF, |n|, TextOffset(syms, n))
    case Bottom(m, args) => EntryHeader(KIND_BOTTOM, |args|, TextOffset(strs, m)) + (U32(|m|) + Ids(args))
  }

  function EncodeEntries(strs: seq<Text>, syms: seq<Text>, ts: seq<Thunk>): (r: seq<seq<byte>>)
    requires forall i :: 0 <= i < |ts| ==> Pooled(strs, syms, ts[i])
    ensures |r| == |ts| && forall i :: 0 <= i < |ts| ==> r[i] == EncodeEntry(strs, syms, ts[i])
  {
    seq(|ts|, i requires 0 <= i < |ts| => EncodeEntry(strs, syms, ts[i]))
  }

  /** Offset of entry `i` from the start of the table of `n` entries. */
  function EntryOffset(chunks: seq<seq<byte>>, i: nat): nat
    requires i <= |chunks|
  {
    4 + 8 * |chunks| + |Concat(chunks[..i])|
  }

  function OffsetTable(chunks: seq<seq<byte>>, n: nat): (s: seq<byte>)
    requires n <= |chunks|
    ensures |s| == 8 * n
  {
    if n == 0 then [] else OffsetTable(chunks, n - 1) + U64(EntryOffset(chunks, n - 1))
  }

  function ThunkTab(chunks: seq<seq<byte>>): seq<byte> {
    U32(|chunks|) + (OffsetTable(chunks, |chunks|) + Concat(chunks))
  }

  function RootsTab(roots: seq<Ptr>): seq<byte> {
    U32(|roots|) + Ids(roots)
  }

  // ---- File layout ---------------------------------------------------------

  datatype Section = Section(kind: nat, payload: seq<byte>)

  function Zeros(n: nat): (s: seq<byte>)
    ensures |s| == n
  {
    seq(n, i => 0)
  }

  predicate Aligned(pos: nat, a: AlignLog2) {
    if a == 3 then pos % 8 == 0 else pos % 16 == 0
  }

  /** Number of zero bytes that bring `pos` to the next multiple of 2^a. */
  function Padding(pos: nat, a: AlignLog2): (p: nat)
    ensures Aligned(pos + p, a) && p < 16
  {
    if a == 3 then
      assert pos + (8 - pos % 8) == 8 * (pos / 8 + 1);
      if pos % 8 == 0 then 0 else 8 - pos % 8
    else
      assert pos + (16 - pos % 16) == 16 * (pos / 16 + 1);
      if pos % 16 == 0 then 0 else 16 - pos % 16
  }

  /** Padding as a function of the position alone, so that the layout below need not look inside it. */
  type Padder = nat -> nat
  function PadTo(a: AlignLog2): Padder { pos => Padding(pos, a) }

  /** Everything after the section table: each payload preceded by its padding. */
  function Body(start: nat, secs: seq<Section>, pad: Padder): seq<byte> {
    if secs == [] then [] else
    var b := Body(start, secs[..|secs| - 1], pad);
    b + Zeros(pad(start + |b|)) + secs[|secs| - 1].payload
  }

  function SectionOffset(start: nat, secs: seq<Section>, pad: Padder, i: nat): nat
    requires i < |secs|
  {
    var p := start + |Body(start, secs[..i], pad)|;
    p + pad(p)
  }

  function SectionEntry(start: nat, secs: seq<Section>, pad: Padder, i: nat): (s: seq<byte>)
    requires i < |secs|
    ensures |s| == 24
  {
    U32(secs[i].kind) + (U32(0) + (U64(SectionOffset(start, secs, pad, i)) + U64(|secs[i].payload|)))
  }

  function SectionTable(start: nat, secs: seq<Section>, pad: Padder, n: nat): (s: seq<byte>)
    requires n <= |secs|
    ensures |s| == 24 * n
  {
    if n == 0 then [] else SectionTable(start, secs, pad, n - 1) + SectionEntry(start, secs, pad, n - 1)
  }

  function Header(count: nat, a: AlignLog2, flags: nat): (s: seq<byte>)
    ensures |s| == 16
  {
    U32(MAGIC) + (U16(VERSION_MAJOR) + (U16(VERSION_MINOR) + (U16(count) + (U16(a) + U32(flags)))))
  }

  function ImageOf(secs: seq<Section>, a: AlignLog2, flags: nat): seq<byte> {
    var start, pad := 16 + 24 * |secs|, PadTo(a);
    Header(|secs|, a, flags) + (SectionTable(start, secs, pad, |secs|) + Body(start, secs, pad))
  }

  /** The optional blobs, then the two tables. */
  function SectionsFor(strs: seq<Text>, syms: seq<Text>, chunks: seq<seq<byte>>, roots: seq<Ptr>): seq<Section> {
    (if strs == [] then [] else [Section(SECT_STRING_BLOB, Blob(strs))])
    + (if syms == [] then [] else [Section(SECT_SYMBOL_BLOB, Blob(syms))])
    + [Section(SECT_THUNK_TAB, ThunkTab(chunks)), Section(SECT_ROOTS, RootsTab(roots))]
  }

  /** The encoded entries of a table, in order. */
  function Chunks(t: Table): (r: seq<seq<byte>>)
    ensures |r| == |t.entries|
  {
    AllPooled(t.entries);
    EncodeEntries(Strings(t.entries), Symbols(t.entries), t.entries)
  }

  function SectionsOf(t: Table): seq<Section> {
    SectionsFor(Strings(t.entries), Symbols(t.entries), Chunks(t), t.roots)
  }

  /** The file the writer produces for a table. */
  function Image(t: Table, a: AlignLog2, flags: nat): seq<byte> {
    ImageOf(SectionsOf(t), a, flags)
  }

  // ---- What the layout guarantees ------------------------------------------

  lemma {:induction false} BodySection(start: nat, secs: seq<Section>, pad: Padder, i: nat)
    requires i < |secs|
    ensures SectionOffset(start, secs, pad, i) >= start
    ensures At(Body(start, secs, pad), SectionOffset(start, secs, pad, i) - start, secs[i].payload)
  {
    hide At, Body, SectionOffset;
    var n := |secs| - 1;
    if i == n {
      LastSection(start, secs, pad);
    } else {
      BodySection(start, secs[..n], pad, i);
      EarlierOffset(start, secs, pad, i);
      EarlierSection(start, secs, pad, SectionOffset(start, secs, pad, i) - start, secs[i].payload);
    }
  }

  lemma {:induction false} LastSection(start: nat, secs: seq<Section>, pad: Padder)
    requires secs != []
    ensures var n := |secs| - 1;
      && SectionOffset(start, secs, pad, n) >= start
      && At(Body(start, secs, pad), SectionOffset(start, secs, pad, n) - start, secs[n].payload)
  {
    hide Zeros, At;
    var n := |secs| - 1;
    var b := Body(start, secs[..n], pad);
    AtEnd(b + Zeros(pad(start + |b|)), secs[n].payload);
  }

  lemma {:induction false} EarlierOffset(start: nat, secs: seq<Section>, pad: Padder, i: nat)
    requires i < |secs| - 1
    ensures SectionOffset(start, secs, pad, i) == SectionOffset(start, secs[..|secs| - 1], pad, i)
  {
    assert secs[..|secs| - 1][..i] == secs[..i];
  }

  lemma {:induction false} EarlierSection(start: nat, secs: seq<Section>, pad: Padder, o: nat, payload: seq<byte>)
    requires secs != [] && At(Body(start, secs[..|secs| - 1], pad), o, payload)
    ensures At(Body(start, secs, pad), o, payload)
  {
    hide Zeros, At;
    var n := |secs| - 1;
    var b := Body(start, secs[..n], pad);
    var z := Zeros(pad(start + |b|));
    AtAppend(b, z, o, payload);
    AtAppend(b + z, secs[n].payload, o, payload);
  }

  lemma {:induction false} SectionTableAt(start: nat, secs: seq<Section>, pad: Padder, n: nat, i: nat)
    requires i < n <= |secs|
    ensures At(SectionTable(start, secs, pad, n), 24 * i, SectionEntry(start, secs, pad, i))
  {
    hide LittleEndian;
    if i == n - 1 {
    } else {
      SectionTableAt(start, secs, pad, n - 1, i);
      var o := 24 * i;
      var s, s' := SectionTable(start, secs, pad, n), SectionTable(start, secs, pad, n - 1);
      assert s[o..o + 24] == s'[o..o + 24];
    }
  }

  /** Each payload stands at the aligned offset its table entry names. */
  lemma {:induction false} ImageSection(secs: seq<Section>, a: AlignLog2, flags: nat, i: nat)
    requires i < |secs|
    ensures var img, start, pad := ImageOf(secs, a, flags), 16 + 24 * |secs|, PadTo(a);
      && At(img, 0, Header(|secs|, a, flags))
      && |img| >= start
      && At(img, 16 + 24 * i, SectionEntry(start, secs, pad, i))
      && At(img, SectionOffset(start, secs, pad, i), secs[i].payload)
  {
    hide LittleEndian, Body, SectionTable;
    var img, start, pad := ImageOf(secs, a, flags), 16 + 24 * |secs|, PadTo(a);
    var hd, tb, bd := Header(|secs|, a, flags), SectionTable(start, secs, pad, |secs|), Body(start, secs, pad);
    assert At(img, 0, hd + (tb + bd));
    AtSplit(img, 0, hd, tb + bd, 16);
    AtSplit(img, 16, tb, bd, start);
    SectionTableAt(start, secs, pad, |secs|, i);
    AtWithin(img, 16, tb, 24 * i, SectionEntry(start, secs, pad, i), 16 + 24 * i);
    BodySection(start, secs, pad, i);
    AtWithin(img, start, bd, SectionOffset(start, secs, pad, i) - start, secs[i].payload,
      SectionOffset(start, secs, pad, i));
  }
}
