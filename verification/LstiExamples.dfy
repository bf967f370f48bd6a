/** The bytes of the image format, spelled out: one entry of each kind, and a whole file. */
module LstiExamples {
  import opened Bytes
  import opened Sequences
  import opened ThunkGraph
  import opened LstiTable
  import opened LstiImage
  import opened LstiRoundTrip

  /** A four-byte field holds the base-256 digits of its value, least significant first. */
  lemma {:induction false} FourBytes(v: nat)
    ensures U32(v) == [(v % 256) as byte, (v / 256 % 256) as byte, (v / 256 / 256 % 256) as byte,
      (v / 256 / 256 / 256 % 256) as byte]
  {
    var v1, v2, v3 := v / 256, v / 256 / 256, v / 256 / 256 / 256;
    assert LittleEndian(v3, 1) == [(v3 % 256) as byte] + LittleEndian(v3 / 256, 0);
    assert LittleEndian(v2, 2) == [(v2 % 256) as byte] + LittleEndian(v3, 1);
    assert LittleEndian(v1, 3) == [(v1 % 256) as byte] + LittleEndian(v2, 2);
  }

  lemma {:induction false} TwoBytes(v: byte)
    ensures U16(v as int) == [v, 0]
  {
    assert LittleEndian(0, 1) == [0];
  }

  lemma {:induction false} EightBytes(v: byte)
    ensures U64(v as int) == [v, 0, 0, 0, 0, 0, 0, 0]
  {
    assert LittleEndian(0, 7) == [0, 0, 0, 0, 0, 0, 0];
  }

  lemma {:induction false} HeaderBytes(kind: byte, aorl: byte, extra: byte)
    ensures EntryHeader(kind, aorl as int, extra as int) == [kind, 0, 0, 0, aorl, 0, 0, 0, extra, 0, 0, 0]
  {
    FourBytes(aorl as int);
    FourBytes(extra as int);
    assert U16(0) == [0, 0];
  }

  /** Two symbols, "ab" and "c", and one string, "hi". */
  const SYMS: seq<Text> := [[97, 98], [99]]
  const STRS: seq<Text> := [[104, 105]]

  lemma {:induction false} PoolOffsets()
    ensures [97, 98] in SYMS && [99] in SYMS && [104, 105] in STRS
    ensures TextOffset(SYMS, [97, 98]) == 0 && TextOffset(SYMS, [99]) == 2 && TextOffset(STRS, [104, 105]) == 0
  {
    var a: Text, b: Text, h: Text := [97, 98], [99], [104, 105];
    assert SYMS[0] == a && SYMS[1] == b && STRS[0] == h;
    assert IndexOf(SYMS, a) == 0 && IndexOf(STRS, h) == 0;
    assert a != b && IndexOf(SYMS, b) == 1;
    assert SYMS[..0] == [] && STRS[..0] == [];
    assert SYMS[..1] == [a] && [a][..0] == [];
    assert Concat(SYMS[..1]) == Concat<byte>([]) + a;
  }

  lemma {:induction false} TwoIds(p: byte, q: byte)
    ensures Ids([p as int, q as int]) == [p, 0, 0, 0, q, 0, 0, 0] && Ids([p as int]) == [p, 0, 0, 0]
  {
    FourBytes(p as int);
    FourBytes(q as int);
    var ps: seq<Ptr>, one: seq<Ptr> := [p as int, q as int], [p as int];
    assert ps[..1] == one && one[..0] == [] && Ids([]) == [];
  }

  /** The kinds whose payload is a text only. A builtin is stored as a reference. */
  lemma {:induction false} StoredTexts()
    ensures Pooled(STRS, SYMS, Str([104, 105])) && Pooled(STRS, SYMS, Symbol([99]))
    ensures Pooled(STRS, SYMS, Ref([99])) && Pooled(STRS, SYMS, Builtin([97, 98]))
    ensures EncodeEntry(STRS, SYMS, Str([104, 105])) == [6, 0, 0, 0, 2, 0, 0, 0, 0, 0, 0, 0]
    ensures EncodeEntry(STRS, SYMS, Symbol([99])) == [7, 0, 0, 0, 1, 0, 0, 0, 2, 0, 0, 0]
    ensures EncodeEntry(STRS, SYMS, Ref([99])) == [4, 0, 0, 0, 1, 0, 0, 0, 2, 0, 0, 0]
    ensures EncodeEntry(STRS, SYMS, Builtin([97, 98])) == [4, 0, 0, 0, 2, 0, 0, 0, 0, 0, 0, 0]
  {
    hide EntryHeader, TextOffset;
    PoolOffsets();
    HeaderBytes(6, 2, 0);
    HeaderBytes(7, 1, 2);
    HeaderBytes(4, 1, 2);
    HeaderBytes(4, 2, 0);
  }

  lemma {:induction false} MinusTwo()
    ensures EntryHeader(5, 0, 0xFFFF_FFFE) == [5, 0, 0, 0, 0, 0, 0, 0, 254, 255, 255, 255]
  {
    FourBytes(0);
    FourBytes(0xFFFF_FFFE);
    hide LittleEndian;
    assert U16(0) == [0, 0] by { HeaderBytes(0, 0, 0); TwoBytes(0); }
  }

  /** An integer is stored in two's complement. */
  lemma {:induction false} StoredNumbers()
    ensures EncodeEntry([], [], Int(5)) == [5, 0, 0, 0, 0, 0, 0, 0, 5, 0, 0, 0]
    ensures EncodeEntry([], [], Int(-2)) == [5, 0, 0, 0, 0, 0, 0, 0, 254, 255, 255, 255]
  {
    HeaderBytes(5, 0, 5);
    MinusTwo();
  }

  /** The kinds with children: function or alternatives, then arguments; a text comes with its length. */
  lemma {:induction false} StoredNodes()
    ensures Pooled(STRS, SYMS, Alge([99], [3, 4])) && Pooled(STRS, SYMS, Bottom([104, 105], [3, 4]))
    ensures EncodeEntry(STRS, SYMS, Alge([99], [3, 4])) ==
      [0, 0, 0, 0, 2, 0, 0, 0, 2, 0, 0, 0, 1, 0, 0, 0, 3, 0, 0, 0, 4, 0, 0, 0]
    ensures EncodeEntry(STRS, SYMS, Bottom([104, 105], [3, 4])) ==
      [9, 0, 0, 0, 2, 0, 0, 0, 0, 0, 0, 0, 2, 0, 0, 0, 3, 0, 0, 0, 4, 0, 0, 0]
    ensures EncodeEntry(STRS, SYMS, Appl(5, [3, 4])) ==
      [1, 0, 0, 0, 2, 0, 0, 0, 5, 0, 0, 0, 3, 0, 0, 0, 4, 0, 0, 0]
    ensures EncodeEntry(STRS, SYMS, Choice(3, 1, 2)) ==
      [2, 0, 0, 0, 3, 0, 0, 0, 0, 0, 0, 0, 1, 0, 0, 0, 2, 0, 0, 0]
  {
    hide EntryHeader, TextOffset, Ids;
    PoolOffsets();
    TwoIds(3, 4);
    HeaderBytes(0, 2, 2);
    HeaderBytes(9, 2, 0);
    HeaderBytes(1, 2, 5);
    HeaderBytes(2, 3, 0);
    FourBytes(1);
    FourBytes(2);
  }

  // ---- A whole file --------------------------------------------------------

  /** A constructor "c" applied to the string "hi". */
  const EXAMPLE: Table := Table([Alge([99], [1]), Str([104, 105])], [0])

  const STRING_BLOB: seq<byte> := [0, 0, 0, 0, 104, 105]
  const SYMBOL_BLOB: seq<byte> := [0, 0, 0, 0, 99]
  const FIRST_ENTRY: seq<byte> := [0, 0, 0, 0, 1, 0, 0, 0, 0, 0, 0, 0, 1, 0, 0, 0, 1, 0, 0, 0]
  const SECOND_ENTRY: seq<byte> := [6, 0, 0, 0, 2, 0, 0, 0, 0, 0, 0, 0]
  const THUNK_TAB: seq<byte> :=
    [2, 0, 0, 0] + ([20, 0, 0, 0, 0, 0, 0, 0] + [40, 0, 0, 0, 0, 0, 0, 0] + (FIRST_ENTRY + SECOND_ENTRY))
  const ROOTS: seq<byte> := [1, 0, 0, 0, 0, 0, 0, 0]

  lemma {:induction false} ExamplePools()
    ensures Strings(EXAMPLE.entries) == [[104, 105]] && Symbols(EXAMPLE.entries) == [[99]]
  {
    var ts, c: Text, hi: Text := EXAMPLE.entries, [99], [104, 105];
    assert ts[..1] == [Alge(c, [1])] && ts[..1][..0] == [];
    assert Strings([]) == [] && Symbols([]) == [];
    assert Strings(ts[..1]) == [] && Symbols(ts[..1]) == [c];
  }

  lemma {:induction false} ExampleOffsets()
    ensures [99] in [[99]] && TextOffset([[99]], [99]) == 0
    ensures [104, 105] in STRS && TextOffset(STRS, [104, 105]) == 0
  {
    PoolOffsets();
    var c: Text := [99];
    assert [c][0] == c && [c][..0] == [];
  }

  lemma {:induction false} ExampleChunks()
    ensures Chunks(EXAMPLE) == [FIRST_ENTRY, SECOND_ENTRY]
  {
    hide EntryHeader, TextOffset, Ids, Strings, Symbols;
    ExamplePools();
    ExampleOffsets();
    AllPooled(EXAMPLE.entries);
    TwoIds(1, 0);
    FourBytes(1);
    HeaderBytes(0, 1, 0);
    HeaderBytes(6, 2, 0);
    assert EncodeEntry(STRS, [[99]], Alge([99], [1])) == FIRST_ENTRY;
    assert EncodeEntry(STRS, [[99]], Str([104, 105])) == SECOND_ENTRY;
  }

  lemma {:induction false} OneBlob(x: Text)
    ensures Blob([x]) == [0, 0, 0, 0] + x
  {
    FourBytes(0);
    OneText([x]);
  }

  lemma {:induction false} TwoPieces(x: seq<byte>, y: seq<byte>)
    ensures Concat([x, y]) == x + y && Concat([x, y][..0]) == [] && Concat([x, y][..1]) == x
  {
    assert [x, y][..1] == [x] && [x, y][..0] == [];
    OneText([x]);
  }

  lemma {:induction false} ExampleTab()
    ensures ThunkTab([FIRST_ENTRY, SECOND_ENTRY]) == THUNK_TAB
  {
    hide LittleEndian, Concat;
    var chunks := [FIRST_ENTRY, SECOND_ENTRY];
    TwoPieces(FIRST_ENTRY, SECOND_ENTRY);
    FourBytes(2);
    EightBytes(20);
    EightBytes(40);
    assert EntryOffset(chunks, 0) == 20 && EntryOffset(chunks, 1) == 40;
    assert OffsetTable(chunks, 0) == [];
    assert OffsetTable(chunks, 1) == [20, 0, 0, 0, 0, 0, 0, 0];
    assert OffsetTable(chunks, 2) == [20, 0, 0, 0, 0, 0, 0, 0] + [40, 0, 0, 0, 0, 0, 0, 0];
  }

  lemma {:induction false} ExampleRoots()
    ensures RootsTab([0]) == ROOTS
  {
    TwoIds(0, 0);
    FourBytes(1);
  }

  /** Kinds 1 and 2 for the blobs, 4 and 5 for the tables. */
  function ExampleSections(): seq<Section> {
    [Section(1, STRING_BLOB), Section(2, SYMBOL_BLOB), Section(4, THUNK_TAB), Section(5, ROOTS)]
  }

  lemma {:induction false} ExampleParts()
    ensures SectionsOf(EXAMPLE) == ExampleSections()
  {
    hide Blob, ThunkTab, RootsTab, Chunks, Strings, Symbols;
    ExamplePools();
    ExampleChunks();
    OneBlob([104, 105]);
    OneBlob([99]);
    assert STRING_BLOB == [0, 0, 0, 0] + [104, 105] && SYMBOL_BLOB == [0, 0, 0, 0] + [99];
    ExampleTab();
    ExampleRoots();
  }

  /** The body of a file, one section at a time. */
  lemma {:induction false} NextSection(start: nat, secs: seq<Section>, s: Section, b: seq<byte>, gap: nat)
    requires Body(start, secs, PadTo(3)) == b && gap == Padding(start + |b|, 3)
    ensures Body(start, secs + [s], PadTo(3)) == b + Zeros(gap) + s.payload
    ensures SectionOffset(start, secs + [s], PadTo(3), |secs|) == start + |b| + gap
  {
    hide Padding;
    var all := secs + [s];
    assert all[..|all| - 1] == secs && all[..|secs|] == secs;
  }

  lemma {:induction false} SectionRow(start: nat, secs: seq<Section>, i: nat, kind: byte, off: byte, size: byte)
    requires i < |secs| && secs[i].kind == kind as int && |secs[i].payload| == size as int
    requires SectionOffset(start, secs, PadTo(3), i) == off as int
    ensures SectionEntry(start, secs, PadTo(3), i) ==
      [kind, 0, 0, 0, 0, 0, 0, 0] + ([off, 0, 0, 0, 0, 0, 0, 0] + [size, 0, 0, 0, 0, 0, 0, 0])
  {
    hide LittleEndian, SectionOffset;
    FourBytes(kind as int);
    FourBytes(0);
    EightBytes(off);
    EightBytes(size);
  }

  lemma {:induction false} EmptyBody()
    ensures ExampleSections()[..0] == [] && Body(112, [], PadTo(3)) == []
  {
  }

  lemma {:induction false} ExampleBody()
    ensures var secs := ExampleSections();
      && Body(112, secs[..0], PadTo(3)) == []
      && Body(112, secs[..1], PadTo(3)) == STRING_BLOB
      && Body(112, secs[..2], PadTo(3)) == STRING_BLOB + [0, 0] + SYMBOL_BLOB
      && Body(112, secs[..3], PadTo(3)) == STRING_BLOB + [0, 0] + SYMBOL_BLOB + [0, 0, 0] + THUNK_TAB
      && Body(112, secs, PadTo(3)) ==
         STRING_BLOB + [0, 0] + SYMBOL_BLOB + [0, 0, 0] + THUNK_TAB + [0, 0, 0, 0] + ROOTS
  {
    hide Body, SectionOffset;
    var secs := ExampleSections();
    EmptyBody();
    var b1 := STRING_BLOB;
    var b2 := b1 + [0, 0] + SYMBOL_BLOB;
    var b3 := b2 + [0, 0, 0] + THUNK_TAB;
    assert secs[..1] == secs[..0] + [secs[0]] && secs[..2] == secs[..1] + [secs[1]];
    assert secs[..3] == secs[..2] + [secs[2]] && secs == secs[..3] + [secs[3]];
    NextSection(112, secs[..0], secs[0], [], 0);
    assert [] + Zeros(0) + STRING_BLOB == b1;
    NextSection(112, secs[..1], secs[1], b1, 2);
    assert Zeros(2) == [0, 0] && Zeros(3) == [0, 0, 0] && Zeros(4) == [0, 0, 0, 0];
    NextSection(112, secs[..2], secs[2], b2, 3);
    NextSection(112, secs[..3], secs[3], b3, 4);
  }


  const FIRST_ROWS: seq<byte> :=
    [1, 0, 0, 0, 0, 0, 0, 0] + ([112, 0, 0, 0, 0, 0, 0, 0] + [6, 0, 0, 0, 0, 0, 0, 0])
    + ([2, 0, 0, 0, 0, 0, 0, 0] + ([120, 0, 0, 0, 0, 0, 0, 0] + [5, 0, 0, 0, 0, 0, 0, 0]))
  const LAST_ROWS: seq<byte> :=
    [4, 0, 0, 0, 0, 0, 0, 0] + ([128, 0, 0, 0, 0, 0, 0, 0] + [52, 0, 0, 0, 0, 0, 0, 0])
    + ([5, 0, 0, 0, 0, 0, 0, 0] + ([184, 0, 0, 0, 0, 0, 0, 0] + [8, 0, 0, 0, 0, 0, 0, 0]))

  /** The sections start at 112, 120, 128 and 184. */
  lemma {:induction false} ExamplePlaces()
    ensures var secs := ExampleSections();
      && SectionOffset(112, secs, PadTo(3), 0) == 112 && SectionOffset(112, secs, PadTo(3), 1) == 120
      && SectionOffset(112, secs, PadTo(3), 2) == 128 && SectionOffset(112, secs, PadTo(3), 3) == 184
  {
    hide Body;
    ExampleBody();
  }

  lemma {:induction false} ExampleRows()
    ensures SectionTable(112, ExampleSections(), PadTo(3), 4) == FIRST_ROWS + LAST_ROWS
  {
    hide SectionEntry, SectionOffset;
    var secs, pad := ExampleSections(), PadTo(3);
    ExamplePlaces();
    SectionRow(112, secs, 0, 1, 112, 6);
    SectionRow(112, secs, 1, 2, 120, 5);
    SectionRow(112, secs, 2, 4, 128, 52);
    SectionRow(112, secs, 3, 5, 184, 8);
    assert SectionTable(112, secs, pad, 2) == FIRST_ROWS;
    Assoc(FIRST_ROWS, SectionEntry(112, secs, pad, 2), SectionEntry(112, secs, pad, 3));
  }

  /** The magic, the version 1.0, four sections, eight-byte alignment, no flags. */
  const HEADER: seq<byte> := [0x49, 0x54, 0x53, 0x4C] + ([1, 0] + ([0, 0] + ([4, 0] + ([3, 0] + [0, 0, 0, 0]))))

  lemma {:induction false} ExampleHeader()
    ensures Header(4, 3, 0) == HEADER
  {
    hide LittleEndian;
    FourBytes(0x4C53_5449);
    FourBytes(0);
    TwoBytes(1);
    TwoBytes(0);
    TwoBytes(4);
    TwoBytes(3);
  }

  /** The file the writer produces for this table, byte for byte. */
  lemma {:induction false} ExampleImage()
    ensures Image(EXAMPLE, 3, 0) ==
      HEADER + (FIRST_ROWS + LAST_ROWS
        + (STRING_BLOB + [0, 0] + SYMBOL_BLOB + [0, 0, 0] + THUNK_TAB + [0, 0, 0, 0] + ROOTS))
    ensures |Image(EXAMPLE, 3, 0)| == 192
  {
    hide SectionsOf, Header, SectionTable, Body;
    ExampleParts();
    ExampleHeader();
    ExampleRows();
    ExampleBody();
  }
}
