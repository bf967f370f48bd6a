/** The written image is accepted, decodes to the table it was made from, and loads as an isomorphic graph. */
module LstiRoundTrip {
  import opened Options
  import opened Bytes
  import opened Sequences
  import opened ThunkGraph
  import opened Words
  import opened LstiTable
  import opened LstiImage
  import opened LstiFormat

  // ---- Header and sections -------------------------------------------------

  lemma {:induction false} HeaderFields(secs: seq<Section>, a: AlignLog2, flags: nat)
    requires 0 < |secs| <= 5 && |ImageOf(secs, a, flags)| < 0x1_0000_0000
    ensures var img: File32 := ImageOf(secs, a, flags);
      && HasSections(img) && SectionCount(img) == |secs| && AlignOf(img) == a
      && GetU32(img, 0) == MAGIC && GetU16(img, 4) == VERSION_MAJOR
  {
    var img := ImageOf(secs, a, flags);
    ImageSection(secs, a, flags, 0);
    AtU32(img, 0, MAGIC, U16(VERSION_MAJOR) + (U16(VERSION_MINOR) + (U16(|secs|) + (U16(a) + U32(flags)))), 4);
    AtU16(img, 4, VERSION_MAJOR, U16(VERSION_MINOR) + (U16(|secs|) + (U16(a) + U32(flags))), 6);
    AtU16(img, 6, VERSION_MINOR, U16(|secs|) + (U16(a) + U32(flags)), 8);
    AtU16(img, 8, |secs|, U16(a) + U32(flags), 10);
    AtU16(img, 10, a, U32(flags), 12);
  }

  /** Where section `i` of an image starts. */
  function Place(secs: seq<Section>, a: AlignLog2, i: nat): nat
    requires i < |secs|
  {
    SectionOffset(16 + 24 * |secs|, secs, PadTo(a), i)
  }

  lemma {:induction false} SectionEntryFields(img: File32, p: nat, kind: nat, off: nat, size: nat)
    requires kind < 0x1_0000_0000 && off < 0x1_0000_0000 && size < 0x1_0000_0000
    requires At(img, p, U32(kind) + (U32(0) + (U64(off) + U64(size))))
    ensures p + 24 <= |img|
    ensures GetU32(img, p) == kind && GetU64(img, p + 8) == off && GetU64(img, p + 16) == size
  {
    AtFits(img, p, U32(kind) + (U32(0) + (U64(off) + U64(size))));
    AtU32(img, p, kind, U32(0) + (U64(off) + U64(size)), p + 4);
    AtU32(img, p + 4, 0, U64(off) + U64(size), p + 8);
    AtU64(img, p + 8, off, U64(size), p + 16);
    AtLastU64(img, p + 16, size);
  }

  lemma {:induction false} SectionFields(secs: seq<Section>, a: AlignLog2, flags: nat, i: nat)
    requires 0 < |secs| <= 5 && |ImageOf(secs, a, flags)| < 0x1_0000_0000 && i < |secs| && secs[i].kind < 0x1_0000_0000
    ensures var img: File32 := ImageOf(secs, a, flags);
      && HasSections(img) && i < SectionCount(img) && SectionKind(img, i) == secs[i].kind
      && SectionExtent(img, i) == Extent(Place(secs, a, i), |secs[i].payload|)
      && At(img, Place(secs, a, i), secs[i].payload)
  {
    hide LittleEndian, FromLittleEndian, SectionTable, Body, Padding;
    var img := ImageOf(secs, a, flags);
    HeaderFields(secs, a, flags);
    ImageSection(secs, a, flags, i);
    SectionEntryFields(img, 16 + 24 * i, secs[i].kind, Place(secs, a, i), |secs[i].payload|);
  }

  lemma {:induction false} PlaceAligned(secs: seq<Section>, a: AlignLog2, i: nat)
    requires i < |secs|
    ensures Aligned(Place(secs, a, i), a)
  {
  }

  lemma {:induction false} WrittenSections(secs: seq<Section>, a: AlignLog2, flags: nat)
    requires 0 < |secs| <= 5 && |ImageOf(secs, a, flags)| < 0x1_0000_0000
    requires forall i :: 0 <= i < |secs| ==> secs[i].kind < 0x1_0000_0000
    ensures ValidSections(ImageOf(secs, a, flags))
  {
    hide LittleEndian, FromLittleEndian, SectionTable, Body, Padding, At, Place;
    var img: File32 := ImageOf(secs, a, flags);
    HeaderFields(secs, a, flags);
    forall i | 0 <= i < |secs|
      ensures Inside(img, SectionExtent(img, i)) && Aligned(SectionExtent(img, i).off, a)
    {
      SectionFields(secs, a, flags, i);
      AtFits(img, Place(secs, a, i), secs[i].payload);
      PlaceAligned(secs, a, i);
    }
  }

  function Kinds(secs: seq<Section>): (r: seq<nat>)
    ensures |r| == |secs| && forall i :: 0 <= i < |secs| ==> r[i] == secs[i].kind
  {
    seq(|secs|, i requires 0 <= i < |secs| => secs[i].kind)
  }

  /** Which section is found for each kind depends only on which pools are empty. */
  lemma {:induction false} KindsFound(ks: seq<nat>, hasStrs: bool, hasSyms: bool)
    requires ks == (if hasStrs then [SECT_STRING_BLOB] else []) + (if hasSyms then [SECT_SYMBOL_BLOB] else [])
                   + [SECT_THUNK_TAB, SECT_ROOTS]
    ensures var n, s := |ks|, if hasStrs then 1 else 0;
      && n == s + (if hasSyms then 3 else 2)
      && LastIndex(ks, SECT_THUNK_TAB) == Some(n - 2)
      && LastIndex(ks, SECT_ROOTS) == Some(n - 1)
      && LastIndex(ks, SECT_STRING_BLOB) == (if hasStrs then Some(0) else None)
      && LastIndex(ks, SECT_SYMBOL_BLOB) == (if hasSyms then Some(s) else None)
      && LastIndex(ks, SECT_PATTERN_TAB) == None
  {
    var n, s := |ks|, if hasStrs then 1 else 0;
    assert ks[n - 2] == SECT_THUNK_TAB && ks[n - 1] == SECT_ROOTS;
    assert hasStrs ==> ks[0] == SECT_STRING_BLOB;
    assert hasSyms ==> ks[s] == SECT_SYMBOL_BLOB;
  }

  lemma {:induction false} WrittenKinds(secs: seq<Section>, a: AlignLog2, flags: nat)
    requires 0 < |secs| <= 5 && |ImageOf(secs, a, flags)| < 0x1_0000_0000
    requires forall i :: 0 <= i < |secs| ==> secs[i].kind < 0x1_0000_0000
    ensures var img: File32 := ImageOf(secs, a, flags); HasSections(img) && SectionKinds(img) == Kinds(secs)
  {
    HeaderFields(secs, a, flags);
    forall i | 0 <= i < |secs| {
      SectionFields(secs, a, flags, i);
    }
  }

  // ---- Texts and child numbers ---------------------------------------------

  /** The payload of the blob of `pool`, which is written only when the pool is not empty. */
  predicate Holds(img: File32, blob: Option<Extent>, pool: seq<Text>) {
    if pool == [] then blob.None?
    else blob.Some? && blob.value.size == |Concat(pool)| && At(img, blob.value.off, Concat(pool))
  }

  lemma {:induction false} TextStored(img: File32, blob: Option<Extent>, pool: seq<Text>, s: Text)
    requires Holds(img, blob, pool) && s in pool
    ensures TextFits(blob, TextOffset(pool, s), |s|) && |s| < 0x1_0000_0000 && TextOffset(pool, s) < 0x1_0000_0000
    ensures ReadText(img, blob.value, TextOffset(pool, s), |s|) == s
  {
    hide LittleEndian, FromLittleEndian;
    var o, c, p := TextOffset(pool, s), Concat(pool), blob.value.off;
    assert At(c, o, s) by { ConcatAt(pool, IndexOf(pool, s)); }
    hide Concat, IndexOf, TextOffset;
    AtWithin(img, p, c, o, s, p + o);
  }

  lemma {:induction false} BlobStored(img: File32, x: Extent, pool: seq<Text>)
    requires x.size == |Blob(pool)| && At(img, x.off, Blob(pool)) && pool != []
    ensures BlobFits(img, Some(x)) && GetU32(img, x.off) == 0 && Holds(img, Payload(img, Some(x)), pool)
  {
    AtU32(img, x.off, 0, Concat(pool), x.off + 4);
  }

  lemma {:induction false} IdStored(img: File32, at: nat, ps: seq<Ptr>, j: nat)
    requires At(img, at, Ids(ps)) && j < |ps| && 0 <= ps[j] < 0x1_0000_0000
    ensures at + 4 * |ps| <= |img| && GetU32(img, at + 4 * j) == ps[j]
  {
    var l := |ps| - 1;
    AtSplit(img, at, Ids(ps[..l]), U32(Cast32(ps[l])), at + 4 * l);
    if j < l {
      IdStored(img, at, ps[..l], j);
    } else {
      AtLastU32(img, at + 4 * l, ps[l]);
    }
  }

  lemma {:induction false} IdsStored(img: File32, at: nat, ps: seq<Ptr>, n: nat)
    requires At(img, at, Ids(ps)) && n <= 0x1_0000_0000
    requires forall j :: 0 <= j < |ps| ==> 0 <= ps[j] < n
    ensures at + 4 * |ps| <= |img| && ReadIds(img, at, |ps|) == ps && AllBelow(ps, n)
  {
    assert at + 4 * |ps| <= |img|;
    var r := ReadIds(img, at, |ps|);
    forall j | 0 <= j < |ps|
      ensures r[j] == ps[j]
    {
      IdStored(img, at, ps, j);
    }
  }

  // ---- The thunk table -----------------------------------------------------

  lemma {:induction false} OffsetTableAt(chunks: seq<seq<byte>>, n: nat, i: nat)
    requires i < n <= |chunks|
    ensures At(OffsetTable(chunks, n), 8 * i, U64(EntryOffset(chunks, i)))
  {
    var e := U64(EntryOffset(chunks, n - 1));
    if i < n - 1 {
      OffsetTableAt(chunks, n - 1, i);
      AtAppend(OffsetTable(chunks, n - 1), e, 8 * i, U64(EntryOffset(chunks, i)));
    } else {
      AtEnd(OffsetTable(chunks, n - 1), e);
    }
  }

  /** The count, the offsets and the entries of a stored thunk table. */
  lemma {:induction false} TabStored(img: File32, tab: Extent, chunks: seq<seq<byte>>)
    requires tab.size == |ThunkTab(chunks)| && At(img, tab.off, ThunkTab(chunks))
    ensures Entries(img, tab, |chunks|)
    ensures At(img, tab.off + 4, OffsetTable(chunks, |chunks|))
    ensures At(img, tab.off + 4 + 8 * |chunks|, Concat(chunks))
    ensures tab.size == 4 + 8 * |chunks| + |Concat(chunks)|
  {
    var n, ot, cs := |chunks|, OffsetTable(chunks, |chunks|), Concat(chunks);
    AtFits(img, tab.off, ThunkTab(chunks));
    AtU32(img, tab.off, n, ot + cs, tab.off + 4);
    AtSplit(img, tab.off + 4, ot, cs, tab.off + 4 + 8 * n);
  }

  lemma {:induction false} ChunkStored(img: File32, tab: Extent, chunks: seq<seq<byte>>, i: nat)
    requires tab.size == |ThunkTab(chunks)| && At(img, tab.off, ThunkTab(chunks)) && i < |chunks|
    ensures Entries(img, tab, |chunks|)
    ensures Offset(img, tab, |chunks|, i) == EntryOffset(chunks, i)
    ensures At(img, tab.off + EntryOffset(chunks, i), chunks[i])
    ensures EntryOffset(chunks, i) + |chunks[i]| <= tab.size
  {
    hide LittleEndian, FromLittleEndian;
    var n, o := |chunks|, EntryOffset(chunks, i);
    TabStored(img, tab, chunks);
    ConcatAt(chunks, i);
    OffsetTableAt(chunks, n, i);
    AtWithin(img, tab.off + 4, OffsetTable(chunks, n), 8 * i, U64(o), tab.off + 4 + 8 * i);
    AtLastU64(img, tab.off + 4 + 8 * i, o);
    AtWithin(img, tab.off + 4 + 8 * n, Concat(chunks), |Concat(chunks[..i])|, chunks[i], tab.off + o);
  }

  /** The fixed part of an entry. */
  lemma {:induction false} HeaderStored(img: File32, p: nat, kind: byte, aorl: nat, extra: nat, rest: seq<byte>,
                                        next: nat)
    requires aorl < 0x1_0000_0000 && extra < 0x1_0000_0000 && next == p + 12
    requires At(img, p, EntryHeader(kind, aorl, extra) + rest)
    ensures img[p] == kind && GetU32(img, p + 4) == aorl && GetU32(img, p + 8) == extra
    ensures At(img, next, rest)
  {
    var h := EntryHeader(kind, aorl, extra);
    AtSplit(img, p, h, rest, next);
    AtSplit(img, p, [kind, 0], U16(0) + (U32(aorl) + U32(extra)), p + 2);
    AtU16(img, p + 2, 0, U32(aorl) + U32(extra), p + 4);
    AtU32(img, p + 4, aorl, U32(extra), p + 8);
    AtLastU32(img, p + 8, extra);
    assert img[p] == img[p..p + 2][0];
  }

  /** Entry `e` of the image is what the writer stores for the table entry `t`. */
  ghost predicate Stores(img: File32, e: Entry, code: seq<byte>) {
    && EntryInside(img, e) && At(img, e.pos, code) && e.room >= |code|
    && e.kind == img[e.pos] && e.aorl == GetU32(img, e.pos + 4) && e.extra == GetU32(img, e.pos + 8)
  }

  /** The entry is accepted and decodes to `t`. */
  ghost predicate Good(img: File32, v: View, e: Entry, t: Thunk)
    requires EntryInside(img, e) && ViewInside(img, v) && v.pats.None?
  {
    ValidEntry(img, v, e) && SafeEntry(img, v, e) && DecodeEntry(img, v, e) == Some(t)
  }

  /** An image whose blobs hold these two pools and which has no pattern table. */
  ghost predicate Pools(img: File32, v: View, strs: seq<Text>, syms: seq<Text>) {
    Holds(img, v.strs, strs) && Holds(img, v.syms, syms) && v.pats.None? && ViewInside(img, v) &&
      v.count <= 0x1_0000_0000
  }

  lemma {:induction false} IntStored(img: File32, v: View, e: Entry, i: Int32)
    requires v.pats.None? && ViewInside(img, v)
    requires Stores(img, e, EncodeEntry([], [], Int(i)))
    ensures Good(img, v, e, Int(i))
  {
    hide LittleEndian, FromLittleEndian, Get, EntryHeader, Concat, IndexOf, Ids;
    var code := EntryHeader(KIND_INT, 0, Cast32(i));
    assert code == code + [];
    HeaderStored(img, e.pos, KIND_INT, 0, Cast32(i), [], e.pos + 12);
    assert e.kind == KIND_INT && e.extra == Cast32(i);
    assert ToInt32(Cast32(i)) == i;
  }

  lemma {:induction false} TextEntryStored(img: File32, v: View, e: Entry, strs: seq<Text>, syms: seq<Text>, t: Thunk)
    requires t.Str? || t.Symbol? || t.Ref?
    requires Pooled(strs, syms, t) && Pools(img, v, strs, syms) && Stores(img, e, EncodeEntry(strs, syms, t))
    ensures Good(img, v, e, t)
  {
    hide LittleEndian, FromLittleEndian, Concat, IndexOf, Ids;
    var s := match t case Str(s) => s case Symbol(s) => s case Ref(s) => s;
    var pool, blob := if t.Str? then strs else syms, if t.Str? then v.strs else v.syms;
    var kind := if t.Str? then KIND_STR else if t.Symbol? then KIND_SYMBOL else KIND_REF;
    var code := EntryHeader(kind, |s|, TextOffset(pool, s));
    assert code == code + [];
    TextStored(img, blob, pool, s);
    HeaderStored(img, e.pos, kind, |s|, TextOffset(pool, s), [], e.pos + 12);
    assert e.kind == kind && e.aorl == |s| && e.extra == TextOffset(pool, s);
    assert ReadText(img, blob.value, e.extra, e.aorl) == s;
  }

  /** The shape shared by constructors and bottoms: header, text length, child numbers. */
  lemma {:induction false} NodeFields(img: File32, p: nat, kind: byte, off: nat, len: nat, args: seq<Ptr>, n: nat)
    requires At(img, p, EntryHeader(kind, |args|, off) + (U32(len) + Ids(args)))
    requires off < 0x1_0000_0000 && len < 0x1_0000_0000 && n <= 0x1_0000_0000
    requires forall j :: 0 <= j < |args| ==> 0 <= args[j] < n
    ensures p + 16 + 4 * |args| <= |img|
    ensures img[p] == kind && GetU32(img, p + 4) == |args| && GetU32(img, p + 8) == off && GetU32(img, p + 12) == len
    ensures ReadIds(img, p + 16, |args|) == args && AllBelow(args, n)
  {
    AtFits(img, p, EntryHeader(kind, |args|, off) + (U32(len) + Ids(args)));
    HeaderStored(img, p, kind, |args|, off, U32(len) + Ids(args), p + 12);
    AtU32(img, p + 12, len, Ids(args), p + 16);
    IdsStored(img, p + 16, args, n);
  }

  lemma {:induction false} ApplicationFields(img: File32, p: nat, func: Ptr, args: seq<Ptr>, n: nat)
    requires At(img, p, EntryHeader(KIND_APPL, |args|, Cast32(func)) + Ids(args))
    requires 0 <= func < n <= 0x1_0000_0000 && forall j :: 0 <= j < |args| ==> 0 <= args[j] < n
    ensures p + 12 + 4 * |args| <= |img|
    ensures img[p] == KIND_APPL && GetU32(img, p + 4) == |args| && GetU32(img, p + 8) == func
    ensures ReadIds(img, p + 12, |args|) == args && AllBelow(args, n)
  {
    hide LittleEndian, FromLittleEndian, Ids;
    AtFits(img, p, EntryHeader(KIND_APPL, |args|, func) + Ids(args));
    HeaderStored(img, p, KIND_APPL, |args|, func, Ids(args), p + 12);
    IdsStored(img, p + 12, args, n);
  }

  lemma {:induction false} ConstructorStored(img: File32, v: View, e: Entry, strs: seq<Text>, syms: seq<Text>, t: Thunk)
    requires t.Alge? && ChildrenBelow(t, v.count)
    requires Pooled(strs, syms, t) && Pools(img, v, strs, syms) && Stores(img, e, EncodeEntry(strs, syms, t))
    ensures Good(img, v, e, t)
  {
    hide LittleEndian, FromLittleEndian, Concat, IndexOf, Ids;
    TextStored(img, v.syms, syms, t.constr);
    assert Children(t) == t.args;
    NodeFields(img, e.pos, KIND_ALGE, TextOffset(syms, t.constr), |t.constr|, t.args, v.count);
    assert e.kind == KIND_ALGE && e.aorl == |t.args|;
  }

  lemma {:induction false} BottomStored(img: File32, v: View, e: Entry, strs: seq<Text>, syms: seq<Text>, t: Thunk)
    requires t.Bottom? && ChildrenBelow(t, v.count)
    requires Pooled(strs, syms, t) && Pools(img, v, strs, syms) && Stores(img, e, EncodeEntry(strs, syms, t))
    ensures Good(img, v, e, t)
  {
    hide LittleEndian, FromLittleEndian, Concat, IndexOf, Ids;
    TextStored(img, v.strs, strs, t.msg);
    assert Children(t) == t.args;
    NodeFields(img, e.pos, KIND_BOTTOM, TextOffset(strs, t.msg), |t.msg|, t.args, v.count);
    assert e.kind == KIND_BOTTOM && e.aorl == |t.args|;
  }

  lemma {:induction false} ApplicationChildren(t: Thunk, n: nat)
    requires t.Appl? && ChildrenBelow(t, n)
    ensures 0 <= t.func < n && forall j :: 0 <= j < |t.args| ==> 0 <= t.args[j] < n
  {
    assert Children(t)[0] == t.func;
    assert forall j :: 0 <= j < |t.args| ==> t.args[j] == Children(t)[j + 1];
  }

  lemma {:induction false} ApplicationGood(img: File32, v: View, e: Entry, t: Thunk)
    requires EntryInside(img, e) && ViewInside(img, v) && v.pats.None? && t.Appl? && 0 <= t.func < v.count
    requires e.kind == KIND_APPL && e.aorl == |t.args| && e.extra == t.func && e.room >= 12 + 4 * |t.args|
    requires ReadIds(img, e.pos + 12, |t.args|) == t.args && AllBelow(t.args, v.count)
    ensures Good(img, v, e, t)
  {
  }

  lemma {:induction false} ApplicationStored(img: File32, v: View, e: Entry, strs: seq<Text>, syms: seq<Text>, t: Thunk)
    requires t.Appl? && ChildrenBelow(t, v.count)
    requires Pooled(strs, syms, t) && Pools(img, v, strs, syms) && Stores(img, e, EncodeEntry(strs, syms, t))
    ensures Good(img, v, e, t)
  {
    hide FromLittleEndian, LittleEndian, Good;
    ApplicationChildren(t, v.count);
    ApplicationFields(img, e.pos, t.func, t.args, v.count);
    assert |EncodeEntry(strs, syms, t)| == 12 + 4 * |t.args|;
    ApplicationGood(img, v, e, t);
  }

  lemma {:induction false} ChoiceStored(img: File32, v: View, e: Entry, strs: seq<Text>, syms: seq<Text>, t: Thunk)
    requires t.Choice? && ChildrenBelow(t, v.count)
    requires Pooled(strs, syms, t) && Pools(img, v, strs, syms) && Stores(img, e, EncodeEntry(strs, syms, t))
    ensures Good(img, v, e, t)
  {
    hide LittleEndian, FromLittleEndian, Concat, IndexOf, Ids;
    assert Children(t)[0] == t.left && Children(t)[1] == t.right;
    HeaderStored(img, e.pos, KIND_CHOICE, t.kind, 0, U32(t.left) + U32(t.right), e.pos + 12);
    AtU32(img, e.pos + 12, t.left, U32(t.right), e.pos + 16);
    AtLastU32(img, e.pos + 16, t.right);
  }

  lemma {:induction false} EntryStored(img: File32, v: View, e: Entry, strs: seq<Text>, syms: seq<Text>, t: Thunk)
    requires !t.Builtin? && ChildrenBelow(t, v.count)
    requires Pooled(strs, syms, t) && Pools(img, v, strs, syms) && Stores(img, e, EncodeEntry(strs, syms, t))
    ensures Good(img, v, e, t)
  {
    match t
    case Alge(_, _) => ConstructorStored(img, v, e, strs, syms, t);
    case Bottom(_, _) => BottomStored(img, v, e, strs, syms, t);
    case Appl(_, _) => ApplicationStored(img, v, e, strs, syms, t);
    case Choice(_, _, _) => ChoiceStored(img, v, e, strs, syms, t);
    case Int(i) => IntStored(img, v, e, i);
    case _ => TextEntryStored(img, v, e, strs, syms, t);
  }

  // ---- The whole image -----------------------------------------------------

  lemma {:induction false} RootsStored(img: File32, x: Extent, roots: seq<Ptr>, n: nat)
    requires x.size == |RootsTab(roots)| && At(img, x.off, RootsTab(roots)) && n <= 0x1_0000_0000
    requires forall j :: 0 <= j < |roots| ==> 0 <= roots[j] < n
    ensures x.off + x.size <= |img| && x.size == 4 + 4 * |roots| && GetU32(img, x.off) == |roots|
    ensures ReadIds(img, x.off + 4, |roots|) == roots && RootsFit(img, x, n)
  {
    hide LittleEndian, FromLittleEndian, Ids;
    AtU32(img, x.off, |roots|, Ids(roots), x.off + 4);
    IdsStored(img, x.off + 4, roots, n);
    assert forall i :: 0 <= i < |roots| ==> ReadIds(img, x.off + 4, |roots|)[i] == GetU32(img, x.off + 4 + 4 * i);
  }

  /** The file with these parts; the writer's if they come from a table. */
  function Assembled(strs: seq<Text>, syms: seq<Text>, chunks: seq<seq<byte>>, roots: seq<Ptr>, a: AlignLog2,
                     flags: nat): seq<byte> {
    ImageOf(SectionsFor(strs, syms, chunks, roots), a, flags)
  }

  /** The extent found for a kind is where section `i` was written. */
  lemma {:induction false} PartFound(strs: seq<Text>, syms: seq<Text>, chunks: seq<seq<byte>>, roots: seq<Ptr>,
                                     a: AlignLog2, flags: nat, kind: nat, i: nat)
    requires |Assembled(strs, syms, chunks, roots, a, flags)| < 0x1_0000_0000
    requires var secs := SectionsFor(strs, syms, chunks, roots);
      LastIndex(Kinds(secs), kind) == Some(i) && i < |secs|
    ensures var img: File32 := Assembled(strs, syms, chunks, roots, a, flags);
      var payload := SectionsFor(strs, syms, chunks, roots)[i].payload;
      && HasSections(img) && Sect(img, kind).Some? && Inside(img, Sect(img, kind).value)
      && Sect(img, kind).value.size == |payload| && At(img, Sect(img, kind).value.off, payload)
  {
    hide LastIndex, LittleEndian, FromLittleEndian, Body, SectionTable, Concat;
    var secs := SectionsFor(strs, syms, chunks, roots);
    WrittenKinds(secs, a, flags);
    SectionFields(secs, a, flags, i);
  }

  /** The sections of the image of `t`, found again through its section table. */
  ghost predicate Written(img: File32, v: View, t: Table) {
    Laid(img, v, Strings(t.entries), Symbols(t.entries), Chunks(t), t.roots)
  }

  /** The roots of a table are entry numbers. */
  ghost predicate Rooted(t: Table) {
    forall j :: 0 <= j < |t.roots| ==> 0 <= t.roots[j] < |t.entries|
  }

  lemma {:induction false} StorableRooted(t: Table)
    requires Storable(t)
    ensures Rooted(t)
  {
    forall j | 0 <= j < |t.roots|
      ensures 0 <= t.roots[j] < |t.entries|
    {
      assert t.roots[j] in t.roots;
    }
  }

  lemma {:induction false} EntryChildren(t: Table, i: nat)
    requires Storable(t) && i < |t.entries|
    ensures !t.entries[i].Builtin? && ChildrenBelow(t.entries[i], |t.entries|)
  {
    var e := t.entries[i];
    assert e in t.entries;
    forall j | 0 <= j < |Children(e)|
      ensures 0 <= Children(e)[j] < |t.entries|
    {
      assert Children(e)[j] in Children(e);
    }
  }

  lemma {:induction false} TablesFound(strs: seq<Text>, syms: seq<Text>, chunks: seq<seq<byte>>, roots: seq<Ptr>,
                                       a: AlignLog2, flags: nat)
    requires |Assembled(strs, syms, chunks, roots, a, flags)| < 0x1_0000_0000
    ensures var img: File32 := Assembled(strs, syms, chunks, roots, a, flags);
      && HasSections(img) && Sect(img, SECT_THUNK_TAB).Some? && Sect(img, SECT_ROOTS).Some?
      && var tab, rs := Sect(img, SECT_THUNK_TAB).value, Sect(img, SECT_ROOTS).value;
      && TabFits(img, tab) && GetU32(img, tab.off) == |chunks|
      && tab.size == |ThunkTab(chunks)| && At(img, tab.off, ThunkTab(chunks))
      && rs.size == |RootsTab(roots)| && At(img, rs.off, RootsTab(roots))
  {
    hide LastIndex, LittleEndian, FromLittleEndian, Body, SectionTable, Concat;
    var img: File32 := Assembled(strs, syms, chunks, roots, a, flags);
    var secs := SectionsFor(strs, syms, chunks, roots);
    KindsFound(Kinds(secs), strs != [], syms != []);
    PartFound(strs, syms, chunks, roots, a, flags, SECT_THUNK_TAB, |secs| - 2);
    PartFound(strs, syms, chunks, roots, a, flags, SECT_ROOTS, |secs| - 1);
    TabStored(img, Sect(img, SECT_THUNK_TAB).value, chunks);
  }

  lemma {:induction false} BlobsFound(strs: seq<Text>, syms: seq<Text>, chunks: seq<seq<byte>>, roots: seq<Ptr>,
                                      a: AlignLog2, flags: nat)
    requires |Assembled(strs, syms, chunks, roots, a, flags)| < 0x1_0000_0000
    ensures var img: File32 := Assembled(strs, syms, chunks, roots, a, flags);
      && HasSections(img) && Sect(img, SECT_PATTERN_TAB) == None
      && BlobFits(img, Sect(img, SECT_STRING_BLOB)) && BlobFits(img, Sect(img, SECT_SYMBOL_BLOB))
      && Holds(img, Payload(img, Sect(img, SECT_STRING_BLOB)), strs)
      && Holds(img, Payload(img, Sect(img, SECT_SYMBOL_BLOB)), syms)
  {
    hide LastIndex, LittleEndian, FromLittleEndian, Body, SectionTable, Concat;
    var img: File32 := Assembled(strs, syms, chunks, roots, a, flags);
    var secs := SectionsFor(strs, syms, chunks, roots);
    WrittenKinds(secs, a, flags);
    KindsFound(Kinds(secs), strs != [], syms != []);
    if strs != [] {
      PartFound(strs, syms, chunks, roots, a, flags, SECT_STRING_BLOB, 0);
      BlobStored(img, Sect(img, SECT_STRING_BLOB).value, strs);
    }
    if syms != [] {
      PartFound(strs, syms, chunks, roots, a, flags, SECT_SYMBOL_BLOB, |secs| - 3);
      BlobStored(img, Sect(img, SECT_SYMBOL_BLOB).value, syms);
    }
  }

  /** The sections of an assembled file, found again through its section table. */
  ghost predicate Laid(img: File32, v: View, strs: seq<Text>, syms: seq<Text>, chunks: seq<seq<byte>>,
                       roots: seq<Ptr>) {
    && v.count == |chunks| && Pools(img, v, strs, syms)
    && v.tab.size == |ThunkTab(chunks)| && At(img, v.tab.off, ThunkTab(chunks))
    && v.roots.size == |RootsTab(roots)| && At(img, v.roots.off, RootsTab(roots))
  }

  lemma {:induction false} PartsFound(strs: seq<Text>, syms: seq<Text>, chunks: seq<seq<byte>>, roots: seq<Ptr>,
                                      a: AlignLog2, flags: nat)
    requires |Assembled(strs, syms, chunks, roots, a, flags)| < 0x1_0000_0000
    requires forall j :: 0 <= j < |roots| ==> 0 <= roots[j] < |chunks|
    ensures var img: File32 := Assembled(strs, syms, chunks, roots, a, flags);
      ViewFits(img) && Laid(img, ViewOf(img), strs, syms, chunks, roots)
  {
    hide LastIndex, LittleEndian, FromLittleEndian, Concat, ThunkTab, RootsTab, ImageOf;
    var img: File32 := Assembled(strs, syms, chunks, roots, a, flags);
    WrittenSections(SectionsFor(strs, syms, chunks, roots), a, flags);
    TablesFound(strs, syms, chunks, roots, a, flags);
    BlobsFound(strs, syms, chunks, roots, a, flags);
    RootsStored(img, Sect(img, SECT_ROOTS).value, roots, |chunks|);
  }

  lemma {:induction false} WrittenView(t: Table, a: AlignLog2, flags: nat)
    requires Rooted(t) && |Image(t, a, flags)| < 0x1_0000_0000
    ensures var img: File32 := Image(t, a, flags); ViewFits(img) && Written(img, ViewOf(img), t)
  {
    hide LastIndex, Chunks, Strings, Symbols, LittleEndian, FromLittleEndian, Concat, ThunkTab, RootsTab, ImageOf,
      ViewFits, ViewOf, Pools, At;
    PartsFound(Strings(t.entries), Symbols(t.entries), Chunks(t), t.roots, a, flags);
  }

  /** Every entry of a written image passes the validator's checks and decodes to the table's entry. */
  lemma {:induction false} WrittenEntry(t: Table, a: AlignLog2, flags: nat, i: nat)
    requires Storable(t) && |Image(t, a, flags)| < 0x1_0000_0000 && i < |t.entries|
    ensures var img: File32 := Image(t, a, flags);
      && ViewFits(img)
      && var v := ViewOf(img);
      && v.count == |t.entries| && v.pats.None? && ViewInside(img, v)
      && HeaderFits(img, v.tab, v.count, i) && Good(img, v, EntryOf(img, v.tab, v.count, i), t.entries[i])
  {
    hide LastIndex, Strings, Symbols, LittleEndian, FromLittleEndian, Concat, ThunkTab, RootsTab, Image, ViewFits,
      ViewOf, Good, ChildrenBelow, Storable;
    var img: File32 := Image(t, a, flags);
    var strs, syms, e := Strings(t.entries), Symbols(t.entries), t.entries[i];
    StorableRooted(t);
    WrittenView(t, a, flags);
    AllPooled(t.entries);
    var v := ViewOf(img);
    ChunkStored(img, v.tab, Chunks(t), i);
    assert Chunks(t)[i] == EncodeEntry(strs, syms, e);
    EntryChildren(t, i);
    EntryStored(img, v, EntryOf(img, v.tab, v.count, i), strs, syms, e);
  }

  /**
    Every image written for a table that fits a 32-bit file is accepted by the validator, is safe to load, and decodes
    to exactly that table.
   */
  lemma {:induction false} ImageRoundTrip(t: Table, a: AlignLog2, flags: nat)
    requires Storable(t) && |Image(t, a, flags)| < 0x1_0000_0000
    ensures ValidImage(Image(t, a, flags)) && Loadable(Image(t, a, flags))
    ensures Decodes(Image(t, a, flags)) && Decoded(Image(t, a, flags)) == t
  {
    hide LastIndex, Strings, Symbols, LittleEndian, FromLittleEndian, Concat, ThunkTab, Image, ViewFits, ViewOf,
      SafeEntry, ValidEntry, DecodeEntry, EntryOf;
    var img: File32 := Image(t, a, flags);
    StorableRooted(t);
    WrittenView(t, a, flags);
    forall i | 0 <= i < |t.entries| {
      WrittenEntry(t, a, flags, i);
    }
    var v := ViewOf(img);
    RootsStored(img, v.roots, t.roots, v.count);
    if v.count > 0 {
      assert Decoded(img).entries == t.entries;
    }
  }

  /**
    The image of any wired graph under 4 GiB, with whatever sharing and cycles: it is accepted, and loading it on top of
    any heap gives a rooted graph isomorphic to the original, whose own image is byte for byte the same.
   */
  lemma {:induction false} WriteThenLoad(h: Heap, roots: seq<Ptr>, h0: Heap, a: AlignLog2, flags: nat)
    requires Wired(h) && InHeap(h, roots) && Wired(h0) && Complete(TableOf(h, roots))
    requires |Image(TableOf(h, roots), a, flags)| < 0x1_0000_0000
    ensures var img: File32 := Image(TableOf(h, roots), a, flags);
      && ValidImage(img) && Loadable(img) && Decodes(img)
      && var h', roots' := Load(h0, Decoded(img)), LoadRoots(h0, Decoded(img));
      && Isomorphic(h, roots, h', roots')
      && Wired(h') && InHeap(h', roots') && Image(TableOf(h', roots'), a, flags) == img
  {
    hide Image, ValidImage, Loadable, Decodes, Decoded;
    var t := TableOf(h, roots);
    TableStorable(h, roots);
    ImageRoundTrip(t, a, flags);
    LoadIsomorphic(h, roots, h0);
    TableReloaded(h, roots, h0);
  }

  // ---- The image is a canonical form ---------------------------------------

  /** Two graphs have the same image exactly if they are isomorphic up to builtins having become references. */
  lemma {:induction false} SameImage(h: Heap, roots: seq<Ptr>, h': Heap, roots': seq<Ptr>, a: AlignLog2, flags: nat)
    requires Wired(h) && InHeap(h, roots) && Complete(TableOf(h, roots))
    requires Wired(h') && InHeap(h', roots') && Complete(TableOf(h', roots'))
    requires |Image(TableOf(h, roots), a, flags)| < 0x1_0000_0000
    requires |Image(TableOf(h', roots'), a, flags)| < 0x1_0000_0000
    ensures Image(TableOf(h, roots), a, flags) == Image(TableOf(h', roots'), a, flags) <==> Alike(h, roots, h', roots')
  {
    hide *;
    TableStorable(h, roots);
    TableStorable(h', roots');
    ImageRoundTrip(TableOf(h, roots), a, flags);
    ImageRoundTrip(TableOf(h', roots'), a, flags);
    SameTable(h, roots, h', roots');
  }

  // ---- What the validator does not check -----------------------------------

  /** A stored constructor is accepted whatever its child numbers are; loading it is safe only if they are in range. */
  lemma {:induction false} ConstructorUnchecked(img: File32, v: View, e: Entry, strs: seq<Text>, syms: seq<Text>,
                                                t: Thunk)
    requires t.Alge? && ChildrenBelow(t, 0x1_0000_0000)
    requires Pooled(strs, syms, t) && Pools(img, v, strs, syms) && Stores(img, e, EncodeEntry(strs, syms, t))
    ensures ValidEntry(img, v, e) && (SafeEntry(img, v, e) <==> ChildrenBelow(t, v.count))
  {
    hide LittleEndian, FromLittleEndian, Concat, IndexOf, Ids;
    TextStored(img, v.syms, syms, t.constr);
    assert Children(t) == t.args;
    NodeFields(img, e.pos, KIND_ALGE, TextOffset(syms, t.constr), |t.constr|, t.args, 0x1_0000_0000);
    assert e.kind == KIND_ALGE && e.aorl == |t.args|;
  }

  /** A table with one constructor, whose child number 7 is that of no entry. */
  const STRAY: Table := Table([Alge([65], [7])], [0])

  lemma {:induction false} BodySize(start: nat, secs: seq<Section>, a: AlignLog2)
    requires forall i :: 0 <= i < |secs| ==> |secs[i].payload| <= 64
    ensures |Body(start, secs, PadTo(a))| <= 80 * |secs|
  {
    hide Padding;
    if secs == [] {
    } else {
      BodySize(start, secs[..|secs| - 1], a);
    }
  }

  lemma {:induction false} StrayPools()
    ensures Strings(STRAY.entries) == [] && Symbols(STRAY.entries) == [[65]]
  {
    var ts, pool: seq<Text> := STRAY.entries, [[65]];
    assert ts[..0] == [] && Strings([]) == [] && Symbols([]) == [];
    assert Symbols(ts) == pool;
  }

  lemma {:induction false} StrayChunks()
    ensures Pooled([], [[65]], STRAY.entries[0])
    ensures Chunks(STRAY) == [EncodeEntry([], [[65]], STRAY.entries[0])] && |Concat(Chunks(STRAY))| == 20
  {
    hide Symbols, Strings, LittleEndian;
    StrayPools();
    AllPooled(STRAY.entries);
    var chunks := Chunks(STRAY);
    assert |chunks[0]| == 20;
    assert chunks[..0] == [] && Concat(chunks[..0]) == [];
  }

  lemma {:induction false} StraySections()
    ensures |SectionsOf(STRAY)| == 3 && forall i :: 0 <= i < 3 ==> |SectionsOf(STRAY)[i].payload| <= 64
  {
    hide Symbols, Strings, LittleEndian, Concat, EncodeEntry, Chunks;
    StrayPools();
    StrayChunks();
    var pool: seq<Text> := [[65]];
    assert |Concat(pool)| == 1 by { OneText(pool); }
  }

  lemma {:induction false} OneText(pool: seq<Text>)
    requires |pool| == 1
    ensures Concat(pool) == pool[0]
  {
    assert Concat(pool[..0]) == [];
  }

  lemma {:induction false} StraySize(a: AlignLog2, flags: nat)
    ensures |Image(STRAY, a, flags)| < 0x1_0000_0000
  {
    hide SectionsOf, Body, Header, SectionTable;
    StraySections();
    BodySize(16 + 24 * |SectionsOf(STRAY)|, SectionsOf(STRAY), a);
  }

  lemma {:induction false} StrayStored(a: AlignLog2, flags: nat)
    ensures |Image(STRAY, a, flags)| < 0x1_0000_0000 && Pooled([], [[65]], STRAY.entries[0])
    ensures var img: File32 := Image(STRAY, a, flags);
      && ViewFits(img)
      && var v := ViewOf(img);
      && v.count == 1 && Pools(img, v, [], [[65]]) && HeaderFits(img, v.tab, 1, 0)
      && Stores(img, EntryOf(img, v.tab, 1, 0), EncodeEntry([], [[65]], STRAY.entries[0]))
  {
    StraySize(a, flags);
    hide LittleEndian, FromLittleEndian, Concat, ThunkTab, RootsTab, Image, ViewFits, ViewOf, LastIndex, Strings,
      Symbols, Chunks, At;
    var img: File32 := Image(STRAY, a, flags);
    WrittenView(STRAY, a, flags);
    StrayPools();
    StrayChunks();
    ChunkStored(img, ViewOf(img).tab, Chunks(STRAY), 0);
  }

  lemma {:induction false} StrayChildren()
    ensures ChildrenBelow(STRAY.entries[0], 0x1_0000_0000) && !ChildrenBelow(STRAY.entries[0], 1)
  {
    assert Children(STRAY.entries[0]) == [7];
    assert Children(STRAY.entries[0])[0] == 7;
  }

  /** The validator accepts its image, although loading it would follow a child number out of range. */
  lemma {:induction false} StrayAccepted(a: AlignLog2, flags: nat)
    ensures |Image(STRAY, a, flags)| < 0x1_0000_0000
    ensures ValidImage(Image(STRAY, a, flags)) && !Loadable(Image(STRAY, a, flags))
  {
    StrayStored(a, flags);
    hide Image, ViewFits, ViewOf, ValidEntry, SafeEntry, Stores, Pools, HeaderFits, EncodeEntry, ChildrenBelow, Pooled;
    var img: File32 := Image(STRAY, a, flags);
    var v := ViewOf(img);
    StrayChildren();
    ConstructorUnchecked(img, v, EntryOf(img, v.tab, 1, 0), [], [[65]], STRAY.entries[0]);
  }
}
