/**
  What `lsti_validate` turns down: its answer to a written image one entry, root or header word of which was replaced,
  and what separates the images it accepts from the images that load.
 */
module LstiRejects {
  import opened Options
  import opened Bytes
  import opened Sequences
  import opened ThunkGraph
  import opened LstiTable
  import opened LstiImage
  import opened LstiFormat
  import opened LstiRoundTrip

  // ---- Accepted against loadable -------------------------------------------

  /** The `n` child numbers at `at` name entries. */
  ghost predicate NumbersBelow(img: File32, at: nat, n: nat, count: nat)
    requires at + 4 * n <= |img|
  {
    forall j :: 0 <= j < n ==> GetU32(img, at + 4 * j) < count
  }

  lemma {:induction false} NumbersRead(img: File32, at: nat, n: nat, count: nat)
    requires at + 4 * n <= |img|
    ensures NumbersBelow(img, at, n, count) <==> AllBelow(ReadIds(img, at, n), count)
  {
    hide Get;
    var r := ReadIds(img, at, n);
    if NumbersBelow(img, at, n, count) {
      forall j | 0 <= j < |r|
        ensures r[j] < count
      {
        assert r[j] == GetU32(img, at + 4 * j);
      }
    }
    if AllBelow(r, count) {
      forall j | 0 <= j < n
        ensures GetU32(img, at + 4 * j) < count
      {
        assert r[j] < count;
      }
    }
  }

  /** The child numbers behind a constructor, a bottom or an application name entries. */
  ghost predicate ChildrenInRange(img: File32, v: View, e: Entry)
    requires EntryInside(img, e)
  {
    && (e.kind in {0, 9} && e.room >= 16 + 4 * e.aorl ==> NumbersBelow(img, e.pos + 16, e.aorl, v.count))
    && (e.kind == 1 && e.room >= 12 + 4 * e.aorl ==> NumbersBelow(img, e.pos + 12, e.aorl, v.count))
  }

  ghost predicate BuiltinFits(v: View, e: Entry) {
    e.kind == 8 ==> v.syms.Some? && e.extra + e.aorl <= v.syms.value.size
  }

  ghost predicate Known(e: Entry) {
    e.kind <= 9 && e.kind != 3
  }

  /** An entry that can be read safely and yields a thunk. */
  ghost predicate Loads(img: File32, v: View, e: Entry)
    requires EntryInside(img, e) && ViewInside(img, v)
  {
    SafeEntry(img, v, e) && DecodeEntry(img, v, e).Some?
  }

  /** The patterns of a view, as far as the validator reads them. */
  ghost predicate PatternsInside(img: File32, v: View) {
    v.pats.Some? ==> v.pats.value.off + v.pats.value.size <= |img| && v.pats.value.size >= 4
  }

  /** What the validator's checks of an entry leave open. */
  lemma {:induction false} LoadsExactly(img: File32, v: View, e: Entry)
    requires EntryInside(img, e) && ViewInside(img, v) && PatternsInside(img, v)
    ensures Loads(img, v, e) ==> Known(e)
    ensures Known(e) ==>
      (Loads(img, v, e) <==> ValidEntry(img, v, e) && ChildrenInRange(img, v, e) && BuiltinFits(v, e))
  {
    hide Get, ReadText, ToCText, NumbersBelow, AllBelow, ReadIds;
    if e.kind in {0, 9} && e.room >= 16 + 4 * e.aorl {
      NumbersRead(img, e.pos + 16, e.aorl, v.count);
    }
    if e.kind == 1 && e.room >= 12 + 4 * e.aorl {
      NumbersRead(img, e.pos + 12, e.aorl, v.count);
    }
  }

  /** With both blobs present, safety is the same condition. */
  lemma {:induction false} SafeExactly(img: File32, v: View, e: Entry)
    requires EntryInside(img, e) && ViewInside(img, v) && PatternsInside(img, v)
    requires Known(e) && v.strs.Some? && v.syms.Some?
    ensures SafeEntry(img, v, e) <==> ValidEntry(img, v, e) && ChildrenInRange(img, v, e) && BuiltinFits(v, e)
  {
    hide Get, ReadText, ToCText, NumbersBelow, AllBelow, ReadIds;
    if e.kind in {0, 9} && e.room >= 16 + 4 * e.aorl {
      NumbersRead(img, e.pos + 16, e.aorl, v.count);
    }
    if e.kind == 1 && e.room >= 12 + 4 * e.aorl {
      NumbersRead(img, e.pos + 12, e.aorl, v.count);
    }
  }

  /** An accepted image that holds a blob loads exactly if no entry uses what the validator leaves open. */
  lemma {:induction false} ImageLoadsExactly(img: File32)
    requires ValidImage(img) && (ViewOf(img).strs.Some? || ViewOf(img).syms.Some?)
    ensures var v := ViewOf(img);
      Loadable(img) && Decodes(img) <==>
      forall i :: 0 <= i < v.count ==>
        var e := EntryOf(img, v.tab, v.count, i); Known(e) && ChildrenInRange(img, v, e) && BuiltinFits(v, e)
  {
    hide Get, SafeEntry, ValidEntry, ChildrenInRange, BuiltinFits, Known, DecodeEntry, HeaderFits, EntryOf, ViewFits,
      ViewOf;
    var v := ViewOf(img);
    forall i | 0 <= i < v.count
      ensures ValidEntry(img, v, EntryOf(img, v.tab, v.count, i))
      ensures var e := EntryOf(img, v.tab, v.count, i);
        Loads(img, v, e) <==> Known(e) && ChildrenInRange(img, v, e) && BuiltinFits(v, e)
    {
      LoadsExactly(img, v, EntryOf(img, v.tab, v.count, i));
    }
  }

  // ---- Assembled files -----------------------------------------------------

  /** Every piece of the thunk table is at least an entry header. */
  ghost predicate Headed(chunks: seq<seq<byte>>) {
    forall i :: 0 <= i < |chunks| ==> |chunks[i]| >= 12
  }

  /** The bytes from entry `i` to the end of the table. */
  function Room(chunks: seq<seq<byte>>, i: nat): int
    requires i <= |chunks|
  {
    |ThunkTab(chunks)| - EntryOffset(chunks, i)
  }

  lemma {:induction false} EntryFound(img: File32, v: View, strs: seq<Text>, syms: seq<Text>, chunks: seq<seq<byte>>,
                                      roots: seq<Ptr>, i: nat)
    requires ViewFits(img) && v == ViewOf(img) && Laid(img, v, strs, syms, chunks, roots)
    requires i < |chunks| && |chunks[i]| >= 12
    ensures v.count == |chunks| && HeaderFits(img, v.tab, v.count, i)
    ensures var e := EntryOf(img, v.tab, v.count, i); Stores(img, e, chunks[i]) && e.room == Room(chunks, i)
  {
    hide LittleEndian, FromLittleEndian, Concat, ThunkTab, RootsTab, ViewFits, ViewOf, At, Holds;
    ChunkStored(img, v.tab, chunks, i);
    hide Get;
  }

  /** Whatever the entries hold, an assembled file with its roots in range is accepted if its entries are. */
  lemma {:induction false} AssembledDecides(strs: seq<Text>, syms: seq<Text>, chunks: seq<seq<byte>>,
                                            roots: seq<Ptr>, a: AlignLog2, flags: nat)
    requires |Assembled(strs, syms, chunks, roots, a, flags)| < 0x1_0000_0000 && Headed(chunks)
    requires forall j :: 0 <= j < |roots| ==> 0 <= roots[j] < |chunks|
    ensures var img: File32 := Assembled(strs, syms, chunks, roots, a, flags);
      && ViewFits(img) && Laid(img, ViewOf(img), strs, syms, chunks, roots)
      && var v := ViewOf(img);
      && (forall i :: 0 <= i < v.count ==> HeaderFits(img, v.tab, v.count, i))
      && (ValidImage(img) <==>
          ((strs == [] && syms == []) ||
           forall i :: 0 <= i < v.count ==> ValidEntry(img, v, EntryOf(img, v.tab, v.count, i))))
  {
    hide Assembled, ViewFits, ViewOf, At, ThunkTab, RootsTab, Room, EntryOf, HeaderFits, ValidEntry, Stores;
    var img: File32 := Assembled(strs, syms, chunks, roots, a, flags);
    PartsFound(strs, syms, chunks, roots, a, flags);
    var v := ViewOf(img);
    forall i | 0 <= i < |chunks| {
      EntryFound(img, v, strs, syms, chunks, roots, i);
    }
  }

  /** A root that names no entry. */
  lemma {:induction false} StrayRootRefused(strs: seq<Text>, syms: seq<Text>, chunks: seq<seq<byte>>, roots: seq<Ptr>,
                                            a: AlignLog2, flags: nat, j: nat)
    requires |Assembled(strs, syms, chunks, roots, a, flags)| < 0x1_0000_0000
    requires forall k :: 0 <= k < |roots| ==> 0 <= roots[k] < 0x1_0000_0000
    requires j < |roots| && roots[j] >= |chunks|
    ensures !ValidImage(Assembled(strs, syms, chunks, roots, a, flags))
  {
    hide LittleEndian, FromLittleEndian, Concat, ThunkTab, ImageOf, Sect, Ids;
    var img: File32 := Assembled(strs, syms, chunks, roots, a, flags);
    TablesFound(strs, syms, chunks, roots, a, flags);
    var x := Sect(img, SECT_ROOTS).value;
    AtU32(img, x.off, |roots|, Ids(roots), x.off + 4);
    IdStored(img, x.off + 4, roots, j);
    assert GetU32(img, x.off + 4 + 4 * j) >= |chunks|;
  }

  // ---- A written image with one entry replaced -----------------------------

  /** The entries of a table, but with `code` in the place of entry `i`. */
  function Patched(t: Table, i: nat, code: seq<byte>): (r: seq<seq<byte>>)
    requires i < |t.entries|
    ensures |r| == |t.entries| && r[i] == code
  {
    Chunks(t)[i := code]
  }

  function PatchedImage(t: Table, i: nat, code: seq<byte>, a: AlignLog2, flags: nat): seq<byte>
    requires i < |t.entries|
  {
    Assembled(Strings(t.entries), Symbols(t.entries), Patched(t, i, code), t.roots, a, flags)
  }

  /** The validator looks at entries only if the image holds a blob. */
  ghost predicate Unpooled(t: Table) {
    Strings(t.entries) == [] && Symbols(t.entries) == []
  }

  lemma {:induction false} PatchedHeaded(t: Table, i: nat, code: seq<byte>)
    requires i < |t.entries| && |code| >= 12
    ensures Headed(Patched(t, i, code))
  {
    hide LittleEndian, Strings, Symbols, Ids;
    var strs, syms := Strings(t.entries), Symbols(t.entries);
    AllPooled(t.entries);
    forall j | 0 <= j < |t.entries| && j != i
      ensures |Patched(t, i, code)[j]| >= 12
    {
      assert Patched(t, i, code)[j] == EncodeEntry(strs, syms, t.entries[j]);
    }
  }

  lemma {:induction false} OtherEntryAccepted(t: Table, i: nat, code: seq<byte>, a: AlignLog2, flags: nat, j: nat)
    requires Storable(t) && i < |t.entries| && |code| >= 12 && j < |t.entries| && j != i
    requires |PatchedImage(t, i, code, a, flags)| < 0x1_0000_0000
    requires var img: File32 := PatchedImage(t, i, code, a, flags);
      ViewFits(img) && Laid(img, ViewOf(img), Strings(t.entries), Symbols(t.entries), Patched(t, i, code), t.roots)
    ensures var img: File32 := PatchedImage(t, i, code, a, flags);
      && var v := ViewOf(img);
      && v.count == |t.entries| && HeaderFits(img, v.tab, v.count, j)
      && ValidEntry(img, v, EntryOf(img, v.tab, v.count, j))
  {
    hide LittleEndian, PatchedImage, ViewFits, ViewOf, Strings, Symbols, At, ThunkTab, RootsTab, EntryOf, HeaderFits,
      ValidEntry, SafeEntry, DecodeEntry, Stores, Storable, ChildrenBelow;
    var img: File32 := PatchedImage(t, i, code, a, flags);
    var strs, syms := Strings(t.entries), Symbols(t.entries);
    AllPooled(t.entries);
    PatchedHeaded(t, i, code);
    EntryFound(img, ViewOf(img), strs, syms, Patched(t, i, code), t.roots, j);
    assert Patched(t, i, code)[j] == EncodeEntry(strs, syms, t.entries[j]);
    EntryChildren(t, j);
    EntryStored(img, ViewOf(img), EntryOf(img, ViewOf(img).tab, |t.entries|, j), strs, syms, t.entries[j]);
  }

  /** The answer to such an image is the answer to the new entry. */
  lemma {:induction false} PatchedDecides(t: Table, i: nat, code: seq<byte>, a: AlignLog2, flags: nat)
    requires Storable(t) && i < |t.entries| && |code| >= 12
    requires |PatchedImage(t, i, code, a, flags)| < 0x1_0000_0000
    ensures var img: File32 := PatchedImage(t, i, code, a, flags);
      && ViewFits(img)
      && var v := ViewOf(img);
      && v.count == |t.entries| && Pools(img, v, Strings(t.entries), Symbols(t.entries))
      && HeaderFits(img, v.tab, v.count, i)
      && var e := EntryOf(img, v.tab, v.count, i);
      && Stores(img, e, code) && e.room == Room(Patched(t, i, code), i)
      && (ValidImage(img) <==> Unpooled(t) || ValidEntry(img, v, e))
  {
    hide PatchedImage, ViewFits, ViewOf, Strings, Symbols, At, ThunkTab, RootsTab, EntryOf, HeaderFits, ValidEntry,
      Stores, Storable, ValidImage, Room, Patched, Holds;
    var img: File32 := PatchedImage(t, i, code, a, flags);
    PatchedAssembled(t, i, code, a, flags);
    var v := ViewOf(img);
    EntryFound(img, v, Strings(t.entries), Symbols(t.entries), Patched(t, i, code), t.roots, i);
    forall j | 0 <= j < |t.entries| && j != i
      ensures ValidEntry(img, v, EntryOf(img, v.tab, v.count, j))
    {
      OtherEntryAccepted(t, i, code, a, flags, j);
    }
  }

  lemma {:induction false} PatchedAssembled(t: Table, i: nat, code: seq<byte>, a: AlignLog2, flags: nat)
    requires Storable(t) && i < |t.entries| && |code| >= 12
    requires |PatchedImage(t, i, code, a, flags)| < 0x1_0000_0000
    ensures var img: File32 := PatchedImage(t, i, code, a, flags);
      && ViewFits(img)
      && Laid(img, ViewOf(img), Strings(t.entries), Symbols(t.entries), Patched(t, i, code), t.roots)
      && var v := ViewOf(img);
      && v.count == |t.entries| && Headed(Patched(t, i, code))
      && (forall j :: 0 <= j < v.count ==> HeaderFits(img, v.tab, v.count, j))
      && (ValidImage(img) <==>
          (Unpooled(t) || forall j :: 0 <= j < v.count ==> ValidEntry(img, v, EntryOf(img, v.tab, v.count, j))))
  {
    hide ViewFits, ViewOf, Strings, Symbols, At, ThunkTab, RootsTab, EntryOf, HeaderFits, ValidEntry, Stores, Patched,
      Assembled, Pools, ValidImage, Headed;
    StorableRooted(t);
    PatchedHeaded(t, i, code);
    AssembledDecides(Strings(t.entries), Symbols(t.entries), Patched(t, i, code), t.roots, a, flags);
  }

  // ---- Which entries are refused, kind by kind -----------------------------

  /** `len` bytes from `off` lie within the pooled texts, of which there are some. */
  ghost predicate WithinPool(pool: seq<Text>, off: nat, len: nat) {
    pool != [] && off + len <= |Concat(pool)|
  }

  /** Strings are kind 6, symbols 7, references 4. */
  lemma {:induction false} TextDecides(t: Table, i: nat, kind: byte, len: nat, off: nat, a: AlignLog2, flags: nat)
    requires Storable(t) && i < |t.entries| && kind in {4, 6, 7} && len < 0x1_0000_0000 && off < 0x1_0000_0000
    requires |PatchedImage(t, i, EntryHeader(kind, len, off), a, flags)| < 0x1_0000_0000
    ensures ValidImage(PatchedImage(t, i, EntryHeader(kind, len, off), a, flags)) <==>
      Unpooled(t) || WithinPool(if kind == 6 then Strings(t.entries) else Symbols(t.entries), off, len)
  {
    hide PatchedImage, ViewFits, ViewOf, Strings, Symbols, At, EntryOf, HeaderFits, Storable, ValidImage, Room,
      EntryHeader, LittleEndian, FromLittleEndian, Unpooled, Concat, Get;
    var code := EntryHeader(kind, len, off);
    var img: File32 := PatchedImage(t, i, code, a, flags);
    PatchedDecides(t, i, code, a, flags);
    var v := ViewOf(img);
    var e := EntryOf(img, v.tab, v.count, i);
    assert code == code + [];
    HeaderStored(img, e.pos, kind, len, off, [], e.pos + 12);
  }

  /** Constructors are kind 0 and bottoms 9: the child numbers are only counted, not looked at. */
  lemma {:induction false} NodeDecides(t: Table, i: nat, kind: byte, argc: nat, off: nat, len: nat, rest: seq<byte>,
                                       a: AlignLog2, flags: nat)
    requires Storable(t) && i < |t.entries| && kind in {0, 9}
    requires argc < 0x1_0000_0000 && off < 0x1_0000_0000 && len < 0x1_0000_0000
    requires |PatchedImage(t, i, EntryHeader(kind, argc, off) + (U32(len) + rest), a, flags)| < 0x1_0000_0000
    ensures var code := EntryHeader(kind, argc, off) + (U32(len) + rest);
      ValidImage(PatchedImage(t, i, code, a, flags)) <==>
      Unpooled(t) ||
      (WithinPool(if kind == 9 then Strings(t.entries) else Symbols(t.entries), off, len) &&
        16 + 4 * argc <= Room(Patched(t, i, code), i))
  {
    hide PatchedImage, ViewFits, ViewOf, Strings, Symbols, At, EntryOf, HeaderFits, Storable, ValidImage, Room,
      EntryHeader, LittleEndian, FromLittleEndian, Unpooled, Concat, Get, Patched;
    var code := EntryHeader(kind, argc, off) + (U32(len) + rest);
    var img: File32 := PatchedImage(t, i, code, a, flags);
    PatchedDecides(t, i, code, a, flags);
    var v := ViewOf(img);
    var e := EntryOf(img, v.tab, v.count, i);
    HeaderStored(img, e.pos, kind, argc, off, U32(len) + rest, e.pos + 12);
    AtU32(img, e.pos + 12, len, rest, e.pos + 16);
  }

  /** Applications are kind 1: the function number is checked, the arguments are only counted. */
  lemma {:induction false} ApplicationDecides(t: Table, i: nat, argc: nat, func: nat, rest: seq<byte>, a: AlignLog2,
                                              flags: nat)
    requires Storable(t) && i < |t.entries| && argc < 0x1_0000_0000 && func < 0x1_0000_0000
    requires |PatchedImage(t, i, EntryHeader(1, argc, func) + rest, a, flags)| < 0x1_0000_0000
    ensures var code := EntryHeader(1, argc, func) + rest;
      ValidImage(PatchedImage(t, i, code, a, flags)) <==>
      Unpooled(t) || (func < |t.entries| && 12 + 4 * argc <= Room(Patched(t, i, code), i))
  {
    hide PatchedImage, ViewFits, ViewOf, Strings, Symbols, At, EntryOf, HeaderFits, Storable, ValidImage, Room,
      EntryHeader, LittleEndian, FromLittleEndian, Unpooled, Get, Patched, Holds;
    var code := EntryHeader(1, argc, func) + rest;
    var img: File32 := PatchedImage(t, i, code, a, flags);
    PatchedDecides(t, i, code, a, flags);
    var v := ViewOf(img);
    var e := EntryOf(img, v.tab, v.count, i);
    HeaderStored(img, e.pos, 1, argc, func, rest, e.pos + 12);
  }

  /** Choices are kind 2, of three sorts, and both alternatives are checked. */
  lemma {:induction false} ChoiceDecides(t: Table, i: nat, sort: nat, extra: nat, left: nat, right: nat, a: AlignLog2,
                                         flags: nat)
    requires Storable(t) && i < |t.entries| && sort < 0x1_0000_0000 && extra < 0x1_0000_0000
    requires left < 0x1_0000_0000 && right < 0x1_0000_0000
    requires |PatchedImage(t, i, EntryHeader(2, sort, extra) + (U32(left) + U32(right)), a, flags)| < 0x1_0000_0000
    ensures ValidImage(PatchedImage(t, i, EntryHeader(2, sort, extra) + (U32(left) + U32(right)), a, flags)) <==>
      Unpooled(t) || (1 <= sort <= 3 && left < |t.entries| && right < |t.entries|)
  {
    hide PatchedImage, ViewFits, ViewOf, Strings, Symbols, At, EntryOf, HeaderFits, Storable, ValidImage, Room,
      EntryHeader, LittleEndian, FromLittleEndian, Unpooled, Get, Patched, Holds;
    var code := EntryHeader(2, sort, extra) + (U32(left) + U32(right));
    var img: File32 := PatchedImage(t, i, code, a, flags);
    PatchedDecides(t, i, code, a, flags);
    var v := ViewOf(img);
    var e := EntryOf(img, v.tab, v.count, i);
    HeaderStored(img, e.pos, 2, sort, extra, U32(left) + U32(right), e.pos + 12);
    AtU32(img, e.pos + 12, left, U32(right), e.pos + 16);
    AtLastU32(img, e.pos + 16, right);
  }

  /**
    Lambdas are kind 3 and need a pattern table, which these images lack. Integers, builtins and unknown kinds are
    accepted whatever they hold.
   */
  lemma {:induction false} OtherKindsDecide(t: Table, i: nat, kind: byte, aorl: nat, extra: nat, rest: seq<byte>,
                                            a: AlignLog2, flags: nat)
    requires Storable(t) && i < |t.entries| && aorl < 0x1_0000_0000 && extra < 0x1_0000_0000
    requires kind == 3 || kind == 5 || kind == 8 || kind > 9
    requires |PatchedImage(t, i, EntryHeader(kind, aorl, extra) + rest, a, flags)| < 0x1_0000_0000
    ensures ValidImage(PatchedImage(t, i, EntryHeader(kind, aorl, extra) + rest, a, flags)) <==>
      Unpooled(t) || kind != 3
  {
    hide PatchedImage, ViewFits, ViewOf, Strings, Symbols, At, EntryOf, HeaderFits, Storable, ValidImage, Room,
      EntryHeader, LittleEndian, FromLittleEndian, Unpooled, Get, Patched, Holds;
    var code := EntryHeader(kind, aorl, extra) + rest;
    var img: File32 := PatchedImage(t, i, code, a, flags);
    PatchedDecides(t, i, code, a, flags);
    var v := ViewOf(img);
    var e := EntryOf(img, v.tab, v.count, i);
    HeaderStored(img, e.pos, kind, aorl, extra, rest, e.pos + 12);
  }

  // ---- Any file with some bytes replaced -----------------------------------

  /** `img` with the bytes from `at` on replaced by `b`. */
  function Overwritten(img: File32, at: nat, b: seq<byte>): (r: File32)
    requires at + |b| <= |img|
    ensures |r| == |img|
  {
    img[..at] + b + img[at + |b|..]
  }

  lemma {:induction false} Replaced(img: File32, at: nat, b: seq<byte>)
    requires at + |b| <= |img|
    ensures At(Overwritten(img, at, b), at, b)
  {
  }

  lemma {:induction false} Elsewhere(img: File32, at: nat, b: seq<byte>, off: nat, n: nat)
    requires at + |b| <= |img| && off + n <= |img| && (off + n <= at || at + |b| <= off)
    ensures Get(Overwritten(img, at, b), off, n) == Get(img, off, n)
  {
    var s, r := img[off..off + n], Overwritten(img, at, b)[off..off + n];
    forall k | 0 <= k < n
      ensures s[k] == r[k]
    {
      assert r[k] == Overwritten(img, at, b)[off + k];
    }
    assert s == r;
  }

  lemma {:induction false} MagicChecked(img: File32, m: nat)
    requires |img| >= 4 && m < 0x1_0000_0000 && m != 0x4C53_5449
    ensures !ValidImage(Overwritten(img, 0, U32(m)))
  {
    hide LittleEndian, FromLittleEndian, At, Overwritten, Get;
    Replaced(img, 0, U32(m));
    AtLastU32(Overwritten(img, 0, U32(m)), 0, m);
  }

  lemma {:induction false} VersionChecked(img: File32, v: nat)
    requires |img| >= 6 && v < 0x1_0000 && v != 1
    ensures !ValidImage(Overwritten(img, 4, U16(v)))
  {
    hide LittleEndian, FromLittleEndian, At, Overwritten, Get;
    Replaced(img, 4, U16(v));
    AtLastU16(Overwritten(img, 4, U16(v)), 4, v);
  }

  lemma {:induction false} AlignmentChecked(img: File32, al: nat)
    requires |img| >= 12 && al < 0x1_0000 && al != 3 && al != 4
    ensures !ValidImage(Overwritten(img, 10, U16(al)))
  {
    hide LittleEndian, FromLittleEndian, At, Overwritten, Get;
    Replaced(img, 10, U16(al));
    AtLastU16(Overwritten(img, 10, U16(al)), 10, al);
  }

  /** The new offset and size of section `i` leave the file or break the alignment. */
  lemma {:induction false} SectionChecked(img: File32, i: nat, off: nat, size: nat)
    requires HasSections(img) && i < SectionCount(img)
    requires off < 0x1_0000_0000_0000_0000 && size < 0x1_0000_0000_0000_0000
    requires off + size > |img| || off % (if AlignOf(img) == 3 then 8 else 16) != 0
    ensures !ValidImage(Overwritten(img, 16 + 24 * i + 8, U64(off) + U64(size)))
  {
    hide LittleEndian, FromLittleEndian, At, Overwritten, Get, Sect;
    var at, b := 16 + 24 * i + 8, U64(off) + U64(size);
    var r := Overwritten(img, at, b);
    Replaced(img, at, b);
    AtU64(r, at, off, U64(size), at + 8);
    AtLastU64(r, at + 8, size);
    Elsewhere(img, at, b, 8, 2);
    Elsewhere(img, at, b, 10, 2);
    assert HasSections(r) && SectionExtent(r, i) == Extent(off, size);
  }

  /** A file without a thunk table (kind 4) or without roots (kind 5). */
  lemma {:induction false} MissingSectionRefused(img: File32, kind: nat)
    requires HasSections(img) && kind in {4, 5}
    requires forall i :: 0 <= i < SectionCount(img) ==> GetU32(img, 16 + 24 * i) != kind
    ensures !ValidImage(img)
  {
    hide Get;
    var r := LastIndex(SectionKinds(img), kind);
  }

  /** Bytes past the section table do not decide where the sections are. */
  lemma {:induction false} SectionsKept(img: File32, at: nat, b: seq<byte>)
    requires HasSections(img) && 16 + 24 * SectionCount(img) <= at && at + |b| <= |img|
    ensures var r := Overwritten(img, at, b);
      HasSections(r) && SectionCount(r) == SectionCount(img) && forall kind :: Sect(r, kind) == Sect(img, kind)
  {
    hide Get, Overwritten, LastIndex;
    var r := Overwritten(img, at, b);
    Elsewhere(img, at, b, 8, 2);
    forall i | 0 <= i < SectionCount(img)
      ensures SectionKind(r, i) == SectionKind(img, i) && SectionExtent(r, i) == SectionExtent(img, i)
    {
      Elsewhere(img, at, b, 16 + 24 * i, 4);
      Elsewhere(img, at, b, 16 + 24 * i + 8, 8);
      Elsewhere(img, at, b, 16 + 24 * i + 16, 8);
    }
    assert SectionKinds(r) == SectionKinds(img);
  }

  /** A section whose own count asks for more than its size: entries of 8 bytes, roots of 4, or index bytes. */
  lemma {:induction false} CountChecked(img: File32, kind: nat, x: Extent, c: nat)
    requires HasSections(img) && kind in {1, 2, 4, 5} && Sect(img, kind) == Some(x)
    requires 16 + 24 * SectionCount(img) <= x.off && x.off + 4 <= |img| && c < 0x1_0000_0000
    requires 4 + (if kind == 4 then 8 * c else if kind == 5 then 4 * c else c) > x.size
    ensures !ValidImage(Overwritten(img, x.off, U32(c)))
  {
    hide LittleEndian, FromLittleEndian, At, Overwritten, Get, Sect, ValidSections;
    var r := Overwritten(img, x.off, U32(c));
    SectionsKept(img, x.off, U32(c));
    Replaced(img, x.off, U32(c));
    AtLastU32(r, x.off, c);
  }

  lemma {:induction false} AcceptedHeader(img: File32, tab: Extent, i: nat)
    requires ValidImage(img) && Sect(img, 4) == Some(tab) && i < GetU32(img, tab.off)
    ensures HeaderFits(img, tab, GetU32(img, tab.off), i)
  {
    hide Get, Sect, ValidSections, HeaderFits, ValidEntry, RootsFit, Payload;
    assert ViewOf(img).tab == tab;
  }

  /** An entry offset that points into the offset table or leaves no room for an entry header. */
  lemma {:induction false} OffsetChecked(img: File32, tab: Extent, i: nat, o: nat)
    requires HasSections(img) && Sect(img, 4) == Some(tab) && 16 + 24 * SectionCount(img) <= tab.off
    requires tab.off + 4 <= |img| && i < GetU32(img, tab.off) && tab.off + 4 + 8 * (i + 1) <= |img|
    requires o < 0x1_0000_0000_0000_0000 && (o < 4 + 8 * GetU32(img, tab.off) || o + 12 > tab.size)
    ensures !ValidImage(Overwritten(img, tab.off + 4 + 8 * i, U64(o)))
  {
    hide LittleEndian, FromLittleEndian, At, Overwritten, Get, Sect, ValidSections, ValidEntry, RootsFit, Payload;
    var at := tab.off + 4 + 8 * i;
    var r := Overwritten(img, at, U64(o));
    SectionsKept(img, at, U64(o));
    Elsewhere(img, at, U64(o), tab.off, 4);
    Replaced(img, at, U64(o));
    AtLastU64(r, at, o);
    if ValidImage(r) {
      AcceptedHeader(r, tab, i);
    }
  }

  // ---- Truncated files -----------------------------------------------------

  lemma {:induction false} PrefixGet(img: File32, n: nat, off: nat, k: nat)
    requires off + k <= n <= |img|
    ensures Get(img[..n], off, k) == Get(img, off, k)
  {
    assert img[..n][off..off + k] == img[off..off + k];
  }

  /** A file cut off before the end of one of its sections. */
  lemma {:induction false} CutSectionRefused(img: File32, i: nat, n: nat)
    requires HasSections(img) && i < SectionCount(img) && n <= |img|
    requires n < SectionExtent(img, i).off + SectionExtent(img, i).size
    ensures !ValidImage(img[..n])
  {
    hide Get, Sect;
    var p: File32 := img[..n];
    if 16 <= n {
      PrefixGet(img, n, 8, 2);
      PrefixGet(img, n, 10, 2);
      if 16 + 24 * SectionCount(img) <= n {
        PrefixGet(img, n, 16 + 24 * i + 8, 8);
        PrefixGet(img, n, 16 + 24 * i + 16, 8);
        assert SectionExtent(p, i) == SectionExtent(img, i);
      }
    }
  }

  lemma {:induction false} LastSectionEnds(secs: seq<Section>, a: AlignLog2, flags: nat)
    requires secs != []
    ensures var n := |secs| - 1;
      Place(secs, a, n) + |secs[n].payload| == |ImageOf(secs, a, flags)|
  {
  }

  /** No proper prefix of a written image is accepted. */
  lemma {:induction false} TruncatedRefused(t: Table, a: AlignLog2, flags: nat, n: nat)
    requires |Image(t, a, flags)| < 0x1_0000_0000 && n < |Image(t, a, flags)|
    ensures !ValidImage(Image(t, a, flags)[..n])
  {
    hide LittleEndian, FromLittleEndian, Body, SectionTable, Padding, At, Place, Chunks, Strings, Symbols, Get,
      ValidImage;
    var secs := SectionsOf(t);
    LastSectionEnds(secs, a, flags);
    SectionFields(secs, a, flags, |secs| - 1);
    CutSectionRefused(Image(t, a, flags), |secs| - 1, n);
  }
}
