/** Reading an image: what the validator checks, and what each entry decodes to. */
module LstiFormat {
  import opened Options
  import opened Bytes
  import opened ThunkGraph
  import opened LstiTable
  import opened LstiImage

  type File32 = s: seq<byte> | |s| < 0x1_0000_0000

  /** A stretch of the file. */
  datatype Extent = Extent(off: nat, size: nat)

  ghost predicate Inside(img: File32, x: Extent) {
    x.off + x.size <= |img|
  }

  // ---- Header and section table --------------------------------------------

  predicate HasHeader(img: File32) { |img| >= 16 }

  function SectionCount(img: File32): nat
    requires HasHeader(img)
  {
    GetU16(img, 8)
  }

  function AlignOf(img: File32): nat
    requires HasHeader(img)
  {
    GetU16(img, 10)
  }

  predicate HasSections(img: File32) {
    HasHeader(img) && |img| >= 16 + 24 * SectionCount(img)
  }

  function SectionKind(img: File32, i: nat): nat
    requires HasSections(img) && i < SectionCount(img)
  {
    GetU32(img, 16 + 24 * i)
  }

  function SectionExtent(img: File32, i: nat): Extent
    requires HasSections(img) && i < SectionCount(img)
  {
    Extent(GetU64(img, 16 + 24 * i + 8), GetU64(img, 16 + 24 * i + 16))
  }

  function SectionKinds(img: File32): (r: seq<nat>)
    requires HasSections(img)
    ensures |r| == SectionCount(img) && forall i :: 0 <= i < |r| ==> r[i] == SectionKind(img, i)
  {
    seq(SectionCount(img), i requires 0 <= i < SectionCount(img) => SectionKind(img, i))
  }

  /** The last place where `kind` stands: later sections of a kind override earlier ones. */
  function LastIndex(kinds: seq<nat>, kind: nat): (r: Option<nat>)
    ensures r.Some? ==> r.value < |kinds| && kinds[r.value] == kind
    ensures forall j :: 0 <= j < |kinds| && kinds[j] == kind ==> r.Some? && j <= r.value
  {
    if kinds == [] then None
    else if kinds[|kinds| - 1] == kind then Some(|kinds| - 1)
    else LastIndex(kinds[..|kinds| - 1], kind)
  }

  function Sect(img: File32, kind: nat): Option<Extent>
    requires HasSections(img)
  {
    match LastIndex(SectionKinds(img), kind)
    case None => None
    case Some(i) => Some(SectionExtent(img, i))
  }

  predicate ValidSections(img: File32) {
    && HasSections(img)
    && GetU32(img, 0) == MAGIC
    && GetU16(img, 4) == VERSION_MAJOR
    && (AlignOf(img) == 3 || AlignOf(img) == 4)
    && forall i :: 0 <= i < SectionCount(img) ==>
        var x := SectionExtent(img, i); x.off + x.size <= |img| && Aligned(x.off, AlignOf(img))
  }

  // ---- The sections an image is read through -------------------------------

  /** Number of thunks, and the extents used to decode them; blobs are given by their payloads. */
  datatype View = View(tab: Extent, count: nat, roots: Extent, strs: Option<Extent>, syms: Option<Extent>,
    pats: Option<Extent>)

  predicate BlobFits(img: File32, x: Option<Extent>) {
    x.Some? ==> x.value.off + x.value.size <= |img| && x.value.size >= 4 && x.value.size >= 4 + GetU32(img, x.value.off)
  }

  /** The payload of a blob: what follows the reserved index. */
  function Payload(img: File32, x: Option<Extent>): (r: Option<Extent>)
    requires BlobFits(img, x)
    ensures r.Some? <==> x.Some?
    ensures x.Some? ==> r.value.off + r.value.size == x.value.off + x.value.size
    ensures x.Some? ==> r.value.size == x.value.size - 4 - GetU32(img, x.value.off)
  {
    if x.None? then None
    else var skip := 4 + GetU32(img, x.value.off); Some(Extent(x.value.off + skip, x.value.size - skip))
  }

  predicate PatternsFit(img: File32, x: Option<Extent>) {
    BlobFits(img, x) && (x.Some? ==> x.value.size >= 8 + GetU32(img, x.value.off))
  }

  predicate TabFits(img: File32, tab: Extent) {
    tab.off + tab.size <= |img| && tab.size >= 4 && tab.size >= 4 + 8 * GetU32(img, tab.off)
  }

  predicate RootsFit(img: File32, roots: Extent, count: nat) {
    && roots.off + roots.size <= |img| && roots.size >= 4
    && roots.size >= 4 + 4 * GetU32(img, roots.off)
    && forall i :: 0 <= i < GetU32(img, roots.off) ==> GetU32(img, roots.off + 4 + 4 * i) < count
  }

  predicate ViewFits(img: File32) {
    && ValidSections(img)
    && Sect(img, SECT_THUNK_TAB).Some? && Sect(img, SECT_ROOTS).Some?
    && TabFits(img, Sect(img, SECT_THUNK_TAB).value)
    && RootsFit(img, Sect(img, SECT_ROOTS).value, GetU32(img, Sect(img, SECT_THUNK_TAB).value.off))
    && BlobFits(img, Sect(img, SECT_STRING_BLOB))
    && BlobFits(img, Sect(img, SECT_SYMBOL_BLOB))
    && PatternsFit(img, Sect(img, SECT_PATTERN_TAB))
  }

  function ViewOf(img: File32): (v: View)
    requires ViewFits(img)
    ensures TabFits(img, v.tab) && v.count == GetU32(img, v.tab.off)
    ensures RootsFit(img, v.roots, v.count)
    ensures v.strs.Some? ==> v.strs.value.off + v.strs.value.size <= |img|
    ensures v.syms.Some? ==> v.syms.value.off + v.syms.value.size <= |img|
    ensures v.pats.Some? ==> v.pats.value.off + v.pats.value.size <= |img| && v.pats.value.size >= 4
  {
    var tab := Sect(img, SECT_THUNK_TAB).value;
    View(tab, GetU32(img, tab.off), Sect(img, SECT_ROOTS).value, Payload(img, Sect(img, SECT_STRING_BLOB)),
         Payload(img, Sect(img, SECT_SYMBOL_BLOB)), Payload(img, Sect(img, SECT_PATTERN_TAB)))
  }

  // ---- Entries -------------------------------------------------------------

  predicate Entries(img: File32, tab: Extent, count: nat) {
    TabFits(img, tab) && count == GetU32(img, tab.off)
  }

  function Offset(img: File32, tab: Extent, count: nat, i: nat): nat
    requires Entries(img, tab, count) && i < count
  {
    GetU64(img, tab.off + 4 + 8 * i)
  }

  /** The offset points past the offset table and leaves room for an entry header. */
  predicate HeaderFits(img: File32, tab: Extent, count: nat, i: nat)
    requires Entries(img, tab, count) && i < count
  {
    4 + 8 * count <= Offset(img, tab, count, i) && Offset(img, tab, count, i) + 12 <= tab.size
  }

  datatype Entry = Entry(pos: nat, room: nat, kind: byte, aorl: nat, extra: nat)

  predicate EntryInside(img: File32, e: Entry) {
    e.pos + e.room <= |img| && e.room >= 12
  }

  /** Entry `i`: its place in the file, the bytes from there to the end of the table, and its fixed part. */
  function EntryOf(img: File32, tab: Extent, count: nat, i: nat): (e: Entry)
    requires Entries(img, tab, count) && i < count && HeaderFits(img, tab, count, i)
    ensures EntryInside(img, e)
  {
    var p := tab.off + Offset(img, tab, count, i);
    Entry(p, tab.size - Offset(img, tab, count, i), img[p], GetU32(img, p + 4), GetU32(img, p + 8))
  }

  predicate TextFits(blob: Option<Extent>, off: nat, len: nat) {
    blob.Some? && off + len <= blob.value.size
  }

  /** What the validator demands of one entry once some blob is present. */
  predicate ValidEntry(img: File32, v: View, e: Entry)
    requires EntryInside(img, e)
    requires v.pats.Some? ==> v.pats.value.off + v.pats.value.size <= |img| && v.pats.value.size >= 4
  {
    if e.kind == KIND_STR then TextFits(v.strs, e.extra, e.aorl)
    else if e.kind == KIND_SYMBOL || e.kind == KIND_REF then TextFits(v.syms, e.extra, e.aorl)
    else if e.kind == KIND_ALGE then
      e.room >= 16 + 4 * e.aorl && TextFits(v.syms, e.extra, GetU32(img, e.pos + 12))
    else if e.kind == KIND_BOTTOM then
      e.room >= 16 + 4 * e.aorl && TextFits(v.strs, e.extra, GetU32(img, e.pos + 12))
    else if e.kind == KIND_APPL then e.room >= 12 + 4 * e.aorl && e.extra < v.count
    else if e.kind == KIND_CHOICE then
      1 <= e.aorl <= 3 && e.room >= 20 && GetU32(img, e.pos + 12) < v.count && GetU32(img, e.pos + 16) < v.count
    else if e.kind == KIND_LAMBDA then v.pats.Some? && e.aorl < GetU32(img, v.pats.value.off) && e.extra < v.count
    else true
  }

  /** The images `lsti_validate` accepts. */
  predicate ValidImage(img: File32) {
    && ViewFits(img)
    && var v := ViewOf(img);
      && (forall i :: 0 <= i < v.count ==> HeaderFits(img, v.tab, v.count, i))
      && (v.strs.Some? || v.syms.Some? ==>
          forall i :: 0 <= i < v.count ==> ValidEntry(img, v, EntryOf(img, v.tab, v.count, i)))
  }

  // ---- Decoding ------------------------------------------------------------

  function ReadIds(img: File32, at: nat, n: nat): (r: seq<Ptr>)
    requires at + 4 * n <= |img|
    ensures |r| == n && forall j :: 0 <= j < n ==> r[j] == GetU32(img, at + 4 * j)
  {
    seq(n, j requires 0 <= j < n => GetU32(img, at + 4 * j))
  }

  function ReadText(img: File32, blob: Extent, off: nat, len: nat): Text
    requires blob.off + blob.size <= |img| && off + len <= blob.size
  {
    img[blob.off + off..blob.off + off + len]
  }

  /** A stored message becomes a C string, which ends at the first zero. */
  function ToCText(s: Text): (r: CText)
    ensures 0 !in s ==> r == s
  {
    if s == [] || s[0] == 0 then [] else [s[0]] + ToCText(s[1..])
  }

  /**
    The reads that materializing entry `e` performs stay inside the image and its child numbers are in range. The
    validator does not check all of this, so the loader relies on it.
   */
  predicate SafeEntry(img: File32, v: View, e: Entry)
    requires EntryInside(img, e)
  {
    if e.kind == KIND_STR then v.strs.None? || TextFits(v.strs, e.extra, e.aorl)
    else if e.kind == KIND_SYMBOL || e.kind == KIND_REF || e.kind == KIND_BUILTIN then
      v.syms.None? || TextFits(v.syms, e.extra, e.aorl)
    else if e.kind == KIND_ALGE then
      v.syms.None? ||
      (e.room >= 16 + 4 * e.aorl && TextFits(v.syms, e.extra, GetU32(img, e.pos + 12)) &&
        AllBelow(ReadIds(img, e.pos + 16, e.aorl), v.count))
    else if e.kind == KIND_BOTTOM then
      v.strs.None? ||
      (e.room >= 16 + 4 * e.aorl && TextFits(v.strs, e.extra, GetU32(img, e.pos + 12)) &&
        AllBelow(ReadIds(img, e.pos + 16, e.aorl), v.count))
    else if e.kind == KIND_APPL then
      e.room >= 12 + 4 * e.aorl && e.extra < v.count && AllBelow(ReadIds(img, e.pos + 12, e.aorl), v.count)
    else if e.kind == KIND_CHOICE then
      1 <= e.aorl <= 3 && e.room >= 20 && GetU32(img, e.pos + 12) < v.count && GetU32(img, e.pos + 16) < v.count
    else e.kind != KIND_LAMBDA
  }

  predicate AllBelow(ps: seq<Ptr>, n: nat) {
    forall j :: 0 <= j < |ps| ==> ps[j] < n
  }

  /** The views whose blobs lie in the file. */
  predicate ViewInside(img: File32, v: View) {
    && (v.strs.Some? ==> v.strs.value.off + v.strs.value.size <= |img|)
    && (v.syms.Some? ==> v.syms.value.off + v.syms.value.size <= |img|)
  }

  /** The table entry stored at `e`; none for a kind the loader does not know or a missing blob. */
  function DecodeEntry(img: File32, v: View, e: Entry): Option<Thunk>
    requires EntryInside(img, e) && ViewInside(img, v) && SafeEntry(img, v, e)
  {
    if e.kind == KIND_INT then Some(Int(ToInt32(e.extra % 0x1_0000_0000)))
    else if e.kind == KIND_STR then
      if v.strs.None? then None else Some(Str(ReadText(img, v.strs.value, e.extra, e.aorl)))
    else if e.kind == KIND_SYMBOL then
      if v.syms.None? then None else Some(Symbol(ReadText(img, v.syms.value, e.extra, e.aorl)))
    else if e.kind == KIND_REF || e.kind == KIND_BUILTIN then
      if v.syms.None? then None else Some(Ref(ReadText(img, v.syms.value, e.extra, e.aorl)))
    else if e.kind == KIND_ALGE then
      if v.syms.None? then None
      else Some(Alge(ReadText(img, v.syms.value, e.extra, GetU32(img, e.pos + 12)), ReadIds(img, e.pos + 16, e.aorl)))
    else if e.kind == KIND_BOTTOM then
      if v.strs.None? then None
      else Some(Bottom(ToCText(ReadText(img, v.strs.value, e.extra, GetU32(img, e.pos + 12))),
        ReadIds(img, e.pos + 16, e.aorl)))
    else if e.kind == KIND_APPL then Some(Appl(e.extra, ReadIds(img, e.pos + 12, e.aorl)))
    else if e.kind == KIND_CHOICE then Some(Choice(e.aorl, GetU32(img, e.pos + 12), GetU32(img, e.pos + 16)))
    else None
  }

  /** What the loader needs of an image beyond what the validator checks. */
  predicate Loadable(img: File32) {
    ValidImage(img) ==>
      var v := ViewOf(img); forall i :: 0 <= i < v.count ==> SafeEntry(img, v, EntryOf(img, v.tab, v.count, i))
  }

  predicate Decodes(img: File32)
    requires ValidImage(img) && Loadable(img)
  {
    var v := ViewOf(img); forall i :: 0 <= i < v.count ==> DecodeEntry(img, v, EntryOf(img, v.tab, v.count, i)).Some?
  }

  /** The table held by an accepted image. An image without thunks has no roots either. */
  function Decoded(img: File32): Table
    requires ValidImage(img) && Loadable(img) && Decodes(img)
  {
    var v := ViewOf(img);
    if v.count == 0 then Table([], [])
    else Table(
      seq(v.count, i requires 0 <= i < v.count => DecodeEntry(img, v, EntryOf(img, v.tab, v.count, i)).value),
      ReadIds(img, v.roots.off + 4, GetU32(img, v.roots.off)))
  }
}
