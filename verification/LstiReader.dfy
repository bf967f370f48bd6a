/**
  `lsti_validate` and `lsti_materialize`: check an image, then rebuild the graph by allocating first and wiring after.
 */
module LstiReader {
  import opened Options
  import opened Bytes
  import opened Sequences
  import opened ThunkGraph
  import opened LstiTable
  import opened LstiImage
  import opened LstiFormat

  const EINVAL: int := 22
  const ENOSYS: int := 38

  // ---- The validator -------------------------------------------------------

  /** What the section loop has found among the first `n` sections. */
  function Found(img: File32, kind: nat, n: nat): Option<Extent>
    requires HasSections(img) && n <= SectionCount(img)
  {
    match LastIndex(SectionKinds(img)[..n], kind)
    case None => None
    case Some(i) => Some(SectionExtent(img, i))
  }

  lemma {:induction false} FoundNext(img: File32, kind: nat, n: nat)
    requires HasSections(img) && n < SectionCount(img)
    ensures Found(img, kind, n + 1) == if SectionKind(img, n) == kind then Some(SectionExtent(img, n))
      else Found(img, kind, n)
  {
    var ks := SectionKinds(img);
    assert ks[..n + 1][..n] == ks[..n];
  }

  predicate SectionOk(img: File32, i: nat)
    requires HasSections(img) && i < SectionCount(img)
  {
    SectionExtent(img, i).off + SectionExtent(img, i).size <= |img| &&
      Aligned(SectionExtent(img, i).off, if AlignOf(img) == 3 then 3 else 4)
  }

  datatype Scan = Scan(strs: Option<Extent>, syms: Option<Extent>, pats: Option<Extent>, tab: Option<Extent>,
    roots: Option<Extent>)

  ghost predicate Scanned(img: File32, s: Scan, n: nat)
    requires HasSections(img) && n <= SectionCount(img)
  {
    && s.strs == Found(img, SECT_STRING_BLOB, n) && s.syms == Found(img, SECT_SYMBOL_BLOB, n)
    && s.pats == Found(img, SECT_PATTERN_TAB, n) && s.tab == Found(img, SECT_THUNK_TAB, n)
    && s.roots == Found(img, SECT_ROOTS, n)
  }

  lemma {:induction false} ScannedNext(img: File32, s: Scan, s': Scan, n: nat)
    requires HasSections(img) && n < SectionCount(img) && Scanned(img, s, n)
    requires var k, x := SectionKind(img, n), Some(SectionExtent(img, n));
      s' == if k == SECT_STRING_BLOB then s.(strs := x) else if k == SECT_SYMBOL_BLOB then s.(syms := x)
            else if k == SECT_THUNK_TAB then s.(tab := x) else if k == SECT_PATTERN_TAB then s.(pats := x)
            else if k == SECT_ROOTS then s.(roots := x) else s
    ensures Scanned(img, s', n + 1)
  {
    hide Found, SectionKind, SectionExtent;
    FoundNext(img, SECT_STRING_BLOB, n);
    FoundNext(img, SECT_SYMBOL_BLOB, n);
    FoundNext(img, SECT_PATTERN_TAB, n);
    FoundNext(img, SECT_THUNK_TAB, n);
    FoundNext(img, SECT_ROOTS, n);
  }

  /** Checks bounds and alignment of every section and remembers the last one of each kind. */
  method ScanSections(img: File32) returns (ok: bool, s: Scan)
    requires HasSections(img) && (AlignOf(img) == 3 || AlignOf(img) == 4)
    ensures ok <==> forall i :: 0 <= i < SectionCount(img) ==> SectionOk(img, i)
    ensures ok ==> Scanned(img, s, SectionCount(img))
  {
    hide SectionKind, SectionExtent, SectionCount, Found;
    s := Scan(None, None, None, None, None);
    assert Scanned(img, s, 0) by { NothingFound(img); }
    var i := 0;
    while i < SectionCount(img)
      invariant i <= SectionCount(img) && Scanned(img, s, i)
      invariant forall k :: 0 <= k < i ==> SectionOk(img, k)
    {
      var kind, x := SectionKind(img, i), SectionExtent(img, i);
      if x.size > |img| || x.off > |img| || x.off + x.size > |img| || !Aligned(x.off, AlignOf(img)) {
        assert !SectionOk(img, i);
        return false, s;
      }
      ghost var before := s;
      if kind == SECT_STRING_BLOB {
        s := s.(strs := Some(x));
      } else if kind == SECT_SYMBOL_BLOB {
        s := s.(syms := Some(x));
      } else if kind == SECT_THUNK_TAB {
        s := s.(tab := Some(x));
      } else if kind == SECT_PATTERN_TAB {
        s := s.(pats := Some(x));
      } else if kind == SECT_ROOTS {
        s := s.(roots := Some(x));
      }
      ScannedNext(img, before, s, i);
      i := i + 1;
    }
    ok := true;
  }

  lemma {:induction false} NothingFound(img: File32)
    requires HasSections(img)
    ensures Scanned(img, Scan(None, None, None, None, None), 0)
  {
  }

  lemma {:induction false} FoundAll(img: File32, kind: nat)
    requires HasSections(img)
    ensures Found(img, kind, SectionCount(img)) == Sect(img, kind)
  {
    assert SectionKinds(img)[..SectionCount(img)] == SectionKinds(img);
  }

  /** Every entry offset leaves room for an entry header inside the table. */
  method CheckOffsets(img: File32, tab: Extent, count: nat) returns (ok: bool)
    requires Entries(img, tab, count)
    ensures ok <==> forall i :: 0 <= i < count ==> HeaderFits(img, tab, count, i)
  {
    hide GetU64;
    var i := 0;
    while i < count
      invariant i <= count && forall k :: 0 <= k < i ==> HeaderFits(img, tab, count, k)
    {
      var eo := Offset(img, tab, count, i);
      if eo < 4 + 8 * count || eo >= tab.size || tab.size - eo < 12 {
        assert !HeaderFits(img, tab, count, i);
        return false;
      }
      i := i + 1;
    }
    ok := true;
  }

  method CheckRoots(img: File32, roots: Extent, count: nat) returns (ok: bool)
    requires roots.off + roots.size <= |img|
    ensures ok <==> RootsFit(img, roots, count)
  {
    hide GetU32;
    if roots.size < 4 {
      return false;
    }
    var rcnt := GetU32(img, roots.off);
    if roots.size < 4 + 4 * rcnt {
      return false;
    }
    var i := 0;
    while i < rcnt
      invariant i <= rcnt && forall k :: 0 <= k < i ==> GetU32(img, roots.off + 4 + 4 * k) < count
    {
      if GetU32(img, roots.off + 4 + 4 * i) >= count {
        return false;
      }
      i := i + 1;
    }
    ok := true;
  }

  method CheckBlob(img: File32, x: Option<Extent>) returns (ok: bool)
    requires x.Some? ==> x.value.off + x.value.size <= |img|
    ensures ok <==> BlobFits(img, x)
  {
    ok := x.None? || (x.value.size >= 4 && x.value.size >= 4 + GetU32(img, x.value.off));
  }

  /** The per-entry checks, made only when some blob is present. */
  method CheckEntries(img: File32, v: View) returns (ok: bool)
    requires Entries(img, v.tab, v.count) && forall i :: 0 <= i < v.count ==> HeaderFits(img, v.tab, v.count, i)
    requires v.pats.Some? ==> v.pats.value.off + v.pats.value.size <= |img| && v.pats.value.size >= 4
    ensures ok <==> forall i :: 0 <= i < v.count ==> ValidEntry(img, v, EntryOf(img, v.tab, v.count, i))
  {
    hide ValidEntry, EntryOf, HeaderFits;
    var i := 0;
    while i < v.count
      invariant i <= v.count && forall k :: 0 <= k < i ==> ValidEntry(img, v, EntryOf(img, v.tab, v.count, k))
    {
      if !ValidEntry(img, v, EntryOf(img, v.tab, v.count, i)) {
        return false;
      }
      i := i + 1;
    }
    ok := true;
  }

  /** Accepts exactly the valid images. */
  method Validate(img: File32) returns (rc: int)
    ensures rc == if ValidImage(img) then 0 else -EINVAL
  {
    hide SectionCount, GetU64, Get, Sect, Found, SectionExtent, SectionKind, Payload, ValidEntry, HeaderFits, EntryOf,
      RootsFit, Aligned;
    if |img| < 16 || GetU32(img, 0) != MAGIC || GetU16(img, 4) != VERSION_MAJOR {
      return -EINVAL;
    }
    if AlignOf(img) != 3 && AlignOf(img) != 4 {
      return -EINVAL;
    }
    if |img| < 16 + 24 * SectionCount(img) {
      return -EINVAL;
    }
    var ok, s := ScanSections(img);
    if !ok || s.tab.None? || s.roots.None? {
      ScanDecides(img, s, ok);
      return -EINVAL;
    }
    ScanDecides(img, s, ok);
    var tab := s.tab.value;
    if tab.size < 4 || tab.size < 4 + 8 * GetU32(img, tab.off) {
      return -EINVAL;
    }
    var count := GetU32(img, tab.off);
    var offsetsOk := CheckOffsets(img, tab, count);
    if !offsetsOk {
      return -EINVAL;
    }
    var rootsOk := CheckRoots(img, s.roots.value, count);
    var strsOk := CheckBlob(img, s.strs);
    var symsOk := CheckBlob(img, s.syms);
    var patsOk := CheckBlob(img, s.pats);
    if !rootsOk || !strsOk || !symsOk || !patsOk || !PatternsFit(img, s.pats) {
      return -EINVAL;
    }
    var v := View(tab, count, s.roots.value, Payload(img, s.strs), Payload(img, s.syms), Payload(img, s.pats));
    if v.strs.Some? || v.syms.Some? {
      var entriesOk := CheckEntries(img, v);
      if !entriesOk {
        return -EINVAL;
      }
    }
    rc := 0;
  }

  /** What the section scan says about the specification's sections. */
  lemma {:induction false} ScanDecides(img: File32, s: Scan, ok: bool)
    requires HasSections(img) && (AlignOf(img) == 3 || AlignOf(img) == 4)
    requires GetU32(img, 0) == MAGIC && GetU16(img, 4) == VERSION_MAJOR
    requires ok <==> forall i :: 0 <= i < SectionCount(img) ==> SectionOk(img, i)
    requires ok ==> Scanned(img, s, SectionCount(img))
    ensures ok <==> ValidSections(img)
    ensures ok ==> s == Scan(Sect(img, SECT_STRING_BLOB), Sect(img, SECT_SYMBOL_BLOB), Sect(img, SECT_PATTERN_TAB),
                             Sect(img, SECT_THUNK_TAB), Sect(img, SECT_ROOTS))
    ensures ok ==> forall k :: Sect(img, k).Some? ==> Inside(img, Sect(img, k).value)
  {
    hide Get, SectionKind, LastIndex, SectionExtent;
    FoundAll(img, SECT_STRING_BLOB);
    FoundAll(img, SECT_SYMBOL_BLOB);
    FoundAll(img, SECT_PATTERN_TAB);
    FoundAll(img, SECT_THUNK_TAB);
    FoundAll(img, SECT_ROOTS);
    if ok {
      forall i | 0 <= i < SectionCount(img)
        ensures Inside(img, SectionExtent(img, i)) && Aligned(SectionExtent(img, i).off, AlignOf(img))
      {
        assert SectionOk(img, i);
      }
    } else {
      var i :| 0 <= i < SectionCount(img) && !SectionOk(img, i);
      assert !(Inside(img, SectionExtent(img, i)) && Aligned(SectionExtent(img, i).off, AlignOf(img)));
    }
  }

  // ---- The loader ----------------------------------------------------------

  /** The thunk heap that allocation and the setters change. */
  class Arena {
    var cells: Heap

    constructor (h: Heap)
      ensures cells == h
    {
      cells := h;
    }

    method Alloc(t: Thunk) returns (p: Ptr)
      modifies this
      ensures p == |old(cells)| && cells == old(cells) + [t]
    {
      p := |cells|;
      cells := cells + [t];
    }

    /** The setters for constructor, bottom and application arguments. */
    method SetArg(p: Ptr, j: nat, q: Ptr)
      requires 0 <= p < |cells| && (cells[p].Alge? || cells[p].Bottom? || cells[p].Appl?) && j < |cells[p].args|
      modifies this
      ensures cells == old(cells)[p := old(cells)[p].(args := old(cells)[p].args[j := q])]
    {
      cells := cells[p := cells[p].(args := cells[p].args[j := q])];
    }

    method SetFunc(p: Ptr, q: Ptr)
      requires 0 <= p < |cells| && cells[p].Appl?
      modifies this
      ensures cells == old(cells)[p := old(cells)[p].(func := q)]
    {
      cells := cells[p := cells[p].(func := q)];
    }

    method SetLeft(p: Ptr, q: Ptr)
      requires 0 <= p < |cells| && cells[p].Choice?
      modifies this
      ensures cells == old(cells)[p := old(cells)[p].(left := q)]
    {
      cells := cells[p := cells[p].(left := q)];
    }

    method SetRight(p: Ptr, q: Ptr)
      requires 0 <= p < |cells| && cells[p].Choice?
      modifies this
      ensures cells == old(cells)[p := old(cells)[p].(right := q)]
    {
      cells := cells[p := cells[p].(right := q)];
    }
  }

  /** The edges remembered for the second pass. */
  datatype Pend = NoEdges | Args(ids: seq<Ptr>) | Call(func: Ptr, ids: seq<Ptr>) | Pair(left: Ptr, right: Ptr)

  function Nulls(n: nat): (r: seq<Ptr>)
    ensures |r| == n && forall i :: 0 <= i < n ==> r[i] == NULL
  {
    seq(n, i => NULL)
  }

  /** A node as allocated: its pointers still null. */
  function Unwired(t: Thunk): Thunk {
    match t
    case Alge(c, args) => Alge(c, Nulls(|args|))
    case Appl(_, args) => Appl(NULL, Nulls(|args|))
    case Choice(k, _, _) => Choice(k, NULL, NULL)
    case Bottom(m, args) => Bottom(m, Nulls(|args|))
    case _ => t
  }

  function PendOf(t: Thunk): Pend {
    match t
    case Alge(_, args) => if args == [] then NoEdges else Args(args)
    case Bottom(_, args) => if args == [] then NoEdges else Args(args)
    case Appl(f, args) => Call(f, args)
    case Choice(_, l, r) => Pair(l, r)
    case _ => NoEdges
  }

  /** First pass over one entry: allocate the node and remember its edges. */
  method AllocEntry(arena: Arena, img: File32, v: View, e: Entry) returns (rc: int, p: Ptr, pend: Pend)
    requires EntryInside(img, e) && ViewInside(img, v) && SafeEntry(img, v, e)
    modifies arena
    ensures rc == 0 <==> DecodeEntry(img, v, e).Some?
    ensures rc == 0 || rc == -EINVAL || rc == -ENOSYS
    ensures rc == 0 ==>
      var t := DecodeEntry(img, v, e).value;
      p == |old(arena.cells)| && arena.cells == old(arena.cells) + [Unwired(t)] && pend == PendOf(t)
    ensures rc != 0 ==> arena.cells == old(arena.cells)
  {
    hide Get, AllBelow, ToCText, Nulls;
    rc, p, pend := 0, NULL, NoEdges;
    if e.kind == KIND_INT {
      p := arena.Alloc(Int(ToInt32(e.extra % 0x1_0000_0000)));
    } else if e.kind == KIND_STR {
      if v.strs.None? {
        return -EINVAL, p, pend;
      }
      p := arena.Alloc(Str(ReadText(img, v.strs.value, e.extra, e.aorl)));
    } else if e.kind == KIND_SYMBOL {
      if v.syms.None? {
        return -EINVAL, p, pend;
      }
      p := arena.Alloc(Symbol(ReadText(img, v.syms.value, e.extra, e.aorl)));
    } else if e.kind == KIND_ALGE {
      if v.syms.None? {
        return -EINVAL, p, pend;
      }
      var c := ReadText(img, v.syms.value, e.extra, GetU32(img, e.pos + 12));
      p := arena.Alloc(Alge(c, Nulls(e.aorl)));
      if e.aorl > 0 {
        pend := Args(ReadIds(img, e.pos + 16, e.aorl));
      }
    } else if e.kind == KIND_BOTTOM {
      if v.strs.None? {
        return -EINVAL, p, pend;
      }
      var m := ToCText(ReadText(img, v.strs.value, e.extra, GetU32(img, e.pos + 12)));
      p := arena.Alloc(Bottom(m, Nulls(e.aorl)));
      if e.aorl > 0 {
        pend := Args(ReadIds(img, e.pos + 16, e.aorl));
      }
    } else if e.kind == KIND_APPL {
      p := arena.Alloc(Appl(NULL, Nulls(e.aorl)));
      pend := Call(e.extra, ReadIds(img, e.pos + 12, e.aorl));
    } else if e.kind == KIND_CHOICE {
      p := arena.Alloc(Choice(e.aorl, NULL, NULL));
      pend := Pair(GetU32(img, e.pos + 12), GetU32(img, e.pos + 16));
    } else if e.kind == KIND_REF || e.kind == KIND_BUILTIN {
      if v.syms.None? {
        return -EINVAL, p, pend;
      }
      p := arena.Alloc(Ref(ReadText(img, v.syms.value, e.extra, e.aorl)));
    } else {
      return -ENOSYS, p, pend;
    }
  }

  /** The nodes an array of entry numbers names. */
  function Resolve(nodes: seq<Ptr>, ids: seq<Ptr>): (r: seq<Ptr>)
    requires forall j :: 0 <= j < |ids| ==> 0 <= ids[j] < |nodes|
    ensures |r| == |ids| && forall j :: 0 <= j < |ids| ==> r[j] == nodes[ids[j]]
  {
    seq(|ids|, j requires 0 <= j < |ids| => nodes[ids[j]])
  }

  lemma {:induction false} Splice(res: seq<Ptr>, args: seq<Ptr>, j: nat)
    requires j < |res| == |args|
    ensures (res[..j] + args[j..])[j := res[j]] == res[..j + 1] + args[j + 1..]
  {
  }

  /** Second pass, one argument array. */
  method WireArgs(arena: Arena, p: Ptr, nodes: seq<Ptr>, ids: seq<Ptr>)
    requires 0 <= p < |arena.cells| && (arena.cells[p].Alge? || arena.cells[p].Bottom? || arena.cells[p].Appl?)
    requires |ids| == |arena.cells[p].args| && forall j :: 0 <= j < |ids| ==> 0 <= ids[j] < |nodes|
    modifies arena
    ensures arena.cells == old(arena.cells)[p := old(arena.cells)[p].(args := Resolve(nodes, ids))]
  {
    ghost var h, t, res := arena.cells, arena.cells[p], Resolve(nodes, ids);
    var j := 0;
    assert t.args == res[..0] + t.args[0..];
    while j < |ids|
      invariant j <= |ids| && arena.cells == h[p := t.(args := res[..j] + t.args[j..])]
    {
      Splice(res, t.args, j);
      arena.SetArg(p, j, nodes[ids[j]]);
      j := j + 1;
    }
    assert res[..j] + t.args[j..] == res;
  }

  /** A node wired to the nodes its entry names. */
  function Wire(nodes: seq<Ptr>, t: Thunk): Thunk
    requires forall j :: 0 <= j < |Children(t)| ==> 0 <= Children(t)[j] < |nodes|
  {
    match t
    case Alge(c, args) => assert Children(t) == args; Alge(c, Resolve(nodes, args))
    case Appl(f, args) => assert Children(t)[0] == f && args == Children(t)[1..]; Appl(nodes[f], Resolve(nodes, args))
    case Choice(k, l, r) => assert Children(t)[0] == l && Children(t)[1] == r; Choice(k, nodes[l], nodes[r])
    case Bottom(m, args) => assert Children(t) == args; Bottom(m, Resolve(nodes, args))
    case _ => t
  }

  method WireEntry(arena: Arena, p: Ptr, nodes: seq<Ptr>, pend: Pend, ghost t: Thunk)
    requires 0 <= p < |arena.cells| && arena.cells[p] == Unwired(t) && pend == PendOf(t)
    requires forall j :: 0 <= j < |Children(t)| ==> 0 <= Children(t)[j] < |nodes|
    modifies arena
    ensures arena.cells == old(arena.cells)[p := Wire(nodes, t)]
  {
    match pend {
      case NoEdges =>
        assert Unwired(t) == Wire(nodes, t);
      case Args(ids) =>
        assert Children(t) == ids;
        WireArgs(arena, p, nodes, ids);
      case Call(f, ids) =>
        assert Children(t)[0] == f && ids == Children(t)[1..];
        arena.SetFunc(p, nodes[f]);
        WireArgs(arena, p, nodes, ids);
      case Pair(l, r) =>
        assert Children(t)[0] == l && Children(t)[1] == r;
        arena.SetLeft(p, nodes[l]);
        arena.SetRight(p, nodes[r]);
    }
  }

  lemma {:induction false} ResolveIsRename(nodes: seq<Ptr>, ids: seq<Ptr>)
    requires forall j :: 0 <= j < |ids| ==> 0 <= ids[j] < |nodes|
    ensures Resolve(nodes, ids) == RenameAll(Range(0, |nodes|), nodes, ids)
  {
    var r := Range(0, |nodes|);
    forall j | 0 <= j < |ids|
      ensures nodes[ids[j]] == Rename(r, nodes, ids[j])
    {
      assert r[ids[j]] == ids[j];
      IndexOfUnique(r, ids[j]);
    }
  }

  lemma {:induction false} WireIsRelabel(nodes: seq<Ptr>, t: Thunk)
    requires !t.Builtin? && forall j :: 0 <= j < |Children(t)| ==> 0 <= Children(t)[j] < |nodes|
    ensures Wire(nodes, t) == Relabel(Range(0, |nodes|), nodes, t)
  {
    match t
    case Alge(_, args) => assert Children(t) == args; ResolveIsRename(nodes, args);
    case Bottom(_, args) => assert Children(t) == args; ResolveIsRename(nodes, args);
    case Appl(f, args) =>
      assert Children(t)[0] == f && args == Children(t)[1..];
      ResolveIsRename(nodes, args);
      ResolveIsRename(nodes, [f]);
      assert Resolve(nodes, [f])[0] == nodes[f];
    case Choice(_, l, r) =>
      assert Children(t)[0] == l && Children(t)[1] == r;
      ResolveIsRename(nodes, [l, r]);
      assert Resolve(nodes, [l, r])[0] == nodes[l] && Resolve(nodes, [l, r])[1] == nodes[r];
    case _ =>
  }

  /** A decoded entry names only entries of the table. */
  lemma {:induction false} DecodedInRange(img: File32, v: View, e: Entry)
    requires EntryInside(img, e) && ViewInside(img, v) && SafeEntry(img, v, e) && DecodeEntry(img, v, e).Some?
    ensures var t := DecodeEntry(img, v, e).value;
      !t.Builtin? && forall j :: 0 <= j < |Children(t)| ==> 0 <= Children(t)[j] < v.count
  {
    hide Get, ToCText, ReadText;
    var t := DecodeEntry(img, v, e).value;
    if t.Appl? {
      assert t.args == Children(t)[1..];
    }
  }

  /** What loading needs to know of the view of an accepted image. */
  ghost predicate Ready(img: File32, v: View) {
    && Entries(img, v.tab, v.count) && ViewInside(img, v)
    && forall i :: 0 <= i < v.count ==>
      HeaderFits(img, v.tab, v.count, i) && SafeEntry(img, v, EntryOf(img, v.tab, v.count, i))
  }

  function Decode(img: File32, v: View, i: nat): Option<Thunk>
    requires Ready(img, v) && i < v.count
  {
    DecodeEntry(img, v, EntryOf(img, v.tab, v.count, i))
  }

  lemma {:induction false} DecodedFits(img: File32, v: View, i: nat)
    requires Ready(img, v) && i < v.count && Decode(img, v, i).Some?
    ensures !Decode(img, v, i).value.Builtin? && ChildrenBelow(Decode(img, v, i).value, v.count)
  {
    hide DecodeEntry, SafeEntry, EntryOf, HeaderFits, Children;
    DecodedInRange(img, v, EntryOf(img, v.tab, v.count, i));
  }

  lemma {:induction false} DecodesEach(img: File32)
    requires ValidImage(img) && Loadable(img)
    ensures var v := ViewOf(img);
      && Ready(img, v)
      && (Decodes(img) <==> forall i :: 0 <= i < v.count ==> Decode(img, v, i).Some?)
      && (Decodes(img) && v.count > 0 ==>
          |Decoded(img).entries| == v.count && forall i :: 0 <= i < v.count ==>
            Decoded(img).entries[i] == Decode(img, v, i).value)
  {
    hide ValidEntry, SafeEntry, HeaderFits, DecodeEntry, EntryOf;
    var v := ViewOf(img);
    if forall i :: 0 <= i < v.count ==> Decode(img, v, i).Some? {
      forall i | 0 <= i < v.count
        ensures DecodeEntry(img, v, EntryOf(img, v.tab, v.count, i)).Some?
      {
        assert Decode(img, v, i).Some?;
      }
    }
  }

  /** First pass: one node per entry, in order. */
  method AllocAll(arena: Arena, img: File32, v: View) returns (rc: int, nodes: seq<Ptr>, pends: seq<Pend>)
    requires Ready(img, v)
    modifies arena
    ensures rc == 0 <==> forall i :: 0 <= i < v.count ==> Decode(img, v, i).Some?
    ensures rc == 0 || rc == -EINVAL || rc == -ENOSYS
    ensures old(arena.cells) <= arena.cells
    ensures rc == 0 ==> nodes == Range(|old(arena.cells)|, v.count) && |pends| == v.count
    ensures rc == 0 ==> |arena.cells| == |old(arena.cells)| + v.count
    ensures rc == 0 ==> forall i :: 0 <= i < v.count ==>
      arena.cells[|old(arena.cells)| + i] == Unwired(Decode(img, v, i).value) &&
        pends[i] == PendOf(Decode(img, v, i).value)
  {
    hide DecodeEntry, EntryOf, SafeEntry, HeaderFits, Unwired, PendOf;
    ghost var base := |arena.cells|;
    nodes, pends := [], [];
    var i := 0;
    while i < v.count
      invariant i <= v.count && old(arena.cells) <= arena.cells && |arena.cells| == base + i
      invariant nodes == Range(base, i) && |pends| == i
      invariant forall k :: 0 <= k < i ==> Decode(img, v, k).Some?
      invariant forall k :: 0 <= k < i ==>
        arena.cells[base + k] == Unwired(Decode(img, v, k).value) && pends[k] == PendOf(Decode(img, v, k).value)
    {
      var p, pend;
      rc, p, pend := AllocEntry(arena, img, v, EntryOf(img, v.tab, v.count, i));
      if rc != 0 {
        assert Decode(img, v, i).None?;
        return;
      }
      nodes := nodes + [p];
      pends := pends + [pend];
      i := i + 1;
    }
    rc := 0;
  }

  /** Second pass: every node now exists, so every edge can be set. */
  method WireAll(arena: Arena, nodes: seq<Ptr>, pends: seq<Pend>, ghost h: Heap, ghost ts: seq<Thunk>)
    requires |nodes| == |pends| == |ts| && nodes == Range(|h|, |ts|)
    requires |arena.cells| == |h| + |ts| && h <= arena.cells
    requires forall i :: 0 <= i < |ts| ==> arena.cells[|h| + i] == Unwired(ts[i]) && pends[i] == PendOf(ts[i])
    requires forall i :: 0 <= i < |ts| ==> !ts[i].Builtin? && ChildrenBelow(ts[i], |ts|)
    modifies arena
    ensures |arena.cells| == |h| + |ts| && h <= arena.cells
    ensures forall i :: 0 <= i < |ts| ==> arena.cells[|h| + i] == Relabel(Range(0, |ts|), nodes, ts[i])
  {
    hide Unwired, PendOf, Wire, Relabel, Children;
    var i := 0;
    while i < |pends|
      invariant i <= |ts| && |arena.cells| == |h| + |ts| && h <= arena.cells
      invariant forall k :: 0 <= k < i ==> arena.cells[|h| + k] == Relabel(Range(0, |ts|), nodes, ts[k])
      invariant forall k :: i <= k < |ts| ==> arena.cells[|h| + k] == Unwired(ts[k])
    {
      assert ChildrenBelow(ts[i], |ts|);
      WireIsRelabel(nodes, ts[i]);
      WireEntry(arena, nodes[i], nodes, pends[i], ts[i]);
      i := i + 1;
    }
  }

  /**
    Loads an image into the arena. An image the validator rejects changes nothing; one it accepts and that is safe to
    load is decoded on top of the existing heap, unless some entry has an unknown kind or a missing blob.
   */
  method Materialize(arena: Arena, img: File32) returns (rc: int, roots: seq<Ptr>)
    requires Loadable(img)
    modifies arena
    ensures !ValidImage(img) ==> rc == -EINVAL && arena.cells == old(arena.cells)
    ensures ValidImage(img) && Decodes(img) ==> rc == 0 && arena.cells == Load(old(arena.cells), Decoded(img))
    ensures ValidImage(img) && Decodes(img) ==> roots == LoadRoots(old(arena.cells), Decoded(img))
    ensures ValidImage(img) && !Decodes(img) ==> (rc == -EINVAL || rc == -ENOSYS) && old(arena.cells) <= arena.cells
  {
    hide ViewFits, ViewOf, ValidEntry, SafeEntry, EntryOf, HeaderFits, DecodeEntry, Unwired, PendOf, Relabel, Children,
      GetU32, RootsFit, Ready, Decodes, Decode, Loadable, Load;
    roots := [];
    rc := Validate(img);
    if rc != 0 {
      return;
    }
    var v := ViewOf(img);
    DecodesEach(img);
    if v.count == 0 {
      LoadedCells(arena.cells, Table([], []), arena.cells);
      return 0, [];
    }
    ghost var h := arena.cells;
    var nodes, pends;
    rc, nodes, pends := AllocAll(arena, img, v);
    if rc != 0 {
      return;
    }
    ghost var ts := Decoded(img).entries;
    forall i | 0 <= i < |ts|
      ensures !ts[i].Builtin? && ChildrenBelow(ts[i], |ts|)
    {
      DecodedFits(img, v, i);
    }
    WireAll(arena, nodes, pends, h, ts);
    LoadedCells(h, Decoded(img), arena.cells);
    roots := GatherRoots(img, v, nodes);
  }

  lemma {:induction false} LoadedCells(h: Heap, t: Table, cells: Heap)
    requires |cells| == |h| + |t.entries| && h <= cells
    requires forall i :: 0 <= i < |t.entries| ==>
      cells[|h| + i] == Relabel(Range(0, |t.entries|), Range(|h|, |t.entries|), t.entries[i])
    ensures cells == Load(h, t)
  {
    hide Relabel;
    forall p | 0 <= p < |cells|
      ensures cells[p] == Load(h, t)[p]
    {
      if p >= |h| {
        assert cells[|h| + (p - |h|)] == cells[p];
      }
    }
  }

  method GatherRoots(img: File32, v: View, nodes: seq<Ptr>) returns (roots: seq<Ptr>)
    requires RootsFit(img, v.roots, v.count) && |nodes| == v.count
    ensures roots == RenameAll(Range(0, |nodes|), nodes, ReadIds(img, v.roots.off + 4, GetU32(img, v.roots.off)))
  {
    hide Get;
    var rcnt := GetU32(img, v.roots.off);
    ghost var ids := ReadIds(img, v.roots.off + 4, rcnt);
    roots := [];
    var i := 0;
    while i < rcnt
      invariant i <= rcnt && |roots| == i && forall k :: 0 <= k < i ==> roots[k] == nodes[ids[k]]
    {
      roots := roots + [nodes[GetU32(img, v.roots.off + 4 + 4 * i)]];
      i := i + 1;
    }
    ResolveIsRename(nodes, ids);
    assert roots == Resolve(nodes, ids);
  }
}
