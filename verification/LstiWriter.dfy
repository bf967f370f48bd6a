/** `lsti_write`: numbers the graph breadth first, then writes the file front to back and fills in its tables. */
module LstiWriter {
  import opened Bytes
  import opened Sequences
  import opened ThunkGraph
  import opened LstiTable
  import opened LstiImage

  const EINVAL: int := 22
  const EIO: int := 5

  /** Linear search of a vector: the position of `x`, or -1. */
  method Search<T(==)>(xs: seq<T>, x: T) returns (id: int)
    ensures x in xs ==> id == IndexOf(xs, x)
    ensures x !in xs ==> id == -1
  {
    var j := 0;
    while j < |xs|
      invariant j <= |xs| && x !in xs[..j]
    {
      if xs[j] == x {
        assert x in xs && forall k :: 0 <= k < j ==> xs[..j][k] != x;
        return j;
      }
      j := j + 1;
    }
    assert xs == xs[..j];
    return -1;
  }

  method AddPool(pool: seq<Text>, s: Text) returns (r: seq<Text>)
    ensures r == AddNew(pool, s)
  {
    var id := Search(pool, s);
    r := if id < 0 then pool + [s] else pool;
  }

  method VisitNode(nodes: seq<Ptr>, p: Ptr) returns (r: seq<Ptr>)
    ensures r == Visit(nodes, p)
  {
    r := nodes;
    if p != NULL {
      var id := Search(nodes, p);
      if id < 0 {
        r := nodes + [p];
      }
    }
  }

  method VisitNodes(nodes: seq<Ptr>, ps: seq<Ptr>) returns (r: seq<Ptr>)
    ensures r == VisitAll(nodes, ps)
  {
    r := nodes;
    var i := 0;
    while i < |ps|
      invariant i <= |ps| && r == VisitAll(nodes, ps[..i])
    {
      assert ps[..i + 1][..i] == ps[..i];
      r := VisitNode(r, ps[i]);
      i := i + 1;
    }
    assert ps[..i] == ps;
  }

  // ---- Phase one: numbering and pooling ------------------------------------

  function Picked(h: Heap, at: seq<Ptr>): (r: seq<Thunk>)
    requires forall i :: 0 <= i < |at| ==> 0 <= at[i] < |h|
    ensures |r| == |at| && forall i :: 0 <= i < |at| ==> r[i] == h[at[i]]
  {
    seq(|at|, i requires 0 <= i < |at| => h[at[i]])
  }

  lemma {:induction false} VisitAllCons(ns: seq<Ptr>, p: Ptr, ps: seq<Ptr>)
    ensures VisitAll(ns, [p] + ps) == VisitAll(Visit(ns, p), ps)
  {
    hide Visit;
    var q := [p] + ps;
    if ps == [] {
      assert q[..0] == [] && q[0] == p && |q| == 1;
      assert VisitAll(ns, q[..0]) == ns;
    } else {
      VisitAllCons(ns, p, ps[..|ps| - 1]);
      assert q[..|q| - 1] == [p] + ps[..|ps| - 1];
    }
  }

  /** Pools depend on texts only, which renumbering keeps. */
  lemma {:induction false} TextsRelabelled(strs: seq<Text>, syms: seq<Text>, ns: seq<Ptr>, ms: seq<Ptr>, t: Thunk)
    requires |ns| == |ms|
    ensures PoolString(strs, Relabel(ns, ms, t)) == PoolString(strs, t)
    ensures PoolSymbol(syms, Relabel(ns, ms, t)) == PoolSymbol(syms, t)
  {
    hide AddNew, Rename, RenameAll;
  }

  lemma {:induction false} PoolsRelabelled(h: Heap, at: seq<Ptr>, ns: seq<Ptr>, ms: seq<Ptr>)
    requires |ns| == |ms| && forall i :: 0 <= i < |at| ==> 0 <= at[i] < |h|
    ensures Strings(RelabelNodes(h, at, ns, ms)) == Strings(Picked(h, at))
    ensures Symbols(RelabelNodes(h, at, ns, ms)) == Symbols(Picked(h, at))
  {
    hide PoolString, PoolSymbol, Relabel;
    if at == [] {
    } else {
      var l := |at| - 1;
      PoolsRelabelled(h, at[..l], ns, ms);
      TextsRelabelled(Strings(Picked(h, at[..l])), Symbols(Picked(h, at[..l])), ns, ms, h[at[l]]);
      assert RelabelNodes(h, at, ns, ms)[..l] == RelabelNodes(h, at[..l], ns, ms);
      assert Picked(h, at)[..l] == Picked(h, at[..l]);
    }
  }

  /** The loop body: pool the node's texts, then visit its children. */
  method VisitThunk(nodes: seq<Ptr>, strs: seq<Text>, syms: seq<Text>, t: Thunk)
    returns (nodes': seq<Ptr>, strs': seq<Text>, syms': seq<Text>)
    ensures nodes' == VisitAll(nodes, Children(t))
    ensures strs' == PoolString(strs, t) && syms' == PoolSymbol(syms, t)
  {
    nodes', strs', syms' := nodes, strs, syms;
    match t {
      case Int(_) =>
      case Str(s) => strs' := AddPool(strs, s);
      case Symbol(s) => syms' := AddPool(syms, s);
      case Alge(c, args) =>
        syms' := AddPool(syms, c);
        nodes' := VisitNodes(nodes, args);
      case Appl(f, args) =>
        VisitAllCons(nodes, f, args);
        nodes' := VisitNode(nodes, f);
        nodes' := VisitNodes(nodes', args);
      case Choice(_, l, r) =>
        VisitAllCons(nodes, l, [r]);
        VisitAllCons(Visit(nodes, l), r, []);
        assert [l] + [r] == [l, r] && [r] + [] == [r];
        nodes' := VisitNode(nodes, l);
        nodes' := VisitNode(nodes', r);
      case Ref(n) => syms' := AddPool(syms, n);
      case Builtin(n) => syms' := AddPool(syms, n);
      case Bottom(m, args) =>
        strs' := AddPool(strs, m);
        nodes' := VisitNodes(nodes, args);
    }
  }

  lemma {:induction false} TakeAll<T>(xs: seq<T>)
    ensures xs[..|xs|] == xs
  {
  }

  lemma {:induction false} PickedNone(h: Heap, ns: seq<Ptr>)
    ensures Strings(Picked(h, ns[..0])) == [] && Symbols(Picked(h, ns[..0])) == []
  {
  }

  lemma {:induction false} BfsNext(h: Heap, ns: seq<Ptr>, qh: nat)
    requires Wired(h) && Numbering(h, ns) && qh < |ns| <= |h|
    ensures 0 <= ns[qh] < |h|
    ensures var ns' := VisitAll(ns, Children(h[ns[qh]]));
      Numbering(h, ns') && ns <= ns' && |ns'| <= |h| && Bfs(h, qh + 1, ns') == Bfs(h, qh, ns)
  {
    assert ns[qh] in ns;
    VisitAllNumbering(h, ns, Children(h[ns[qh]]));
  }

  lemma {:induction false} BfsDone(h: Heap, ns: seq<Ptr>)
    requires Wired(h) && Numbering(h, ns) && |ns| <= |h|
    ensures Bfs(h, |ns|, ns) == ns
  {
  }

  /** The state of the search at queue index `qh`: what is still to come, and what the nodes before have pooled. */
  ghost predicate Collected(h: Heap, roots: seq<Ptr>, ns: seq<Ptr>, strs: seq<Text>, syms: seq<Text>, qh: nat)
    requires Wired(h) && InHeap(h, roots)
  {
    && Numbering(h, ns) && qh <= |ns| <= |h| && Bfs(h, qh, ns) == Order(h, roots)
    && strs == Strings(Picked(h, ns[..qh])) && syms == Symbols(Picked(h, ns[..qh]))
  }

  lemma {:induction false} CollectNext(h: Heap, roots: seq<Ptr>, ns: seq<Ptr>, strs: seq<Text>, syms: seq<Text>,
                                       qh: nat)
    requires Wired(h) && InHeap(h, roots) && Collected(h, roots, ns, strs, syms, qh) && qh < |ns|
    ensures 0 <= ns[qh] < |h|
    ensures var t := h[ns[qh]];
      var ns' := VisitAll(ns, Children(t));
      && qh + 1 <= |ns'| <= |h|
      && Collected(h, roots, ns', PoolString(strs, t), PoolSymbol(syms, t), qh + 1)
  {
    hide VisitAll, PoolString, PoolSymbol, Strings, Symbols, Bfs, Order, Children, Wired, Picked;
    BfsNext(h, ns, qh);
    PickedNext(h, ns, VisitAll(ns, Children(h[ns[qh]])), qh);
  }

  lemma {:induction false} CollectDone(h: Heap, roots: seq<Ptr>, ns: seq<Ptr>, strs: seq<Text>, syms: seq<Text>)
    requires Wired(h) && InHeap(h, roots) && Collected(h, roots, ns, strs, syms, |ns|)
    ensures ns == Order(h, roots)
    ensures strs == Strings(TableOf(h, roots).entries) && syms == Symbols(TableOf(h, roots).entries)
  {
    hide Strings, Symbols, Order, Wired, Picked, TableOf;
    TakeAll(ns);
    BfsDone(h, ns);
    TablePools(h, roots);
  }

  /** The pools of the table are those of the nodes in their order. */
  lemma {:induction false} TablePools(h: Heap, roots: seq<Ptr>)
    requires Wired(h) && InHeap(h, roots)
    ensures Strings(TableOf(h, roots).entries) == Strings(Picked(h, Order(h, roots)))
    ensures Symbols(TableOf(h, roots).entries) == Symbols(Picked(h, Order(h, roots)))
  {
    hide Strings, Symbols, Wired, Picked;
    var ns := Order(h, roots);
    PoolsRelabelled(h, ns, ns, Range(0, |ns|));
  }

  lemma {:induction false} PickedNext(h: Heap, ns: seq<Ptr>, ns': seq<Ptr>, qh: nat)
    requires Numbering(h, ns) && Numbering(h, ns') && ns <= ns' && qh < |ns|
    ensures Strings(Picked(h, ns'[..qh + 1])) == PoolString(Strings(Picked(h, ns[..qh])), h[ns[qh]])
    ensures Symbols(Picked(h, ns'[..qh + 1])) == PoolSymbol(Symbols(Picked(h, ns[..qh])), h[ns[qh]])
  {
    var ts := Picked(h, ns'[..qh + 1]);
    assert ts[..qh] == Picked(h, ns[..qh]) && ts[qh] == h[ns[qh]];
  }

  /** The search loop: the queue is the vector of numbered nodes itself. */
  method Collect(h: Heap, roots: seq<Ptr>) returns (nodes: seq<Ptr>, strs: seq<Text>, syms: seq<Text>)
    requires Wired(h) && InHeap(h, roots)
    ensures nodes == Order(h, roots)
    ensures strs == Strings(TableOf(h, roots).entries) && syms == Symbols(TableOf(h, roots).entries)
  {
    VisitAllNumbering(h, [], roots);
    nodes := VisitNodes([], roots);
    strs, syms := [], [];
    PickedNone(h, nodes);
    assert Collected(h, roots, nodes, strs, syms, 0);
    hide VisitAll, PoolString, PoolSymbol, Strings, Symbols, Bfs, Order, Children, Wired, TableOf, Collected;
    var qh := 0;
    while qh < |nodes|
      invariant qh <= |nodes| <= |h| && Collected(h, roots, nodes, strs, syms, qh)
      decreases |h| - qh
    {
      CollectNext(h, roots, nodes, strs, syms, qh);
      nodes, strs, syms := VisitThunk(nodes, strs, syms, h[nodes[qh]]);
      qh := qh + 1;
    }
    CollectDone(h, roots, nodes, strs, syms);
  }

  // ---- Phase two: the file -------------------------------------------------

  ghost predicate AtEnd(fp: File)
    reads fp
  {
    fp.pos == |fp.data|
  }

  /** `fpad_to_align`. */
  method Pad(fp: File, a: AlignLog2)
    requires AtEnd(fp)
    modifies fp
    ensures AtEnd(fp) && fp.data == old(fp.data) + Zeros(Padding(|old(fp.data)|, a))
  {
    ghost var total := Padding(|fp.data|, a);
    var pad := Padding(fp.pos, a);
    while pad > 0
      invariant AtEnd(fp) && pad <= total && fp.data == old(fp.data) + Zeros(total - pad)
    {
      var chunk := if pad > 16 then 16 else pad;
      assert Zeros(total - pad) + Zeros(chunk) == Zeros(total - pad + chunk);
      fp.Write(Zeros(chunk));
      pad := pad - chunk;
    }
  }

  /** The offsets assigned to the entries of a pool. */
  ghost predicate Assigned(pool: seq<Text>, offs: seq<nat>) {
    |offs| == |pool| && forall i :: 0 <= i < |pool| ==> offs[i] == |Concat(pool[..i])|
  }

  lemma {:induction false} ConcatNone(pool: seq<Text>)
    ensures Concat(pool[..0]) == []
  {
  }

  lemma {:induction false} ConcatNext(pool: seq<Text>, i: nat)
    requires i < |pool|
    ensures Concat(pool[..i + 1]) == Concat(pool[..i]) + pool[i]
  {
    assert pool[..i + 1][..i] == pool[..i];
  }

  /** Writes a blob and returns the offset assigned to each pool entry. */
  method WriteBlob(fp: File, pool: seq<Text>) returns (offs: seq<nat>)
    requires AtEnd(fp)
    modifies fp
    ensures AtEnd(fp) && fp.data == old(fp.data) + Blob(pool)
    ensures Assigned(pool, offs)
  {
    hide LittleEndian, Concat;
    fp.Write(U32(0));
    ConcatNone(pool);
    offs := [];
    var cur := 0;
    var i := 0;
    while i < |pool|
      invariant i <= |pool| && AtEnd(fp) && cur == |Concat(pool[..i])|
      invariant fp.data == old(fp.data) + U32(0) + Concat(pool[..i])
      invariant |offs| == i && forall k :: 0 <= k < i ==> offs[k] == |Concat(pool[..k])|
    {
      ConcatNext(pool, i);
      Assoc(old(fp.data) + U32(0), Concat(pool[..i]), pool[i]);
      offs := offs + [cur];
      fp.Write(pool[i]);
      cur := cur + |pool[i]|;
      i := i + 1;
    }
    assert pool[..i] == pool;
    Assoc(old(fp.data), U32(0), Concat(pool));
  }

  /** The numbers of one more pointer than before. */
  lemma {:induction false} IdsNext(nodes: seq<Ptr>, ps: seq<Ptr>, k: nat, id: nat)
    requires k < |ps| && ps[k] in nodes && id == IndexOf(nodes, ps[k])
    ensures Ids(RenameAll(nodes, Range(0, |nodes|), ps[..k + 1]))
         == Ids(RenameAll(nodes, Range(0, |nodes|), ps[..k])) + U32(id)
  {
    hide LittleEndian, IndexOf;
    var ids := Range(0, |nodes|);
    var r := RenameAll(nodes, ids, ps[..k + 1]);
    assert r[..k] == RenameAll(nodes, ids, ps[..k]) && r[k] == id;
  }

  /** Writes the entry numbers of `ps`, stopping at a pointer that has none. */
  method WriteIds(fp: File, nodes: seq<Ptr>, ps: seq<Ptr>) returns (rc: int)
    requires AtEnd(fp) && NULL !in nodes && forall p :: p in ps ==> p == NULL || p in nodes
    modifies fp
    ensures AtEnd(fp) && (rc == 0 || rc == -EIO) && (rc == 0 <==> NULL !in ps)
    ensures rc == 0 ==> fp.data == old(fp.data) + Ids(RenameAll(nodes, Range(0, |nodes|), ps))
  {
    hide LittleEndian, IndexOf, Rename;
    ghost var ids := Range(0, |nodes|);
    var k := 0;
    while k < |ps|
      invariant k <= |ps| && AtEnd(fp) && NULL !in ps[..k]
      invariant fp.data == old(fp.data) + Ids(RenameAll(nodes, ids, ps[..k]))
    {
      var id := Search(nodes, ps[k]);
      if id < 0 {
        return -EIO;
      }
      IdsNext(nodes, ps, k, id);
      fp.Write(U32(id));
      k := k + 1;
    }
    assert ps[..k] == ps;
    rc := 0;
  }

  /** An entry that is only a header naming a pooled text. */
  method WriteText(fp: File, kind: byte, pool: seq<Text>, offs: seq<nat>, s: Text)
    requires AtEnd(fp) && Assigned(pool, offs) && s in pool
    modifies fp
    ensures AtEnd(fp) && fp.data == old(fp.data) + EntryHeader(kind, |s|, TextOffset(pool, s))
  {
    var i := Search(pool, s);
    fp.Write(EntryHeader(kind, |s|, offs[i]));
  }

  /** A constructor or bottom: header, length of the text, child numbers. */
  method WriteNode(fp: File, kind: byte, pool: seq<Text>, offs: seq<nat>, s: Text, nodes: seq<Ptr>, args: seq<Ptr>)
    returns (rc: int)
    requires AtEnd(fp) && Assigned(pool, offs) && s in pool
    requires NULL !in nodes && forall p :: p in args ==> p == NULL || p in nodes
    modifies fp
    ensures AtEnd(fp) && (rc == 0 || rc == -EIO) && (rc == 0 <==> NULL !in args)
    ensures rc == 0 ==>
      fp.data == old(fp.data) +
        (EntryHeader(kind, |args|, TextOffset(pool, s)) + (U32(|s|) + Ids(RenameAll(nodes, Range(0, |nodes|), args))))
  {
    hide LittleEndian, Ids, Concat;
    var i := Search(pool, s);
    fp.Write(EntryHeader(kind, |args|, offs[i]));
    fp.Write(U32(|s|));
    rc := WriteIds(fp, nodes, args);
  }

  method WriteApplication(fp: File, nodes: seq<Ptr>, f: Ptr, args: seq<Ptr>) returns (rc: int)
    requires AtEnd(fp) && NULL !in nodes && (f == NULL || f in nodes) && NULL !in args && forall p :: p in args ==>
      p in nodes
    modifies fp
    ensures AtEnd(fp) && (rc == 0 || rc == -EIO) && (rc == 0 <==> f != NULL)
    ensures rc == 0 ==>
      fp.data == old(fp.data) +
        (EntryHeader(KIND_APPL, |args|, Cast32(Rename(nodes, Range(0, |nodes|), f)))
          + Ids(RenameAll(nodes, Range(0, |nodes|), args)))
  {
    hide LittleEndian, Ids;
    var fid := Search(nodes, f);
    if fid < 0 {
      return -EIO;
    }
    hide IndexOf;
    assert Cast32(Rename(nodes, Range(0, |nodes|), f)) == fid;
    fp.Write(EntryHeader(KIND_APPL, |args|, fid));
    rc := WriteIds(fp, nodes, args);
  }

  method WriteChoice(fp: File, nodes: seq<Ptr>, k: ChoiceKind, l: Ptr, r: Ptr) returns (rc: int)
    requires AtEnd(fp) && NULL !in nodes && (l == NULL || l in nodes) && (r == NULL || r in nodes)
    modifies fp
    ensures AtEnd(fp) && (rc == 0 || rc == -EIO) && (rc == 0 <==> l != NULL && r != NULL)
    ensures rc == 0 ==>
      fp.data == old(fp.data) + (EntryHeader(KIND_CHOICE, k, 0) +
        (U32(Cast32(Rename(nodes, Range(0, |nodes|), l))) + U32(Cast32(Rename(nodes, Range(0, |nodes|), r)))))
  {
    hide LittleEndian;
    fp.Write(EntryHeader(KIND_CHOICE, k, 0));
    var lid := Search(nodes, l);
    var rid := Search(nodes, r);
    if lid < 0 || rid < 0 {
      return -EIO;
    }
    hide IndexOf;
    assert Rename(nodes, Range(0, |nodes|), l) == lid && Rename(nodes, Range(0, |nodes|), r) == rid;
    fp.Write(U32(lid));
    fp.Write(U32(rid));
    rc := 0;
  }

  /** One table entry: the fixed header, then the payload its kind calls for. */
  method WriteEntry(fp: File, nodes: seq<Ptr>, strs: seq<Text>, soffs: seq<nat>, syms: seq<Text>, yoffs: seq<nat>,
                    t: Thunk)
    returns (rc: int)
    requires AtEnd(fp) && NULL !in nodes && ChildrenIn(t, nodes)
    requires (t.Alge? || t.Appl? || t.Bottom?) ==> NULL !in t.args
    requires Assigned(strs, soffs) && Assigned(syms, yoffs) && Pooled(strs, syms, Relabel(nodes, Range(0, |nodes|), t))
    modifies fp
    ensures AtEnd(fp) && (rc == 0 || rc == -EIO) && (rc == 0 <==> NULL !in Children(t))
    ensures rc == 0 ==> fp.data == old(fp.data) + EncodeEntry(strs, syms, Relabel(nodes, Range(0, |nodes|), t))
  {
    hide LittleEndian, Ids, Concat, IndexOf, TextOffset;
    rc := 0;
    match t {
      case Int(v) => fp.Write(EntryHeader(KIND_INT, 0, Cast32(v)));
      case Str(s) => WriteText(fp, KIND_STR, strs, soffs, s);
      case Symbol(s) => WriteText(fp, KIND_SYMBOL, syms, yoffs, s);
      case Ref(n) => WriteText(fp, KIND_REF, syms, yoffs, n);
      case Builtin(n) => WriteText(fp, KIND_REF, syms, yoffs, n);
      case Alge(c, args) => rc := WriteNode(fp, KIND_ALGE, syms, yoffs, c, nodes, args);
      case Bottom(m, args) => rc := WriteNode(fp, KIND_BOTTOM, strs, soffs, m, nodes, args);
      case Appl(f, args) =>
        assert Children(t)[0] == f && args == Children(t)[1..];
        rc := WriteApplication(fp, nodes, f, args);
      case Choice(k, l, r) =>
        assert Children(t)[0] == l && Children(t)[1] == r;
        rc := WriteChoice(fp, nodes, k, l, r);
    }
  }

  /** The table as stored, with every pool it names. */
  ghost predicate TabReady(h: Heap, nodes: seq<Ptr>, strs: seq<Text>, syms: seq<Text>) {
    && Wired(h) && Numbering(h, nodes) && Closed(h, nodes)
    && forall i :: 0 <= i < |nodes| ==> Pooled(strs, syms, Relabel(nodes, Range(0, |nodes|), h[nodes[i]]))
  }

  /** Chunk `i` is the encoding of the numbered node `i`. */
  ghost predicate ChunksOf(h: Heap, nodes: seq<Ptr>, strs: seq<Text>, syms: seq<Text>, chunks: seq<seq<byte>>)
    requires TabReady(h, nodes, strs, syms) && |chunks| == |nodes|
  {
    forall i :: 0 <= i < |nodes| ==>
      chunks[i] == EncodeEntry(strs, syms, Relabel(nodes, Range(0, |nodes|), h[nodes[i]]))
  }

  ghost function TabChunks(h: Heap, nodes: seq<Ptr>, strs: seq<Text>, syms: seq<Text>): (r: seq<seq<byte>>)
    requires TabReady(h, nodes, strs, syms)
    ensures |r| == |nodes| && ChunksOf(h, nodes, strs, syms, r)
  {
    EncodeEntries(strs, syms, RelabelNodes(h, nodes, nodes, Range(0, |nodes|)))
  }

  /** A numbered node can be written: its children are numbered and its texts pooled. */
  lemma {:induction false} EntryReady(h: Heap, nodes: seq<Ptr>, strs: seq<Text>, syms: seq<Text>, i: nat)
    requires TabReady(h, nodes, strs, syms) && i < |nodes|
    ensures 0 <= nodes[i] < |h| && NULL !in nodes && ChildrenIn(h[nodes[i]], nodes)
    ensures var t := h[nodes[i]];
      && ((t.Alge? || t.Appl? || t.Bottom?) ==> NULL !in t.args)
      && Pooled(strs, syms, Relabel(nodes, Range(0, |nodes|), t))
      && TabChunks(h, nodes, strs, syms)[i] == EncodeEntry(strs, syms, Relabel(nodes, Range(0, |nodes|), t))
  {
    hide Pooled, Relabel, Children, EncodeEntry;
  }

  /** None of the first `n` numbered nodes has a null pointer. */
  ghost predicate NoneNull(h: Heap, nodes: seq<Ptr>, n: nat)
    requires n <= |nodes| && forall i :: 0 <= i < |nodes| ==> 0 <= nodes[i] < |h|
  {
    forall i :: 0 <= i < n ==> NULL !in Children(h[nodes[i]])
  }

  lemma {:induction false} NoneNullAtAll(h: Heap, nodes: seq<Ptr>)
    requires forall k :: 0 <= k < |nodes| ==> 0 <= nodes[k] < |h|
    ensures NoneNull(h, nodes, 0)
  {
  }

  lemma {:induction false} NoneNullNext(h: Heap, nodes: seq<Ptr>, i: nat)
    requires i < |nodes| && forall k :: 0 <= k < |nodes| ==> 0 <= nodes[k] < |h|
    ensures NoneNull(h, nodes, i + 1) <==> NoneNull(h, nodes, i) && NULL !in Children(h[nodes[i]])
    ensures NULL in Children(h[nodes[i]]) ==> !NoneNull(h, nodes, |nodes|)
  {
  }

  /** Where the entries start. */
  ghost predicate OffsetsOf(chunks: seq<seq<byte>>, rel: seq<nat>) {
    |rel| <= |chunks| && forall i :: 0 <= i < |rel| ==> rel[i] == EntryOffset(chunks, i)
  }

  lemma {:induction false} NoOffsets(chunks: seq<seq<byte>>)
    ensures OffsetsOf(chunks, [])
  {
  }

  lemma {:induction false} OffsetsNext(chunks: seq<seq<byte>>, rel: seq<nat>, off: nat)
    requires |rel| < |chunks| && OffsetsOf(chunks, rel) && off == EntryOffset(chunks, |rel|)
    ensures OffsetsOf(chunks, rel + [off])
  {
    hide EntryOffset;
  }

  /** Writes the entries one after the other and notes where each began. */
  method WriteEntries(fp: File, h: Heap, nodes: seq<Ptr>, strs: seq<Text>, soffs: seq<nat>, syms: seq<Text>,
                      yoffs: seq<nat>, tabOff: nat)
    returns (rc: int, rel: seq<nat>)
    requires AtEnd(fp) && TabReady(h, nodes, strs, syms) && Assigned(strs, soffs) && Assigned(syms, yoffs)
    requires |fp.data| == tabOff + 4 + 8 * |nodes|
    modifies fp
    ensures AtEnd(fp) && (rc == 0 || rc == -EIO)
    ensures rc == 0 <==> NoneNull(h, nodes, |nodes|)
    ensures rc == 0 ==> fp.data == old(fp.data) + Concat(TabChunks(h, nodes, strs, syms))
    ensures rc == 0 ==> |rel| == |nodes| && OffsetsOf(TabChunks(h, nodes, strs, syms), rel)
  {
    assert forall k :: 0 <= k < |nodes| ==> 0 <= nodes[k] < |h|;
    hide LittleEndian, EncodeEntry, Relabel, Children, Pooled, TabReady, Concat, Assigned, EntryOffset, OffsetsOf,
      ChunksOf, TabChunks, NoneNull;
    ghost var base, chunks := fp.data, TabChunks(h, nodes, strs, syms);
    ConcatNone(chunks);
    rel := [];
    NoOffsets(chunks);
    assert NoneNull(h, nodes, 0) by { NoneNullAtAll(h, nodes); }
    var i := 0;
    while i < |nodes|
      invariant i <= |nodes| && AtEnd(fp) && |rel| == i
      invariant NoneNull(h, nodes, i) && OffsetsOf(chunks, rel)
      invariant fp.data == base + Concat(chunks[..i])
    {
      var off;
      rc, off := WriteNth(fp, h, nodes, strs, soffs, syms, yoffs, tabOff, i, base);
      NoneNullNext(h, nodes, i);
      if rc != 0 {
        return rc, rel;
      }
      OffsetsNext(chunks, rel, off);
      rel := rel + [off];
      i := i + 1;
    }
    TakeAll(chunks);
    rc := 0;
  }

  /** Writes entry `i` and returns where it starts. */
  method WriteNth(fp: File, h: Heap, nodes: seq<Ptr>, strs: seq<Text>, soffs: seq<nat>, syms: seq<Text>,
                  yoffs: seq<nat>, tabOff: nat, i: nat, ghost base: seq<byte>)
    returns (rc: int, off: nat)
    requires AtEnd(fp) && TabReady(h, nodes, strs, syms) && Assigned(strs, soffs) && Assigned(syms, yoffs)
    requires i < |nodes| && 0 <= nodes[i] < |h| && |base| == tabOff + 4 + 8 * |nodes|
    requires fp.data == base + Concat(TabChunks(h, nodes, strs, syms)[..i])
    modifies fp
    ensures AtEnd(fp) && (rc == 0 || rc == -EIO) && (rc == 0 <==> NULL !in Children(h[nodes[i]]))
    ensures rc == 0 ==> fp.data == base + Concat(TabChunks(h, nodes, strs, syms)[..i + 1])
    ensures off == EntryOffset(TabChunks(h, nodes, strs, syms), i)
  {
    EntryReady(h, nodes, strs, syms, i);
    hide LittleEndian, EncodeEntry, Relabel, Children, Pooled, TabReady, ChildrenIn, Concat, Assigned, Rename;
    ghost var chunks := TabChunks(h, nodes, strs, syms);
    ConcatNext(chunks, i);
    Assoc(base, Concat(chunks[..i]), chunks[i]);
    off := fp.pos - tabOff;
    rc := WriteEntry(fp, nodes, strs, soffs, syms, yoffs, h[nodes[i]]);
  }

  /** Overwrites `mid` in place. */
  method Overwrite(fp: File, b: seq<byte>, ghost done: seq<byte>, ghost mid: seq<byte>, ghost rest: seq<byte>)
    requires fp.data == done + (mid + rest) && fp.pos == |done| && |mid| == |b|
    modifies fp
    ensures fp.data == (done + b) + rest && fp.pos == |done| + |b|
  {
    assert fp.data[..|done|] == done && fp.data[|done| + |b|..] == rest;
    fp.Write(b);
  }

  lemma {:induction false} ZerosSplit(m: nat, n: nat, rest: seq<byte>)
    ensures Zeros(m + n) + rest == Zeros(m) + (Zeros(n) + rest)
  {
  }

  /** Overwrites the reserved offsets that follow `before` and precede `after`. */
  method Backfill(fp: File, rel: seq<nat>, ghost chunks: seq<seq<byte>>, ghost before: seq<byte>,
                  ghost after: seq<byte>)
    requires |rel| == |chunks| && forall i :: 0 <= i < |rel| ==> rel[i] == EntryOffset(chunks, i)
    requires fp.data == before + (Zeros(8 * |rel|) + after) && fp.pos == |before|
    modifies fp
    ensures fp.Valid() && fp.data == before + OffsetTable(chunks, |chunks|) + after
  {
    hide LittleEndian, EntryOffset, Zeros;
    var i := 0;
    while i < |rel|
      invariant i <= |rel| && fp.pos == |before| + 8 * i
      invariant fp.data == (before + OffsetTable(chunks, i)) + (Zeros(8 * (|rel| - i)) + after)
    {
      ghost var done, rest := before + OffsetTable(chunks, i), Zeros(8 * (|rel| - i - 1)) + after;
      ZerosSplit(8, 8 * (|rel| - i - 1), after);
      Overwrite(fp, U64(rel[i]), done, Zeros(8), rest);
      Assoc(before, OffsetTable(chunks, i), U64(rel[i]));
      i := i + 1;
    }
    assert Zeros(0) == [];
  }

  method WriteThunkTab(fp: File, h: Heap, nodes: seq<Ptr>, strs: seq<Text>, soffs: seq<nat>, syms: seq<Text>,
                       yoffs: seq<nat>)
    returns (rc: int)
    requires AtEnd(fp) && TabReady(h, nodes, strs, syms) && Assigned(strs, soffs) && Assigned(syms, yoffs)
    modifies fp
    ensures AtEnd(fp) && (rc == 0 || rc == -EIO)
    ensures rc == 0 <==> forall i :: 0 <= i < |nodes| ==> NULL !in Children(h[nodes[i]])
    ensures rc == 0 ==> fp.data == old(fp.data) + ThunkTab(TabChunks(h, nodes, strs, syms))
  {
    hide LittleEndian, EncodeEntry, Relabel, Children, Pooled, TabReady, Concat;
    ghost var chunks := TabChunks(h, nodes, strs, syms);
    var tabOff := fp.pos;
    fp.Write(U32(|nodes|));
    var offsPos := fp.pos;
    ghost var before := fp.data;
    var i := 0;
    while i < |nodes|
      invariant i <= |nodes| && AtEnd(fp) && fp.data == before + Zeros(8 * i)
    {
      assert Zeros(8 * i) + Zeros(8) == Zeros(8 * (i + 1));
      fp.Write(Zeros(8));
      i := i + 1;
    }
    var rel;
    rc, rel := WriteEntries(fp, h, nodes, strs, soffs, syms, yoffs, tabOff);
    if rc != 0 {
      return;
    }
    var end := fp.pos;
    fp.Seek(offsPos);
    Assoc(before, Zeros(8 * |nodes|), Concat(chunks));
    Backfill(fp, rel, chunks, before, Concat(chunks));
    fp.Seek(end);
  }

  method WriteRoots(fp: File, nodes: seq<Ptr>, roots: seq<Ptr>) returns (rc: int)
    requires AtEnd(fp) && NULL !in nodes && forall p :: p in roots ==> p == NULL || p in nodes
    modifies fp
    ensures AtEnd(fp) && (rc == 0 || rc == -EIO) && (rc == 0 <==> NULL !in roots)
    ensures rc == 0 ==> fp.data == old(fp.data) + RootsTab(RenameAll(nodes, Range(0, |nodes|), roots))
  {
    hide LittleEndian, Ids;
    fp.Write(U32(|roots|));
    rc := WriteIds(fp, nodes, roots);
  }

  // ---- The whole writer ----------------------------------------------------

  datatype Row = Row(kind: nat, off: nat, size: nat)

  /** Header, reserved section table, and the sections so far. */
  ghost predicate Laid(data: seq<byte>, hd: seq<byte>, k: nat, secs: seq<Section>, pad: Padder) {
    |hd| == 16 && data == hd + (Zeros(24 * k) + Body(16 + 24 * k, secs, pad))
  }

  ghost predicate RowsFor(rows: seq<Row>, k: nat, secs: seq<Section>, pad: Padder) {
    && |rows| == |secs|
    && forall i :: 0 <= i < |secs| ==>
        rows[i] == Row(secs[i].kind, SectionOffset(16 + 24 * k, secs, pad, i), |secs[i].payload|)
  }

  lemma {:induction false} Regroup(a: seq<byte>, b: seq<byte>, c: seq<byte>, d: seq<byte>, e: seq<byte>)
    ensures a + (b + c) + d + e == a + (b + (c + d + e))
  {
  }

  lemma {:induction false} RowsNext(rows: seq<Row>, k: nat, secs: seq<Section>, pad: Padder, x: Section)
    requires RowsFor(rows, k, secs, pad)
    ensures var p := 16 + 24 * k + |Body(16 + 24 * k, secs, pad)|;
      RowsFor(rows + [Row(x.kind, p + pad(p), |x.payload|)], k, secs + [x], pad)
  {
    hide Body;
    var start, secs' := 16 + 24 * k, secs + [x];
    assert secs'[..|secs|] == secs;
    forall i | 0 <= i < |secs|
      ensures SectionOffset(start, secs', pad, i) == SectionOffset(start, secs, pad, i)
    {
      assert secs'[..i] == secs[..i];
    }
  }

  /** Padding and a payload add one section. */
  lemma {:induction false} LaidNext(data: seq<byte>, hd: seq<byte>, k: nat, secs: seq<Section>, pad: Padder,
                                    rows: seq<Row>, x: Section, data': seq<byte>)
    requires Laid(data, hd, k, secs, pad) && RowsFor(rows, k, secs, pad)
    requires data' == data + Zeros(pad(|data|)) + x.payload
    ensures Laid(data', hd, k, secs + [x], pad)
    ensures RowsFor(rows + [Row(x.kind, |data| + pad(|data|), |x.payload|)], k, secs + [x], pad)
  {
    hide RowsFor;
    var start, secs' := 16 + 24 * k, secs + [x];
    var b := Body(start, secs, pad);
    assert |data| == start + |b|;
    assert secs'[..|secs|] == secs;
    assert Body(start, secs', pad) == b + Zeros(pad(start + |b|)) + x.payload;
    Regroup(hd, Zeros(24 * k), b, Zeros(pad(start + |b|)), x.payload);
    RowsNext(rows, k, secs, pad, x);
  }

  lemma {:induction false} NoSections(start: nat, secs: seq<Section>, pad: Padder)
    ensures SectionTable(start, secs, pad, 0) == []
  {
  }

  lemma {:induction false} NextSection(start: nat, secs: seq<Section>, pad: Padder, i: nat)
    requires i < |secs|
    ensures SectionTable(start, secs, pad, i + 1) == SectionTable(start, secs, pad, i)
      + SectionEntry(start, secs, pad, i)
  {
  }

  /** The section table is written over the space reserved for it. */
  method BackfillSections(fp: File, rows: seq<Row>, ghost hd: seq<byte>, ghost secs: seq<Section>, ghost pad: Padder)
    requires Laid(fp.data, hd, |rows|, secs, pad) && RowsFor(rows, |rows|, secs, pad) && fp.pos == 16
    modifies fp
    ensures fp.Valid()
    ensures fp.data == hd + (SectionTable(16 + 24 * |secs|, secs, pad, |secs|) + Body(16 + 24 * |secs|, secs, pad))
  {
    hide LittleEndian, Body, Zeros, SectionTable;
    ghost var start := 16 + 24 * |rows|;
    ghost var body := Body(start, secs, pad);
    NoSections(start, secs, pad);
    var i := 0;
    while i < |rows|
      invariant i <= |rows| && fp.pos == 16 + 24 * i
      invariant fp.data == (hd + SectionTable(start, secs, pad, i)) + (Zeros(24 * (|rows| - i)) + body)
    {
      ghost var done, rest := hd + SectionTable(start, secs, pad, i), Zeros(24 * (|rows| - i - 1)) + body;
      ZerosSplit(24, 24 * (|rows| - i - 1), body);
      var row := U32(rows[i].kind) + (U32(0) + (U64(rows[i].off) + U64(rows[i].size)));
      assert row == SectionEntry(start, secs, pad, i);
      NextSection(start, secs, pad, i);
      Overwrite(fp, row, done, Zeros(24), rest);
      Assoc(hd, SectionTable(start, secs, pad, i), row);
      i := i + 1;
    }
    assert Zeros(0) == [];
    Assoc(hd, SectionTable(start, secs, pad, i), body);
  }

  /** Every pointer got a number exactly when no null was reached. */
  lemma {:induction false} CompleteIff(h: Heap, roots: seq<Ptr>)
    requires Wired(h) && InHeap(h, roots)
    ensures var ns := Order(h, roots);
      Complete(TableOf(h, roots)) <==> NULL !in roots && forall i :: 0 <= i < |ns| ==> NULL !in Children(h[ns[i]])
  {
    var ns, t := Order(h, roots), TableOf(h, roots);
    var ids := Range(0, |ns|);
    OrderIsReachable(h, roots);
    RenamedNull(ns, roots);
    forall i | 0 <= i < |ns|
      ensures NULL in Children(t.entries[i]) <==> NULL in Children(h[ns[i]])
    {
      ChildrenRenamed(ns, ids, h[ns[i]]);
      assert ChildrenIn(h[ns[i]], ns);
      RenamedNull(ns, Children(h[ns[i]]));
    }
    assert forall i :: 0 <= i < |ns| ==> t.entries[i] in t.entries;
  }

  lemma {:induction false} RenamedNull(ns: seq<Ptr>, ps: seq<Ptr>)
    requires NULL !in ns && forall p :: p in ps ==> p == NULL || p in ns
    ensures NULL in RenameAll(ns, Range(0, |ns|), ps) <==> NULL in ps
  {
    var r := RenameAll(ns, Range(0, |ns|), ps);
    forall i | 0 <= i < |ps|
      ensures r[i] == NULL <==> ps[i] == NULL
    {
      assert ps[i] in ps;
    }
    if NULL in ps {
      var i :| 0 <= i < |ps| && ps[i] == NULL;
      assert r[i] == NULL;
    }
  }

  /** What the collected nodes and pools satisfy. */
  lemma {:induction false} CollectedReady(h: Heap, roots: seq<Ptr>)
    requires Wired(h) && InHeap(h, roots)
    ensures var ns, t := Order(h, roots), TableOf(h, roots);
      && NULL !in ns && (forall p :: p in roots ==> p == NULL || p in ns)
      && TabReady(h, ns, Strings(t.entries), Symbols(t.entries))
      && TabChunks(h, ns, Strings(t.entries), Symbols(t.entries)) == Chunks(t)
  {
    var t := TableOf(h, roots);
    OrderIsReachable(h, roots);
    AllPooled(t.entries);
    assert forall i :: 0 <= i < |t.entries| ==> Pooled(Strings(t.entries), Symbols(t.entries), t.entries[i]);
  }

  lemma {:induction false} RowsForNone(k: nat, pad: Padder)
    ensures RowsFor([], k, [], pad)
  {
  }

  lemma {:induction false} RowsForSize(rows: seq<Row>, k: nat, secs: seq<Section>, pad: Padder)
    requires RowsFor(rows, k, secs, pad)
    ensures |rows| == |secs|
  {
  }

  lemma {:induction false} LaidSize(data: seq<byte>, hd: seq<byte>, k: nat, secs: seq<Section>, pad: Padder)
    requires Laid(data, hd, k, secs, pad)
    ensures |data| >= 16 + 24 * k
  {
  }

  /** Header and reserved section table. */
  method WriteFront(fp: File, count: nat, a: AlignLog2, flags: nat)
    requires AtEnd(fp) && fp.data == []
    modifies fp
    ensures AtEnd(fp) && Laid(fp.data, Header(count, a, flags), count, [], PadTo(a))
  {
    hide LittleEndian;
    fp.Write(Header(count, a, flags));
    var i := 0;
    while i < count
      invariant i <= count && AtEnd(fp) && fp.data == Header(count, a, flags) + Zeros(24 * i)
    {
      assert Zeros(24 * i) + Zeros(24) == Zeros(24 * (i + 1));
      fp.Write(Zeros(24));
      i := i + 1;
    }
    assert Zeros(24 * count) + Body(16 + 24 * count, [], PadTo(a)) == Zeros(24 * count);
  }

  /** A blob is a section only when its pool has entries. */
  method WriteBlobSection(fp: File, kind: nat, pool: seq<Text>, a: AlignLog2, rows: seq<Row>,
                          ghost hd: seq<byte>, ghost k: nat, ghost secs: seq<Section>)
    returns (rows': seq<Row>, offs: seq<nat>, ghost secs': seq<Section>)
    requires AtEnd(fp) && Laid(fp.data, hd, k, secs, PadTo(a)) && RowsFor(rows, k, secs, PadTo(a))
    modifies fp
    ensures AtEnd(fp) && Laid(fp.data, hd, k, secs', PadTo(a)) && RowsFor(rows', k, secs', PadTo(a))
    ensures secs' == secs + (if pool == [] then [] else [Section(kind, Blob(pool))])
    ensures Assigned(pool, offs)
  {
    hide Laid, RowsFor, Body, Padding, Concat, Blob;
    if pool == [] {
      assert secs == secs + [];
      return rows, [], secs;
    }
    Pad(fp, a);
    var off := fp.pos;
    offs := WriteBlob(fp, pool);
    rows' := rows + [Row(kind, off, fp.pos - off)];
    secs' := secs + [Section(kind, Blob(pool))];
    LaidNext(old(fp.data), hd, k, secs, PadTo(a), rows, Section(kind, Blob(pool)), fp.data);
  }

  method WriteTabSection(fp: File, h: Heap, nodes: seq<Ptr>, strs: seq<Text>, soffs: seq<nat>, syms: seq<Text>,
                         yoffs: seq<nat>, a: AlignLog2, rows: seq<Row>, ghost hd: seq<byte>, ghost k: nat,
                         ghost secs: seq<Section>)
    returns (rc: int, rows': seq<Row>, ghost secs': seq<Section>)
    requires AtEnd(fp) && Laid(fp.data, hd, k, secs, PadTo(a)) && RowsFor(rows, k, secs, PadTo(a))
    requires TabReady(h, nodes, strs, syms) && Assigned(strs, soffs) && Assigned(syms, yoffs)
    modifies fp
    ensures AtEnd(fp) && (rc == 0 || rc == -EIO)
    ensures rc == 0 <==> forall i :: 0 <= i < |nodes| ==> NULL !in Children(h[nodes[i]])
    ensures rc == 0 ==> Laid(fp.data, hd, k, secs', PadTo(a)) && RowsFor(rows', k, secs', PadTo(a))
    ensures secs' == secs + [Section(SECT_THUNK_TAB, ThunkTab(TabChunks(h, nodes, strs, syms)))]
  {
    hide Laid, RowsFor, Body, Padding, ThunkTab, TabReady, Assigned, Children;
    ghost var x := Section(SECT_THUNK_TAB, ThunkTab(TabChunks(h, nodes, strs, syms)));
    secs' := secs + [x];
    Pad(fp, a);
    var off := fp.pos;
    rc := WriteThunkTab(fp, h, nodes, strs, soffs, syms, yoffs);
    rows' := rows;
    if rc == 0 {
      rows' := rows + [Row(SECT_THUNK_TAB, off, fp.pos - off)];
      LaidNext(old(fp.data), hd, k, secs, PadTo(a), rows, x, fp.data);
    }
  }

  method WriteRootsSection(fp: File, nodes: seq<Ptr>, roots: seq<Ptr>,
                           a: AlignLog2, rows: seq<Row>, ghost hd: seq<byte>, ghost k: nat, ghost secs: seq<Section>)
    returns (rc: int, rows': seq<Row>, ghost secs': seq<Section>)
    requires AtEnd(fp) && Laid(fp.data, hd, k, secs, PadTo(a)) && RowsFor(rows, k, secs, PadTo(a))
    requires NULL !in nodes && forall p :: p in roots ==> p == NULL || p in nodes
    modifies fp
    ensures AtEnd(fp) && (rc == 0 || rc == -EIO) && (rc == 0 <==> NULL !in roots)
    ensures rc == 0 ==> Laid(fp.data, hd, k, secs', PadTo(a)) && RowsFor(rows', k, secs', PadTo(a))
    ensures secs' == secs + [Section(SECT_ROOTS, RootsTab(RenameAll(nodes, Range(0, |nodes|), roots)))]
  {
    hide Laid, RowsFor, Body, Padding, RootsTab;
    ghost var x := Section(SECT_ROOTS, RootsTab(RenameAll(nodes, Range(0, |nodes|), roots)));
    secs' := secs + [x];
    Pad(fp, a);
    var off := fp.pos;
    rc := WriteRoots(fp, nodes, roots);
    rows' := rows;
    if rc == 0 {
      rows' := rows + [Row(SECT_ROOTS, off, fp.pos - off)];
      LaidNext(old(fp.data), hd, k, secs, PadTo(a), rows, x, fp.data);
    }
  }

  /** The four sections in file order. */
  method WriteSections(fp: File, h: Heap, roots: seq<Ptr>, nodes: seq<Ptr>, strs: seq<Text>, syms: seq<Text>,
                       a: AlignLog2, ghost hd: seq<byte>, ghost k: nat)
    returns (rc: int, rows: seq<Row>)
    requires AtEnd(fp) && Laid(fp.data, hd, k, [], PadTo(a)) && TabReady(h, nodes, strs, syms)
    requires NULL !in nodes && forall p :: p in roots ==> p == NULL || p in nodes
    modifies fp
    ensures AtEnd(fp) && (rc == 0 || rc == -EIO)
    ensures rc == 0 <==> NULL !in roots && forall i :: 0 <= i < |nodes| ==> NULL !in Children(h[nodes[i]])
    ensures rc == 0 ==>
      var secs := SectionsFor(strs, syms, TabChunks(h, nodes, strs, syms), RenameAll(nodes, Range(0, |nodes|), roots));
      Laid(fp.data, hd, k, secs, PadTo(a)) && RowsFor(rows, k, secs, PadTo(a))
  {
    hide LittleEndian, Blob, ThunkTab, RootsTab, PadTo, TabReady, Laid, RowsFor, Assigned, TabChunks, Children;
    rows := [];
    RowsForNone(k, PadTo(a));
    ghost var secs: seq<Section> := [];
    var soffs, yoffs;
    rows, soffs, secs := WriteBlobSection(fp, SECT_STRING_BLOB, strs, a, rows, hd, k, secs);
    rows, yoffs, secs := WriteBlobSection(fp, SECT_SYMBOL_BLOB, syms, a, rows, hd, k, secs);
    rc, rows, secs := WriteTabSection(fp, h, nodes, strs, soffs, syms, yoffs, a, rows, hd, k, secs);
    if rc != 0 {
      return;
    }
    rc, rows, secs := WriteRootsSection(fp, nodes, roots, a, rows, hd, k, secs);
    assert secs == SectionsFor(strs, syms, TabChunks(h, nodes, strs, syms), RenameAll(nodes, Range(0, |nodes|), roots));
  }

  /** Front, sections, then the section table over the space reserved for it. */
  method WriteFile(fp: File, h: Heap, roots: seq<Ptr>, nodes: seq<Ptr>, strs: seq<Text>, syms: seq<Text>, a: AlignLog2,
                   flags: nat)
    returns (rc: int)
    requires AtEnd(fp) && fp.data == [] && TabReady(h, nodes, strs, syms)
    requires NULL !in nodes && forall p :: p in roots ==> p == NULL || p in nodes
    modifies fp
    ensures rc == 0 || rc == -EIO
    ensures rc == 0 <==> NULL !in roots && forall i :: 0 <= i < |nodes| ==> NULL !in Children(h[nodes[i]])
    ensures rc == 0 ==>
      fp.data == ImageOf(SectionsFor(strs, syms, TabChunks(h, nodes, strs, syms),
        RenameAll(nodes, Range(0, |nodes|), roots)), a, flags)
  {
    hide LittleEndian, Blob, ThunkTab, RootsTab, Body, PadTo, TabReady, SectionTable, Header, Laid, RowsFor, TabChunks,
      Children;
    ghost var secs := SectionsFor(strs, syms, TabChunks(h, nodes, strs, syms),
      RenameAll(nodes, Range(0, |nodes|), roots));
    var count := 2 + (if strs == [] then 0 else 1) + (if syms == [] then 0 else 1);
    WriteFront(fp, count, a, flags);
    var rows;
    rc, rows := WriteSections(fp, h, roots, nodes, strs, syms, a, Header(count, a, flags), count);
    if rc != 0 {
      return;
    }
    RowsForSize(rows, count, secs, PadTo(a));
    LaidSize(fp.data, Header(count, a, flags), count, secs, PadTo(a));
    fp.Seek(16);
    BackfillSections(fp, rows, Header(count, a, flags), secs, PadTo(a));
    fp.Seek(|fp.data|);
  }

  /**
    Writes the image of the graph below `roots` to an empty file. It succeeds exactly when no null pointer is reached,
    and then the file is the image of the graph's table.
   */
  method Write(fp: File, h: Heap, roots: seq<Ptr>, alignLog2: nat, flags: nat) returns (rc: int)
    requires AtEnd(fp) && fp.data == [] && Wired(h) && InHeap(h, roots)
    modifies fp
    ensures alignLog2 != 3 && alignLog2 != 4 ==> rc == -EINVAL && fp.data == []
    ensures alignLog2 == 3 || alignLog2 == 4 ==> rc == if Complete(TableOf(h, roots)) then 0 else -EIO
    ensures rc == 0 ==> fp.data == Image(TableOf(h, roots), alignLog2, flags)
  {
    hide LittleEndian, Complete, TabReady, Children, Order, TabChunks, Chunks, ImageOf, Wired, InHeap, Strings, Symbols;
    if alignLog2 != 3 && alignLog2 != 4 {
      return -EINVAL;
    }
    CompleteIff(h, roots);
    CollectedReady(h, roots);
    var nodes, strs, syms := Collect(h, roots);
    rc := WriteFile(fp, h, roots, nodes, strs, syms, alignLog2, flags);
  }
}
