/** Layer one of the thunk image: a graph against its numbered table, an arena whose pointers are entry numbers. */
module LstiTable {
  import opened Sequences
  import opened ThunkGraph

  datatype Table = Table(entries: seq<Thunk>, roots: seq<Ptr>)

  function RelabelNodes(h: Heap, at: seq<Ptr>, ns: seq<Ptr>, ms: seq<Ptr>): (r: seq<Thunk>)
    requires |ns| == |ms| && forall i :: 0 <= i < |at| ==> 0 <= at[i] < |h|
    ensures |r| == |at| && forall i :: 0 <= i < |at| ==> r[i] == Relabel(ns, ms, h[at[i]])
  {
    seq(|at|, i requires 0 <= i < |at| => Relabel(ns, ms, h[at[i]]))
  }

  /** The table the writer stores for the graph below `roots`. */
  function TableOf(h: Heap, roots: seq<Ptr>): Table
    requires Wired(h) && InHeap(h, roots)
  {
    var ns := Order(h, roots);
    var ids := Range(0, |ns|);
    Table(RelabelNodes(h, ns, ns, ids), RenameAll(ns, ids, roots))
  }

  /** No root, function or alternative was null, so every pointer has an entry number. */
  predicate Complete(t: Table) {
    NULL !in t.roots && forall e :: e in t.entries ==> NULL !in Children(e)
  }

  /** A table as the writer produces it: ids in range, builtins already turned into references. */
  ghost predicate Storable(t: Table) {
    && Complete(t) && (t.entries == [] ==> t.roots == [])
    && InHeap(t.entries, t.roots)
    && (forall i :: 0 <= i < |t.entries| ==> !t.entries[i].Builtin? && InHeap(t.entries, Children(t.entries[i])))
  }

  /** The arena after loading `t` on top of `h`: entry i becomes node |h|+i. */
  function Load(h: Heap, t: Table): Heap {
    var ids := Range(0, |t.entries|);
    h + RelabelNodes(t.entries, ids, ids, Range(|h|, |t.entries|))
  }

  function LoadRoots(h: Heap, t: Table): seq<Ptr> {
    RenameAll(Range(0, |t.entries|), Range(|h|, |t.entries|), t.roots)
  }

  // ---- Renamings compose ---------------------------------------------------

  lemma {:induction false} RenameVia(ns: seq<Ptr>, ms: seq<Ptr>, p: Ptr)
    requires |ns| == |ms| && NULL !in ns
    ensures var ids := Range(0, |ns|); Rename(ids, ms, Rename(ns, ids, p)) == Rename(ns, ms, p)
  {
    var ids := Range(0, |ns|);
    if p in ns {
      IndexOfUnique(ids, IndexOf(ns, p));
    }
  }

  lemma {:induction false} RenameAllVia(ns: seq<Ptr>, ms: seq<Ptr>, ps: seq<Ptr>)
    requires |ns| == |ms| && NULL !in ns
    ensures var ids := Range(0, |ns|); RenameAll(ids, ms, RenameAll(ns, ids, ps)) == RenameAll(ns, ms, ps)
  {
    forall i | 0 <= i < |ps| {
      RenameVia(ns, ms, ps[i]);
    }
  }

  lemma {:induction false} RelabelVia(ns: seq<Ptr>, ms: seq<Ptr>, t: Thunk)
    requires |ns| == |ms| && NULL !in ns
    ensures var ids := Range(0, |ns|); Relabel(ids, ms, Relabel(ns, ids, t)) == Relabel(ns, ms, t)
  {
    match t
    case Alge(_, args) => RenameAllVia(ns, ms, args);
    case Appl(f, args) => RenameVia(ns, ms, f); RenameAllVia(ns, ms, args);
    case Choice(_, l, r) => RenameVia(ns, ms, l); RenameVia(ns, ms, r);
    case Bottom(_, args) => RenameAllVia(ns, ms, args);
    case _ =>
  }

  /** Renaming there and numbering the image is numbering the original. */
  lemma {:induction false} RenameBack(ns: seq<Ptr>, ms: seq<Ptr>, p: Ptr)
    requires |ns| == |ms| && NoDup(ms) && NULL !in ms
    ensures var ids := Range(0, |ns|); Rename(ms, ids, Rename(ns, ms, p)) == Rename(ns, ids, p)
  {
    if p in ns {
      IndexOfUnique(ms, IndexOf(ns, p));
    }
  }

  lemma {:induction false} RenameAllBack(ns: seq<Ptr>, ms: seq<Ptr>, ps: seq<Ptr>)
    requires |ns| == |ms| && NoDup(ms) && NULL !in ms
    ensures var ids := Range(0, |ns|); RenameAll(ms, ids, RenameAll(ns, ms, ps)) == RenameAll(ns, ids, ps)
  {
    forall i | 0 <= i < |ps| {
      RenameBack(ns, ms, ps[i]);
    }
  }

  lemma {:induction false} RelabelBack(ns: seq<Ptr>, ms: seq<Ptr>, t: Thunk)
    requires |ns| == |ms| && NoDup(ms) && NULL !in ms
    ensures var ids := Range(0, |ns|); Relabel(ms, ids, Relabel(ns, ms, t)) == Relabel(ns, ids, t)
  {
    match t
    case Alge(_, args) => RenameAllBack(ns, ms, args);
    case Appl(f, args) => RenameBack(ns, ms, f); RenameAllBack(ns, ms, args);
    case Choice(_, l, r) => RenameBack(ns, ms, l); RenameBack(ns, ms, r);
    case Bottom(_, args) => RenameAllBack(ns, ms, args);
    case _ =>
  }

  // ---- The two directions --------------------------------------------------

  lemma {:induction false} RenamedBelow(ns: seq<Ptr>, ps: seq<Ptr>)
    ensures var r := RenameAll(ns, Range(0, |ns|), ps); forall i :: 0 <= i < |r| ==> r[i] < |ns|
  {
    forall i | 0 <= i < |ps|
      ensures Rename(ns, Range(0, |ns|), ps[i]) < |ns|
    {
    }
  }

  lemma {:induction false} RelabelledBelow(ns: seq<Ptr>, t: Thunk)
    ensures var e := Relabel(ns, Range(0, |ns|), t);
      !e.Builtin? && forall i :: 0 <= i < |Children(e)| ==> Children(e)[i] < |ns|
  {
    hide RenameAll;
    ChildrenRenamed(ns, Range(0, |ns|), t);
    RenamedBelow(ns, Children(t));
  }

  lemma {:induction false} RootsNumbered(h: Heap, roots: seq<Ptr>)
    requires Wired(h) && InHeap(h, roots) && Complete(TableOf(h, roots))
    ensures Order(h, roots) == [] ==> roots == []
  {
    hide Order, Wired;
    OrderIsReachable(h, roots);
    if roots != [] {
      var t := TableOf(h, roots);
      assert roots[0] in roots && t.roots[0] in t.roots;
    }
  }

  /** The table has exactly the shape the image stores, unless a null was met. */
  lemma {:induction false} TableStorable(h: Heap, roots: seq<Ptr>)
    requires Wired(h) && InHeap(h, roots) && Complete(TableOf(h, roots))
    ensures Storable(TableOf(h, roots))
  {
    RootsNumbered(h, roots);
    hide Order, Children, Relabel, RenameAll;
    var ns, t := Order(h, roots), TableOf(h, roots);
    RenamedBelow(ns, roots);
    forall i | 0 <= i < |t.entries|
      ensures !t.entries[i].Builtin? && InHeap(t.entries, Children(t.entries[i]))
    {
      RelabelledBelow(ns, h[ns[i]]);
    }
  }

  /** Loading leaves a wired heap that holds the renamed copies at the end. */
  lemma {:induction false} LoadWired(h: Heap, t: Table)
    requires Wired(h) && Storable(t)
    ensures Wired(Load(h, t)) && InHeap(Load(h, t), LoadRoots(h, t)) && NULL !in LoadRoots(h, t)
  {
    var n, h' := |t.entries|, Load(h, t);
    var ids, ms := Range(0, n), Range(|h|, n);
    forall p | 0 <= p < |h'|
      ensures InHeap(h', Children(h'[p]))
      ensures (h'[p].Alge? || h'[p].Appl? || h'[p].Bottom?) ==> NULL !in h'[p].args
    {
      if p < |h| {
        assert h'[p] == h[p];
      } else {
        var e := t.entries[p - |h|];
        assert h'[p] == Relabel(ids, ms, e) && e in t.entries;
        ChildrenRenamed(ids, ms, e);
        RenamedInRange(ids, ms, Children(e), |h'|);
        if h'[p].Appl? {
          assert h'[p].args == Children(h'[p])[1..];
        }
      }
    }
    RenamedInRange(ids, ms, t.roots, |h'|);
  }

  lemma {:induction false} RenamedInRange(ns: seq<Ptr>, ms: seq<Ptr>, ps: seq<Ptr>, bound: nat)
    requires |ns| == |ms| && forall i :: 0 <= i < |ms| ==> 0 <= ms[i] < bound
    requires ns == Range(0, |ns|) && NULL !in ps && forall i :: 0 <= i < |ps| ==> ps[i] < |ns|
    ensures var r := RenameAll(ns, ms, ps); NULL !in r && forall i :: 0 <= i < |r| ==> 0 <= r[i] < bound
  {
    forall i | 0 <= i < |ps|
      ensures 0 <= Rename(ns, ms, ps[i]) < bound
    {
      assert ps[i] in ps && ns[ps[i]] == ps[i];
    }
  }

  /** The copies made by loading the table of a graph are that graph's nodes, renamed. */
  lemma {:induction false} LoadCopies(h: Heap, roots: seq<Ptr>, h0: Heap)
    requires Wired(h) && InHeap(h, roots)
    ensures var ns, t := Order(h, roots), TableOf(h, roots);
      var ms := Range(|h0|, |ns|);
      Copied(h, ns, Load(h0, t), ms) && LoadRoots(h0, t) == RenameAll(ns, ms, roots)
  {
    hide Order, Relabel, RenameAll, Load, LoadRoots, TableOf, Wired, InHeap;
    var ns, h' := Order(h, roots), Load(h0, TableOf(h, roots));
    var ms := Range(|h0|, |ns|);
    forall i | 0 <= i < |ns|
      ensures 0 <= ns[i] < |h| && 0 <= ms[i] < |h'| && h'[ms[i]] == Relabel(ns, ms, h[ns[i]])
    {
      LoadedNode(h, roots, h0, i);
    }
    LoadedRoots(h, roots, h0);
  }

  lemma {:induction false} LoadedRoots(h: Heap, roots: seq<Ptr>, h0: Heap)
    requires Wired(h) && InHeap(h, roots)
    ensures var ns := Order(h, roots); LoadRoots(h0, TableOf(h, roots)) == RenameAll(ns, Range(|h0|, |ns|), roots)
  {
    var ns := Order(h, roots);
    assert NULL !in ns && |TableOf(h, roots).entries| == |ns|;
    hide Order, Wired, InHeap, RenameAll;
    RenameAllVia(ns, Range(|h0|, |ns|), roots);
  }

  lemma {:induction false} LoadedNode(h: Heap, roots: seq<Ptr>, h0: Heap, i: nat)
    requires Wired(h) && InHeap(h, roots) && i < |Order(h, roots)|
    ensures var ns, t := Order(h, roots), TableOf(h, roots);
      && 0 <= ns[i] < |h| && |h0| + i < |Load(h0, t)|
      && Load(h0, t)[|h0| + i] == Relabel(ns, Range(|h0|, |ns|), h[ns[i]])
  {
    var ns, t := Order(h, roots), TableOf(h, roots);
    var ids, ms := Range(0, |ns|), Range(|h0|, |ns|);
    assert |t.entries| == |ns| && t.entries[i] == Relabel(ns, ids, h[ns[i]]) && NULL !in ns;
    hide Load, Relabel, Order, TableOf, Wired, InHeap;
    LoadAt(h0, t, i);
    RelabelVia(ns, ms, h[ns[i]]);
  }

  lemma {:induction false} LoadAt(h: Heap, t: Table, i: nat)
    requires i < |t.entries|
    ensures var n := |t.entries|;
      |h| + i < |Load(h, t)| && Load(h, t)[|h| + i] == Relabel(Range(0, n), Range(|h|, n), t.entries[i])
  {
    hide Relabel;
  }

  /** The search numbers them in table order. */
  lemma {:induction false} LoadOrder(h: Heap, roots: seq<Ptr>, h0: Heap)
    requires Wired(h) && InHeap(h, roots) && Wired(h0) && Complete(TableOf(h, roots))
    ensures var t := TableOf(h, roots);
      && Wired(Load(h0, t)) && InHeap(Load(h0, t), LoadRoots(h0, t))
      && Order(Load(h0, t), LoadRoots(h0, t)) == Range(|h0|, |t.entries|)
  {
    var t := TableOf(h, roots);
    TableStorable(h, roots);
    LoadWired(h0, t);
    LoadCopies(h, roots, h0);
    OrderRenamed(h, roots, Load(h0, t), Range(|h0|, |t.entries|));
  }

  /**
    Loading the table of any wired graph, cyclic and shared as it may be, on top of any heap gives an isomorphic
    rooted graph with the roots in their order.
   */
  lemma {:induction false} LoadIsomorphic(h: Heap, roots: seq<Ptr>, h0: Heap)
    requires Wired(h) && InHeap(h, roots) && Wired(h0) && Complete(TableOf(h, roots))
    ensures var t := TableOf(h, roots); Isomorphic(h, roots, Load(h0, t), LoadRoots(h0, t))
  {
    var ns, t := Order(h, roots), TableOf(h, roots);
    var ms := Range(|h0|, |ns|);
    LoadCopies(h, roots, h0);
    LoadOrder(h, roots, h0);
    OrderIsReachable(h, roots);
    OrderIsReachable(Load(h0, t), LoadRoots(h0, t));
    hide Order, Load, LoadRoots, Relabel, RenameAll, Reachable, TableOf;
    RenamedMatches(h, roots, Load(h0, t), LoadRoots(h0, t), ms);
  }

  // ---- The table is a canonical form ---------------------------------------

  /** A matching of `olds` with `ms`, listed in the order of `ns`, renames every pointer as before. */
  lemma {:induction false} Reordered(olds: seq<Ptr>, ms: seq<Ptr>, ns: seq<Ptr>, p: Ptr)
    requires |olds| == |ms| && NoDup(olds) && NoDup(ns) && forall q :: q in ns <==> q in olds
    ensures Rename(ns, RenameAll(olds, ms, ns), p) == Rename(olds, ms, p)
  {
    if p in ns {
      IndexOfUnique(ns, IndexOf(ns, p));
    }
  }

  lemma {:induction false} ReorderedAll(olds: seq<Ptr>, ms: seq<Ptr>, ns: seq<Ptr>, ps: seq<Ptr>)
    requires |olds| == |ms| && NoDup(olds) && NoDup(ns) && forall q :: q in ns <==> q in olds
    ensures RenameAll(ns, RenameAll(olds, ms, ns), ps) == RenameAll(olds, ms, ps)
  {
    forall i | 0 <= i < |ps| {
      Reordered(olds, ms, ns, ps[i]);
    }
  }

  lemma {:induction false} ReorderedThunk(olds: seq<Ptr>, ms: seq<Ptr>, ns: seq<Ptr>, t: Thunk)
    requires |olds| == |ms| && NoDup(olds) && NoDup(ns) && forall q :: q in ns <==> q in olds
    ensures Relabel(ns, RenameAll(olds, ms, ns), t) == Relabel(olds, ms, t)
  {
    match t
    case Alge(_, args) => ReorderedAll(olds, ms, ns, args);
    case Appl(f, args) => Reordered(olds, ms, ns, f); ReorderedAll(olds, ms, ns, args);
    case Choice(_, l, r) => Reordered(olds, ms, ns, l); Reordered(olds, ms, ns, r);
    case Bottom(_, args) => ReorderedAll(olds, ms, ns, args);
    case _ =>
  }

  /** A renaming of distinct nodes to distinct nodes keeps distinct nodes distinct. */
  lemma {:induction false} RenamedApart(olds: seq<Ptr>, ms: seq<Ptr>, ns: seq<Ptr>)
    requires |olds| == |ms| && NoDup(olds) && NoDup(ms) && NoDup(ns) && forall q :: q in ns ==> q in olds
    ensures NoDup(RenameAll(olds, ms, ns)) && forall m :: m in RenameAll(olds, ms, ns) ==> m in ms
  {
    forall i, j | 0 <= i < j < |ns|
      ensures Rename(olds, ms, ns[i]) != Rename(olds, ms, ns[j])
    {
      assert ns[i] in ns && ns[j] in ns;
      assert IndexOf(olds, ns[i]) != IndexOf(olds, ns[j]);
    }
  }

  /** An isomorphism can be listed in the order of the search. */
  lemma {:induction false} MatchingInOrder(h: Heap, roots: seq<Ptr>, olds: seq<Ptr>, h': Heap, roots': seq<Ptr>,
                                           ms: seq<Ptr>)
    requires Wired(h) && InHeap(h, roots) && Matching(h, roots, olds, h', roots', ms)
    ensures var ns := Order(h, roots); var ms' := RenameAll(olds, ms, ns);
      && Copied(h, ns, h', ms') && roots' == RenameAll(ns, ms', roots)
      && NoDup(ms') && forall i :: 0 <= i < |ms'| ==> 0 <= ms'[i] < |h'|
  {
    hide Relabel, Rename, Corresponds, Partners;
    var ns := Order(h, roots);
    var ms' := RenameAll(olds, ms, ns);
    OrderIsReachable(h, roots);
    MatchingRenames(h, roots, olds, h', roots', ms);
    hide Order, Reachable;
    assert forall q :: q in ns <==> q in olds;
    RenamedApart(olds, ms, ns);
    forall i | 0 <= i < |ns|
      ensures 0 <= ns[i] < |h| && 0 <= ms'[i] < |h'| && h'[ms'[i]] == Relabel(ns, ms', h[ns[i]])
    {
      assert ns[i] in ns;
      CopiedAt(h, olds, h', ms, ns[i]);
      ReorderedThunk(olds, ms, ns, h[ns[i]]);
    }
    ReorderedAll(olds, ms, ns, roots);
  }

  lemma {:induction false} CopiedAt(h: Heap, ns: seq<Ptr>, h': Heap, ms: seq<Ptr>, p: Ptr)
    requires |ns| == |ms| && Copied(h, ns, h', ms) && p in ns
    ensures 0 <= p < |h| && 0 <= Rename(ns, ms, p) < |h'| && h'[Rename(ns, ms, p)] == Relabel(ns, ms, h[p])
  {
    var i := IndexOf(ns, p);
    assert ns[i] == p;
  }

  /** Isomorphic graphs have the same table, and so the same image. */
  lemma {:induction false} TableCanonical(h: Heap, roots: seq<Ptr>, h': Heap, roots': seq<Ptr>)
    requires Wired(h) && InHeap(h, roots) && Wired(h') && InHeap(h', roots') && Isomorphic(h, roots, h', roots')
    ensures TableOf(h', roots') == TableOf(h, roots)
  {
    hide Relabel, RenameAll, Wired, InHeap, Order;
    var olds, ms0 :| Matching(h, roots, olds, h', roots', ms0);
    var ns := Order(h, roots);
    var ms, ids := RenameAll(olds, ms0, ns), Range(0, |ns|);
    MatchingInOrder(h, roots, olds, h', roots', ms0);
    Pigeonhole(ms, |h'|);
    OrderRenamed(h, roots, h', ms);
    forall i | 0 <= i < |ns|
      ensures Relabel(ms, ids, h'[ms[i]]) == Relabel(ns, ids, h[ns[i]])
    {
      RelabelBack(ns, ms, h[ns[i]]);
    }
    RenameAllBack(ns, ms, roots);
    assert TableOf(h', roots').entries == TableOf(h, roots).entries;
  }

  /** In particular writing the loaded graph again stores the same table. */
  lemma {:induction false} TableReloaded(h: Heap, roots: seq<Ptr>, h0: Heap)
    requires Wired(h) && InHeap(h, roots) && Wired(h0) && Complete(TableOf(h, roots))
    ensures var t := TableOf(h, roots);
      Wired(Load(h0, t)) && InHeap(Load(h0, t), LoadRoots(h0, t)) && TableOf(Load(h0, t), LoadRoots(h0, t)) == t
  {
    hide Wired, InHeap, TableOf, Load, LoadRoots, Complete, Order;
    LoadOrder(h, roots, h0);
    LoadIsomorphic(h, roots, h0);
    TableCanonical(h, roots, Load(h0, TableOf(h, roots)), LoadRoots(h0, TableOf(h, roots)));
  }

  /** A third graph isomorphic to both: builtins of either may have become references in it. */
  ghost predicate Alike(h: Heap, roots: seq<Ptr>, h': Heap, roots': seq<Ptr>) {
    exists k, kroots :: Wired(k) && InHeap(k, kroots) && Isomorphic(h, roots, k, kroots) &&
      Isomorphic(h', roots', k, kroots)
  }

  /** Two graphs have the same table exactly if they are isomorphic up to builtins having become references. */
  lemma {:induction false} SameTable(h: Heap, roots: seq<Ptr>, h': Heap, roots': seq<Ptr>)
    requires Wired(h) && InHeap(h, roots) && Complete(TableOf(h, roots))
    requires Wired(h') && InHeap(h', roots') && Complete(TableOf(h', roots'))
    ensures TableOf(h, roots) == TableOf(h', roots') <==> Alike(h, roots, h', roots')
  {
    hide TableOf, Isomorphic, Load, LoadRoots, Complete, Order;
    var t := TableOf(h, roots);
    if t == TableOf(h', roots') {
      assert Wired([]);
      LoadIsomorphic(h, roots, []);
      LoadIsomorphic(h', roots', []);
      LoadOrder(h, roots, []);
      assert Isomorphic(h, roots, Load([], t), LoadRoots([], t)) &&
        Isomorphic(h', roots', Load([], t), LoadRoots([], t));
    }
    if Alike(h, roots, h', roots') {
      var k, kroots :|
        Wired(k) && InHeap(k, kroots) && Isomorphic(h, roots, k, kroots) && Isomorphic(h', roots', k, kroots);
      TableCanonical(h, roots, k, kroots);
      TableCanonical(h', roots', k, kroots);
    }
  }
}
