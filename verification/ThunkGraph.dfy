/** The thunk heap as an arena: a pointer is an index into it. Graphs may share nodes and have cycles. */
module ThunkGraph {
  import opened Bytes
  import opened Sequences
  import opened Words

  const NULL: int := -1
  type Ptr = p: int | NULL <= p witness NULL
  type Text = seq<byte>
  /** A C string: the bytes before the terminating zero. */
  type CText = s: Text | 0 !in s
  /** The operators `|`, `||` and `^|`. */
  type ChoiceKind = k: nat | 1 <= k <= 3 witness 1

  datatype Thunk =
    | Int(val: Int32)
    | Str(str: Text)
    | Symbol(sym: Text)
    | Alge(constr: Text, args: seq<Ptr>)
    | Appl(func: Ptr, args: seq<Ptr>)
    | Choice(kind: ChoiceKind, left: Ptr, right: Ptr)
    | Ref(name: Text)
    | Builtin(name: Text)
    | Bottom(msg: CText, args: seq<Ptr>)

  type Heap = seq<Thunk>

  /** The outgoing pointers in the order the writer visits them. */
  function Children(t: Thunk): seq<Ptr> {
    match t
    case Alge(_, args) => args
    case Appl(func, args) => [func] + args
    case Choice(_, l, r) => [l, r]
    case Bottom(_, args) => args
    case _ => []
  }

  /** All children are numbers below `n`. */
  ghost predicate ChildrenBelow(t: Thunk, n: nat) {
    forall j :: 0 <= j < |Children(t)| ==> 0 <= Children(t)[j] < n
  }

  /** Pointers are null or point into the heap. Arguments may not be null: the writer looks at what they point to. */
  ghost predicate Wired(h: Heap) {
    forall p :: 0 <= p < |h| ==>
      && InHeap(h, Children(h[p]))
      && ((h[p].Alge? || h[p].Appl? || h[p].Bottom?) ==> NULL !in h[p].args)
  }

  ghost predicate InHeap(h: Heap, ps: seq<Ptr>) {
    forall i :: 0 <= i < |ps| ==> ps[i] < |h|
  }

  /** Every child of `t` is null or listed. */
  ghost predicate ChildrenIn(t: Thunk, ns: seq<Ptr>) {
    forall c :: c in Children(t) ==> c == NULL || c in ns
  }

  /** The listed nodes have no child outside the list. */
  ghost predicate Closed(h: Heap, ns: seq<Ptr>) {
    forall i :: 0 <= i < |ns| && 0 <= ns[i] < |h| ==> ChildrenIn(h[ns[i]], ns)
  }

  // ---- Reachability --------------------------------------------------------

  /** The nodes reached from the roots by at most `k` pointers. */
  ghost function ReachIn(h: Heap, roots: seq<Ptr>, k: nat): set<Ptr> {
    if k == 0 then set p | p in roots && p != NULL
    else
      var s := ReachIn(h, roots, k - 1);
      s + set p, c | p in s && 0 <= p < |h| && c in Children(h[p]) && c != NULL :: c
  }

  ghost predicate Reachable(h: Heap, roots: seq<Ptr>, p: Ptr) {
    exists k: nat :: p in ReachIn(h, roots, k)
  }

  // ---- The breadth-first numbering -----------------------------------------

  /** Appends a pointer that is neither null nor already numbered. */
  function Visit(ns: seq<Ptr>, p: Ptr): (r: seq<Ptr>)
    ensures ns <= r
  {
    if p == NULL then ns else AddNew(ns, p)
  }

  function VisitAll(ns: seq<Ptr>, ps: seq<Ptr>): (r: seq<Ptr>)
    ensures ns <= r
  {
    if ps == [] then ns else Visit(VisitAll(ns, ps[..|ps| - 1]), ps[|ps| - 1])
  }

  /** What the vector of numbered nodes is while the loop runs: distinct nodes of the heap. */
  ghost predicate Numbering(h: Heap, ns: seq<Ptr>) {
    NoDup(ns) && forall i :: 0 <= i < |ns| ==> 0 <= ns[i] < |h|
  }

  lemma {:induction false} VisitAllNumbering(h: Heap, ns: seq<Ptr>, ps: seq<Ptr>)
    requires Numbering(h, ns) && InHeap(h, ps)
    ensures Numbering(h, VisitAll(ns, ps)) && |VisitAll(ns, ps)| <= |h|
    ensures forall p :: p in VisitAll(ns, ps) <==> p in ns || (p in ps && p != NULL)
  {
    if ps == [] {
    } else {
      var l := |ps| - 1;
      assert ps == ps[..l] + [ps[l]];
      VisitAllNumbering(h, ns, ps[..l]);
    }
    Pigeonhole(VisitAll(ns, ps), |h|);
  }

  /** The breadth-first search from queue index `qh` on: `ns` is both the queue and the numbering. */
  function Bfs(h: Heap, qh: nat, ns: seq<Ptr>): (r: seq<Ptr>)
    requires Wired(h) && Numbering(h, ns) && qh <= |ns| <= |h|
    ensures ns <= r && Numbering(h, r) && |r| <= |h|
    decreases |h| - qh
  {
    if qh == |ns| then ns
    else
      assert ns[qh] in ns;
      VisitAllNumbering(h, ns, Children(h[ns[qh]]));
      Bfs(h, qh + 1, VisitAll(ns, Children(h[ns[qh]])))
  }

  /** The nodes the writer numbers, in their order. */
  function Order(h: Heap, roots: seq<Ptr>): (r: seq<Ptr>)
    requires Wired(h) && InHeap(h, roots)
    ensures Numbering(h, r) && |r| <= |h|
  {
    VisitAllNumbering(h, [], roots);
    Bfs(h, 0, VisitAll([], roots))
  }

  lemma {:induction false} ReachableChild(h: Heap, roots: seq<Ptr>, p: Ptr, c: Ptr)
    requires Reachable(h, roots, p) && 0 <= p < |h| && c in Children(h[p]) && c != NULL
    ensures Reachable(h, roots, c)
  {
    var k: nat :| p in ReachIn(h, roots, k);
    assert c in ReachIn(h, roots, k + 1);
  }

  lemma {:induction false} ChildrenInExtended(t: Thunk, ns: seq<Ptr>, ns': seq<Ptr>)
    requires ChildrenIn(t, ns) && ns <= ns'
    ensures ChildrenIn(t, ns')
  {
  }

  /** The search ends with a set closed under pointers, and adds only what is reachable. */
  lemma {:induction false} BfsClosed(h: Heap, roots: seq<Ptr>, qh: nat, ns: seq<Ptr>)
    requires Wired(h) && Numbering(h, ns) && qh <= |ns| <= |h|
    requires forall i :: 0 <= i < qh ==> ChildrenIn(h[ns[i]], ns)
    requires forall p :: p in ns ==> Reachable(h, roots, p)
    ensures Closed(h, Bfs(h, qh, ns))
    ensures forall p :: p in Bfs(h, qh, ns) ==> Reachable(h, roots, p)
    decreases |h| - qh
  {
    hide VisitAll, Children, Reachable;
    if qh == |ns| {
    } else {
      var p := ns[qh];
      assert p in ns && 0 <= p < |h|;
      var cs := Children(h[p]);
      VisitAllNumbering(h, ns, cs);
      var ns' := VisitAll(ns, cs);
      forall c | c in ns'
        ensures Reachable(h, roots, c)
      {
        if c !in ns {
          ReachableChild(h, roots, p, c);
        }
      }
      forall i | 0 <= i < qh + 1
        ensures ChildrenIn(h[ns'[i]], ns')
      {
        assert ns'[i] == ns[i];
        if i < qh {
          ChildrenInExtended(h[ns[i]], ns, ns');
        }
      }
      BfsClosed(h, roots, qh + 1, ns');
    }
  }

  lemma {:induction false} ReachInClosed(h: Heap, roots: seq<Ptr>, ns: seq<Ptr>, k: nat)
    requires forall p :: p in roots && p != NULL ==> p in ns
    requires Closed(h, ns)
    ensures forall p :: p in ReachIn(h, roots, k) ==> p in ns
  {
    if k == 0 {
    } else {
      ReachInClosed(h, roots, ns, k - 1);
      forall p | p in ns && 0 <= p < |h|
        ensures ChildrenIn(h[p], ns)
      {
        var i :| 0 <= i < |ns| && ns[i] == p;
      }
    }
  }

  /** The writer numbers exactly the nodes reachable from the roots, each once, whatever is shared or cyclic. */
  lemma {:induction false} OrderIsReachable(h: Heap, roots: seq<Ptr>)
    requires Wired(h) && InHeap(h, roots)
    ensures NoDup(Order(h, roots))
    ensures forall p :: p in Order(h, roots) <==> Reachable(h, roots, p)
    ensures Closed(h, Order(h, roots))
    ensures forall p :: p in roots ==> p == NULL || p in Order(h, roots)
  {
    VisitAllNumbering(h, [], roots);
    var ns := VisitAll([], roots);
    forall p | p in ns
      ensures Reachable(h, roots, p)
    {
      assert p in ReachIn(h, roots, 0);
    }
    BfsClosed(h, roots, 0, ns);
    forall p | Reachable(h, roots, p)
      ensures p in Order(h, roots)
    {
      var k: nat :| p in ReachIn(h, roots, k);
      ReachInClosed(h, roots, Order(h, roots), k);
    }
  }

  // ---- Renaming and isomorphism --------------------------------------------

  /** `p` under the renaming that takes each element of `ns` to the element of `ms` at the same place. */
  function Rename(ns: seq<Ptr>, ms: seq<Ptr>, p: Ptr): Ptr
    requires |ns| == |ms|
  {
    if p in ns then ms[IndexOf(ns, p)] else NULL
  }

  function RenameAll(ns: seq<Ptr>, ms: seq<Ptr>, ps: seq<Ptr>): (r: seq<Ptr>)
    requires |ns| == |ms|
    ensures |r| == |ps| && forall i :: 0 <= i < |ps| ==> r[i] == Rename(ns, ms, ps[i])
  {
    seq(|ps|, i requires 0 <= i < |ps| => Rename(ns, ms, ps[i]))
  }

  /** What survives the image: a builtin is stored as a reference to its name. */
  function Relabel(ns: seq<Ptr>, ms: seq<Ptr>, t: Thunk): Thunk
    requires |ns| == |ms|
  {
    match t
    case Alge(c, args) => Alge(c, RenameAll(ns, ms, args))
    case Appl(f, args) => Appl(Rename(ns, ms, f), RenameAll(ns, ms, args))
    case Choice(k, l, r) => Choice(k, Rename(ns, ms, l), Rename(ns, ms, r))
    case Bottom(m, args) => Bottom(m, RenameAll(ns, ms, args))
    case Builtin(n) => Ref(n)
    case _ => t
  }

  /** Node `ms[i]` is node `ns[i]` with its pointers renamed. */
  ghost predicate Copied(h: Heap, ns: seq<Ptr>, h': Heap, ms: seq<Ptr>)
    requires |ns| == |ms|
  {
    forall i :: 0 <= i < |ns| ==> 0 <= ns[i] < |h| && 0 <= ms[i] < |h'| && h'[ms[i]] == Relabel(ns, ms, h[ns[i]])
  }

  /** `p` and `q` stand at the same place of two listings, or are both null. */
  ghost predicate Partner(ns: seq<Ptr>, ms: seq<Ptr>, p: Ptr, q: Ptr)
    requires |ns| == |ms|
  {
    if p == NULL then q == NULL else exists k :: 0 <= k < |ns| && ns[k] == p && ms[k] == q
  }

  ghost predicate Partners(ns: seq<Ptr>, ms: seq<Ptr>, ps: seq<Ptr>, qs: seq<Ptr>)
    requires |ns| == |ms|
  {
    |ps| == |qs| && forall i :: 0 <= i < |ps| ==> Partner(ns, ms, ps[i], qs[i])
  }

  /**
    Two nodes are the same, with partners for pointers, except that a builtin is matched by a reference to its name.
   */
  ghost predicate Corresponds(ns: seq<Ptr>, ms: seq<Ptr>, t: Thunk, t': Thunk)
    requires |ns| == |ms|
  {
    match t
    case Int(v) => t' == Int(v)
    case Str(s) => t' == Str(s)
    case Symbol(s) => t' == Symbol(s)
    case Ref(n) => t' == Ref(n)
    case Builtin(n) => t' == Ref(n)
    case Alge(c, args) => t'.Alge? && t'.constr == c && Partners(ns, ms, args, t'.args)
    case Appl(f, args) => t'.Appl? && Partner(ns, ms, f, t'.func) && Partners(ns, ms, args, t'.args)
    case Choice(k, l, r) => t'.Choice? && t'.kind == k && Partner(ns, ms, l, t'.left) && Partner(ns, ms, r, t'.right)
    case Bottom(m, args) => t'.Bottom? && t'.msg == m && Partners(ns, ms, args, t'.args)
  }

  /** `ns` and `ms` list the reachable nodes of the two graphs so that equal places correspond. */
  ghost predicate Matching(h: Heap, roots: seq<Ptr>, ns: seq<Ptr>, h': Heap, roots': seq<Ptr>, ms: seq<Ptr>) {
    && |ns| == |ms| && NoDup(ns) && NoDup(ms)
    && (forall p :: p in ns <==> Reachable(h, roots, p))
    && (forall p :: p in ms <==> Reachable(h', roots', p))
    && Partners(ns, ms, roots, roots')
    && forall i :: 0 <= i < |ns| ==>
         0 <= ns[i] < |h| && 0 <= ms[i] < |h'| && Corresponds(ns, ms, h[ns[i]], h'[ms[i]])
  }

  /** Isomorphism of rooted graphs, roots in the same order, up to builtins having become references. */
  ghost predicate Isomorphic(h: Heap, roots: seq<Ptr>, h': Heap, roots': seq<Ptr>) {
    exists ns, ms :: Matching(h, roots, ns, h', roots', ms)
  }

  /** The renaming takes every pointer to its partner, and to nothing else. */
  lemma {:induction false} PartnerRenamed(ns: seq<Ptr>, ms: seq<Ptr>, p: Ptr, q: Ptr)
    requires |ns| == |ms| && NoDup(ns) && NULL !in ns && (p == NULL || p in ns)
    ensures Partner(ns, ms, p, q) <==> q == Rename(ns, ms, p)
  {
    if p in ns {
      var i := IndexOf(ns, p);
      assert ns[i] == p && ms[i] == Rename(ns, ms, p);
    }
  }

  lemma {:induction false} PartnersRenamed(ns: seq<Ptr>, ms: seq<Ptr>, ps: seq<Ptr>, qs: seq<Ptr>)
    requires |ns| == |ms| && NoDup(ns) && NULL !in ns && forall p :: p in ps ==> p == NULL || p in ns
    ensures Partners(ns, ms, ps, qs) <==> qs == RenameAll(ns, ms, ps)
  {
    hide Partner, Rename;
    if |qs| == |ps| {
      forall i | 0 <= i < |ps|
        ensures Partner(ns, ms, ps[i], qs[i]) <==> qs[i] == RenameAll(ns, ms, ps)[i]
      {
        PartnerRenamed(ns, ms, ps[i], qs[i]);
      }
    }
  }

  /** A relabelled node corresponds to its original, and no other does. */
  lemma {:induction false} CorrespondsRelabelled(ns: seq<Ptr>, ms: seq<Ptr>, t: Thunk, t': Thunk)
    requires |ns| == |ms| && NoDup(ns) && NULL !in ns && ChildrenIn(t, ns)
    ensures Corresponds(ns, ms, t, t') <==> t' == Relabel(ns, ms, t)
  {
    hide Partner, Partners, Rename, RenameAll;
    match t
    case Alge(_, args) => PartnersRenamed(ns, ms, args, if t'.Alge? then t'.args else []);
    case Bottom(_, args) => PartnersRenamed(ns, ms, args, if t'.Bottom? then t'.args else []);
    case Appl(f, args) =>
      assert Children(t)[0] == f && forall p :: p in args ==> p in Children(t);
      PartnerRenamed(ns, ms, f, if t'.Appl? then t'.func else NULL);
      PartnersRenamed(ns, ms, args, if t'.Appl? then t'.args else []);
    case Choice(_, l, r) =>
      assert Children(t)[0] == l && Children(t)[1] == r;
      PartnerRenamed(ns, ms, l, if t'.Choice? then t'.left else NULL);
      PartnerRenamed(ns, ms, r, if t'.Choice? then t'.right else NULL);
    case _ =>
  }

  /** Matched listings rename one graph to the other. */
  lemma {:induction false} MatchingRenames(h: Heap, roots: seq<Ptr>, ns: seq<Ptr>, h': Heap, roots': seq<Ptr>,
                                           ms: seq<Ptr>)
    requires Wired(h) && InHeap(h, roots) && Matching(h, roots, ns, h', roots', ms)
    ensures Copied(h, ns, h', ms) && roots' == RenameAll(ns, ms, roots)
  {
    OrderIsReachable(h, roots);
    hide Corresponds, Relabel, RenameAll, Reachable, Partners, Wired, InHeap;
    var os := Order(h, roots);
    assert forall p :: p in os <==> p in ns;
    forall i | 0 <= i < |ns|
      ensures 0 <= ns[i] < |h| && h'[ms[i]] == Relabel(ns, ms, h[ns[i]])
    {
      assert ns[i] in os;
      ListedChildren(h, os, ns, ns[i]);
      CorrespondsRelabelled(ns, ms, h[ns[i]], h'[ms[i]]);
    }
    PartnersRenamed(ns, ms, roots, roots');
  }

  lemma {:induction false} ListedChildren(h: Heap, os: seq<Ptr>, ns: seq<Ptr>, p: Ptr)
    requires Closed(h, os) && (forall q :: q in os <==> q in ns) && p in os && 0 <= p < |h|
    ensures ChildrenIn(h[p], ns)
  {
    var i :| 0 <= i < |os| && os[i] == p;
    assert ChildrenIn(h[os[i]], os);
  }

  /** Renaming one graph to the other in the order of the search gives a match. */
  lemma {:induction false} RenamedMatches(h: Heap, roots: seq<Ptr>, h': Heap, roots': seq<Ptr>, ms: seq<Ptr>)
    requires Wired(h) && InHeap(h, roots) && |Order(h, roots)| == |ms| && NoDup(ms)
    requires Copied(h, Order(h, roots), h', ms) && roots' == RenameAll(Order(h, roots), ms, roots)
    requires forall p :: p in ms <==> Reachable(h', roots', p)
    ensures Matching(h, roots, Order(h, roots), h', roots', ms)
  {
    OrderIsReachable(h, roots);
    hide Corresponds, Relabel, RenameAll, Reachable, Partners, Wired, InHeap;
    var ns := Order(h, roots);
    forall i | 0 <= i < |ns|
      ensures Corresponds(ns, ms, h[ns[i]], h'[ms[i]])
    {
      assert ns[i] in ns;
      ListedChildren(h, ns, ns, ns[i]);
      CorrespondsRelabelled(ns, ms, h[ns[i]], h'[ms[i]]);
    }
    PartnersRenamed(ns, ms, roots, roots');
  }

  // ---- Renaming commutes with the search -----------------------------------

  /** A renaming between duplicate-free listings maps a pointer into a prefix exactly when it was in that prefix. */
  lemma {:induction false} VisitRenamed(ns: seq<Ptr>, ms: seq<Ptr>, k: nat, p: Ptr)
    requires |ns| == |ms| && NoDup(ns) && NoDup(ms) && NULL !in ms && k <= |ns|
    requires p == NULL || p in ns
    requires NULL !in ns
    requires Visit(ns[..k], p) <= ns
    ensures Visit(ms[..k], Rename(ns, ms, p)) == ms[..|Visit(ns[..k], p)|]
  {
    if p != NULL {
      var i := IndexOf(ns, p);
      assert ms[i] in ms;
      if p in ns[..k] {
        IndexOfPrefix(ns[..k], ns, p);
        assert ms[..k][i] == ms[i];
      } else {
        assert (ns[..k] + [p])[k] == ns[k];
        IndexOfUnique(ns, k);
        assert ms[k] !in ms[..k];
        assert ms[..k] + [ms[k]] == ms[..k + 1];
      }
    }
  }

  lemma {:induction false} VisitAllRenamed(ns: seq<Ptr>, ms: seq<Ptr>, k: nat, ps: seq<Ptr>)
    requires |ns| == |ms| && NoDup(ns) && NoDup(ms) && NULL !in ns && NULL !in ms && k <= |ns|
    requires forall p :: p in ps ==> p == NULL || p in ns
    requires VisitAll(ns[..k], ps) <= ns
    ensures VisitAll(ms[..k], RenameAll(ns, ms, ps)) == ms[..|VisitAll(ns[..k], ps)|]
  {
    if ps != [] {
      var l := |ps| - 1;
      var ps', rs := ps[..l], RenameAll(ns, ms, ps);
      var mid := VisitAll(ns[..k], ps');
      assert mid <= VisitAll(ns[..k], ps) <= ns;
      assert rs[..l] == RenameAll(ns, ms, ps');
      VisitAllRenamed(ns, ms, k, ps');
      assert mid == ns[..|mid|];
      VisitRenamed(ns, ms, |mid|, ps[l]);
    } else {
      assert ns[..k] == ns[..|ns[..k]|];
    }
  }

  lemma {:induction false} ChildrenRenamed(ns: seq<Ptr>, ms: seq<Ptr>, t: Thunk)
    requires |ns| == |ms|
    ensures Children(Relabel(ns, ms, t)) == RenameAll(ns, ms, Children(t))
  {
    var cs, rs := Children(Relabel(ns, ms, t)), RenameAll(ns, ms, Children(t));
    assert |cs| == |rs|;
    forall i | 0 <= i < |cs|
      ensures cs[i] == rs[i]
    {
      match t
      case Appl(f, args) => assert i > 0 ==> Children(t)[i] == args[i - 1];
      case _ =>
    }
  }

  /** One step of the search on the copy mirrors the step on the original. */
  lemma {:induction false} StepRenamed(h: Heap, ns: seq<Ptr>, h': Heap, ms: seq<Ptr>, qh: nat, k: nat)
    requires Numbering(h, ns) && |ns| == |ms| && NoDup(ms) && NULL !in ns && NULL !in ms && qh < k <= |ns|
    requires Closed(h, ns) && Copied(h, ns, h', ms)
    requires VisitAll(ns[..k], Children(h[ns[qh]])) <= ns
    ensures VisitAll(ms[..k], Children(h'[ms[qh]])) == ms[..|VisitAll(ns[..k], Children(h[ns[qh]]))|]
  {
    var t := h[ns[qh]];
    assert ChildrenIn(t, ns);
    ChildrenRenamed(ns, ms, t);
    VisitAllRenamed(ns, ms, k, Children(t));
  }

  lemma {:induction false} BfsRenamed(h: Heap, ns: seq<Ptr>, h': Heap, ms: seq<Ptr>, qh: nat, k: nat)
    requires Wired(h) && Numbering(h, ns) && |ns| <= |h| && Wired(h') && Numbering(h', ms) && |ms| <= |h'|
    requires |ns| == |ms| && qh <= k <= |ns| && NULL !in ns && NULL !in ms
    requires Closed(h, ns) && Copied(h, ns, h', ms)
    requires Numbering(h, ns[..k]) && Numbering(h', ms[..k])
    requires Bfs(h, qh, ns[..k]) == ns
    ensures Bfs(h', qh, ms[..k]) == ms
    decreases |h| - qh
  {
    hide VisitAll, RenameAll, Relabel, Children;
    if qh == k {
    } else {
      var ns1, ms1 := ns[..k], ms[..k];
      assert ns1[qh] == ns[qh] && ms1[qh] == ms[qh];
      var ns2 := VisitAll(ns1, Children(h[ns[qh]]));
      VisitAllNumbering(h, ns1, Children(h[ns[qh]]));
      assert Bfs(h, qh + 1, ns2) == ns;
      StepRenamed(h, ns, h', ms, qh, k);
      assert ns2 == ns[..|ns2|];
      BfsRenamed(h, ns, h', ms, qh + 1, |ns2|);
    }
  }

  /** Searching a renamed copy of a graph numbers the copies in the order of their originals. */
  lemma {:induction false} OrderRenamed(h: Heap, roots: seq<Ptr>, h': Heap, ms: seq<Ptr>)
    requires Wired(h) && InHeap(h, roots) && Wired(h') && Numbering(h', ms) && |ms| <= |h'|
    requires |Order(h, roots)| == |ms| && Copied(h, Order(h, roots), h', ms)
    ensures InHeap(h', RenameAll(Order(h, roots), ms, roots))
    ensures Order(h', RenameAll(Order(h, roots), ms, roots)) == ms
  {
    var ns := Order(h, roots);
    OrderIsReachable(h, roots);
    VisitAllNumbering(h, [], roots);
    var k := |VisitAll([], roots)|;
    assert VisitAll([], roots) == ns[..k];
    assert ns[..0] == [] && ms[..0] == [];
    VisitAllRenamed(ns, ms, 0, roots);
    VisitAllNumbering(h', [], RenameAll(ns, ms, roots));
    BfsRenamed(h, ns, h', ms, 0, k);
  }
}
