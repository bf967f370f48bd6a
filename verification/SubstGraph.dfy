/** Capture substitution on the thunk graph: what it means, as a tree substitution on unfoldings. */
module SubstGraph {
  import opened Options
  import opened ThunkGraph

  type Pattern = nat

  /** The kinds the substitution returns as they are. A bottom is among them, although it has arguments. */
  type AtomThunk = t: Thunk | t.Int? || t.Str? || t.Symbol? || t.Builtin? || t.Bottom? witness Int(0)

  /** What a reference resolves to: the lambda parameter it belongs to, if any, and the thunk bound to it now. */
  datatype Target = Target(param: Option<Pattern>, bound: Ptr)

  /** `lookup` is what the captured environment gives for the name; `target` caches it. */
  datatype Cell =
    | Reference(name: Text, target: Option<Target>, lookup: Option<Target>)
    | Constr(name: Text, args: seq<Ptr>)
    | Apply(func: Ptr, args: seq<Ptr>)
    | Alt(kind: ChoiceKind, left: Ptr, right: Ptr)
    | Lambda(param: Pattern, body: Ptr)
    | Atom(t: AtomThunk)

  type Cells = seq<Cell>

  predicate Compound(c: Cell) {
    c.Constr? || c.Apply? || c.Alt? || c.Lambda?
  }

  function Kids(c: Cell): seq<Ptr> {
    match c
    case Constr(_, args) => args
    case Apply(func, args) => [func] + args
    case Alt(_, l, r) => [l, r]
    case Lambda(_, body) => [body]
    case _ => []
  }

  function Resolved(c: Cell): Option<Target>
    requires c.Reference?
  {
    if c.target.Some? then c.target else c.lookup
  }

  /** The thunk that replaces a reference to the parameter. A parameter with nothing bound is left alone. */
  function Captured(c: Cell, param: Pattern): Option<Ptr> {
    if c.Reference? && Resolved(c).Some? && Resolved(c).value.param == Some(param) && Resolved(c).value.bound != NULL
    then Some(Resolved(c).value.bound) else None
  }

  /** The cell is a reference to the parameter, and `b` is bound to it: by the cached target if there is one. */
  ghost predicate BoundTo(c: Cell, param: Pattern, b: Ptr) {
    c.Reference? && b != NULL &&
      match c.target
      case Some(target) => target == Target(Some(param), b)
      case None => c.lookup == Some(Target(Some(param), b))
  }

  ghost predicate Unbound(c: Cell, param: Pattern) {
    forall b :: !BoundTo(c, param, b)
  }

  ghost predicate BoundIn(t: Option<Target>, n: nat) {
    t.Some? ==> t.value.bound < n
  }

  /** Pointers are null or point to cells. */
  ghost predicate Linked(h: Cells) {
    forall p :: 0 <= p < |h| ==>
      && (forall i :: 0 <= i < |Kids(h[p])| ==> Kids(h[p])[i] < |h|)
      && (h[p].Reference? ==> BoundIn(h[p].target, |h|) && BoundIn(h[p].lookup, |h|))
  }

  // ---- Unfolding -----------------------------------------------------------

  /** A graph unfolded to some depth. A node that is no compound is a leaf, and remembers which node it is. */
  datatype Tree = Cut | Nil | Leaf(p: Ptr) | Node(head: Cell, kids: seq<Tree>)

  /** A compound without its pointers. */
  function Label(c: Cell): Cell {
    match c
    case Constr(name, _) => Constr(name, [])
    case Apply(_, _) => Apply(NULL, [])
    case Alt(kind, _, _) => Alt(kind, NULL, NULL)
    case Lambda(param, _) => Lambda(param, NULL)
    case _ => c
  }

  ghost function Unfold(h: Cells, p: Ptr, d: nat): Tree
    requires Linked(h) && p < |h|
    decreases d
  {
    if d == 0 then Cut
    else if p == NULL then Nil
    else if !Compound(h[p]) then Leaf(p)
    else
      var ks := Kids(h[p]);
      Node(Label(h[p]), seq(|ks|, i requires 0 <= i < |ks| => Unfold(h, ks[i], d - 1)))
  }

  /** The tree at `p` with every reference to the parameter replaced by its bound thunk, which is not looked into. */
  ghost function SubstTree(h: Cells, param: Pattern, p: Ptr, d: nat): Tree
    requires Linked(h) && p < |h|
    decreases d
  {
    if d == 0 then Cut
    else if p == NULL then Nil
    else if Captured(h[p], param).Some? then Unfold(h, Captured(h[p], param).value, d)
    else if !Compound(h[p]) then Leaf(p)
    else
      var ks := Kids(h[p]);
      Node(Label(h[p]), seq(|ks|, i requires 0 <= i < |ks| => SubstTree(h, param, ks[i], d - 1)))
  }

  // ---- The copy ------------------------------------------------------------

  /** Unchanged, except that a reference may have cached the target its environment gives. */
  ghost predicate SameButCache(c: Cell, c': Cell) {
    c' == c || (c.Reference? && c.target.None? && c' == c.(target := c.lookup))
  }

  /** The cells of `h` are still what they were. */
  ghost predicate Preserved(h: Cells, cs: Cells) {
    |h| <= |cs| && forall p :: 0 <= p < |h| ==> SameButCache(h[p], cs[p])
  }

  /** `x` is what the substitution makes of pointer `p`; `origin` says which node each new cell is a copy of. */
  ghost predicate Image(h: Cells, param: Pattern, origin: map<Ptr, Ptr>, p: Ptr, x: Ptr)
    requires p < |h|
  {
    if p == NULL then x == NULL
    else if Captured(h[p], param).Some? then x == Captured(h[p], param).value
    else if Compound(h[p]) then x in origin && origin[x] == p
    else x == p
  }

  /** Cell `c` is a finished copy of `h[p]`. */
  ghost predicate CopyOf(h: Cells, param: Pattern, origin: map<Ptr, Ptr>, p: Ptr, c: Cell)
    requires Linked(h) && 0 <= p < |h|
  {
    && Label(c) == Label(h[p]) && |Kids(c)| == |Kids(h[p])|
    && forall i :: 0 <= i < |Kids(c)| ==> Image(h, param, origin, Kids(h[p])[i], Kids(c)[i])
  }

  /**
    What stands for pointer `p` in a copy: for a reference to the parameter its bound thunk, for a compound its copy,
    for anything else the node itself.
   */
  ghost predicate Replaces(h: Cells, param: Pattern, origin: map<Ptr, Ptr>, p: Ptr, x: Ptr)
    requires p < |h|
  {
    if p == NULL then x == NULL
    else
      && (forall b :: BoundTo(h[p], param, b) ==> x == b)
      && (Compound(h[p]) ==> x in origin && origin[x] == p)
      && (!Compound(h[p]) && Unbound(h[p], param) ==> x == p)
  }

  ghost predicate AllReplaced(h: Cells, param: Pattern, origin: map<Ptr, Ptr>, ps: seq<Ptr>, xs: seq<Ptr>) {
    |ps| == |xs| && forall i :: 0 <= i < |ps| ==> ps[i] < |h| && Replaces(h, param, origin, ps[i], xs[i])
  }

  /** Cell `c` is the compound `h[p]` with each pointer replaced. */
  ghost predicate Rebuilt(h: Cells, param: Pattern, origin: map<Ptr, Ptr>, p: Ptr, c: Cell)
    requires 0 <= p < |h|
  {
    match h[p]
    case Constr(name, args) => c.Constr? && c.name == name && AllReplaced(h, param, origin, args, c.args)
    case Apply(func, args) => c.Apply? && AllReplaced(h, param, origin, [func] + args, [c.func] + c.args)
    case Alt(kind, l, r) => c.Alt? && c.kind == kind && AllReplaced(h, param, origin, [l, r], [c.left, c.right])
    case Lambda(lp, body) => c.Lambda? && c.param == lp && AllReplaced(h, param, origin, [body], [c.body])
    case _ => false
  }

  /** The new cells are those after the old ones, and each has an origin. */
  ghost predicate Origins(h: Cells, cs: Cells, origin: map<Ptr, Ptr>) {
    && |h| <= |cs|
    && (forall x :: x in origin <==> |h| <= x < |cs|)
    && forall x :: x in origin ==> 0 <= origin[x] < |h| && Compound(h[origin[x]])
  }

  ghost predicate Finished(h: Cells, param: Pattern, cs: Cells, origin: map<Ptr, Ptr>, open: set<Ptr>)
    requires Linked(h) && Origins(h, cs, origin)
  {
    forall x :: x in origin && x !in open ==> CopyOf(h, param, origin, origin[x], cs[x])
  }

  lemma {:induction false} CapturedExactly(c: Cell, param: Pattern)
    ensures Captured(c, param).Some? ==> BoundTo(c, param, Captured(c, param).value)
    ensures forall b: Ptr :: BoundTo(c, param, b) ==> Captured(c, param) == Some(b)
    ensures Captured(c, param).None? <==> Unbound(c, param)
  {
    if Captured(c, param).Some? {
      assert BoundTo(c, param, Captured(c, param).value);
    }
  }

  lemma {:induction false} ImageReplaces(h: Cells, param: Pattern, origin: map<Ptr, Ptr>, p: Ptr, x: Ptr)
    requires p < |h|
    ensures Image(h, param, origin, p, x) <==> Replaces(h, param, origin, p, x)
  {
    if p != NULL {
      CapturedExactly(h[p], param);
      hide Captured, BoundTo, Unbound;
      if Captured(h[p], param).Some? {
        NotBothCapturedAndCompound(h[p], param);
      }
    }
  }

  lemma {:induction false} NotBothCapturedAndCompound(c: Cell, param: Pattern)
    requires Captured(c, param).Some?
    ensures !Compound(c)
  {
  }

  lemma {:induction false} CopyRebuilt(h: Cells, param: Pattern, origin: map<Ptr, Ptr>, p: Ptr, c: Cell)
    requires Linked(h) && 0 <= p < |h| && Compound(h[p]) && CopyOf(h, param, origin, p, c)
    ensures Rebuilt(h, param, origin, p, c)
  {
    hide Image, Replaces;
    var ps, xs := Kids(h[p]), Kids(c);
    assert AllReplaced(h, param, origin, ps, xs) by {
      forall i | 0 <= i < |ps|
        ensures ps[i] < |h| && Replaces(h, param, origin, ps[i], xs[i])
      {
        ImageReplaces(h, param, origin, ps[i], xs[i]);
      }
    }
  }

  lemma {:induction false} ImageMono(h: Cells, param: Pattern, origin: map<Ptr, Ptr>, origin': map<Ptr, Ptr>, p: Ptr,
                                     x: Ptr)
    requires p < |h| && Image(h, param, origin, p, x)
    requires forall y :: y in origin ==> y in origin' && origin'[y] == origin[y]
    ensures Image(h, param, origin', p, x)
  {
  }

  lemma {:induction false} ImageInRange(h: Cells, param: Pattern, cs: Cells, origin: map<Ptr, Ptr>, p: Ptr, x: Ptr)
    requires Linked(h) && Origins(h, cs, origin) && p < |h| && Image(h, param, origin, p, x)
    ensures x < |cs|
  {
  }

  /** The graph with its finished copies has no dangling pointer either. */
  lemma {:induction false} CopyLinked(h: Cells, param: Pattern, cs: Cells, origin: map<Ptr, Ptr>)
    requires Linked(h) && Preserved(h, cs) && Origins(h, cs, origin) && Finished(h, param, cs, origin, {})
    ensures Linked(cs)
  {
    hide Image, Captured;
    forall p | 0 <= p < |cs|
      ensures forall i :: 0 <= i < |Kids(cs[p])| ==> Kids(cs[p])[i] < |cs|
      ensures cs[p].Reference? ==> BoundIn(cs[p].target, |cs|) && BoundIn(cs[p].lookup, |cs|)
    {
      if p < |h| {
        assert SameButCache(h[p], cs[p]);
        assert Kids(h[p]) == Kids(cs[p]);
      } else {
        assert p in origin && CopyOf(h, param, origin, origin[p], cs[p]);
        forall i | 0 <= i < |Kids(cs[p])|
          ensures Kids(cs[p])[i] < |cs|
        {
          ImageInRange(h, param, cs, origin, Kids(h[origin[p]])[i], Kids(cs[p])[i]);
        }
      }
    }
  }

  /** Old nodes unfold as before. */
  lemma {:induction false} UnfoldPreserved(h: Cells, cs: Cells, p: Ptr, d: nat)
    requires Linked(h) && Linked(cs) && Preserved(h, cs) && p < |h|
    ensures Unfold(cs, p, d) == Unfold(h, p, d)
    decreases d
  {
    if d > 0 && p != NULL && Compound(h[p]) {
      assert SameButCache(h[p], cs[p]);
      var ks := Kids(h[p]);
      forall i | 0 <= i < |ks|
        ensures Unfold(cs, ks[i], d - 1) == Unfold(h, ks[i], d - 1)
      {
        UnfoldPreserved(h, cs, ks[i], d - 1);
      }
      assert Unfold(cs, p, d).kids == Unfold(h, p, d).kids;
    } else if p != NULL {
      assert SameButCache(h[p], cs[p]);
    }
  }

  /** A finished copy unfolds to the substituted tree, at every depth and whatever is shared or cyclic. */
  lemma {:induction false} UnfoldImage(h: Cells, param: Pattern, cs: Cells, origin: map<Ptr, Ptr>, p: Ptr, x: Ptr,
                                       d: nat)
    requires Linked(h) && Linked(cs) && Preserved(h, cs) && Origins(h, cs, origin) && Finished(h, param, cs, origin, {})
    requires p < |h| && x < |cs| && Image(h, param, origin, p, x)
    ensures Unfold(cs, x, d) == SubstTree(h, param, p, d)
    decreases d, 1
  {
    if d == 0 || p == NULL {
    } else if Captured(h[p], param).Some? {
      UnfoldPreserved(h, cs, x, d);
    } else if !Compound(h[p]) {
      assert SameButCache(h[p], cs[p]);
    } else {
      CompoundImage(h, param, cs, origin, p, x, d);
    }
  }

  lemma {:induction false} CompoundImage(h: Cells, param: Pattern, cs: Cells, origin: map<Ptr, Ptr>, p: Ptr, x: Ptr,
                                         d: nat)
    requires Linked(h) && Linked(cs) && Preserved(h, cs) && Origins(h, cs, origin) && Finished(h, param, cs, origin, {})
    requires 0 <= p < |h| && x in origin && origin[x] == p && Compound(h[p]) && d > 0
    ensures Unfold(cs, x, d) == SubstTree(h, param, p, d)
    decreases d, 0
  {
    hide Unfold, SubstTree, Captured, Preserved, Image, Label, Kids, Compound;
    assert CopyOf(h, param, origin, p, cs[x]);
    var ks, xs := Kids(h[p]), Kids(cs[x]);
    forall i | 0 <= i < |ks|
      ensures ks[i] < |h| && xs[i] < |cs| && Unfold(cs, xs[i], d - 1) == SubstTree(h, param, ks[i], d - 1)
    {
      UnfoldImage(h, param, cs, origin, ks[i], xs[i], d - 1);
    }
    NodesAgree(h, param, cs, p, x, d);
  }

  lemma {:induction false} NodesAgree(h: Cells, param: Pattern, cs: Cells, p: Ptr, x: Ptr, d: nat)
    requires Linked(h) && Linked(cs) && 0 <= p < |h| && 0 <= x < |cs| && d > 0
    requires Compound(h[p]) && Label(cs[x]) == Label(h[p]) && |Kids(cs[x])| == |Kids(h[p])|
    requires forall i :: 0 <= i < |Kids(h[p])| ==>
      Unfold(cs, Kids(cs[x])[i], d - 1) == SubstTree(h, param, Kids(h[p])[i], d - 1)
    ensures Unfold(cs, x, d) == SubstTree(h, param, p, d)
  {
    SameLabel(h[p], cs[x]);
    hide Label, Kids;
    assert Unfold(cs, x, d).kids == SubstTree(h, param, p, d).kids;
  }

  lemma {:induction false} SameLabel(c: Cell, c': Cell)
    requires Compound(c) && Label(c') == Label(c)
    ensures Compound(c')
  {
  }
}
