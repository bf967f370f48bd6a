/** Capture substitution as it runs: a memoised copy of the graph, made in place at the end of the heap. */
module Subst {
  import opened Options
  import opened ThunkGraph
  import opened Sequences
  import opened SubstGraph
  import opened SubstRank

  ghost predicate Extends(o: map<Ptr, Ptr>, o': map<Ptr, Ptr>) {
    forall y :: y in o ==> y in o' && o'[y] == o[y]
  }

  /** Memo entries lead to copies of their keys. */
  ghost predicate MemoOk(h: Cells, memo: map<Ptr, Ptr>, origin: map<Ptr, Ptr>) {
    forall k :: k in memo ==> 0 <= k < |h| && memo[k] in origin && origin[memo[k]] == k
  }

  lemma {:induction false} MemoBound(h: Cells, memo: map<Ptr, Ptr>, origin: map<Ptr, Ptr>)
    requires MemoOk(h, memo, origin)
    ensures |memo.Keys| <= |h|
  {
    Subset(memo.Keys, Below(|h|));
  }

  lemma {:induction false} CopyMono(h: Cells, param: Pattern, o: map<Ptr, Ptr>, o': map<Ptr, Ptr>, p: Ptr, c: Cell)
    requires Linked(h) && 0 <= p < |h| && CopyOf(h, param, o, p, c) && Extends(o, o')
    ensures CopyOf(h, param, o', p, c)
  {
    forall i | 0 <= i < |Kids(c)|
      ensures Image(h, param, o', Kids(h[p])[i], Kids(c)[i])
    {
      ImageMono(h, param, o, o', Kids(h[p])[i], Kids(c)[i]);
    }
  }

  /**
    The substitution under way: `origin` says of which node a new cell is a copy, and `open` which copies still have
    pointers to be filled in. Neither exists at run time.
   */
  datatype State = State(cells: Cells, memo: map<Ptr, Ptr>, origin: map<Ptr, Ptr>, open: set<Ptr>)

  ghost predicate Inv(h: Cells, param: Pattern, s: State) {
    && Linked(h) && Preserved(h, s.cells) && Origins(h, s.cells, s.origin)
    && Finished(h, param, s.cells, s.origin, s.open) && MemoOk(h, s.memo, s.origin)
    && forall x :: x in s.open ==> x in s.origin
  }

  /** Each compound has been copied once: its copy is the one the memo gives. */
  ghost predicate Once(s: State) {
    forall x :: x in s.origin ==> s.origin[x] in s.memo && s.memo[s.origin[x]] == x
  }

  /** What a step leaves alone: the copies made before it, except `nt`, and the keys of the memo. */
  ghost predicate Grown(s: State, s': State, nt: Ptr) {
    && s'.open == s.open && Extends(s.origin, s'.origin) && s.memo.Keys <= s'.memo.Keys && |s.cells| <= |s'.cells|
    && forall y :: y in s.origin && 0 <= y < |s.cells| && y != nt ==> s'.cells[y] == s.cells[y]
  }

  /**
    A step copies ranked nodes only. If no cycle goes through a function edge it copies none twice and none of rank
    above `r`.
   */
  ghost predicate OnceUpTo(h: Cells, rank: map<Ptr, nat>, r: int, s: State, s': State) {
    && s'.origin.Values <= s.origin.Values + rank.Keys
    && (Leveled(h, rank) && Once(s) ==>
        Once(s') && forall k :: k in s'.memo && k !in s.memo ==> k in rank && rank[k] <= r)
  }

  lemma {:induction false} GrownTrans(s: State, s': State, s'': State, nt: Ptr)
    requires Grown(s, s', nt) && Grown(s', s'', nt)
    ensures Grown(s, s'', nt)
  {
  }

  lemma {:induction false} OnceTrans(h: Cells, rank: map<Ptr, nat>, r: int, s: State, s': State, s'': State)
    requires OnceUpTo(h, rank, r, s, s') && OnceUpTo(h, rank, r, s', s'')
    ensures OnceUpTo(h, rank, r, s, s'')
  {
  }

  lemma {:induction false} OnceWider(h: Cells, rank: map<Ptr, nat>, q: int, r: int, s: State, s': State)
    requires OnceUpTo(h, rank, q, s, s') && (Leveled(h, rank) ==> q <= r)
    ensures OnceUpTo(h, rank, r, s, s')
  {
  }

  ghost function RankOf(rank: map<Ptr, nat>, p: Ptr): (r: int)
    requires p == NULL || p in rank
    ensures r >= -1
  {
    if p == NULL then -1 else rank[p]
  }

  /** Every pointer of `h[t]` has at most its rank. */
  lemma {:induction false} KidRank(h: Cells, rank: map<Ptr, nat>, t: Ptr, i: nat)
    requires Linked(h) && Ranked(h, rank) && 0 <= t < |h| && t in rank && i < |Kids(h[t])|
    ensures Kids(h[t])[i] < |h| && (Kids(h[t])[i] == NULL || Kids(h[t])[i] in rank)
    ensures Leveled(h, rank) ==> RankOf(rank, Kids(h[t])[i]) <= rank[t]
  {
    assert Kids(h[t])[i] != NULL ==> Edge(h, t, i);
  }

  lemma {:induction false} FuncRank(h: Cells, rank: map<Ptr, nat>, t: Ptr)
    requires Linked(h) && Ranked(h, rank) && 0 <= t < |h| && t in rank && h[t].Apply?
    ensures h[t].func < |h| && (h[t].func == NULL || h[t].func in rank)
    ensures RankOf(rank, h[t].func) < rank[t]
  {
    assert Kids(h[t])[0] == h[t].func;
  }

  /** Closing a copy whose pointers are all images. */
  lemma {:induction false} Close(h: Cells, param: Pattern, s: State, nt: Ptr)
    requires Inv(h, param, s) && nt in s.open && CopyOf(h, param, s.origin, s.origin[nt], s.cells[nt])
    ensures Inv(h, param, s.(open := s.open - {nt}))
  {
  }

  lemma {:induction false} InvFacts(h: Cells, param: Pattern, s: State, t: Ptr)
    requires Inv(h, param, s) && 0 <= t < |h|
    ensures Linked(h) && |h| <= |s.cells| && SameButCache(h[t], s.cells[t]) && (Compound(h[t]) ==> s.cells[t] == h[t])
    ensures |s.memo.Keys| <= |h| && s.open <= s.origin.Keys && |s.cells| !in s.origin && NULL !in s.origin
  {
    MemoBound(h, s.memo, s.origin);
  }

  /** `s2` is `s1` with a new cell for a copy of `t`. */
  ghost predicate Allocated(s1: State, s2: State, t: Ptr, c: Cell, nt: Ptr) {
    && nt == |s1.cells| && s2.cells == s1.cells + [c] && nt !in s1.origin
    && s2.origin == s1.origin[nt := t] && s2.memo == s1.memo[t := nt] && s2.open == s1.open + {nt}
    && (t !in s1.memo && Once(s1) ==> Once(s2))
  }

  lemma {:induction false} AllocInv(h: Cells, param: Pattern, s: State, s': State, t: Ptr, c: Cell, nt: Ptr)
    requires Inv(h, param, s) && 0 <= t < |h| && Compound(h[t]) && nt == |s.cells|
    requires s' == State(s.cells + [c], s.memo[t := nt], s.origin[nt := t], s.open + {nt})
    ensures Inv(h, param, s') && nt !in s.origin
  {
    hide CopyOf, SameButCache, Linked, Compound;
    assert nt !in s.origin;
    forall x | x in s'.origin && x !in s'.open
      ensures CopyOf(h, param, s'.origin, s'.origin[x], s'.cells[x])
    {
      assert x in s.origin && s'.cells[x] == s.cells[x];
      CopyMono(h, param, s.origin, s'.origin, s.origin[x], s.cells[x]);
    }
  }

  lemma {:induction false} AllocOnce(s: State, s': State, t: Ptr, c: Cell, nt: Ptr)
    requires nt !in s.origin
    requires s' == State(s.cells + [c], s.memo[t := nt], s.origin[nt := t], s.open + {nt})
    ensures t !in s.memo && Once(s) ==> Once(s')
  {
  }

  /**
    Beginning a copy of `t`: a step `s` to `s1` for its function, if it is an application, and the new cell. The memo
    has grown, and `t` was not copied on the way unless a cycle goes through a function edge.
   */
  lemma {:induction false} Begun(h: Cells, rank: map<Ptr, nat>, param: Pattern, q: int, s: State, s1: State, s2: State,
                                 t: Ptr, c: Cell, nt: Ptr)
    requires Inv(h, param, s2) && 0 <= t < |h| && t in rank && t !in s.memo
    requires Grown(s, s1, NULL) && OnceUpTo(h, rank, q, s, s1) && q < rank[t] && Allocated(s1, s2, t, c, nt)
    ensures |s2.memo.Keys| >= |s.memo.Keys| + 1 && |s2.memo.Keys| <= |h| && OnceUpTo(h, rank, rank[t], s, s2)
  {
    hide Inv, Once, Leveled, OnceUpTo, Grown;
    OnceBegun(h, rank, q, s, s1, s2, t, nt);
    GrownKeys(s, s1);
    InvFacts(h, param, s2, t);
    Subset(s.memo.Keys + {t}, s2.memo.Keys);
  }

  lemma {:induction false} GrownKeys(s: State, s1: State)
    requires Grown(s, s1, NULL)
    ensures s.memo.Keys <= s1.memo.Keys
  {
  }

  lemma {:induction false} OnceBegun(h: Cells, rank: map<Ptr, nat>, q: int, s: State, s1: State, s2: State, t: Ptr,
                                     nt: Ptr)
    requires t in rank && OnceUpTo(h, rank, q, s, s1) && q < rank[t] && t !in s.memo
    requires s2.memo == s1.memo[t := nt] && s2.origin == s1.origin[nt := t] && (t !in s1.memo && Once(s1) ==> Once(s2))
    ensures OnceUpTo(h, rank, rank[t], s, s2)
  {
    hide Once, Leveled;
  }

  /** Ending it: the new cell `nt` has been filled in on the way from `s2` to `s3`. */
  lemma {:induction false} Ended(h: Cells, rank: map<Ptr, nat>, param: Pattern, s: State, s1: State, s2: State,
                                 s3: State, t: Ptr, c: Cell, nt: Ptr)
    requires Inv(h, param, s) && Inv(h, param, s3) && 0 <= t < |h| && !h[t].Reference? && Compound(h[t])
    requires Grown(s, s1, NULL) && Allocated(s1, s2, t, c, nt) && Grown(s2, s3, nt)
    requires t in rank && OnceUpTo(h, rank, rank[t], s, s2) && OnceUpTo(h, rank, rank[t], s2, s3)
    requires 0 <= nt < |s3.cells| && CopyOf(h, param, s3.origin, t, s3.cells[nt])
    ensures var s4 := s3.(open := s3.open - {nt});
      Inv(h, param, s4) && Grown(s, s4, NULL) && OnceUpTo(h, rank, rank[t], s, s4) && Image(h, param, s4.origin, t, nt)
  {
    hide CopyOf, Inv, OnceUpTo, Captured;
    assert nt in s2.origin && s3.origin[nt] == t;
    Close(h, param, s3, nt);
    OnceTrans(h, rank, rank[t], s, s2, s3);
    OnceClose(h, rank, rank[t], s, s3, s3.open - {nt});
    InvFacts(h, param, s, t);
    EndedGrown(s, s1, s2, s3, t, c, nt);
    NotCaptured(h, param, t);
  }

  lemma {:induction false} OnceClose(h: Cells, rank: map<Ptr, nat>, r: int, s: State, s': State, open: set<Ptr>)
    requires OnceUpTo(h, rank, r, s, s')
    ensures OnceUpTo(h, rank, r, s, s'.(open := open))
  {
  }

  lemma {:induction false} EndedGrown(s: State, s1: State, s2: State, s3: State, t: Ptr, c: Cell, nt: Ptr)
    requires Grown(s, s1, NULL) && Allocated(s1, s2, t, c, nt) && Grown(s2, s3, nt) && s.open <= s.origin.Keys
    requires NULL !in s.origin
    ensures Grown(s, s3.(open := s3.open - {nt}), NULL)
  {
    hide Once;
    assert nt !in s.origin;
    assert s3.open - {nt} == s.open;
    forall y | y in s.origin && 0 <= y < |s.cells|
      ensures y != nt && s3.cells[y] == s.cells[y]
    {
      assert y in s1.origin && y in s2.origin;
    }
  }

  lemma {:induction false} PutFacts(h: Cells, param: Pattern, s: State, nt: Ptr)
    requires Inv(h, param, s) && nt in s.open
    ensures nt in s.origin && 0 <= nt < |s.cells| && NULL !in s.origin
  {
  }

  lemma {:induction false} GrownSame(s: State, nt: Ptr)
    ensures Grown(s, s, nt)
  {
  }

  lemma {:induction false} GrownWider(s: State, s': State, nt: Ptr)
    requires Grown(s, s', NULL) && NULL !in s.origin
    ensures Grown(s, s', nt)
  {
  }

  lemma {:induction false} GrownImage(h: Cells, param: Pattern, s: State, s': State, nt: Ptr, p: Ptr, x: Ptr)
    requires Grown(s, s', nt) && p < |h| && Image(h, param, s.origin, p, x)
    ensures Image(h, param, s'.origin, p, x)
  {
    ImageMono(h, param, s.origin, s'.origin, p, x);
  }

  lemma {:induction false} AllocImage(h: Cells, param: Pattern, s1: State, s2: State, s3: State, t: Ptr, c: Cell,
                                      nt: Ptr, p: Ptr, x: Ptr)
    requires Allocated(s1, s2, t, c, nt) && Grown(s2, s3, nt) && p < |h| && Image(h, param, s1.origin, p, x)
    ensures Image(h, param, s3.origin, p, x)
  {
    ImageMono(h, param, s1.origin, s3.origin, p, x);
  }

  lemma {:induction false} GrownFacts(s: State, s': State, nt: Ptr)
    requires Grown(s, s', NULL) && nt in s.open && nt in s.origin && 0 <= nt < |s.cells|
    ensures nt in s'.open && nt in s'.origin && nt < |s'.cells| && s'.cells[nt] == s.cells[nt]
    ensures s'.origin[nt] == s.origin[nt] && Extends(s.origin, s'.origin) && |s.memo.Keys| <= |s'.memo.Keys|
  {
    Subset(s.memo.Keys, s'.memo.Keys);
  }

  lemma {:induction false} GrownKept(s: State, s': State, nt: Ptr)
    requires Grown(s, s', nt) && nt in s.open && nt in s.origin
    ensures nt in s'.open && nt in s'.origin && s'.origin[nt] == s.origin[nt]
    ensures Extends(s.origin, s'.origin) && |s.memo.Keys| <= |s'.memo.Keys|
  {
    Subset(s.memo.Keys, s'.memo.Keys);
  }

  lemma {:induction false} GrownPut(s: State, s1: State, s2: State, nt: Ptr)
    requires Grown(s, s1, nt) && 0 <= nt < |s1.cells| && |s2.cells| == |s1.cells|
    requires s2.cells == s1.cells[nt := s2.cells[nt]] && s2 == s1.(cells := s2.cells)
    ensures Grown(s, s2, nt)
  {
  }

  lemma {:induction false} OnceSame(h: Cells, rank: map<Ptr, nat>, r: int, s: State)
    ensures OnceUpTo(h, rank, r, s, s)
  {
  }

  /** Filling in a pointer is no copying. */
  lemma {:induction false} OncePut(h: Cells, rank: map<Ptr, nat>, r: int, s: State, s1: State, s2: State)
    requires OnceUpTo(h, rank, r, s, s1) && s2 == s1.(cells := s2.cells)
    ensures OnceUpTo(h, rank, r, s, s2)
  {
  }

  lemma {:induction false} ApplyCopy(h: Cells, param: Pattern, origin: map<Ptr, Ptr>, t: Ptr, c: Cell)
    requires Linked(h) && 0 <= t < |h| && h[t].Apply? && c.Apply? && |c.args| == |h[t].args|
    requires h[t].func < |h| && Image(h, param, origin, h[t].func, c.func)
    requires forall j :: 0 <= j < |c.args| ==> h[t].args[j] < |h| && Image(h, param, origin, h[t].args[j], c.args[j])
    ensures CopyOf(h, param, origin, t, c)
  {
    hide Image;
    forall i | 0 <= i < |Kids(c)|
      ensures Image(h, param, origin, Kids(h[t])[i], Kids(c)[i])
    {
      assert i > 0 ==> Kids(c)[i] == c.args[i - 1] && Kids(h[t])[i] == h[t].args[i - 1];
    }
  }

  lemma {:induction false} ConstrCopy(h: Cells, param: Pattern, origin: map<Ptr, Ptr>, t: Ptr, c: Cell)
    requires Linked(h) && 0 <= t < |h| && h[t].Constr? && c.Constr? && c.name == h[t].name && |c.args| == |h[t].args|
    requires forall j :: 0 <= j < |c.args| ==> h[t].args[j] < |h| && Image(h, param, origin, h[t].args[j], c.args[j])
    ensures CopyOf(h, param, origin, t, c)
  {
    hide Image;
  }

  lemma {:induction false} LambdaCopy(h: Cells, param: Pattern, origin: map<Ptr, Ptr>, t: Ptr, c: Cell)
    requires Linked(h) && 0 <= t < |h| && h[t].Lambda? && c.Lambda? && c.param == h[t].param
    requires h[t].body < |h| && Image(h, param, origin, h[t].body, c.body)
    ensures CopyOf(h, param, origin, t, c)
  {
    hide Image;
  }

  lemma {:induction false} AltCopy(h: Cells, param: Pattern, origin: map<Ptr, Ptr>, t: Ptr, c: Cell)
    requires Linked(h) && 0 <= t < |h| && h[t].Alt? && c.Alt? && c.kind == h[t].kind
    requires h[t].left < |h| && Image(h, param, origin, h[t].left, c.left)
    requires h[t].right < |h| && Image(h, param, origin, h[t].right, c.right)
    ensures CopyOf(h, param, origin, t, c)
  {
  }

  /** Ending the copy of an application: from `s` to `s1` its function, from `s2` to `s3` its arguments. */
  lemma {:induction false} ApplyEnded(h: Cells, rank: map<Ptr, nat>, param: Pattern, s: State, s1: State, s2: State,
                                      s3: State, t: Ptr, c: Cell, nt: Ptr)
    requires Inv(h, param, s) && Inv(h, param, s3) && 0 <= t < |h| && h[t].Apply? && h[t].func < |h|
    requires Grown(s, s1, NULL) && Allocated(s1, s2, t, c, nt) && Grown(s2, s3, nt)
    requires t in rank && OnceUpTo(h, rank, rank[t], s, s2) && OnceUpTo(h, rank, rank[t], s2, s3)
    requires c.Apply? && Image(h, param, s1.origin, h[t].func, c.func)
    requires 0 <= nt < |s3.cells| && |c.args| == |h[t].args| && s3.cells[nt].Apply? &&
      |s3.cells[nt].args| == |h[t].args|
    requires s3.cells[nt].func == c.func
    requires forall j :: 0 <= j < |h[t].args| ==>
      h[t].args[j] < |h| && Image(h, param, s3.origin, h[t].args[j], s3.cells[nt].args[j])
    ensures var s4 := s3.(open := s3.open - {nt});
      Inv(h, param, s4) && Grown(s, s4, NULL) && OnceUpTo(h, rank, rank[t], s, s4) && Image(h, param, s4.origin, t, nt)
  {
    InvLinked(h, param, s);
    hide Inv, Grown, OnceUpTo, Image, CopyOf, Linked, Allocated;
    AllocImage(h, param, s1, s2, s3, t, c, nt, h[t].func, c.func);
    ApplyCopy(h, param, s3.origin, t, s3.cells[nt]);
    Ended(h, rank, param, s, s1, s2, s3, t, c, nt);
  }

  /** Ending the copy of a choice: from `s2` to `s3` its left side, from there to `s4` its right side. */
  lemma {:induction false} AltEnded(h: Cells, rank: map<Ptr, nat>, param: Pattern, s: State, s2: State, s3: State,
                                    s4: State, t: Ptr, c: Cell, nt: Ptr)
    requires Inv(h, param, s) && Inv(h, param, s4) && 0 <= t < |h| && h[t].Alt? && h[t].left < |h| && h[t].right < |h|
    requires Allocated(s, s2, t, c, nt) && Grown(s2, s3, nt) && Grown(s3, s4, nt) && t in rank
    requires OnceUpTo(h, rank, rank[t], s, s2) && OnceUpTo(h, rank, rank[t], s2, s3) &&
      OnceUpTo(h, rank, rank[t], s3, s4)
    requires 0 <= nt < |s4.cells| && s4.cells[nt].Alt? && s4.cells[nt].kind == h[t].kind
    requires Image(h, param, s3.origin, h[t].left, s4.cells[nt].left)
    requires Image(h, param, s4.origin, h[t].right, s4.cells[nt].right)
    ensures var s5 := s4.(open := s4.open - {nt});
      Inv(h, param, s5) && Grown(s, s5, NULL) && OnceUpTo(h, rank, rank[t], s, s5) && Image(h, param, s5.origin, t, nt)
  {
    InvLinked(h, param, s);
    hide Inv, Grown, OnceUpTo, Image, CopyOf, Linked, Allocated;
    GrownImage(h, param, s3, s4, nt, h[t].left, s4.cells[nt].left);
    GrownTrans(s2, s3, s4, nt);
    OnceTrans(h, rank, rank[t], s2, s3, s4);
    AltCopy(h, param, s4.origin, t, s4.cells[nt]);
    GrownSame(s, NULL);
    Ended(h, rank, param, s, s, s2, s4, t, c, nt);
  }

  lemma {:induction false} InvLinked(h: Cells, param: Pattern, s: State)
    requires Inv(h, param, s)
    ensures Linked(h)
  {
  }

  class Substituter {
    var cells: Cells
    var memo: map<Ptr, Ptr>
    ghost var origin: map<Ptr, Ptr>
    ghost var open: set<Ptr>

    constructor (h: Cells)
      ensures cells == h
    {
      cells, memo := h, map[];
      origin, open := map[], {};
    }

    ghost function Now(): State
      reads this
    {
      State(cells, memo, origin, open)
    }

    /** A new cell for a copy of `t`, entered in the memo before its pointers are followed. */
    method Alloc(t: Ptr, c: Cell, ghost h: Cells, ghost param: Pattern) returns (nt: Ptr)
      requires Inv(h, param, Now()) && 0 <= t < |h| && Compound(h[t])
      modifies this
      ensures Inv(h, param, Now()) && nt == |old(cells)| && nt in open && nt in origin && cells == old(cells) + [c]
      ensures nt !in old(origin)
      ensures origin == old(origin)[nt := t] && memo == old(memo)[t := nt] && open == old(open) + {nt}
      ensures t !in old(memo) && Once(old(Now())) ==> Once(Now())
    {
      hide Inv, Once;
      nt := |cells|;
      cells := cells + [c];
      memo := memo[t := nt];
      origin := origin[nt := t];
      open := open + {nt};
      AllocInv(h, param, old(Now()), Now(), t, c, nt);
      AllocOnce(old(Now()), Now(), t, c, nt);
    }

    /** Beginning the copy of `t`: the new cell, with what has been done since `s`. */
    method Begin(t: Ptr, c: Cell, ghost h: Cells, ghost param: Pattern, ghost rank: map<Ptr, nat>, ghost q: int,
                 ghost s: State)
      returns (nt: Ptr)
      requires Inv(h, param, Now()) && 0 <= t < |h| && Compound(h[t]) && t in rank && t !in s.memo
      requires Grown(s, Now(), NULL) && OnceUpTo(h, rank, q, s, Now()) && q < rank[t]
      modifies this
      ensures Inv(h, param, Now()) && 0 <= nt < |cells| && nt in open && nt in origin && origin[nt] == t &&
        cells[nt] == c
      ensures Allocated(old(Now()), Now(), t, c, nt) && OnceUpTo(h, rank, rank[t], s, Now())
      ensures |s.memo.Keys| + 1 <= |memo.Keys| <= |h|
    {
      hide Inv, OnceUpTo, Once, Grown, Linked, Extends, Compound, Ranked, Leveled;
      ghost var s1 := Now();
      nt := Alloc(t, c, h, param);
      Begun(h, rank, param, q, s, s1, Now(), t, c, nt);
    }

    /** Fills in an unfinished copy, begun by the time of `s`. */
    method Put(nt: Ptr, c: Cell, ghost h: Cells, ghost param: Pattern, ghost rank: map<Ptr, nat>, ghost r: int,
               ghost s: State)
      requires Inv(h, param, Now()) && nt in open && Grown(s, Now(), nt) && OnceUpTo(h, rank, r, s, Now())
      modifies this`cells
      ensures Inv(h, param, Now()) && 0 <= nt < |cells| && cells == old(cells)[nt := c]
      ensures Grown(s, Now(), nt) && OnceUpTo(h, rank, r, s, Now())
    {
      hide OnceUpTo, Grown, CopyOf;
      ghost var s1 := Now();
      cells := cells[nt := c];
      OncePut(h, rank, r, s, s1, Now());
      GrownPut(s, s1, Now(), nt);
    }

    /** A reference: its target is resolved now if it was not, and cached. */
    method SubstReference(t: Ptr, param: Pattern, ghost h: Cells) returns (r: Ptr)
      requires Inv(h, param, Now()) && 0 <= t < |h| && h[t].Reference?
      modifies this`cells
      ensures Inv(h, param, Now()) && Grown(old(Now()), Now(), NULL) && Image(h, param, origin, t, r)
      ensures (forall b :: BoundTo(h[t], param, b) ==> r == b) && (Unbound(h[t], param) ==> r == t)
    {
      CapturedExactly(h[t], param);
      assert SameButCache(h[t], cells[t]);
      var target := cells[t].target;
      if target.None? && cells[t].lookup.Some? {
        target := cells[t].lookup;
        cells := cells[t := cells[t].(target := target)];
      }
      if target.Some? && target.value.param == Some(param) && target.value.bound != NULL {
        return target.value.bound;
      }
      r := t;
    }

    method SubstRec(t: Ptr, param: Pattern, ghost h: Cells, ghost rank: map<Ptr, nat>) returns (r: Ptr)
      requires Inv(h, param, Now()) && t < |h| && Ranked(h, rank) && (t == NULL || t in rank)
      modifies this
      ensures Inv(h, param, Now()) && Grown(old(Now()), Now(), NULL) && Image(h, param, origin, t, r)
      ensures OnceUpTo(h, rank, RankOf(rank, t), old(Now()), Now())
      decreases |h| - |memo.Keys|, RankOf(rank, t) + 1, 1
    {
      if t == NULL {
        return NULL;
      }
      if t in memo {
        return memo[t];
      }
      assert SameButCache(h[t], cells[t]);
      match cells[t] {
        case Reference(_, _, _) => r := SubstReference(t, param, h);
        case Constr(_, _) => r := SubstConstr(t, param, h, rank);
        case Apply(_, _) => r := SubstApply(t, param, h, rank);
        case Alt(_, _, _) => r := SubstAlt(t, param, h, rank);
        case Lambda(_, _) => r := SubstLambda(t, param, h, rank);
        case Atom(_) => r := t;
      }
    }

    /** Following pointer `k` of a node whose copy `nt` is under way. */
    method Follow(p: Ptr, ghost k: nat, ghost nt: Ptr, ghost t: Ptr, param: Pattern, ghost h: Cells,
                  ghost rank: map<Ptr, nat>)
      returns (x: Ptr)
      requires Inv(h, param, Now()) && Ranked(h, rank) && 0 <= nt < |cells| && nt in open
      requires 0 <= t < |h| && t in rank && k < |Kids(h[t])| && Kids(h[t])[k] == p
      modifies this
      ensures Inv(h, param, Now()) && Grown(old(Now()), Now(), nt) && OnceUpTo(h, rank, rank[t], old(Now()), Now())
      ensures nt < |cells| && nt in open && cells[nt] == old(cells[nt]) && |memo.Keys| >= |old(memo.Keys)|
      ensures p < |h| && Image(h, param, origin, p, x)
      decreases |h| - |memo.Keys| + 1, 0, 0
    {
      hide Inv, OnceUpTo, Once, Image, Grown, Ranked, Leveled;
      ghost var s1 := Now();
      InvFacts(h, param, s1, t);
      KidRank(h, rank, t, k);
      PutFacts(h, param, s1, nt);
      x := SubstRec(p, param, h, rank);
      ghost var s2 := Now();
      GrownFacts(s1, s2, nt);
      OnceWider(h, rank, RankOf(rank, p), rank[t], s1, s2);
      GrownWider(s1, s2, nt);
    }

    /** One round of the loop over the arguments of a constructor or an application. */
    method FillArg(i: nat, nt: Ptr, t: Ptr, param: Pattern, ghost h: Cells, ghost rank: map<Ptr, nat>)
      requires Inv(h, param, Now()) && Ranked(h, rank) && 0 <= nt < |cells| && nt in open && origin[nt] == t &&
        0 <= t < |h| && t in rank
      requires (h[t].Constr? && cells[nt].Constr?) || (h[t].Apply? && cells[nt].Apply?)
      requires |cells[nt].args| == |h[t].args| && i < |h[t].args|
      modifies this
      ensures Inv(h, param, Now()) && Grown(old(Now()), Now(), nt) && OnceUpTo(h, rank, rank[t], old(Now()), Now())
      ensures nt < |cells| && (cells[nt].Constr? || cells[nt].Apply?) && |cells[nt].args| == |h[t].args|
      ensures cells[nt] == old(cells[nt]).(args := old(cells[nt].args)[i := cells[nt].args[i]])
      ensures h[t].args[i] < |h| && Image(h, param, origin, h[t].args[i], cells[nt].args[i])
      decreases |h| - |memo.Keys| + 1, 0, 1
    {
      hide Inv, OnceUpTo, Once, Image, Grown, Ranked, Leveled;
      ghost var s1 := Now();
      InvFacts(h, param, s1, t);
      ghost var k := if h[t].Constr? then i else i + 1;
      assert Kids(h[t])[k] == h[t].args[i];
      var x := Follow(cells[t].args[i], k, nt, t, param, h, rank);
      Put(nt, cells[nt].(args := cells[nt].args[i := x]), h, param, rank, rank[t], s1);
    }

    method FillArgs(nt: Ptr, t: Ptr, param: Pattern, ghost h: Cells, ghost rank: map<Ptr, nat>)
      requires Inv(h, param, Now()) && Ranked(h, rank) && 0 <= nt < |cells| && nt in open && origin[nt] == t &&
        0 <= t < |h| && t in rank
      requires (h[t].Constr? && cells[nt].Constr?) || (h[t].Apply? && cells[nt].Apply?)
      requires |cells[nt].args| == |h[t].args|
      modifies this
      ensures Inv(h, param, Now()) && Grown(old(Now()), Now(), nt) && OnceUpTo(h, rank, rank[t], old(Now()), Now())
      ensures nt < |cells| && (cells[nt].Constr? || cells[nt].Apply?) && |cells[nt].args| == |h[t].args|
      ensures cells[nt] == old(cells[nt]).(args := cells[nt].args)
      ensures forall j :: 0 <= j < |h[t].args| ==>
        h[t].args[j] < |h| && Image(h, param, origin, h[t].args[j], cells[nt].args[j])
      decreases |h| - |memo.Keys| + 1, 0, 2
    {
      hide Inv, OnceUpTo, Once, Image, Grown, Ranked, Leveled;
      var i := 0;
      ghost var s0, c0 := Now(), cells[nt];
      InvFacts(h, param, s0, t);
      OnceSame(h, rank, rank[t], s0);
      GrownSame(s0, nt);
      PutFacts(h, param, s0, nt);
      while i < |cells[t].args|
        invariant 0 <= i <= |h[t].args| && |memo.Keys| >= |s0.memo.Keys|
        invariant Inv(h, param, Now()) && Grown(s0, Now(), nt) && OnceUpTo(h, rank, rank[t], s0, Now())
        invariant t < |cells| && cells[t] == h[t] && nt < |cells| && nt in open && nt in origin && origin[nt] == t
        invariant (cells[nt].Constr? || cells[nt].Apply?) && |cells[nt].args| == |h[t].args|
        invariant cells[nt] == c0.(args := cells[nt].args)
        invariant forall j :: 0 <= j < i ==>
          h[t].args[j] < |h| && Image(h, param, origin, h[t].args[j], cells[nt].args[j])
        decreases |h[t].args| - i
      {
        ghost var s1 := Now();
        FillArg(i, nt, t, param, h, rank);
        ghost var s2 := Now();
        GrownTrans(s0, s1, s2, nt);
        GrownKept(s1, s2, nt);
        OnceTrans(h, rank, rank[t], s0, s1, s2);
        InvFacts(h, param, s2, t);
        forall j | 0 <= j < i
          ensures Image(h, param, origin, h[t].args[j], cells[nt].args[j])
        {
          ImageMono(h, param, s1.origin, origin, h[t].args[j], cells[nt].args[j]);
        }
        i := i + 1;
      }
    }

    method SubstConstr(t: Ptr, param: Pattern, ghost h: Cells, ghost rank: map<Ptr, nat>) returns (r: Ptr)
      requires Inv(h, param, Now()) && 0 <= t < |h| && Ranked(h, rank) && t in rank && h[t].Constr? && t !in memo
      modifies this
      ensures Inv(h, param, Now()) && Grown(old(Now()), Now(), NULL) && Image(h, param, origin, t, r)
      ensures OnceUpTo(h, rank, rank[t], old(Now()), Now())
      decreases |h| - |memo.Keys|, RankOf(rank, t) + 1, 0
    {
      hide Inv, OnceUpTo, Once, Image, Grown, CopyOf, Allocated, Ranked, Leveled, Linked, Captured, Extends;
      ghost var s := Now();
      InvFacts(h, param, s, t);
      OnceSame(h, rank, -1, s);
      GrownSame(s, NULL);
      var c := Constr(cells[t].name, seq(|cells[t].args|, _ => NULL));
      r := Begin(t, c, h, param, rank, -1, s);
      ghost var s2 := Now();
      FillArgs(r, t, param, h, rank);
      ConstrCopy(h, param, origin, t, cells[r]);
      Ended(h, rank, param, s, s, s2, Now(), t, c, r);
      open := open - {r};
    }

    method SubstApply(t: Ptr, param: Pattern, ghost h: Cells, ghost rank: map<Ptr, nat>) returns (r: Ptr)
      requires Inv(h, param, Now()) && 0 <= t < |h| && Ranked(h, rank) && t in rank && h[t].Apply? && t !in memo
      modifies this
      ensures Inv(h, param, Now()) && Grown(old(Now()), Now(), NULL) && Image(h, param, origin, t, r)
      ensures OnceUpTo(h, rank, rank[t], old(Now()), Now())
      decreases |h| - |memo.Keys|, RankOf(rank, t) + 1, 0
    {
      hide Inv, OnceUpTo, Once, Image, Grown, CopyOf, Allocated, Ranked, Leveled, Linked, Captured, Extends;
      ghost var s := Now();
      InvFacts(h, param, s, t);
      ghost var func := h[t].func;
      assert Kids(h[t])[0] == func;
      FuncRank(h, rank, t);
      hide Kids, SameButCache;
      var f := SubstRec(cells[t].func, param, h, rank);
      ghost var s1 := Now();
      InvFacts(h, param, s1, t);
      var c := Apply(f, seq(|cells[t].args|, _ => NULL));
      r := Begin(t, c, h, param, rank, RankOf(rank, func), s);
      ghost var s2 := Now();
      FillArgs(r, t, param, h, rank);
      ApplyEnded(h, rank, param, s, s1, s2, Now(), t, c, r);
      open := open - {r};
    }

    /** Filling in one side of a choice. */
    method FillSide(right: bool, nt: Ptr, t: Ptr, param: Pattern, ghost h: Cells, ghost rank: map<Ptr, nat>)
      requires Inv(h, param, Now()) && Ranked(h, rank) && 0 <= nt < |cells| && nt in open
      requires 0 <= t < |h| && t in rank && h[t].Alt? && cells[nt].Alt?
      modifies this
      ensures Inv(h, param, Now()) && Grown(old(Now()), Now(), nt) && OnceUpTo(h, rank, rank[t], old(Now()), Now())
      ensures nt < |cells| && nt in open && cells[nt].Alt? && |memo.Keys| >= |old(memo.Keys)|
      ensures cells[nt] == if right then old(cells[nt]).(right := cells[nt].right)
        else old(cells[nt]).(left := cells[nt].left)
      ensures var (p, x) := if right then (h[t].right, cells[nt].right) else (h[t].left, cells[nt].left);
              p < |h| && Image(h, param, origin, p, x)
      decreases |h| - |memo.Keys| + 1, 0, 1
    {
      hide Inv, OnceUpTo, Once, Image, Grown, Ranked, Leveled, Captured, Extends;
      ghost var s1 := Now();
      InvFacts(h, param, s1, t);
      assert Kids(h[t]) == [h[t].left, h[t].right];
      hide Kids, SameButCache;
      var x := Follow(if right then cells[t].right else cells[t].left, if right then 1 else 0, nt, t, param, h, rank);
      Put(nt, if right then cells[nt].(right := x) else cells[nt].(left := x), h, param, rank, rank[t], s1);
    }

    method SubstAlt(t: Ptr, param: Pattern, ghost h: Cells, ghost rank: map<Ptr, nat>) returns (r: Ptr)
      requires Inv(h, param, Now()) && 0 <= t < |h| && Ranked(h, rank) && t in rank && h[t].Alt? && t !in memo
      modifies this
      ensures Inv(h, param, Now()) && Grown(old(Now()), Now(), NULL) && Image(h, param, origin, t, r)
      ensures OnceUpTo(h, rank, rank[t], old(Now()), Now())
      decreases |h| - |memo.Keys|, RankOf(rank, t) + 1, 0
    {
      hide Inv, OnceUpTo, Once, Image, Grown, CopyOf, Allocated, Ranked, Leveled, Linked, Captured, Extends;
      ghost var s := Now();
      InvFacts(h, param, s, t);
      OnceSame(h, rank, -1, s);
      GrownSame(s, NULL);
      hide Kids, SameButCache;
      var c := Alt(cells[t].kind, NULL, NULL);
      r := Begin(t, c, h, param, rank, -1, s);
      ghost var s2 := Now();
      FillSide(false, r, t, param, h, rank);
      ghost var s3 := Now();
      FillSide(true, r, t, param, h, rank);
      AltEnded(h, rank, param, s, s2, s3, Now(), t, c, r);
      open := open - {r};
    }

    method SubstLambda(t: Ptr, param: Pattern, ghost h: Cells, ghost rank: map<Ptr, nat>) returns (r: Ptr)
      requires Inv(h, param, Now()) && 0 <= t < |h| && Ranked(h, rank) && t in rank && h[t].Lambda? && t !in memo
      modifies this
      ensures Inv(h, param, Now()) && Grown(old(Now()), Now(), NULL) && Image(h, param, origin, t, r)
      ensures OnceUpTo(h, rank, rank[t], old(Now()), Now())
      decreases |h| - |memo.Keys|, RankOf(rank, t) + 1, 0
    {
      hide Inv, OnceUpTo, Once, Image, Grown, CopyOf, Allocated, Ranked, Leveled, Linked, Captured, Extends;
      ghost var s := Now();
      InvFacts(h, param, s, t);
      OnceSame(h, rank, -1, s);
      GrownSame(s, NULL);
      assert Kids(h[t]) == [h[t].body];
      hide Kids, SameButCache;
      var was := cells[t];
      var c := Lambda(was.param, NULL);
      r := Begin(t, c, h, param, rank, -1, s);
      ghost var s2 := Now();
      var body := Follow(was.body, 0, r, t, param, h, rank);
      Put(r, Lambda(was.param, body), h, param, rank, rank[t], s2);
      LambdaCopy(h, param, origin, t, cells[r]);
      Ended(h, rank, param, s, s, s2, Now(), t, c, r);
      open := open - {r};
    }

    /**
      The whole substitution, on a graph in which no cycle reached from `t` consists of function edges only. At every
      depth the result unfolds to the tree at `t` with the references to the parameter replaced, although the graph may
      share nodes and have cycles; the nodes of the graph stay as they are, up to cached targets. The nodes copied are
      the compounds reached from `t`; none is copied twice if no cycle reached goes through a function edge.
     */
    method SubstParam(t: Ptr, param: Pattern) returns (r: Ptr)
      requires Linked(cells) && t < |cells| && FuncAcyclic(cells, Reach(cells, t))
      modifies this
      ensures Preserved(old(cells), cells) && Linked(cells) && r < |cells|
      ensures forall d: nat :: Unfold(cells, r, d) == SubstTree(old(cells), param, t, d)
      ensures forall d: nat, p: Ptr :: p < |old(cells)| ==> Unfold(cells, p, d) == Unfold(old(cells), p, d)
      ensures Origins(old(cells), cells, origin)
      ensures forall p: Ptr :: p in origin.Values <==> p in Reach(old(cells), t) && Compound(old(cells)[p])
      ensures Replaces(old(cells), param, origin, t, r)
      ensures forall x :: x in origin ==> Rebuilt(old(cells), param, origin, origin[x], cells[x])
      ensures FuncOffCycles(old(cells), Reach(old(cells), t)) ==> Injective(origin)
      ensures Acyclic(old(cells), Reach(old(cells), t)) ==> Injective(origin)
      ensures FuncAcyclic(old(cells), All(old(cells))) ==> FuncAcyclic(cells, All(cells))
    {
      hide Image, Finished, Ranked, Leveled, FuncAcyclic, FuncOffCycles, Acyclic, Within, Reach, All, Injective,
        Replaces, Rebuilt, BoundTo, Unbound;
      hide Inv, Once, OnceUpTo, Grown, Unfold, SubstTree, Linked, Preserved, Origins;
      ghost var h := cells;
      memo := map[];
      origin, open := map[], {};
      Started(h, param, Now());
      ghost var s0 := Now();
      ghost var rank := ChooseRank(h, t);
      RootRanked(h, rank, t);
      r := SubstRec(t, param, h, rank);
      Conclude(h, rank, param, s0, Now(), t, r);
    }
  }

  /** No two copies are of the same node. */
  ghost predicate Injective(origin: map<Ptr, Ptr>) {
    forall x, y :: x in origin && y in origin && origin[x] == origin[y] ==> x == y
  }

  lemma {:induction false} Started(h: Cells, param: Pattern, s: State)
    requires Linked(h) && s == State(h, map[], map[], {})
    ensures Inv(h, param, s) && Once(s)
  {
  }

  lemma {:induction false} ChooseRank(h: Cells, t: Ptr) returns (rank: map<Ptr, nat>)
    requires Linked(h) && t < |h| && FuncAcyclic(h, Reach(h, t))
    ensures Ranked(h, rank) && rank.Keys == Reach(h, t) && (FuncOffCycles(h, Reach(h, t)) ==> Leveled(h, rank))
  {
    hide FuncAcyclic, FuncOffCycles, PointerClosed, Reach;
    var s := Reach(h, t);
    ReachClosed(h, t);
    RankExists(h, s);
    LevelExists(h, s);
    if FuncOffCycles(h, s) {
      rank :| Leveled(h, rank) && rank.Keys == s;
    } else {
      rank :| Ranked(h, rank) && rank.Keys == s;
    }
  }

  lemma {:induction false} RootRanked(h: Cells, rank: map<Ptr, nat>, t: Ptr)
    requires Linked(h) && t < |h| && rank.Keys == Reach(h, t)
    ensures t == NULL || t in rank
  {
    if t != NULL {
      ReachSelf(h, t);
    }
  }

  lemma {:induction false} Conclude(h: Cells, rank: map<Ptr, nat>, param: Pattern, s0: State, s: State, t: Ptr, r: Ptr)
    requires Linked(h) && t < |h| && rank.Keys == Reach(h, t) && (t == NULL || t in rank)
    requires s0 == State(h, map[], map[], {}) && Once(s0) && Inv(h, param, s) && Grown(s0, s, NULL)
    requires Image(h, param, s.origin, t, r) && OnceUpTo(h, rank, RankOf(rank, t), s0, s)
    requires FuncOffCycles(h, Reach(h, t)) ==> Leveled(h, rank)
    ensures Preserved(h, s.cells) && Linked(s.cells) && r < |s.cells| && Origins(h, s.cells, s.origin)
    ensures forall d: nat :: Unfold(s.cells, r, d) == SubstTree(h, param, t, d)
    ensures forall d: nat, p: Ptr :: p < |h| ==> Unfold(s.cells, p, d) == Unfold(h, p, d)
    ensures forall p: Ptr :: p in s.origin.Values <==> p in Reach(h, t) && Compound(h[p])
    ensures Replaces(h, param, s.origin, t, r)
    ensures forall x :: x in s.origin ==> Rebuilt(h, param, s.origin, s.origin[x], s.cells[x])
    ensures FuncOffCycles(h, Reach(h, t)) ==> Injective(s.origin)
    ensures Acyclic(h, Reach(h, t)) ==> Injective(s.origin)
    ensures FuncAcyclic(h, All(h)) ==> FuncAcyclic(s.cells, All(s.cells))
  {
    Ending(h, rank, param, s0, s, t, r);
    Copied(h, rank, param, s, t, r);
    AllRebuilt(h, param, s, t, r);
    hide *;
    forall d: nat
      ensures Unfold(s.cells, r, d) == SubstTree(h, param, t, d)
    {
      UnfoldImage(h, param, s.cells, s.origin, t, r, d);
    }
    forall d: nat, p: Ptr | p < |h|
      ensures Unfold(s.cells, p, d) == Unfold(h, p, d)
    {
      UnfoldPreserved(h, s.cells, p, d);
    }
    if Acyclic(h, Reach(h, t)) {
      ReachClosed(h, t);
      AcyclicSuffices(h, Reach(h, t));
    }
    if FuncAcyclic(h, All(h)) {
      FuncAcyclicKept(h, param, s.cells, s.origin);
    }
  }

  lemma {:induction false} Ending(h: Cells, rank: map<Ptr, nat>, param: Pattern, s0: State, s: State, t: Ptr, r: Ptr)
    requires Linked(h) && t < |h| && (t == NULL || t in rank)
    requires s0 == State(h, map[], map[], {}) && Once(s0) && Inv(h, param, s) && Grown(s0, s, NULL)
    requires Image(h, param, s.origin, t, r) && OnceUpTo(h, rank, RankOf(rank, t), s0, s)
    ensures Preserved(h, s.cells) && Origins(h, s.cells, s.origin) && Finished(h, param, s.cells, s.origin, {})
    ensures Linked(s.cells) && r < |s.cells| && s.origin.Values <= rank.Keys
    ensures Leveled(h, rank) ==> Injective(s.origin)
  {
    hide Leveled, Linked, Captured;
    CopyLinked(h, param, s.cells, s.origin);
    ImageInRange(h, param, s.cells, s.origin, t, r);
  }

  lemma {:induction false} AllRebuilt(h: Cells, param: Pattern, s: State, t: Ptr, r: Ptr)
    requires Linked(h) && t < |h| && Image(h, param, s.origin, t, r)
    requires Origins(h, s.cells, s.origin) && Finished(h, param, s.cells, s.origin, {})
    ensures Replaces(h, param, s.origin, t, r)
    ensures forall x :: x in s.origin ==> Rebuilt(h, param, s.origin, s.origin[x], s.cells[x])
  {
    hide CopyOf, Rebuilt, Replaces, Image, Linked, Compound;
    ImageReplaces(h, param, s.origin, t, r);
    forall x | x in s.origin
      ensures Rebuilt(h, param, s.origin, s.origin[x], s.cells[x])
    {
      CopyRebuilt(h, param, s.origin, s.origin[x], s.cells[x]);
    }
  }

  /** The copies are of the compounds reached from `t`. */
  lemma {:induction false} Copied(h: Cells, rank: map<Ptr, nat>, param: Pattern, s: State, t: Ptr, r: Ptr)
    requires Linked(h) && t < |h| && rank.Keys == Reach(h, t) && s.origin.Values <= rank.Keys
    requires Origins(h, s.cells, s.origin) && Finished(h, param, s.cells, s.origin, {}) &&
      Image(h, param, s.origin, t, r)
    ensures forall p: Ptr :: p in s.origin.Values <==> p in Reach(h, t) && Compound(h[p])
  {
    hide Finished, Captured, Linked, Kids, Compound, ReachesIn;
    forall p: Ptr | p in Reach(h, t) && Compound(h[p])
      ensures p in s.origin.Values
    {
      var k: nat :| ReachesIn(h, t, p, k);
      OnlyCompoundsLead(h, t, p, k);
      NotCaptured(h, param, t);
      CopiedAll(h, param, s.cells, s.origin, r, p, k);
    }
  }
}
