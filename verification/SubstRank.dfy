/** Ranks on the part of a graph that substitution enters: why it ends, and why it copies no node twice. */
module SubstRank {
  import opened ThunkGraph
  import opened Sequences
  import opened SubstGraph

  // ---- Reachability --------------------------------------------------------

  ghost predicate Edge(h: Cells, p: Ptr, i: nat)
    requires Linked(h) && 0 <= p < |h| && i < |Kids(h[p])|
  {
    Kids(h[p])[i] != NULL
  }

  /** At most `k` pointers lead from `p` to `q`. References have none: no path goes on behind one. */
  ghost predicate ReachesIn(h: Cells, p: Ptr, q: Ptr, k: nat)
    requires Linked(h) && 0 <= p < |h|
    decreases k
  {
    p == q || (k > 0 && exists i :: 0 <= i < |Kids(h[p])| && Edge(h, p, i) && ReachesIn(h, Kids(h[p])[i], q, k - 1))
  }

  ghost predicate Reaches(h: Cells, p: Ptr, q: Ptr)
    requires Linked(h) && 0 <= p < |h|
  {
    exists k: nat :: ReachesIn(h, p, q, k)
  }

  /** The nodes reached from `p`, itself included. */
  ghost function Reach(h: Cells, p: Ptr): (s: set<Ptr>)
    requires Linked(h) && p < |h|
    ensures Within(h, s)
  {
    if p == NULL then {} else set q | 0 <= q < |h| && Reaches(h, p, q)
  }

  ghost predicate Within(h: Cells, s: set<Ptr>) {
    Linked(h) && forall p :: p in s ==> 0 <= p < |h|
  }

  /** No pointer leads out of `s`. */
  ghost predicate PointerClosed(h: Cells, s: set<Ptr>) {
    && Within(h, s)
    && forall p, i :: p in s && 0 <= i < |Kids(h[p])| && Edge(h, p, i) ==> Kids(h[p])[i] in s
  }

  /** The whole graph. */
  ghost function All(h: Cells): (s: set<Ptr>)
    ensures Linked(h) ==> PointerClosed(h, s)
    ensures forall p: Ptr :: p in s <==> 0 <= p < |h|
  {
    set p: Ptr | p in Below(|h|)
  }

  lemma {:induction false} ReachSelf(h: Cells, p: Ptr)
    requires Linked(h) && 0 <= p < |h|
    ensures p in Reach(h, p)
  {
    assert ReachesIn(h, p, p, 0);
  }

  /** What a child reaches its parent reaches. */
  lemma {:induction false} ReachChild(h: Cells, p: Ptr, i: nat)
    requires Linked(h) && 0 <= p < |h| && i < |Kids(h[p])| && Edge(h, p, i)
    ensures Reach(h, Kids(h[p])[i]) <= Reach(h, p)
  {
    var c := Kids(h[p])[i];
    forall q | q in Reach(h, c)
      ensures q in Reach(h, p)
    {
      var k: nat :| ReachesIn(h, c, q, k);
      assert ReachesIn(h, p, q, k + 1);
    }
  }

  lemma {:induction false} ReachesFurther(h: Cells, p: Ptr, q: Ptr, k: nat, j: nat)
    requires Linked(h) && 0 <= p < |h| && 0 <= q < |h| && ReachesIn(h, p, q, k) && j < |Kids(h[q])| && Edge(h, q, j)
    ensures ReachesIn(h, p, Kids(h[q])[j], k + 1)
    decreases k
  {
    if p == q {
      assert ReachesIn(h, Kids(h[q])[j], Kids(h[q])[j], k);
    } else {
      var i :| 0 <= i < |Kids(h[p])| && Edge(h, p, i) && ReachesIn(h, Kids(h[p])[i], q, k - 1);
      ReachesFurther(h, Kids(h[p])[i], q, k - 1, j);
    }
  }

  lemma {:induction false} ReachClosed(h: Cells, p: Ptr)
    requires Linked(h) && p < |h|
    ensures PointerClosed(h, Reach(h, p))
  {
    hide ReachesIn;
    forall q, i | q in Reach(h, p) && 0 <= i < |Kids(h[q])| && Edge(h, q, i)
      ensures Kids(h[q])[i] in Reach(h, p)
    {
      var k: nat :| ReachesIn(h, p, q, k);
      ReachesFurther(h, p, q, k, i);
    }
  }

  // ---- Graphs without references to the parameter --------------------------

  /** A substitution with nothing to replace changes no tree. */
  lemma {:induction false} NothingToReplace(h: Cells, param: Pattern, p: Ptr, d: nat)
    requires Linked(h) && p < |h| && forall q :: q in Reach(h, p) ==> Unbound(h[q], param)
    ensures SubstTree(h, param, p, d) == Unfold(h, p, d)
    decreases d
  {
    hide Captured, Unbound, ReachesIn, Reach;
    if d == 0 || p == NULL {
    } else {
      ReachSelf(h, p);
      CapturedExactly(h[p], param);
      if Compound(h[p]) {
        var ks := Kids(h[p]);
        forall i | 0 <= i < |ks|
          ensures SubstTree(h, param, ks[i], d - 1) == Unfold(h, ks[i], d - 1)
        {
          if ks[i] != NULL {
            assert Edge(h, p, i);
            ReachChild(h, p, i);
          }
          NothingReached(h, ks[i]);
          NothingToReplace(h, param, ks[i], d - 1);
        }
        assert SubstTree(h, param, p, d).kids == Unfold(h, p, d).kids;
      }
    }
  }

  lemma {:induction false} NothingReached(h: Cells, p: Ptr)
    requires Linked(h) && p < |h|
    ensures p == NULL ==> Reach(h, p) == {}
  {
  }

  // ---- Function edges ------------------------------------------------------

  /** `m` steps along function edges; null once there is none. */
  ghost function FuncIter(h: Cells, p: Ptr, m: nat): Ptr
    requires Linked(h) && p < |h|
    ensures FuncIter(h, p, m) < |h|
    decreases m
  {
    if m == 0 || p == NULL then p
    else if h[p].Apply? then
      assert Kids(h[p])[0] == h[p].func;
      FuncIter(h, h[p].func, m - 1)
    else NULL
  }

  /** No cycle through `s` consists of function edges only. */
  ghost predicate FuncAcyclic(h: Cells, s: set<Ptr>)
    requires Within(h, s)
  {
    forall p, m: nat :: p in s && m > 0 ==> FuncIter(h, p, m) != p
  }

  /** Applications are the one kind recursed into before they are memoised: along function edges the rank falls. */
  ghost predicate Ranked(h: Cells, rank: map<Ptr, nat>) {
    && PointerClosed(h, rank.Keys)
    && forall p :: p in rank && h[p].Apply? && h[p].func != NULL ==>
         Edge(h, p, 0) && h[p].func in rank && rank[h[p].func] < rank[p]
  }

  /** Moreover the rank falls or stays along every edge. */
  ghost predicate Leveled(h: Cells, rank: map<Ptr, nat>) {
    && Ranked(h, rank)
    && forall p, i :: p in rank && 0 <= i < |Kids(h[p])| && Edge(h, p, i) ==> rank[Kids(h[p])[i]] <= rank[p]
  }

  lemma {:induction false} FuncIterSplit(h: Cells, p: Ptr, m: nat, n: nat)
    requires Linked(h) && p < |h|
    ensures FuncIter(h, p, m + n) == FuncIter(h, FuncIter(h, p, m), n)
    decreases m
  {
    if m == 0 || p == NULL || !h[p].Apply? {
    } else {
      assert Kids(h[p])[0] == h[p].func;
      FuncIterSplit(h, h[p].func, m - 1, n);
    }
  }

  lemma {:induction false} FuncIterIn(h: Cells, s: set<Ptr>, p: Ptr, m: nat)
    requires PointerClosed(h, s) && p in s
    ensures FuncIter(h, p, m) == NULL || FuncIter(h, p, m) in s
    decreases m
  {
    if m == 0 || !h[p].Apply? || h[p].func == NULL {
    } else {
      assert Kids(h[p])[0] == h[p].func && Edge(h, p, 0);
      FuncIterIn(h, s, h[p].func, m - 1);
    }
  }

  lemma {:induction false} ChainEnds(h: Cells, s: set<Ptr>, p: Ptr)
    requires PointerClosed(h, s) && p in s && FuncAcyclic(h, s)
    ensures FuncIter(h, p, |h|) == NULL
  {
    var qs := seq(|h| + 1, m requires 0 <= m => FuncIter(h, p, m));
    if FuncIter(h, p, |h|) != NULL {
      forall i | 0 <= i < |qs|
        ensures 0 <= qs[i] < |h| && qs[i] in s
      {
        FuncIterSplit(h, p, i, |h| - i);
        FuncIterIn(h, s, p, i);
      }
      forall i, j | 0 <= i < j < |qs|
        ensures qs[i] != qs[j]
      {
        FuncIterSplit(h, p, i, j - i);
      }
      Pigeonhole(qs, |h|);
      assert false;
    }
  }

  /** The length of the chain of function edges from `p`, as far as `fuel` lets one see. */
  ghost function ChainLength(h: Cells, p: Ptr, fuel: nat): (n: nat)
    requires Linked(h) && p < |h|
    ensures n <= fuel
    decreases fuel
  {
    if p == NULL || fuel == 0 then 0
    else if h[p].Apply? then
      assert Kids(h[p])[0] == h[p].func;
      1 + ChainLength(h, h[p].func, fuel - 1)
    else 1
  }

  lemma {:induction false} ChainStable(h: Cells, p: Ptr, fuel: nat)
    requires Linked(h) && p < |h| && FuncIter(h, p, fuel) == NULL
    ensures ChainLength(h, p, fuel + 1) == ChainLength(h, p, fuel)
    decreases fuel
  {
    if p == NULL || fuel == 0 || !h[p].Apply? {
    } else {
      assert Kids(h[p])[0] == h[p].func;
      ChainStable(h, h[p].func, fuel - 1);
    }
  }

  lemma {:induction false} ChainRank(h: Cells, s: set<Ptr>) returns (rank: map<Ptr, nat>)
    requires PointerClosed(h, s) && FuncAcyclic(h, s)
    ensures Ranked(h, rank) && rank.Keys == s && forall p :: p in rank ==> rank[p] <= |h|
  {
    rank := map p | p in s :: ChainLength(h, p, |h|);
    forall p | p in s && h[p].Apply? && h[p].func != NULL
      ensures Edge(h, p, 0) && h[p].func in s && rank[h[p].func] < rank[p]
    {
      assert Kids(h[p])[0] == h[p].func && Edge(h, p, 0);
      ChainEnds(h, s, p);
      ChainStable(h, h[p].func, |h| - 1);
    }
  }

  lemma {:induction false} RankFalls(h: Cells, rank: map<Ptr, nat>, p: Ptr, m: nat)
    requires Ranked(h, rank) && p in rank && m > 0
    ensures FuncIter(h, p, m) != NULL ==> FuncIter(h, p, m) in rank && rank[FuncIter(h, p, m)] < rank[p]
    decreases m
  {
    assert Linked(h) && 0 <= p < |h|;
    hide PointerClosed, Linked, Kids, Edge;
    if !h[p].Apply? || h[p].func == NULL || m == 1 {
    } else {
      RankFalls(h, rank, h[p].func, m - 1);
    }
  }

  /** A rank along function edges exists exactly if no cycle consists of function edges only. */
  lemma {:induction false} RankExists(h: Cells, s: set<Ptr>)
    requires PointerClosed(h, s)
    ensures FuncAcyclic(h, s) <==> exists rank :: Ranked(h, rank) && rank.Keys == s
  {
    if FuncAcyclic(h, s) {
      var rank := ChainRank(h, s);
    }
    if rank :| Ranked(h, rank) && rank.Keys == s {
      forall p, m: nat | p in s && m > 0
        ensures FuncIter(h, p, m) != p
      {
        RankFalls(h, rank, p, m);
      }
    }
  }

  // ---- Cycles through function edges ---------------------------------------

  /** No cycle through `s` goes through a function edge. */
  ghost predicate FuncOffCycles(h: Cells, s: set<Ptr>)
    requires Within(h, s)
  {
    forall p :: p in s && h[p].Apply? && h[p].func != NULL ==> Edge(h, p, 0) && !Reaches(h, Kids(h[p])[0], p)
  }

  ghost predicate Acyclic(h: Cells, s: set<Ptr>)
    requires Within(h, s)
  {
    forall p, i :: p in s && 0 <= i < |Kids(h[p])| && Edge(h, p, i) ==> !Reaches(h, Kids(h[p])[i], p)
  }

  lemma {:induction false} LevelBound(h: Cells, rank: map<Ptr, nat>, p: Ptr, q: Ptr, k: nat)
    requires Leveled(h, rank) && p in rank && ReachesIn(h, p, q, k)
    ensures q in rank && rank[q] <= rank[p]
    decreases k
  {
    if p == q {
    } else {
      var i :| 0 <= i < |Kids(h[p])| && Edge(h, p, i) && ReachesIn(h, Kids(h[p])[i], q, k - 1);
      LevelBound(h, rank, Kids(h[p])[i], q, k - 1);
    }
  }

  /** The number of nodes reached falls or stays along every edge, and falls along function edges off all cycles. */
  lemma {:induction false} ReachLevels(h: Cells, s: set<Ptr>)
    requires PointerClosed(h, s) && FuncOffCycles(h, s)
    ensures Leveled(h, map p | p in s :: |Reach(h, p)|)
  {
    hide Reach, Reaches;
    var rank: map<Ptr, nat> := map p | p in s :: |Reach(h, p)|;
    forall p, i | p in s && 0 <= i < |Kids(h[p])| && Edge(h, p, i)
      ensures Kids(h[p])[i] in s && rank[Kids(h[p])[i]] <= rank[p]
    {
      ReachChild(h, p, i);
      Subset(Reach(h, Kids(h[p])[i]), Reach(h, p));
    }
    forall p | p in s && h[p].Apply? && h[p].func != NULL
      ensures Edge(h, p, 0) && h[p].func in s && rank[h[p].func] < rank[p]
    {
      FewerReached(h, p);
    }
  }

  lemma {:induction false} FewerReached(h: Cells, p: Ptr)
    requires Linked(h) && 0 <= p < |h| && h[p].Apply? && h[p].func != NULL
    requires Edge(h, p, 0) && !Reaches(h, Kids(h[p])[0], p)
    ensures h[p].func == Kids(h[p])[0] && |Reach(h, h[p].func)| < |Reach(h, p)|
  {
    ReachChild(h, p, 0);
    ReachSelf(h, p);
    Subset(Reach(h, h[p].func), Reach(h, p) - {p});
  }

  /** A rank that falls along function edges and never rises exists exactly if no cycle goes through a function edge. */
  lemma {:induction false} LevelExists(h: Cells, s: set<Ptr>)
    requires PointerClosed(h, s)
    ensures FuncOffCycles(h, s) <==> exists rank :: Leveled(h, rank) && rank.Keys == s
  {
    if FuncOffCycles(h, s) {
      ReachLevels(h, s);
      assert (map p | p in s :: |Reach(h, p)|).Keys == s;
    }
    if rank :| Leveled(h, rank) && rank.Keys == s {
      forall p | p in s && h[p].Apply? && h[p].func != NULL
        ensures Edge(h, p, 0) && !Reaches(h, Kids(h[p])[0], p)
      {
        assert Edge(h, p, 0) && Kids(h[p])[0] == h[p].func;
        if k: nat :| ReachesIn(h, Kids(h[p])[0], p, k) {
          LevelBound(h, rank, h[p].func, p, k);
          assert false;
        }
      }
    }
  }

  /** On acyclic graphs substitution ends, and copies no node twice. */
  lemma {:induction false} AcyclicSuffices(h: Cells, s: set<Ptr>)
    requires PointerClosed(h, s) && Acyclic(h, s)
    ensures FuncOffCycles(h, s) && FuncAcyclic(h, s)
  {
    assert FuncOffCycles(h, s) by {
      forall p | p in s && h[p].Apply? && h[p].func != NULL
        ensures Edge(h, p, 0) && !Reaches(h, Kids(h[p])[0], p)
      {
        assert Kids(h[p])[0] == h[p].func && Edge(h, p, 0);
      }
    }
    LevelExists(h, s);
    RankExists(h, s);
  }

  // ---- The copied graph ----------------------------------------------------

  /** The copies close no cycle of function edges. */
  lemma {:induction false} FuncAcyclicKept(h: Cells, param: Pattern, cs: Cells, origin: map<Ptr, Ptr>)
    requires Linked(h) && Linked(cs) && Preserved(h, cs) && Origins(h, cs, origin) && Finished(h, param, cs, origin, {})
    requires FuncAcyclic(h, All(h))
    ensures FuncAcyclic(cs, All(cs))
  {
    hide *;
    var rank := ChainRank(h, All(h));
    RankCopies(h, param, cs, origin, rank);
    RankExists(cs, All(cs));
  }

  /** A new cell ranks above all old ones, and among the new ones as what it is a copy of. */
  ghost function CopyRank(h: Cells, origin: map<Ptr, Ptr>, rank: map<Ptr, nat>, x: Ptr): nat
    requires rank.Keys == All(h) && (x in rank || (x in origin && origin[x] in rank))
  {
    if x in rank then rank[x] else |h| + 1 + rank[origin[x]]
  }

  lemma {:induction false} RankCopies(h: Cells, param: Pattern, cs: Cells, origin: map<Ptr, Ptr>, rank: map<Ptr, nat>)
    requires Linked(h) && Linked(cs) && Preserved(h, cs) && Origins(h, cs, origin) && Finished(h, param, cs, origin, {})
    requires Ranked(h, rank) && rank.Keys == All(h) && forall p :: p in rank ==> rank[p] <= |h|
    ensures exists rank' :: Ranked(cs, rank') && rank'.Keys == All(cs)
  {
    hide Preserved, Finished, Image, Ranked, Linked, Captured, PointerClosed, All;
    var rank': map<Ptr, nat> := map x: Ptr | 0 <= x < |cs| :: CopyRank(h, origin, rank, x);
    forall x: Ptr | 0 <= x < |cs| && cs[x].Apply? && cs[x].func != NULL
      ensures cs[x].func in rank' && rank'[cs[x].func] < rank'[x]
    {
      CopyFalls(h, param, cs, origin, rank, x);
    }
    RankedByAll(cs, rank');
  }

  lemma {:induction false} RankedByAll(cs: Cells, rank: map<Ptr, nat>)
    requires Linked(cs) && forall x: Ptr :: x in rank <==> 0 <= x < |cs|
    requires forall x: Ptr :: 0 <= x < |cs| && cs[x].Apply? && cs[x].func != NULL ==>
      cs[x].func in rank && rank[cs[x].func] < rank[x]
    ensures Ranked(cs, rank) && rank.Keys == All(cs)
  {
    assert rank.Keys == All(cs);
    forall x: Ptr | 0 <= x < |cs| && cs[x].Apply? && cs[x].func != NULL
      ensures Edge(cs, x, 0)
    {
      assert Kids(cs[x])[0] == cs[x].func;
    }
  }

  lemma {:induction false} OldFalls(h: Cells, cs: Cells, rank: map<Ptr, nat>, x: Ptr)
    requires Linked(h) && Preserved(h, cs) && Ranked(h, rank) && x in rank && 0 <= x < |h|
    requires cs[x].Apply? && cs[x].func != NULL
    ensures cs[x].func in rank && rank[cs[x].func] < rank[x]
  {
    assert SameButCache(h[x], cs[x]);
    hide PointerClosed, Linked, Kids;
  }

  /** A pointer of a copy leads to an old cell, or to the copy of what the pointer of the original leads to. */
  lemma {:induction false} ImageIsOld(h: Cells, param: Pattern, cs: Cells, origin: map<Ptr, Ptr>, p: Ptr, y: Ptr)
    requires Linked(h) && Origins(h, cs, origin) && p < |h| && Image(h, param, origin, p, y) && y != NULL
    ensures p != NULL && (y < |h| || (y in origin && origin[y] == p))
  {
    hide Kids;
  }

  lemma {:induction false} CopiedFunc(h: Cells, param: Pattern, origin: map<Ptr, Ptr>, p: Ptr, c: Cell)
    requires Linked(h) && 0 <= p < |h| && c.Apply? && CopyOf(h, param, origin, p, c)
    ensures h[p].Apply? && h[p].func < |h| && Image(h, param, origin, h[p].func, c.func)
  {
    hide Image;
    assert Kids(c)[0] == c.func;
    assert h[p].Apply? && Kids(h[p])[0] == h[p].func;
  }

  /** The function of a cell is an older cell, or the copy of the function of what the cell is a copy of. */
  lemma {:induction false} CopyFalls(h: Cells, param: Pattern, cs: Cells, origin: map<Ptr, Ptr>, rank: map<Ptr, nat>,
                                     x: Ptr)
    requires Linked(h) && Linked(cs) && Preserved(h, cs) && Origins(h, cs, origin) && Finished(h, param, cs, origin, {})
    requires Ranked(h, rank) && rank.Keys == All(h)
    requires 0 <= x < |cs| && cs[x].Apply? && cs[x].func != NULL
    ensures cs[x].func < |cs|
    ensures x < |h| ==> cs[x].func < |h| && rank[cs[x].func] < rank[x]
    ensures x >= |h| && cs[x].func >= |h| ==> rank[origin[cs[x].func]] < rank[origin[x]]
  {
    hide Image, Linked, CopyOf, Preserved, PointerClosed, Kids, Label, Compound;
    if x < |h| {
      OldFalls(h, cs, rank, x);
    } else {
      var p := origin[x];
      assert CopyOf(h, param, origin, p, cs[x]);
      CopiedFunc(h, param, origin, p, cs[x]);
      ImageIsOld(h, param, cs, origin, h[p].func, cs[x].func);
    }
  }

  /** Every compound reached from a copied node is copied too. */
  lemma {:induction false} CopiedAll(h: Cells, param: Pattern, cs: Cells, origin: map<Ptr, Ptr>, x: Ptr, q: Ptr, k: nat)
    requires Linked(h) && Origins(h, cs, origin) && Finished(h, param, cs, origin, {})
    requires x in origin && ReachesIn(h, origin[x], q, k) && 0 <= q < |h| && Compound(h[q])
    ensures q in origin.Values
    decreases k
  {
    hide Image, Kids, Compound, Finished;
    var p := origin[x];
    if p == q {
    } else {
      var i: nat :| i < |Kids(h[p])| && Edge(h, p, i) && ReachesIn(h, Kids(h[p])[i], q, k - 1);
      var y := CopiedKid(h, param, cs, origin, x, i, q, k - 1);
      CopiedAll(h, param, cs, origin, y, q, k - 1);
    }
  }

  lemma {:induction false} CopiedKid(h: Cells, param: Pattern, cs: Cells, origin: map<Ptr, Ptr>, x: Ptr, i: nat, q: Ptr,
                                     k: nat)
    returns (y: Ptr)
    requires Linked(h) && Origins(h, cs, origin) && Finished(h, param, cs, origin, {}) && x in origin
    requires i < |Kids(h[origin[x]])| && Edge(h, origin[x], i)
    requires ReachesIn(h, Kids(h[origin[x]])[i], q, k) && 0 <= q < |h| && Compound(h[q])
    ensures y in origin && origin[y] == Kids(h[origin[x]])[i]
  {
    var c := Kids(h[origin[x]])[i];
    OnlyCompoundsLead(h, c, q, k);
    hide Linked, Kids, Compound, ReachesIn, Label;
    y := Kids(cs[x])[i];
    assert CopyOf(h, param, origin, origin[x], cs[x]);
    NotCaptured(h, param, c);
  }

  lemma {:induction false} OnlyCompoundsLead(h: Cells, p: Ptr, q: Ptr, k: nat)
    requires Linked(h) && 0 <= p < |h| && 0 <= q < |h| && ReachesIn(h, p, q, k) && Compound(h[q])
    ensures Compound(h[p])
  {
    if p != q {
      var i :| 0 <= i < |Kids(h[p])| && Edge(h, p, i) && ReachesIn(h, Kids(h[p])[i], q, k - 1);
    }
  }

  lemma {:induction false} NotCaptured(h: Cells, param: Pattern, t: Ptr)
    requires 0 <= t < |h| && Compound(h[t])
    ensures Captured(h[t], param).None?
  {
  }
}
