/** The calls of the substitution, indexed by their depth: it ends exactly where no cycle consists of function edges. */
module SubstWalk {
  import opened Options
  import opened ThunkGraph
  import opened Sequences
  import opened SubstGraph
  import opened SubstRank

  /** What is followed once the node is memoised. */
  ghost function Entered(c: Cell): seq<Ptr> {
    if c.Apply? then c.args else Kids(c)
  }

  ghost predicate InCells(h: Cells, ps: seq<Ptr>) {
    forall i :: 0 <= i < |ps| ==> ps[i] < |h|
  }

  ghost predicate KidOf(h: Cells, t: Ptr, q: Ptr)
    requires Linked(h) && 0 <= t < |h|
  {
    exists i :: 0 <= i < |Kids(h[t])| && Edge(h, t, i) && Kids(h[t])[i] == q
  }

  lemma {:induction false} EnteredIn(h: Cells, t: Ptr)
    requires Linked(h) && 0 <= t < |h|
    ensures InCells(h, Entered(h[t]))
    ensures forall q :: q in Entered(h[t]) && q != NULL ==> KidOf(h, t, q)
  {
    forall i | 0 <= i < |Entered(h[t])|
      ensures Entered(h[t])[i] < |h|
      ensures Entered(h[t])[i] != NULL ==> KidOf(h, t, Entered(h[t])[i])
    {
      var j := if h[t].Apply? then i + 1 else i;
      assert Kids(h[t])[j] == Entered(h[t])[i];
      assert Entered(h[t])[i] != NULL ==> Edge(h, t, j);
    }
  }

  /**
    The keys of the memo after the call for `t`, if no more than `fuel` calls are ever open at once. Only the function
    of an application is followed before its node is memoised; what a reference resolves to is returned and not entered.
   */
  ghost function Walk(h: Cells, memo: set<Ptr>, t: Ptr, fuel: nat): Option<set<Ptr>>
    requires Linked(h) && t < |h|
    decreases fuel, 0
  {
    if fuel == 0 then None
    else if t == NULL || t in memo || !Compound(h[t]) then Some(memo)
    else
      assert h[t].Apply? ==> Kids(h[t])[0] == h[t].func;
      EnteredIn(h, t);
      match (if h[t].Apply? then Walk(h, memo, h[t].func, fuel - 1) else Some(memo))
      case None => None
      case Some(m) => WalkAll(h, m + {t}, Entered(h[t]), fuel - 1)
  }

  ghost function WalkAll(h: Cells, memo: set<Ptr>, ps: seq<Ptr>, fuel: nat): Option<set<Ptr>>
    requires Linked(h) && InCells(h, ps)
    decreases fuel, 1 + |ps|
  {
    if ps == [] then Some(memo)
    else
      match Walk(h, memo, ps[0], fuel)
      case None => None
      case Some(m) => WalkAll(h, m, ps[1..], fuel)
  }

  // ---- If it ends, every chain of function edges does ----------------------

  /** The call for `p` has nothing left to do. */
  ghost predicate Handled(h: Cells, memo: set<Ptr>, p: Ptr) {
    p == NULL || p in memo || (p < |h| && !Compound(h[p]))
  }

  ghost predicate ChainStops(h: Cells, p: Ptr)
    requires Linked(h) && p < |h|
  {
    exists m: nat :: FuncIter(h, p, m) == NULL
  }

  /** Every memoised node has a chain of function edges that stops. */
  ghost predicate AllStop(h: Cells, memo: set<Ptr>)
    requires Linked(h)
  {
    forall p :: p in memo ==> 0 <= p < |h| && ChainStops(h, p)
  }

  /** All pointers of the node have been followed. */
  ghost predicate KidsHandled(h: Cells, memo: set<Ptr>, p: Ptr) {
    0 <= p < |h| && forall i :: 0 <= i < |Kids(h[p])| ==> Handled(h, memo, Kids(h[p])[i])
  }

  /** A call only adds nodes, and follows all pointers of those it adds. */
  ghost predicate Finishes(h: Cells, memo: set<Ptr>, m: set<Ptr>) {
    memo <= m && forall p :: p in m && p !in memo ==> KidsHandled(h, m, p)
  }

  lemma {:induction false} HandledLater(h: Cells, memo: set<Ptr>, m: set<Ptr>, p: Ptr)
    requires KidsHandled(h, memo, p) && memo <= m
    ensures KidsHandled(h, m, p)
  {
  }

  lemma {:induction false} FinishesTrans(h: Cells, memo: set<Ptr>, m: set<Ptr>, m': set<Ptr>)
    requires Finishes(h, memo, m) && Finishes(h, m, m')
    ensures Finishes(h, memo, m')
  {
    hide KidsHandled;
    forall p | p in m' && p !in memo
      ensures KidsHandled(h, m', p)
    {
      if p in m {
        HandledLater(h, m, m', p);
      }
    }
  }

  lemma {:induction false} StopsIfFuncDoes(h: Cells, memo: set<Ptr>, t: Ptr)
    requires Linked(h) && 0 <= t < |h| && AllStop(h, memo) && Compound(h[t])
    requires h[t].Apply? ==> Handled(h, memo, h[t].func)
    ensures ChainStops(h, t)
  {
    if h[t].Apply? {
      assert Kids(h[t])[0] == h[t].func;
      var m: nat :| m == 0 || FuncIter(h, h[t].func, m) == NULL;
      if h[t].func in memo {
        m :| FuncIter(h, h[t].func, m) == NULL;
      } else if h[t].func == NULL {
        m := 0;
      } else {
        m := 1;
      }
      assert FuncIter(h, t, m + 1) == NULL;
    } else {
      assert FuncIter(h, t, 1) == NULL;
    }
  }

  /** What an ended call leaves: its node handled, its additions finished, and all chains stopping. */
  lemma {:induction false} WalkLeaves(h: Cells, memo: set<Ptr>, t: Ptr, fuel: nat)
    requires Linked(h) && t < |h| && AllStop(h, memo) && Walk(h, memo, t, fuel).Some?
    ensures var m := Walk(h, memo, t, fuel).value; AllStop(h, m) && Finishes(h, memo, m) && Handled(h, m, t)
    decreases fuel, 0
  {
    hide ChainStops, KidsHandled, FuncIter;
    if t == NULL || t in memo || !Compound(h[t]) {
    } else {
      assert h[t].Apply? ==> Kids(h[t])[0] == h[t].func;
      EnteredIn(h, t);
      var m1 := memo;
      if h[t].Apply? {
        WalkLeaves(h, memo, h[t].func, fuel - 1);
        m1 := Walk(h, memo, h[t].func, fuel - 1).value;
      }
      StopsIfFuncDoes(h, m1, t);
      WalkAllLeaves(h, m1 + {t}, Entered(h[t]), fuel - 1);
      NodeFinished(h, memo, m1, Walk(h, memo, t, fuel).value, t);
    }
  }

  lemma {:induction false} WalkAllLeaves(h: Cells, memo: set<Ptr>, ps: seq<Ptr>, fuel: nat)
    requires Linked(h) && InCells(h, ps) && AllStop(h, memo) && WalkAll(h, memo, ps, fuel).Some?
    ensures var m := WalkAll(h, memo, ps, fuel).value;
      AllStop(h, m) && Finishes(h, memo, m) && forall i :: 0 <= i < |ps| ==> Handled(h, m, ps[i])
    decreases fuel, 1 + |ps|
  {
    hide ChainStops, KidsHandled, Walk, Compound;
    if ps == [] {
    } else {
      WalkLeaves(h, memo, ps[0], fuel);
      var m1 := Walk(h, memo, ps[0], fuel).value;
      WalkAllLeaves(h, m1, ps[1..], fuel);
      var m := WalkAll(h, m1, ps[1..], fuel).value;
      FinishesTrans(h, memo, m1, m);
      forall i | 0 <= i < |ps|
        ensures Handled(h, m, ps[i])
      {
        assert i > 0 ==> ps[i] == ps[1..][i - 1];
      }
    }
  }

  lemma {:induction false} NodeFinished(h: Cells, memo: set<Ptr>, m1: set<Ptr>, m: set<Ptr>, t: Ptr)
    requires 0 <= t < |h| && Finishes(h, memo, m1) && Finishes(h, m1 + {t}, m)
    requires h[t].Apply? ==> Handled(h, m1, h[t].func)
    requires forall i :: 0 <= i < |Entered(h[t])| ==> Handled(h, m, Entered(h[t])[i])
    ensures Finishes(h, memo, m)
  {
    assert KidsHandled(h, m, t) by {
      forall i | 0 <= i < |Kids(h[t])|
        ensures Handled(h, m, Kids(h[t])[i])
      {
        if h[t].Apply? && i == 0 {
          assert Kids(h[t])[i] == h[t].func;
        } else {
          assert Kids(h[t])[i] == Entered(h[t])[if h[t].Apply? then i - 1 else i];
        }
      }
    }
    hide KidsHandled, Handled;
    forall p | p in m && p !in memo
      ensures KidsHandled(h, m, p)
    {
      if p in m1 {
        HandledLater(h, m1, m, p);
      }
    }
  }

  /** A finished memo holds every compound reached from what it has handled. */
  lemma {:induction false} FinishedReach(h: Cells, m: set<Ptr>, p: Ptr, q: Ptr, k: nat)
    requires Linked(h) && Finishes(h, {}, m) && 0 <= p < |h| && Handled(h, m, p) && ReachesIn(h, p, q, k)
    ensures Handled(h, m, q)
    decreases k
  {
    if p == q {
    } else {
      var i :| 0 <= i < |Kids(h[p])| && Edge(h, p, i) && ReachesIn(h, Kids(h[p])[i], q, k - 1);
      assert Compound(h[p]) && KidsHandled(h, m, p);
      FinishedReach(h, m, Kids(h[p])[i], q, k - 1);
    }
  }

  /** A chain that stops does not come back. */
  lemma {:induction false} StopsNoReturn(h: Cells, p: Ptr, m: nat, n: nat)
    requires Linked(h) && 0 <= p < |h| && n > 0 && FuncIter(h, p, m) == NULL
    ensures FuncIter(h, p, n) != p
    decreases m
  {
    if FuncIter(h, p, n) == p {
      if n <= m {
        FuncIterSplit(h, p, n, m - n);
        StopsNoReturn(h, p, m - n, n);
      } else {
        FuncIterSplit(h, p, m, n - m);
      }
      assert false;
    }
  }

  lemma {:induction false} EndsOnlyIf(h: Cells, t: Ptr, fuel: nat)
    requires Linked(h) && t < |h| && Walk(h, {}, t, fuel).Some?
    ensures FuncAcyclic(h, Reach(h, t))
  {
    hide Walk, ReachesIn, FuncIter, KidsHandled, Compound;
    WalkLeaves(h, {}, t, fuel);
    var m := Walk(h, {}, t, fuel).value;
    forall p, n: nat | p in Reach(h, t) && n > 0
      ensures FuncIter(h, p, n) != p
    {
      var k: nat :| ReachesIn(h, t, p, k);
      FinishedReach(h, m, t, p, k);
      HandledStops(h, m, p);
      var j: nat :| FuncIter(h, p, j) == NULL;
      StopsNoReturn(h, p, j, n);
    }
  }

  lemma {:induction false} HandledStops(h: Cells, m: set<Ptr>, p: Ptr)
    requires Linked(h) && 0 <= p < |h| && AllStop(h, m) && Handled(h, m, p)
    ensures ChainStops(h, p)
  {
    if p !in m {
      assert FuncIter(h, p, 1) == NULL;
    }
  }

  // ---- If every chain does, it ends ----------------------------------------

  /** How deep the calls go: a level for each node not memoised yet, and in each level a chain of function edges. */
  ghost function Depth(h: Cells, left: nat, r: int): int {
    left * (|h| + 3) + r + 2
  }

  ghost function RankOrNull(rank: map<Ptr, nat>, p: Ptr): (r: int)
    requires p == NULL || p in rank
    ensures r >= -1
  {
    if p == NULL then -1 else rank[p]
  }

  /** Ranked nodes not memoised yet. */
  ghost function Left(rank: map<Ptr, nat>, memo: set<Ptr>): nat {
    |rank.Keys - memo|
  }

  ghost predicate LowRanked(h: Cells, rank: map<Ptr, nat>) {
    Ranked(h, rank) && forall p :: p in rank ==> rank[p] <= |h|
  }

  lemma {:induction false} LeftShrinks(rank: map<Ptr, nat>, memo: set<Ptr>, m: set<Ptr>)
    requires memo <= m
    ensures Left(rank, m) <= Left(rank, memo)
    ensures forall t :: t in rank && t in m && t !in memo ==> Left(rank, m) < Left(rank, memo)
  {
    Subset(rank.Keys - m, rank.Keys - memo);
    forall t | t in rank && t in m && t !in memo
      ensures Left(rank, m) < Left(rank, memo)
    {
      Subset(rank.Keys - m, rank.Keys - memo - {t});
    }
  }

  lemma {:induction false} WalkEnds(h: Cells, rank: map<Ptr, nat>, memo: set<Ptr>, t: Ptr, fuel: nat)
    requires LowRanked(h, rank) && t < |h| && (t == NULL || t in rank)
    requires fuel >= Depth(h, Left(rank, memo), RankOrNull(rank, t))
    ensures Walk(h, memo, t, fuel).Some? && memo <= Walk(h, memo, t, fuel).value
    decreases fuel, 0
  {
    DepthPositive(h, Left(rank, memo), RankOrNull(rank, t));
    assert Linked(h);
    hide Walk, WalkAll, LowRanked, Linked, Compound, Left, Depth, RankOrNull;
    if t == NULL || t in memo || !Compound(h[t]) {
      WalkNothing(h, memo, t, fuel);
    } else if h[t].Apply? {
      WalkApply(h, rank, memo, t, fuel);
    } else {
      WalkRest(h, rank, memo, memo, t, fuel);
    }
  }

  lemma {:induction false} WalkApply(h: Cells, rank: map<Ptr, nat>, memo: set<Ptr>, t: Ptr, fuel: nat)
    requires LowRanked(h, rank) && t in rank && fuel > 0 && t !in memo && h[t].Apply?
    requires fuel >= Depth(h, Left(rank, memo), RankOrNull(rank, t))
    ensures Walk(h, memo, t, fuel).Some? && memo <= Walk(h, memo, t, fuel).value
    decreases fuel - 1, |h| + |Entered(h[t])| + 3
  {
    FuncRanked(h, rank, t, Left(rank, memo));
    hide Walk, WalkAll, LowRanked, Linked, Left, Depth, RankOrNull, Entered;
    WalkEnds(h, rank, memo, h[t].func, fuel - 1);
    WalkRest(h, rank, memo, Walk(h, memo, h[t].func, fuel - 1).value, t, fuel);
  }

  /** Once the function of an application is done: memoising the node, and following the rest. */
  lemma {:induction false} WalkRest(h: Cells, rank: map<Ptr, nat>, memo: set<Ptr>, m: set<Ptr>, t: Ptr, fuel: nat)
    requires LowRanked(h, rank) && t in rank && fuel > 0 && t !in memo && Compound(h[t]) && memo <= m
    requires fuel >= Depth(h, Left(rank, memo), RankOrNull(rank, t))
    requires if h[t].Apply? then h[t].func < |h| && Walk(h, memo, h[t].func, fuel - 1) == Some(m) else m == memo
    ensures Walk(h, memo, t, fuel).Some? && memo <= Walk(h, memo, t, fuel).value
    decreases fuel - 1, |h| + |Entered(h[t])| + 2
  {
    EnteredRanked(h, rank, t);
    hide Walk, WalkAll, LowRanked, Linked, Compound, Left, Depth, RankOrNull, Entered, InCells, AllRanked;
    WalkStep(h, memo, m, t, fuel);
    LeftShrinks(rank, memo, m + {t});
    DepthStep(h, Left(rank, memo), Left(rank, m + {t}), RankOrNull(rank, t), fuel);
    WalkAllEnds(h, rank, m + {t}, Entered(h[t]), fuel - 1);
  }

  lemma {:induction false} WalkNothing(h: Cells, memo: set<Ptr>, t: Ptr, fuel: nat)
    requires Linked(h) && t < |h| && fuel > 0 && (t == NULL || t in memo || !Compound(h[t]))
    ensures Walk(h, memo, t, fuel) == Some(memo)
  {
  }

  lemma {:induction false} WalkStep(h: Cells, memo: set<Ptr>, m: set<Ptr>, t: Ptr, fuel: nat)
    requires Linked(h) && 0 <= t < |h| && fuel > 0 && t !in memo && Compound(h[t]) && InCells(h, Entered(h[t]))
    requires if h[t].Apply? then h[t].func < |h| && Walk(h, memo, h[t].func, fuel - 1) == Some(m) else m == memo
    ensures Walk(h, memo, t, fuel) == WalkAll(h, m + {t}, Entered(h[t]), fuel - 1)
  {
    hide WalkAll, Compound, Linked;
  }

  lemma {:induction false} DepthPositive(h: Cells, left: nat, r: int)
    requires r >= -1
    ensures Depth(h, left, r) >= 1
  {
    assert left * (|h| + 3) >= 0;
  }

  lemma {:induction false} DepthMono(h: Cells, left: nat, left': nat, r: int)
    requires left <= left'
    ensures Depth(h, left, r) <= Depth(h, left', r)
  {
    assert left * (|h| + 3) <= left' * (|h| + 3);
  }

  lemma {:induction false} DepthRank(h: Cells, rank: map<Ptr, nat>, left: nat, p: Ptr)
    requires LowRanked(h, rank) && (p == NULL || p in rank)
    ensures Depth(h, left, RankOrNull(rank, p)) <= Depth(h, left, |h|)
  {
  }

  lemma {:induction false} FuncRanked(h: Cells, rank: map<Ptr, nat>, t: Ptr, left: nat)
    requires LowRanked(h, rank) && t in rank && h[t].Apply?
    ensures h[t].func < |h| && (h[t].func == NULL || h[t].func in rank)
    ensures Depth(h, left, RankOrNull(rank, h[t].func)) <= Depth(h, left, RankOrNull(rank, t)) - 1
  {
    assert Kids(h[t])[0] == h[t].func;
  }

  lemma {:induction false} DepthStep(h: Cells, left: nat, left': nat, r: int, fuel: nat)
    requires left' < left && r >= 0 && fuel >= Depth(h, left, r)
    ensures fuel >= 1 && fuel - 1 >= Depth(h, left', |h|)
  {
    assert (left' + 1) * (|h| + 3) <= left * (|h| + 3);
  }

  ghost predicate AllRanked(h: Cells, rank: map<Ptr, nat>, ps: seq<Ptr>) {
    forall i :: 0 <= i < |ps| ==> ps[i] < |h| && (ps[i] == NULL || ps[i] in rank)
  }

  lemma {:induction false} EnteredRanked(h: Cells, rank: map<Ptr, nat>, t: Ptr)
    requires LowRanked(h, rank) && t in rank
    ensures Linked(h) && 0 <= t < |h| && InCells(h, Entered(h[t])) && AllRanked(h, rank, Entered(h[t]))
    ensures RankOrNull(rank, t) >= 0
  {
    EnteredIn(h, t);
    forall i | 0 <= i < |Entered(h[t])| && Entered(h[t])[i] != NULL
      ensures Entered(h[t])[i] in rank
    {
      assert Entered(h[t])[i] in Entered(h[t]) && KidOf(h, t, Entered(h[t])[i]);
    }
  }

  lemma {:induction false} WalkAllEnds(h: Cells, rank: map<Ptr, nat>, memo: set<Ptr>, ps: seq<Ptr>, fuel: nat)
    requires Linked(h) && LowRanked(h, rank) && AllRanked(h, rank, ps)
    requires fuel >= Depth(h, Left(rank, memo), |h|)
    ensures WalkAll(h, memo, ps, fuel).Some? && memo <= WalkAll(h, memo, ps, fuel).value
    decreases fuel, 1 + |ps|
  {
    hide Left, Walk, LowRanked, Linked;
    if ps == [] {
    } else {
      DepthRank(h, rank, Left(rank, memo), ps[0]);
      WalkEnds(h, rank, memo, ps[0], fuel);
      var m := Walk(h, memo, ps[0], fuel).value;
      LeftShrinks(rank, memo, m);
      DepthMono(h, Left(rank, m), Left(rank, memo), |h|);
      WalkAllEnds(h, rank, m, ps[1..], fuel);
    }
  }

  /** The substitution ends exactly if no cycle reached consists of function edges only. */
  lemma {:induction false} EndsExactly(h: Cells, t: Ptr)
    requires Linked(h) && t < |h|
    ensures FuncAcyclic(h, Reach(h, t)) <==> exists fuel: nat :: Walk(h, {}, t, fuel).Some?
  {
    hide FuncAcyclic, Walk, Ranked, Reach;
    if FuncAcyclic(h, Reach(h, t)) {
      ReachClosed(h, t);
      var rank := ChainRank(h, Reach(h, t));
      if t != NULL {
        ReachSelf(h, t);
      }
      var d := Depth(h, Left(rank, {}), RankOrNull(rank, t));
      var fuel: nat := if d < 0 then 0 else d;
      WalkEnds(h, rank, {}, t, fuel);
    }
    if fuel: nat :| Walk(h, {}, t, fuel).Some? {
      EndsOnlyIf(h, t, fuel);
    }
  }
}
