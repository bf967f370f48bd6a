/** Open addressing with linear probing: the slots of the intern table as a sequence. */
module InternProbe {
  import opened Bytes

  /** An interned string. Its identity is what interning is about. */
  class Str {
    const bytes: seq<byte>

    constructor (b: seq<byte>)
      ensures bytes == b
    {
      bytes := b;
    }
  }

  type Slots = seq<Str?>

  /** The 32-bit multiplicative hash: h = 31 h + b, wrapping. */
  function Hash(b: seq<byte>): (h: nat)
    ensures h < 0x1_0000_0000
  {
    if b == [] then 0 else (Hash(b[..|b| - 1]) * 31 + b[|b| - 1] as int) % 0x1_0000_0000
  }

  /** The slot where probing for `b` starts. */
  function Home(b: seq<byte>, cap: nat): (h: nat)
    requires cap > 0
    ensures h < cap
  {
    Hash(b) % cap
  }

  /** How many steps forward, wrapping at the end, lead from slot `a` to slot `x`. */
  function Off(a: nat, x: nat, cap: nat): (d: nat)
    requires a < cap && x < cap
    ensures d < cap
  {
    if a <= x then x - a else x - a + cap
  }

  /** Probing from `h` meets slot `k` before slot `i`. */
  predicate Before(h: nat, k: nat, i: nat, cap: nat)
    requires h < cap && k < cap && i < cap
  {
    Off(h, k, cap) < Off(h, i, cap)
  }

  lemma {:induction false} SameOff(h: nat, i: nat, j: nat, cap: nat)
    requires h < cap && i < cap && j < cap && !Before(h, i, j, cap) && !Before(h, j, i, cap)
    ensures i == j
  {
  }

  function Next(i: nat, cap: nat): (n: nat)
    requires i < cap
    ensures n < cap
  {
    if i + 1 >= cap then 0 else i + 1
  }

  /** No slot between the home of entry `i` and `i` itself is empty. */
  ghost predicate Reached(es: Slots, i: nat)
    requires i < |es| && es[i] != null
  {
    forall k :: 0 <= k < |es| && Before(Home(es[i].bytes, |es|), k, i, |es|) ==> es[k] != null
  }

  ghost predicate AllReached(es: Slots) {
    forall i :: 0 <= i < |es| && es[i] != null ==> Reached(es, i)
  }

  ghost predicate Unique(es: Slots) {
    forall i, j :: 0 <= i < j < |es| && es[i] != null && es[j] != null ==> es[i].bytes != es[j].bytes
  }

  ghost predicate Inv(es: Slots) {
    |es| > 0 && AllReached(es) && Unique(es)
  }

  ghost predicate HasEmpty(es: Slots) {
    exists e :: 0 <= e < |es| && es[e] == null
  }

  /** Slot `i` is where probing for `b` stops: empty or holding `b`, and everything before it is neither. */
  ghost predicate Stops(es: Slots, b: seq<byte>, i: nat)
    requires |es| > 0
  {
    && i < |es| && (es[i] == null || es[i].bytes == b)
    && forall k :: 0 <= k < |es| && Before(Home(b, |es|), k, i, |es|) ==> es[k] != null && es[k].bytes != b
  }

  ghost function Elems(es: Slots): set<Str> {
    set i | 0 <= i < |es| && es[i] != null :: es[i]
  }

  /** The number of occupied slots. */
  ghost function Count(es: Slots): (n: nat)
    ensures n <= |es|
  {
    if es == [] then 0 else Count(es[..|es| - 1]) + (if es[|es| - 1] == null then 0 else 1)
  }

  lemma {:induction false} CountUpdate(es: Slots, i: nat, x: Str?)
    requires i < |es|
    ensures Count(es[i := x]) == Count(es) - (if es[i] == null then 0 else 1) + (if x == null then 0 else 1)
  {
    var n := |es| - 1;
    if i < n {
      CountUpdate(es[..n], i, x);
      assert es[i := x][..n] == es[..n][i := x];
    } else {
      assert es[i := x][..n] == es[..n];
    }
  }

  lemma {:induction false} CountBelow(es: Slots)
    requires Count(es) < |es|
    ensures HasEmpty(es)
  {
    var n := |es| - 1;
    if es[n] != null {
      CountBelow(es[..n]);
      var e :| 0 <= e < n && es[..n][e] == null;
      assert es[e] == null;
    }
  }

  lemma {:induction false} CountNone(es: Slots)
    requires forall i :: 0 <= i < |es| ==> es[i] == null
    ensures Count(es) == 0 && Elems(es) == {}
  {
    if es == [] {
    } else {
      CountNone(es[..|es| - 1]);
    }
  }

  /** Probing decides membership: it stops at the entry if there is one, and at an empty slot otherwise. */
  lemma {:induction false} StopsDecides(es: Slots, b: seq<byte>, i: nat, j: nat)
    requires Inv(es) && Stops(es, b, i) && j < |es| && es[j] != null && es[j].bytes == b
    ensures i == j
  {
    var h := Home(b, |es|);
    assert Reached(es, j);
    assert !Before(h, j, i, |es|);
    assert !Before(h, i, j, |es|);
    SameOff(h, i, j, |es|);
  }

  /** Putting an absent string where probing stops keeps the invariant and adds exactly that string. */
  lemma {:induction false} InsertKeeps(es: Slots, i: nat, x: Str)
    requires Inv(es) && Stops(es, x.bytes, i) && es[i] == null
    ensures Inv(es[i := x]) && Elems(es[i := x]) == Elems(es) + {x} && Count(es[i := x]) == Count(es) + 1
    ensures forall t :: t in Elems(es) ==> t.bytes != x.bytes
  {
    var es' := es[i := x];
    CountUpdate(es, i, x);
    forall j | 0 <= j < |es| && es[j] != null
      ensures es[j].bytes != x.bytes
    {
      if es[j].bytes == x.bytes {
        StopsDecides(es, x.bytes, i, j);
      }
    }
    forall j | 0 <= j < |es'| && es'[j] != null
      ensures Reached(es', j)
    {
      if j != i {
        assert Reached(es, j);
      }
    }
    forall t | t in Elems(es) + {x}
      ensures t in Elems(es')
    {
      if t == x {
        assert es'[i] == x;
      } else {
        var k :| 0 <= k < |es| && es[k] != null && es[k] == t;
        assert es'[k] == t;
      }
    }
  }

  // ---- Deletion ------------------------------------------------------------

  /**
    The state of the re-insertion loop, `s` being the slot vacated first, `c` the slot last handled and `e` the empty
    slot that ends the cluster: slots after `c` up to `e` are still to be handled and may have gaps between `s` and `c`
    on their probe paths; everything else is reachable.
   */
  ghost predicate Rest(s: nat, c: nat, e: nat, j: nat, cap: nat)
    requires s < cap && c < cap && e < cap && j < cap
  {
    Off(s, c, cap) < Off(s, j, cap) < Off(s, e, cap)
  }

  ghost predicate MaybeGap(es: Slots, s: nat, c: nat, e: nat, i: nat)
    requires s < |es| && c < |es| && e < |es| && i < |es| && es[i] != null
  {
    forall k :: 0 <= k < |es| && Before(Home(es[i].bytes, |es|), k, i, |es|) && es[k] == null ==>
      Rest(s, c, e, i, |es|) && Off(s, k, |es|) <= Off(s, c, |es|)
  }

  ghost predicate Moving(es: Slots, s: nat, c: nat, e: nat) {
    && s < |es| && c < |es| && e < |es| && Unique(es)
    && es[e] == null && Off(s, c, |es|) < Off(s, e, |es|)
    && (forall j :: 0 <= j < |es| && Rest(s, c, e, j, |es|) ==> es[j] != null)
    && (forall i :: 0 <= i < |es| && es[i] != null ==> MaybeGap(es, s, c, e, i))
  }

  /** Vacating slot `s` starts the loop; `e` is the first empty slot after it. */
  lemma {:induction false} VacateStarts(es: Slots, s: nat, e: nat)
    requires Inv(es) && s < |es| && es[s] != null && e < |es| && es[e] == null
    requires forall j :: 0 <= j < |es| && Before(s, j, e, |es|) ==> es[j] != null
    ensures Moving(es[s := null], s, s, e)
  {
    var es' := es[s := null];
    var cap := |es|;
    forall i | 0 <= i < cap && es'[i] != null
      ensures MaybeGap(es', s, s, e, i)
    {
      assert Reached(es, i);
      var h := Home(es[i].bytes, cap);
      forall k | 0 <= k < cap && Before(h, k, i, cap) && es'[k] == null
        ensures Rest(s, s, e, i, cap) && Off(s, k, cap) <= Off(s, s, cap)
      {
        assert k == s;
        assert !Before(h, e, i, cap);
      }
    }
  }

  /** Taking the next entry of the cluster out and probing for it again finds a slot at or before its own. */
  lemma {:induction false} ReinsertLands(es: Slots, s: nat, c: nat, e: nat, p: nat)
    requires Moving(es, s, c, e) && Next(c, |es|) != e
    requires var n := Next(c, |es|); es[n] != null && Stops(es[n := null], es[n].bytes, p)
    ensures var n := Next(c, |es|);
      && Off(s, n, |es|) == Off(s, c, |es|) + 1 && Off(s, n, |es|) < Off(s, e, |es|)
      && es[n := null][p] == null && Off(s, p, |es|) <= Off(s, n, |es|)
  {
    var cap, n := |es|, Next(c, |es|);
    var x := es[n];
    var h := Home(x.bytes, cap);
    assert Off(s, n, cap) == Off(s, c, cap) + 1;
    assert MaybeGap(es, s, c, e, n);
    assert es[n := null][n] == null;
    assert !Before(h, n, p, cap);
    if p != n {
      assert Off(h, p, cap) != Off(h, n, cap);
      assert Before(h, p, n, cap);
    }
  }

  /** One round of the loop keeps its state and the set of entries. */
  lemma {:induction false} ReinsertKeeps(es: Slots, s: nat, c: nat, e: nat, p: nat)
    requires Moving(es, s, c, e) && Next(c, |es|) != e
    requires var n := Next(c, |es|); es[n] != null && Stops(es[n := null], es[n].bytes, p)
    ensures var n := Next(c, |es|);
      && Moving(es[n := null][p := es[n]], s, n, e)
      && Elems(es[n := null][p := es[n]]) == Elems(es) && Count(es[n := null][p := es[n]]) == Count(es)
  {
    ReinsertLands(es, s, c, e, p);
    ReinsertRest(es, s, c, e, p);
    hide MaybeGap, Hash, Count, Elems, Stops, Before, Off, Next, Rest;
    var cap, n := |es|, Next(c, |es|);
    var x := es[n];
    var es1 := es[n := null];
    var es2 := es1[p := x];
    CountUpdate(es, n, null);
    CountUpdate(es1, p, x);
    ReinsertElems(es, n, p);
    forall i | 0 <= i < cap && es2[i] != null
      ensures MaybeGap(es2, s, n, e, i)
    {
      if i == p {
        ReinsertMoved(es, s, c, e, p);
      } else {
        ReinsertOther(es, s, c, e, p, i);
      }
    }
  }

  /** The slots still to come are occupied, and the end of the cluster is still empty. */
  lemma {:induction false} ReinsertRest(es: Slots, s: nat, c: nat, e: nat, p: nat)
    requires Moving(es, s, c, e) && Next(c, |es|) != e && p < |es|
    requires var n := Next(c, |es|);
      && es[n] != null && es[n := null][p] == null
      && Off(s, n, |es|) == Off(s, c, |es|) + 1 && Off(s, n, |es|) < Off(s, e, |es|) &&
        Off(s, p, |es|) <= Off(s, n, |es|)
    ensures var n := Next(c, |es|);
      var es2 := es[n := null][p := es[n]];
      && es2[e] == null && (forall j :: 0 <= j < |es| && Rest(s, n, e, j, |es|) ==> es2[j] != null)
  {
    hide MaybeGap;
  }

  /** The entry moved has no gap on its path. */
  lemma {:induction false} ReinsertMoved(es: Slots, s: nat, c: nat, e: nat, p: nat)
    requires Moving(es, s, c, e) && Next(c, |es|) != e
    requires var n := Next(c, |es|); es[n] != null && Stops(es[n := null], es[n].bytes, p) && es[n := null][p] == null
    ensures var n := Next(c, |es|); MaybeGap(es[n := null][p := es[n]], s, n, e, p)
  {
    var n := Next(c, |es|);
    var es1, h := es[n := null], Home(es[n].bytes, |es|);
    assert forall k :: 0 <= k < |es| && Before(h, k, p, |es|) ==> es1[k] != null;
  }

  lemma {:induction false} ReinsertElems(es: Slots, n: nat, p: nat)
    requires n < |es| && p < |es| && es[n] != null && es[n := null][p] == null
    ensures Elems(es[n := null][p := es[n]]) == Elems(es)
    ensures Unique(es) ==> Unique(es[n := null][p := es[n]])
  {
    var es2 := es[n := null][p := es[n]];
    forall t | t in Elems(es)
      ensures t in Elems(es2)
    {
      var k :| 0 <= k < |es| && es[k] != null && es[k] == t;
      assert if k == n then es2[p] == t else es2[k] == t;
    }
    forall t | t in Elems(es2)
      ensures t in Elems(es)
    {
      var k :| 0 <= k < |es| && es2[k] != null && es2[k] == t;
      assert if k == p then es[n] == t else es[k] == t;
    }
  }

  /**
    An entry other than the one moved: a gap on its path can only be the slot just vacated, and then it is still to
    come.
   */
  lemma {:induction false} ReinsertOther(es: Slots, s: nat, c: nat, e: nat, p: nat, i: nat)
    requires Moving(es, s, c, e) && p < |es| && i < |es| && i != p
    requires var n := Next(c, |es|);
      n != e && es[n] != null && es[n := null][p] == null && Off(s, n, |es|) == Off(s, c, |es|) + 1
    requires es[Next(c, |es|) := null][i] != null
    ensures var n := Next(c, |es|); MaybeGap(es[n := null][p := es[n]], s, n, e, i)
  {
    var cap, n := |es|, Next(c, |es|);
    var es2 := es[n := null][p := es[n]];
    var h := Home(es[i].bytes, cap);
    assert i != n && MaybeGap(es, s, c, e, i);
    hide Home, Off, Next;
    if k: nat :| k < cap && Before(h, k, i, cap) && es[k] == null {
      NextNotLast(s, n, i, cap);
    } else {
      forall k: nat | k < cap && Before(h, k, i, cap) && es2[k] == null
        ensures k == n && Rest(s, n, e, i, cap)
      {
        assert !Before(h, e, i, cap);
        PassedBefore(s, h, n, i, e, cap);
      }
    }
  }

  lemma {:induction false} NextNotLast(s: nat, n: nat, i: nat, cap: nat)
    requires s < cap && n < cap && i < cap && i != n
    ensures Off(s, i, cap) != Off(s, n, cap)
  {
  }

  /** On the way from `h` to `i` that meets `n` and not `e`, slot `i` lies between `n` and `e`. */
  lemma {:induction false} PassedBefore(s: nat, h: nat, n: nat, i: nat, e: nat, cap: nat)
    requires s < cap && h < cap && n < cap && i < cap && e < cap
    requires Before(h, n, i, cap) && !Before(h, e, i, cap) && i != e && Off(s, n, cap) < Off(s, e, cap)
    ensures Off(s, n, cap) < Off(s, i, cap) < Off(s, e, cap)
  {
  }

  /** When the loop reaches the end of the cluster every entry is reachable again. */
  lemma {:induction false} MovedAll(es: Slots, s: nat, c: nat, e: nat)
    requires Moving(es, s, c, e) && Next(c, |es|) == e
    ensures Inv(es)
  {
    forall i | 0 <= i < |es| && es[i] != null
      ensures Reached(es, i)
    {
      assert MaybeGap(es, s, c, e, i);
    }
  }
}
