/** The string intern table: one object per byte string, in an open-addressing table that grows and shrinks. */
module InternTable {
  import opened Bytes
  import opened InternProbe

  /** The byte strings stored. */
  ghost function Keys(es: Slots): set<seq<byte>> {
    set i | 0 <= i < |es| && es[i] != null :: es[i].bytes
  }

  lemma {:induction false} KeysAreElems(es: Slots)
    ensures forall t :: t in Elems(es) ==> t.bytes in Keys(es)
    ensures forall b :: b in Keys(es) <==> exists t :: t in Elems(es) && t.bytes == b
  {
    forall b | b in Keys(es)
      ensures exists t :: t in Elems(es) && t.bytes == b
    {
      var i :| 0 <= i < |es| && es[i] != null && es[i].bytes == b;
      assert es[i] in Elems(es);
    }
    forall t | t in Elems(es)
      ensures t.bytes in Keys(es)
    {
      var i :| 0 <= i < |es| && es[i] != null && es[i] == t;
      assert es[i].bytes in Keys(es);
    }
  }

  lemma {:induction false} ElemsUnique(es: Slots)
    requires Unique(es)
    ensures forall t, u :: t in Elems(es) && u in Elems(es) && t.bytes == u.bytes ==> t == u
  {
    forall t, u | t in Elems(es) && u in Elems(es) && t.bytes == u.bytes
      ensures t == u
    {
      var i :| 0 <= i < |es| && es[i] != null && es[i] == t;
      var j :| 0 <= j < |es| && es[j] != null && es[j] == u;
      assert i == j;
    }
  }

  /** With no string stored twice the number of occupied slots is the number of strings. */
  lemma {:induction false} CountIsCard(es: Slots)
    requires Unique(es)
    ensures Count(es) == |Keys(es)|
  {
    if es == [] {
    } else {
      var n := |es| - 1;
      CountIsCard(es[..n]);
      KeysSnoc(es);
    }
  }

  lemma {:induction false} KeysSnoc(es: Slots)
    requires es != []
    ensures Keys(es) == Keys(es[..|es| - 1]) + (if es[|es| - 1] == null then {} else {es[|es| - 1].bytes})
  {
    var n := |es| - 1;
    forall b | b in Keys(es)
      ensures b in Keys(es[..n]) || (es[n] != null && b == es[n].bytes)
    {
      var i :| 0 <= i < |es| && es[i] != null && es[i].bytes == b;
      assert i < n ==> es[..n][i].bytes == b;
    }
  }

  lemma {:induction false} CountPrefix(es: Slots, i: nat)
    requires i < |es|
    ensures Count(es[..i + 1]) == Count(es[..i]) + (if es[i] == null then 0 else 1)
    ensures Count(es[..i + 1]) <= Count(es)
    ensures Elems(es[..i + 1]) == Elems(es[..i]) + (if es[i] == null then {} else {es[i]})
  {
    assert es[..i + 1][..i] == es[..i];
    CountGrows(es, i + 1);
    forall t | t in Elems(es[..i])
      ensures t in Elems(es[..i + 1])
    {
      var k :| 0 <= k < i && es[..i][k] != null && es[..i][k] == t;
      assert es[..i + 1][k] == t;
    }
    if es[i] != null {
      assert es[..i + 1][i] in Elems(es[..i + 1]);
    }
    forall t | t in Elems(es[..i + 1])
      ensures t in Elems(es[..i]) || t == es[i]
    {
      var k :| 0 <= k < i + 1 && es[..i + 1][k] != null && es[..i + 1][k] == t;
      assert k < i ==> es[..i][k] == t;
    }
  }

  lemma {:induction false} CountGrows(es: Slots, i: nat)
    requires i <= |es|
    ensures Count(es[..i]) <= Count(es)
  {
    if i < |es| {
      CountGrows(es[..|es| - 1], i);
      assert es[..|es| - 1][..i] == es[..i];
    } else {
      assert es[..i] == es;
    }
  }

  /** The first empty slot at or after `s`, going round. */
  lemma {:induction false} FirstEmpty(es: Slots, s: nat, e0: nat) returns (e: nat)
    requires s < |es| && e0 < |es| && es[e0] == null
    ensures e < |es| && es[e] == null
    ensures forall j :: 0 <= j < |es| && Before(s, j, e, |es|) ==> es[j] != null
    decreases Off(s, e0, |es|)
  {
    if j :| 0 <= j < |es| && Before(s, j, e0, |es|) && es[j] == null {
      e := FirstEmpty(es, s, j);
    } else {
      e := e0;
    }
  }

  lemma {:induction false} VacateElems(es: Slots, s: nat)
    requires Inv(es) && s < |es| && es[s] != null
    ensures es[s] in Elems(es)
    ensures Elems(es[s := null]) == Elems(es) - {es[s]} && Count(es[s := null]) == Count(es) - 1
  {
    CountUpdate(es, s, null);
    forall t | t in Elems(es) - {es[s]}
      ensures t in Elems(es[s := null])
    {
      var k :| 0 <= k < |es| && es[k] != null && es[k] == t;
      assert es[s := null][k] == t;
    }
    forall t | t in Elems(es[s := null])
      ensures t in Elems(es) - {es[s]}
    {
      var k :| 0 <= k < |es| && es[s := null][k] != null && es[s := null][k] == t;
      assert es[k] == t && k != s;
    }
  }

  /** An entry of the prefix differs from the entry after it, so re-inserting meets no duplicate. */
  lemma {:induction false} PrefixDiffers(es: Slots, i: nat, t: Str)
    requires Unique(es) && i < |es| && es[i] != null && t in Elems(es[..i])
    ensures t.bytes != es[i].bytes
  {
    var k :| 0 <= k < i && es[..i][k] != null && es[..i][k] == t;
    assert es[k] == t;
  }

  lemma {:induction false} Absent(es: Slots, b: seq<byte>, i: nat)
    requires Inv(es) && Stops(es, b, i) && es[i] == null
    ensures b !in Keys(es)
  {
    if b in Keys(es) {
      var j :| 0 <= j < |es| && es[j] != null && es[j].bytes == b;
      StopsDecides(es, b, i, j);
    }
  }

  /** The loop stops at the empty slot the cluster ends with, not before. */
  lemma {:induction false} ClusterEnds(es: Slots, s: nat, c: nat, e: nat)
    requires Moving(es, s, c, e) && es[Next(c, |es|)] == null
    ensures Next(c, |es|) == e
  {
    var n := Next(c, |es|);
    assert Off(s, n, |es|) == Off(s, c, |es|) + 1;
    assert !Rest(s, c, e, n, |es|);
  }

  method CalcHash(b: seq<byte>) returns (hash: nat)
    ensures hash == Hash(b)
  {
    hash := 0;
    for i := 0 to |b|
      invariant hash == Hash(b[..i])
    {
      assert b[..i + 1][..i] == b[..i];
      hash := (hash * 31 + b[i] as int) % 0x1_0000_0000;
    }
    assert b[..|b|] == b;
  }

  /** The probe loop. It ends because some slot is empty. */
  method GetRaw(ents: array<Str?>, b: seq<byte>) returns (i: nat)
    requires ents.Length > 0 && HasEmpty(ents[..])
    ensures Stops(ents[..], b, i)
  {
    var hash := CalcHash(b);
    var cap := ents.Length;
    ghost var h := Home(b, cap);
    ghost var e :| 0 <= e < cap && ents[..][e] == null;
    i := hash % cap;
    while true
      invariant i < cap && ents[e] == null
      invariant forall k :: 0 <= k < cap && Before(h, k, i, cap) ==> ents[k] != null && ents[k].bytes != b
      decreases Off(h, e, cap) - Off(h, i, cap)
    {
      assert !Before(h, e, i, cap);
      var ent := ents[i];
      if ent == null {
        return;
      }
      if ent.bytes == b {
        return;
      }
      ghost var was := i;
      i := i + 1;
      if i >= cap {
        i := 0;
      }
      assert Off(h, i, cap) == Off(h, was, cap) + 1;
      forall k | 0 <= k < cap && Before(h, k, i, cap)
        ensures ents[k] != null && ents[k].bytes != b
      {
        assert k == was || Before(h, k, was, cap);
      }
    }
  }

  /**
    The second loop of deletion: from slot `s` just vacated, take out and put back each entry up to the empty slot `e`.
   */
  method ReinsertCluster(ents: array<Str?>, s: nat, ghost e: nat)
    requires Moving(ents[..], s, s, e)
    modifies ents
    ensures Inv(ents[..]) && Elems(ents[..]) == old(Elems(ents[..])) && Count(ents[..]) == old(Count(ents[..]))
  {
    hide Elems, Count, Hash, Inv, Unique, Home, MaybeGap, Rest;
    var i: nat := s;
    while true
      invariant i < ents.Length && Moving(ents[..], s, i, e)
      invariant Elems(ents[..]) == old(Elems(ents[..])) && Count(ents[..]) == old(Count(ents[..]))
      decreases Off(s, e, ents.Length) - Off(s, i, ents.Length)
    {
      ghost var c, now := i, ents[..];
      i := i + 1;
      if i >= ents.Length {
        i := 0;
      }
      var ent := ents[i];
      if ent == null {
        ClusterEnds(now, s, c, e);
        MovedAll(now, s, c, e);
        return;
      }
      ents[i] := null;
      assert ents[..] == now[i := null] && ents[..][i] == null;
      var p := GetRaw(ents, ent.bytes);
      ReinsertLands(now, s, c, e, p);
      assert ents[p] == null;
      ents[p] := ent;
      ReinsertKeeps(now, s, c, e, p);
      assert ents[..] == now[i := null][p := ent];
    }
  }

  class Table {
    var ents: array<Str?>
    var size: nat
    var cap: nat

    ghost predicate Valid()
      reads this, ents
    {
      && cap == ents.Length && Inv(ents[..])
      && size == Count(ents[..]) && size < cap
    }

    /** The interned strings. */
    ghost function Contents(): set<Str>
      reads this, ents
    {
      Elems(ents[..])
    }

    constructor ()
      ensures Valid() && fresh(ents) && Contents() == {} && size == 0 && cap == 16
    {
      ents := new Str?[16](_ => null);
      cap, size := 16, 0;
      new;
      CountNone(ents[..]);
    }

    /** Rehashing into a table of another capacity keeps exactly the same strings. */
    method Resize(newCap: nat)
      requires Valid() && size < newCap
      modifies this
      ensures Valid() && Contents() == old(Contents()) && size == old(size) && cap == newCap
      ensures ents == old(ents) || fresh(ents)
    {
      hide Hash, Count;
      if cap == newCap {
        return;
      }
      var newEnts := new Str?[newCap](_ => null);
      CountNone(newEnts[..]);
      ghost var os := ents[..];
      CountNone(os[..0]);
      var i := 0;
      while i < cap
        invariant 0 <= i <= cap == |os| && ents == old(ents) && ents[..] == os && fresh(newEnts) &&
          newEnts.Length == newCap
        invariant cap == old(cap) && size == old(size)
        invariant Inv(newEnts[..]) && Elems(newEnts[..]) == Elems(os[..i]) && Count(newEnts[..]) == Count(os[..i])
      {
        var ent := ents[i];
        CountPrefix(os, i);
        if ent != null {
          CountBelow(newEnts[..]);
          var p := GetRaw(newEnts, ent.bytes);
          if newEnts[p] != null {
            assert newEnts[..][p] in Elems(newEnts[..]);
            PrefixDiffers(os, i, newEnts[p]);
            assert false;
          }
          InsertKeeps(newEnts[..], p, ent);
          ghost var ns := newEnts[..];
          newEnts[p] := ent;
          assert newEnts[..] == ns[p := ent];
        }
        i := i + 1;
      }
      assert os[..cap] == os;
      ents := newEnts;
      cap := newCap;
    }

    /** Deletion: vacate the slot, then take out and re-insert every entry up to the end of the cluster. */
    method DelRaw(b: seq<byte>) returns (str: Str?)
      requires Valid()
      modifies this`size, ents
      ensures Valid()
      ensures str == null ==> b !in old(Keys(ents[..])) && Contents() == old(Contents()) && size == old(size)
      ensures str != null ==>
        str.bytes == b && str in old(Contents()) && Contents() == old(Contents()) - {str} && size == old(size) - 1
    {
      hide Moving, Elems, Count, Keys, Hash, Inv, Off;
      CountBelow(ents[..]);
      var i := GetRaw(ents, b);
      str := ents[i];
      ghost var es := ents[..];
      if str == null {
        Absent(es, b, i);
        return;
      }
      ghost var e0 :| 0 <= e0 < |es| && es[e0] == null;
      ghost var e := FirstEmpty(es, i, e0);
      VacateStarts(es, i, e);
      VacateElems(es, i);
      ents[i] := null;
      assert ents[..] == es[i := null];
      ReinsertCluster(ents, i, e);
      size := size - 1;
    }

    /** Deletion with shrinking. The shrink loop ends only while an entry is left. */
    method Del(b: seq<byte>) returns (str: Str?)
      requires Valid() && (b in Keys(ents[..]) ==> size >= 2)
      modifies this, ents
      ensures Valid() && (ents == old(ents) || fresh(ents))
      ensures str != null <==> b in old(Keys(ents[..]))
      ensures str == null ==> Contents() == old(Contents())
      ensures str != null ==> str.bytes == b && str in old(Contents()) && Contents() == old(Contents()) - {str}
      ensures str != null ==> cap < 4 * size && (cap == old(cap) || 2 * size <= cap < old(cap))
      ensures cap == old(cap) || old(cap) >= 4 * size
    {
      KeysAreElems(ents[..]);
      str := DelRaw(b);
      if str == null {
        return;
      }
      var c := cap;
      while size * 4 <= c
        invariant size < c <= cap && (c == cap || (2 * size <= c && 4 * size <= cap))
        decreases c
      {
        c := c / 2;
      }
      if c != cap {
        Resize(c);
      }
    }

    method PutRaw(b: seq<byte>) returns (str: Str)
      requires Valid() && size + 1 < cap
      modifies this`size, ents
      ensures Valid() && str.bytes == b
      ensures str in old(Contents()) ==> Contents() == old(Contents()) && size == old(size)
      ensures str !in old(Contents()) ==>
        b !in old(Keys(ents[..])) && fresh(str) && Contents() == old(Contents()) + {str} && size == old(size) + 1
    {
      CountBelow(ents[..]);
      var i := GetRaw(ents, b);
      ghost var es := ents[..];
      if ents[i] != null {
        str := ents[i];
        assert es[i] in Elems(es);
        return;
      }
      Absent(es, b, i);
      str := new Str(b);
      InsertKeeps(es, i, str);
      ents[i] := str;
      assert ents[..] == es[i := str];
      size := size + 1;
    }

    /**
      Interning: the object already stored for these bytes, or a new one. The bound keeps the doubled sizes within 32
      bits.
     */
    method New(b: seq<byte>) returns (str: Str)
      requires Valid() && size < 0x3FFF_FFFF
      modifies this, ents
      ensures Valid() && (ents == old(ents) || fresh(ents))
      ensures str.bytes == b && 2 * size < cap
      ensures cap == old(cap) || (old(cap) <= 2 * old(size) + 2 < cap <= 4 * old(size) + 4)
      ensures b in old(Keys(ents[..])) ==> str in old(Contents()) && Contents() == old(Contents())
      ensures b !in old(Keys(ents[..])) ==> fresh(str) && Contents() == old(Contents()) + {str}
    {
      hide Inv, Elems, Keys, Count;
      KeysAreElems(ents[..]);
      var c := cap;
      while (size + 1) * 2 >= c
        invariant cap <= c && (c == cap || (cap <= 2 * size + 2 && c <= 4 * size + 4))
        decreases 4 * size + 4 - c
      {
        c := c * 2;
      }
      if c != cap {
        Resize(c);
      }
      KeysAreElems(ents[..]);
      str := PutRaw(b);
    }
  }
}
