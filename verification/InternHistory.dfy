/** Interning is canonical over every history of insertions and deletions. */
module InternHistory {
  import opened Bytes
  import opened InternProbe
  import opened InternTable

  datatype Op = Put(b: seq<byte>) | Drop(b: seq<byte>)

  /** The byte strings a history leaves interned. */
  function Live(ops: seq<Op>): set<seq<byte>> {
    if ops == [] then {}
    else match ops[|ops| - 1]
         case Put(b) => Live(ops[..|ops| - 1]) + {b}
         case Drop(b) => Live(ops[..|ops| - 1]) - {b}
  }

  /** A deletion never takes out the last string: the shrink loop would not end. */
  ghost predicate Legal(ops: seq<Op>) {
    forall k :: 0 <= k < |ops| && ops[k].Drop? && ops[k].b in Live(ops[..k]) ==> |Live(ops[..k])| >= 2
  }

  /** Before every insertion fewer than 2^30 - 1 strings are live. The number of operations does not matter. */
  ghost predicate Roomy(ops: seq<Op>) {
    forall k :: 0 <= k < |ops| && ops[k].Put? ==> |Live(ops[..k])| < 0x3FFF_FFFF
  }

  /** The string of operation `i` is not deleted before operation `k`. */
  ghost predicate Kept(ops: seq<Op>, i: nat, k: nat)
    requires i < k <= |ops|
  {
    forall j :: i < j < k ==> ops[j] != Drop(ops[i].b)
  }

  /** What the objects handed out so far have to do with the table. */
  ghost predicate Faithful(ops: seq<Op>, k: nat, rs: seq<Str?>, live: set<Str>)
    requires k <= |ops| && |rs| == k
  {
    && (forall i :: 0 <= i < k && ops[i].Put? ==>
          rs[i] != null && rs[i].bytes == ops[i].b && (rs[i] in live <==> Kept(ops, i, k)))
    && (forall i :: 0 <= i < k && ops[i].Drop? ==> (rs[i] != null <==> ops[i].b in Live(ops[..i])))
  }

  /** Two insertions give the same object exactly when the bytes are equal and were not deleted in between. */
  ghost predicate Canonical(ops: seq<Op>, rs: seq<Str?>)
    requires |rs| <= |ops|
  {
    forall i, j :: 0 <= i < j < |rs| && ops[i].Put? && ops[j].Put? ==>
      (rs[i] == rs[j] <==> ops[i].b == ops[j].b && Kept(ops, i, j))
  }

  lemma {:induction false} KeptStep(ops: seq<Op>, i: nat, k: nat)
    requires i < k < |ops|
    ensures Kept(ops, i, k + 1) <==> Kept(ops, i, k) && ops[k] != Drop(ops[i].b)
  {
  }

  /** Inserting: what a new or found object `str` does to the bookkeeping. */
  lemma {:induction false} PutStep(ops: seq<Op>, k: nat, rs: seq<Str?>, live: set<Str>, str: Str)
    requires k < |ops| && |rs| == k && ops[k].Put? && str.bytes == ops[k].b
    requires Faithful(ops, k, rs, live) && Canonical(ops, rs)
    requires forall t, u :: t in live && u in live && t.bytes == u.bytes ==> t == u
    requires str in live || (str !in rs && forall t :: t in live ==> t.bytes != str.bytes)
    ensures Faithful(ops, k + 1, rs + [str], live + {str}) && Canonical(ops, rs + [str])
  {
    var rs', live' := rs + [str], live + {str};
    forall i | 0 <= i < k && ops[i].Put?
      ensures rs'[i] in live' <==> Kept(ops, i, k + 1)
      ensures rs'[i] == str <==> ops[i].b == ops[k].b && Kept(ops, i, k)
    {
      KeptStep(ops, i, k);
      assert rs[i] in rs;
    }
  }

  lemma {:induction false} DropStep(ops: seq<Op>, k: nat, rs: seq<Str?>, live: set<Str>, str: Str?)
    requires k < |ops| && |rs| == k && ops[k].Drop? && (str != null <==> ops[k].b in Live(ops[..k]))
    requires Faithful(ops, k, rs, live) && Canonical(ops, rs)
    requires forall t, u :: t in live && u in live && t.bytes == u.bytes ==> t == u
    requires str != null ==> str in live && str.bytes == ops[k].b
    requires str == null ==> forall t :: t in live ==> t.bytes != ops[k].b
    ensures Faithful(ops, k + 1, rs + [str], if str == null then live else live - {str}) && Canonical(ops, rs + [str])
  {
    hide Live, Kept;
    var rs', live' := rs + [str], if str == null then live else live - {str};
    forall i | 0 <= i < k && ops[i].Put?
      ensures rs'[i] == rs[i] && (rs'[i] in live' <==> Kept(ops, i, k + 1))
    {
      KeptStep(ops, i, k);
      assert rs[i] in live ==> (rs[i] in live' <==> rs[i].bytes != ops[k].b);
    }
  }

  /**
    Any history on the table, from empty and of any length. The results are those of each insertion and deletion in
    turn.
   */
  method Run(ops: seq<Op>) returns (t: Table, rs: seq<Str?>)
    requires Legal(ops) && Roomy(ops)
    ensures t.Valid() && Keys(t.ents[..]) == Live(ops)
    ensures |rs| == |ops| && Faithful(ops, |ops|, rs, t.Contents()) && Canonical(ops, rs)
  {
    hide Inv, Keys, Elems, Count, Faithful, Canonical, Live;
    t := new Table();
    rs := [];
    EmptyStart(ops, t.ents[..]);
    var k := 0;
    while k < |ops|
      invariant 0 <= k <= |ops| && |rs| == k
      invariant fresh(t) && fresh(t.ents) && t.Valid()
      invariant Keys(t.ents[..]) == Live(ops[..k])
      invariant Faithful(ops, k, rs, t.Contents()) && Canonical(ops, rs)
      decreases |ops| - k
    {
      ghost var es := t.ents[..];
      InvFacts(es);
      match ops[k] {
        case Put(b) =>
          var str := t.New(b);
          KeysAfter(es, t.ents[..], str);
          PutStep(ops, k, rs, Elems(es), str);
          assert Elems(t.ents[..]) == Elems(es) + {str};
          LiveStep(ops, k);
          rs := rs + [str];
        case Drop(b) =>
          var str := t.Del(b);
          KeysAfterDrop(es, t.ents[..], b, str);
          DropStep(ops, k, rs, Elems(es), str);
          LiveStep(ops, k);
          rs := rs + [str];
      }
      k := k + 1;
    }
    assert ops[..k] == ops;
  }

  lemma {:induction false} EmptyStart(ops: seq<Op>, es: Slots)
    requires Elems(es) == {}
    ensures Keys(es) == Live(ops[..0]) && Faithful(ops, 0, [], {}) && Canonical(ops, [])
  {
    KeysAreElems(es);
  }

  lemma {:induction false} LiveStep(ops: seq<Op>, k: nat)
    requires k < |ops|
    ensures Live(ops[..k + 1]) ==
            if ops[k].Put? then Live(ops[..k]) + {ops[k].b} else Live(ops[..k]) - {ops[k].b}
  {
    assert ops[..k + 1][..k] == ops[..k];
  }

  lemma {:induction false} InvFacts(es: Slots)
    requires Inv(es)
    ensures Count(es) == |Keys(es)|
    ensures forall t :: t in Elems(es) ==> t.bytes in Keys(es)
    ensures forall t, u :: t in Elems(es) && u in Elems(es) && t.bytes == u.bytes ==> t == u
  {
    CountIsCard(es);
    KeysAreElems(es);
    ElemsUnique(es);
  }

  lemma {:induction false} KeysAfter(es: Slots, es': Slots, str: Str)
    requires Elems(es') == Elems(es) + {str}
    ensures Keys(es') == Keys(es) + {str.bytes}
  {
    KeysAreElems(es);
    KeysAreElems(es');
  }

  lemma {:induction false} KeysAfterDrop(es: Slots, es': Slots, b: seq<byte>, str: Str?)
    requires Inv(es) && (str == null <==> b !in Keys(es))
    requires if str == null then Elems(es') == Elems(es)
             else str.bytes == b && str in Elems(es) && Elems(es') == Elems(es) - {str}
    ensures Keys(es') == Keys(es) - {b}
  {
    KeysAreElems(es);
    KeysAreElems(es');
    ElemsUnique(es);
  }
}
