/** The member list of a namespace depends only on the set of its keys. */
module NsMembers {
  import opened Bytes
  import opened HashTable
  import opened Words

  /** The tag of symbol keys. */
  const SYMBOL_TAG: byte := 'S' as int as byte

  // ---- The order -----------------------------------------------------------

  /** `memcmp` of the first `n` bytes. */
  function MemCmp(x: Key, y: Key, n: nat): int
    requires n <= |x| && n <= |y|
  {
    if n == 0 then 0
    else if x[0] != y[0] then x[0] as int - y[0] as int
    else MemCmp(x[1..], y[1..], n - 1)
  }

  /** `ns_item_cmp`. The difference of the unsigned lengths is cast to `int`. */
  function Cmp(x: Key, y: Key): int {
    var c := MemCmp(x, y, if |x| < |y| then |x| else |y|);
    if c != 0 then c else if |x| != |y| then Wrap32(|x| - |y|) else 0
  }

  /** Byte-lexicographic order: `y` continues `x`, or is greater at the first difference, place `k`. */
  ghost predicate Differs(x: Key, y: Key, k: nat) {
    && k <= |x| && k < |y| && x[..k] == y[..k]
    && (k == |x| || x[k] < y[k])
  }

  ghost predicate Less(x: Key, y: Key) {
    exists k: nat :: Differs(x, y, k)
  }

  lemma {:induction false} DiffersCons(b: byte, x: Key, y: Key, k: nat)
    ensures Differs([b] + x, [b] + y, k + 1) <==> Differs(x, y, k)
    ensures !Differs([b] + x, [b] + y, 0)
  {
    var u, v := [b] + x, [b] + y;
    assert u[1..] == x && v[1..] == y;
    if k < |y| && k <= |x| {
      assert u[..k + 1] == [b] + x[..k] && v[..k + 1] == [b] + y[..k];
      assert u[..k + 1][1..] == x[..k] && v[..k + 1][1..] == y[..k];
    }
  }

  lemma {:induction false} LessCons(b: byte, x: Key, y: Key)
    ensures Less([b] + x, [b] + y) <==> Less(x, y)
  {
    hide Differs;
    if Less(x, y) {
      var k: nat :| Differs(x, y, k);
      DiffersCons(b, x, y, k);
    }
    if Less([b] + x, [b] + y) {
      var k: nat :| Differs([b] + x, [b] + y, k);
      DiffersCons(b, x, y, if k == 0 then 0 else k - 1);
    }
  }

  /** The comparator decides the order, for keys shorter than 2^31. */
  lemma {:induction false} CmpDecides(x: Key, y: Key)
    requires |x| < 0x8000_0000 && |y| < 0x8000_0000
    ensures Cmp(x, y) < 0 <==> Less(x, y)
    ensures Cmp(x, y) == 0 <==> x == y
    ensures Cmp(x, y) > 0 <==> Less(y, x)
    decreases |x|
  {
    hide Differs, Less;
    if x == [] || y == [] {
      CmpEmpty(x, y);
    } else if x[0] != y[0] {
      LessHead(x, y);
      LessHead(y, x);
    } else {
      var u, v := x[1..], y[1..];
      CmpDecides(u, v);
      assert x == [x[0]] + u && y == [x[0]] + v;
      LessCons(x[0], u, v);
      LessCons(x[0], v, u);
      assert Cmp(x, y) == Cmp(u, v);
    }
  }

  lemma {:induction false} CmpEmpty(x: Key, y: Key)
    requires |x| < 0x8000_0000 && |y| < 0x8000_0000 && (x == [] || y == [])
    ensures Cmp(x, y) < 0 <==> Less(x, y)
    ensures Cmp(x, y) == 0 <==> x == y
    ensures Cmp(x, y) > 0 <==> Less(y, x)
  {
    if y != [] {
      assert Differs(x, y, 0);
    }
    if x != [] {
      assert Differs(y, x, 0);
    }
  }

  lemma {:induction false} DiffersLater(x: Key, y: Key, k: nat)
    requires Differs(x, y, k)
    ensures k > 0 ==> x[0] == y[0]
  {
    if k > 0 {
      assert x[..k][0] == x[0] && y[..k][0] == y[0];
    }
  }

  lemma {:induction false} LessHead(x: Key, y: Key)
    requires x != [] && y != [] && x[0] != y[0]
    ensures Less(x, y) <==> x[0] < y[0]
  {
    if x[0] < y[0] {
      assert Differs(x, y, 0);
    }
    if Less(x, y) {
      var k: nat :| Differs(x, y, k);
      DiffersLater(x, y, k);
    }
  }

  lemma {:induction false} LessTransitive(x: Key, y: Key, z: Key)
    requires Less(x, y) && Less(y, z)
    ensures Less(x, z)
  {
    var j: nat :| Differs(x, y, j);
    var k: nat :| Differs(y, z, k);
    var l := if j < k then j else k;
    assert x[..l] == x[..j][..l] == y[..j][..l] == y[..l];
    assert z[..l] == z[..k][..l] == y[..k][..l] == y[..l];
    if j < k {
      assert y[j] == y[..k][j] == z[..k][j] == z[j];
    } else if k < j {
      assert x[k] == x[..j][k] == y[..j][k] == y[k];
    }
    assert Differs(x, z, l);
  }

  lemma {:induction false} LessIrreflexive(x: Key)
    ensures !Less(x, x)
  {
  }

  // ---- Sorted lists of keys ------------------------------------------------

  ghost predicate Increasing(l: seq<Key>) {
    forall i, j :: 0 <= i < j < |l| ==> Less(l[i], l[j])
  }

  lemma {:induction false} FirstElement(l: seq<Key>)
    ensures l != [] ==> l[0] in l
  {
  }

  /** A strictly increasing list is determined by its elements. */
  lemma {:induction false} IncreasingUnique(l: seq<Key>, l': seq<Key>)
    requires Increasing(l) && Increasing(l') && forall k :: k in l <==> k in l'
    ensures l == l'
  {
    hide Less;
    if l == [] {
      FirstElement(l');
    } else {
      assert l[0] in l';
      var i :| 0 <= i < |l'| && l'[i] == l[0];
      assert l'[0] in l;
      var j :| 0 <= j < |l| && l[j] == l'[0];
      if i > 0 && j > 0 {
        LessTransitive(l[0], l[j], l[0]);
        LessIrreflexive(l[0]);
      }
      assert l[0] == l'[0];
      TailElements(l, l');
      TailElements(l', l);
      IncreasingUnique(l[1..], l'[1..]);
    }
  }

  lemma {:induction false} TailElements(l: seq<Key>, l': seq<Key>)
    requires Increasing(l) && l != [] && l' != [] && l[0] == l'[0] && forall k :: k in l ==> k in l'
    ensures forall k :: k in l[1..] ==> k in l'[1..]
  {
    hide Less;
    forall k | k in l[1..]
      ensures k in l'[1..]
    {
      var i :| 0 <= i < |l[1..]| && l[1..][i] == k;
      assert Less(l[0], l[i + 1]) && l[i + 1] == k && k in l;
      LessIrreflexive(k);
      assert k != l'[0];
      var j :| 0 <= j < |l'| && l'[j] == k;
      assert l'[1..][j - 1] == k;
    }
  }

  // ---- Collecting and sorting ----------------------------------------------

  /** The members of a namespace: what follows the tag of its symbol keys, a capital S. */
  ghost predicate IsMember(m: map<Key, Data>, k: Key) {
    [83] + k in m
  }

  /** Inserting into a sorted list, as the comparator says. */
  method Insert(l: seq<Key>, k: Key) returns (r: seq<Key>)
    requires Increasing(l) && k !in l && |k| < 0x8000_0000 && forall x :: x in l ==> |x| < 0x8000_0000
    ensures Increasing(r) && forall x :: x in r <==> x in l || x == k
  {
    hide Less, Cmp;
    var i := 0;
    while i < |l| && Cmp(l[i], k) < 0
      invariant 0 <= i <= |l| && forall j :: 0 <= j < i ==> Less(l[j], k)
    {
      CmpDecides(l[i], k);
      i := i + 1;
    }
    r := l[..i] + [k] + l[i..];
    if i < |l| {
      assert l[i] in l;
      CmpDecides(l[i], k);
      forall j | i <= j < |l|
        ensures Less(k, l[j])
      {
        if j > i {
          LessTransitive(k, l[i], l[j]);
        }
      }
    }
  }

  /**
    `qsort` with the comparator. Any sorting method would do: by `IncreasingUnique` the result is determined by the
    elements.
   */
  method QSort(items: seq<Key>) returns (sorted: seq<Key>)
    requires forall i, j :: 0 <= i < j < |items| ==> items[i] != items[j]
    requires forall i :: 0 <= i < |items| ==> |items[i]| < 0x8000_0000
    ensures Increasing(sorted) && forall k :: k in sorted <==> k in items
  {
    hide Less;
    sorted := [];
    for i := 0 to |items|
      invariant Increasing(sorted) && forall k :: k in sorted <==> k in items[..i]
    {
      assert items[..i + 1] == items[..i] + [items[i]];
      sorted := Insert(sorted, items[i]);
    }
    assert items[..|items|] == items;
  }

  /** The cons list the builtin returns. */
  datatype List = Nil | Cons(head: Key, tail: List)

  function Elements(l: List): seq<Key> {
    match l
    case Nil => []
    case Cons(h, t) => [h] + Elements(t)
  }

  /** Built from the last item to the first. */
  method BuildList(items: seq<Key>) returns (l: List)
    ensures Elements(l) == items
  {
    l := Nil;
    var i := |items|;
    while i > 0
      invariant 0 <= i <= |items| && Elements(l) == items[i..]
    {
      i := i - 1;
      l := Cons(items[i], l);
      assert items[i..] == [items[i]] + items[i + 1..];
    }
  }

  /** The callback of the iteration: symbol keys without their tag, in the order of the table. */
  method Collect(visited: seq<Entry>) returns (items: seq<Key>)
    requires forall i, j :: 0 <= i < j < |visited| ==> visited[i].key != visited[j].key
    ensures forall k :: k in items <==> exists i :: 0 <= i < |visited| && visited[i].key == [SYMBOL_TAG] + k
    ensures forall i, j :: 0 <= i < j < |items| ==> items[i] != items[j]
  {
    items := [];
    for n := 0 to |visited|
      invariant forall k :: k in items <==> exists i :: 0 <= i < n && visited[i].key == [SYMBOL_TAG] + k
      invariant forall i, j :: 0 <= i < j < |items| ==> items[i] != items[j]
    {
      var key := visited[n].key;
      if |key| != 0 && key[0] == SYMBOL_TAG {
        assert key == [SYMBOL_TAG] + key[1..];
        items := items + [key[1..]];
      }
    }
  }

  /** The members, each once, in strictly increasing byte-lexicographic order. */
  method Members(ns: Table) returns (list: List)
    requires ns.Valid() && forall k :: k in ns.contents ==> |k| < 0x8000_0000
    ensures Increasing(Elements(list))
    ensures forall k :: k in Elements(list) <==> IsMember(ns.contents, k)
  {
    hide Less, Represents;
    var visited := ns.Foreach();
    var items := Collect(visited);
    Collected(visited, ns.contents, items);
    var sorted := QSort(items);
    list := BuildList(sorted);
  }

  lemma {:induction false} Collected(visited: seq<Entry>, m: map<Key, Data>, items: seq<Key>)
    requires forall e: Entry :: e in visited <==> e.key in m && m[e.key] == e.value
    requires forall k :: k in items <==> exists i :: 0 <= i < |visited| && visited[i].key == [SYMBOL_TAG] + k
    requires forall k :: k in m ==> |k| < 0x8000_0000
    ensures forall k :: k in items <==> IsMember(m, k)
    ensures forall i :: 0 <= i < |items| ==> |items[i]| < 0x8000_0000
  {
    forall k
      ensures k in items <==> IsMember(m, k)
    {
      var key := [SYMBOL_TAG] + k;
      if k in items {
        var i :| 0 <= i < |visited| && visited[i].key == key;
        assert visited[i] in visited;
      }
      if key in m {
        var e := Entry(key, m[key]);
        assert e in visited;
        var i :| 0 <= i < |visited| && visited[i] == e;
      }
    }
    forall i | 0 <= i < |items|
      ensures |items[i]| < 0x8000_0000
    {
      assert IsMember(m, items[i]);
    }
  }

  /** Two namespaces with the same keys give the same list, whatever their history, capacity or values. */
  method SameKeysSameList(a: Table, b: Table) returns (la: List, lb: List)
    requires a.Valid() && b.Valid() && a.contents.Keys == b.contents.Keys
    requires forall k :: k in a.contents ==> |k| < 0x8000_0000
    ensures la == lb
  {
    la := Members(a);
    lb := Members(b);
    IncreasingUnique(Elements(la), Elements(lb));
    ElementsInjective(la, lb);
  }

  lemma {:induction false} ElementsInjective(l: List, l': List)
    requires Elements(l) == Elements(l')
    ensures l == l'
  {
    if !l.Cons? || !l'.Cons? {
    } else {
      assert Elements(l)[0] == Elements(l')[0] && Elements(l)[1..] == Elements(l')[1..];
      assert Elements(l)[1..] == Elements(l.tail) && Elements(l')[1..] == Elements(l'.tail);
      ElementsInjective(l.tail, l'.tail);
    }
  }
}
