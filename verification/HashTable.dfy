/** The chained hash table as a finite map. A chain is a sequence; the array of chains is replaced by rehashing. */
module HashTable {
  import opened Bytes
  import opened Options
  import opened Sequences
  import Probe = InternProbe

  type Key = seq<byte>
  /** The opaque word stored for a key. */
  type Data = int

  datatype Entry = Entry(key: Key, value: Data)
  type Chain = seq<Entry>

  /** Every entry is in the chain its key hashes to, and no chain has a key twice. */
  ghost predicate WellHashed(cs: seq<Chain>) {
    && |cs| > 0
    && (forall i, j :: 0 <= i < |cs| && 0 <= j < |cs[i]| ==> Probe.Home(cs[i][j].key, |cs|) == i)
    && forall i, j, k :: 0 <= i < |cs| && 0 <= j < k < |cs[i]| ==> cs[i][j].key != cs[i][k].key
  }

  /** The chains hold exactly the bindings of `m`. */
  ghost predicate Represents(cs: seq<Chain>, m: map<Key, Data>) {
    && WellHashed(cs)
    && (forall i, j :: 0 <= i < |cs| && 0 <= j < |cs[i]| ==> cs[i][j].key in m && m[cs[i][j].key] == cs[i][j].value)
    && forall k :: k in m ==> Entry(k, m[k]) in cs[Probe.Home(k, |cs|)]
  }

  lemma {:induction false} EmptyRepresents(cs: seq<Chain>)
    requires |cs| > 0 && forall i :: 0 <= i < |cs| ==> cs[i] == []
    ensures Represents(cs, map[])
  {
  }

  /** Changing the value of the entry that has the key. */
  lemma {:induction false} ReplaceRepresents(cs: seq<Chain>, m: map<Key, Data>, h: nat, j: nat, v: Data)
    requires Represents(cs, m) && h < |cs| && j < |cs[h]|
    ensures Represents(cs[h := cs[h][j := cs[h][j].(value := v)]], m[cs[h][j].key := v])
  {
    var key := cs[h][j].key;
    var c' := cs[h][j := cs[h][j].(value := v)];
    var cs' := cs[h := c'];
    var m' := m[key := v];
    forall k | k in m'
      ensures Entry(k, m'[k]) in cs'[Probe.Home(k, |cs'|)]
    {
      if k == key {
        assert c'[j] == Entry(k, v);
      } else {
        var i := Probe.Home(k, |cs|);
        var x :| 0 <= x < |cs[i]| && cs[i][x] == Entry(k, m[k]);
        assert cs'[i][x] == Entry(k, m[k]);
      }
    }
    forall i: int, x: int | 0 <= i < |cs'| && 0 <= x < |cs'[i]|
      ensures Probe.Home(cs'[i][x].key, |cs'|) == i && cs'[i][x].key in m' && m'[cs'[i][x].key] == cs'[i][x].value
    {
      assert cs'[i][x].key == cs[i][x].key;
      if i == h && x != j {
        assert cs[h][x].key != key;
      }
    }
  }

  /** Appending an entry for a new key to its chain. */
  lemma {:induction false} AppendRepresents(cs: seq<Chain>, m: map<Key, Data>, key: Key, v: Data)
    requires Represents(cs, m) && key !in m
    ensures var h := Probe.Home(key, |cs|); Represents(cs[h := cs[h] + [Entry(key, v)]], m[key := v])
  {
    var h := Probe.Home(key, |cs|);
    var c' := cs[h] + [Entry(key, v)];
    var cs' := cs[h := c'];
    var m' := m[key := v];
    assert c'[|cs[h]|] == Entry(key, v);
    forall k | k in m'
      ensures Entry(k, m'[k]) in cs'[Probe.Home(k, |cs'|)]
    {
      if k != key {
        var i := Probe.Home(k, |cs|);
        var x :| 0 <= x < |cs[i]| && cs[i][x] == Entry(k, m[k]);
        assert cs'[i][x] == Entry(k, m[k]);
      }
    }
  }

  /** Unlinking an entry: the others keep their order. */
  function Unlink(c: Chain, j: nat): (c': Chain)
    requires j < |c|
    ensures |c'| == |c| - 1 && forall x :: 0 <= x < |c'| ==> c'[x] == c[if x < j then x else x + 1]
  {
    c[..j] + c[j + 1..]
  }

  lemma {:induction false} UnlinkRepresents(cs: seq<Chain>, m: map<Key, Data>, h: nat, j: nat)
    requires Represents(cs, m) && h < |cs| && j < |cs[h]|
    ensures Represents(cs[h := Unlink(cs[h], j)], m - {cs[h][j].key})
  {
    hide Probe.Hash, Unlink;
    var cs': seq<Chain>, m' := cs[h := Unlink(cs[h], j)], m - {cs[h][j].key};
    UnlinkHashed(cs, h, j);
    forall k | k in m'
      ensures Entry(k, m'[k]) in cs'[Probe.Home(k, |cs'|)]
    {
      UnlinkKeeps(cs, m, h, j, k);
    }
    forall i: int, x: int | 0 <= i < |cs'| && 0 <= x < |cs'[i]|
      ensures cs'[i][x].key in m' && m'[cs'[i][x].key] == cs'[i][x].value
    {
      UnlinkBound(cs, m, h, j, i, x);
    }
    hide WellHashed, Probe.Home;
  }

  lemma {:induction false} UnlinkHashed(cs: seq<Chain>, h: nat, j: nat)
    requires WellHashed(cs) && h < |cs| && j < |cs[h]|
    ensures WellHashed(cs[h := Unlink(cs[h], j)])
  {
    hide Probe.Hash, Probe.Home, Unlink;
  }

  /** The other entries are still in their chains. */
  lemma {:induction false} UnlinkKeeps(cs: seq<Chain>, m: map<Key, Data>, h: nat, j: nat, k: Key)
    requires Represents(cs, m) && h < |cs| && j < |cs[h]| && k in m && k != cs[h][j].key
    ensures Entry(k, m[k]) in cs[h := Unlink(cs[h], j)][Probe.Home(k, |cs|)]
  {
    hide Probe.Hash, Probe.Home, Unlink;
    var i := Probe.Home(k, |cs|);
    assert Entry(k, m[k]) in cs[i];
    if i == h {
      var x :| 0 <= x < |cs[h]| && cs[h][x] == Entry(k, m[k]);
      assert Unlink(cs[h], j)[if x < j then x else x - 1] == Entry(k, m[k]);
    }
  }

  /** They are bound, and none of them has the key removed. */
  lemma {:induction false} UnlinkBound(cs: seq<Chain>, m: map<Key, Data>, h: nat, j: nat, i: nat, x: nat)
    requires Represents(cs, m) && h < |cs| && j < |cs[h]| && i < |cs| && x < |cs[h := Unlink(cs[h], j)][i]|
    ensures var e := cs[h := Unlink(cs[h], j)][i][x]; e.key in m && e.key != cs[h][j].key && m[e.key] == e.value
  {
    hide Probe.Hash, Probe.Home, Unlink, Represents, WellHashed;
    var y := if i == h && x >= j then x + 1 else x;
    assert cs[h := Unlink(cs[h], j)][i][x] == cs[i][y];
    EntryBound(cs, m, h, j);
    EntryBound(cs, m, i, y);
  }

  /** A key whose chain has been searched in vain is not bound. */
  lemma {:induction false} SearchedInVain(cs: seq<Chain>, m: map<Key, Data>, key: Key)
    requires Represents(cs, m)
    requires forall x :: 0 <= x < |cs[Probe.Home(key, |cs|)]| ==> cs[Probe.Home(key, |cs|)][x].key != key
    ensures key !in m
  {
  }

  /**
    `lshash_put_raw` on the chain of `key`: reports and returns the old value exactly if there was one. It asserts that
    the entries are no more than the chains.
   */
  method PutRaw(entries: array<Chain>, key: Key, value: Data, ghost m: map<Key, Data>) returns (old_: Option<Data>)
    requires Represents(entries[..], m) && |m| <= entries.Length
    modifies entries
    ensures Represents(entries[..], m[key := value])
    ensures old_ == if key in m then Some(m[key]) else None
  {
    hide Represents, WellHashed, Probe.Hash;
    RepresentsLength(entries[..], m);
    ghost var cs := entries[..];
    var h := Probe.Home(key, entries.Length);
    var j := 0;
    while j < |entries[h]|
      invariant 0 <= j <= |entries[h]| && entries[..] == cs
      invariant forall x :: 0 <= x < j ==> entries[h][x].key != key
    {
      if entries[h][j].key == key {
        EntryBound(cs, m, h, j);
        old_ := Some(entries[h][j].value);
        ReplaceRepresents(cs, m, h, j, value);
        entries[h] := entries[h][j := entries[h][j].(value := value)];
        assert entries[..] == cs[h := cs[h][j := cs[h][j].(value := value)]];
        return;
      }
      j := j + 1;
    }
    SearchedInVain(cs, m, key);
    AppendRepresents(cs, m, key, value);
    entries[h] := entries[h] + [Entry(key, value)];
    assert entries[..] == cs[h := cs[h] + [Entry(key, value)]];
    old_ := None;
  }

  lemma {:induction false} RepresentsLength(cs: seq<Chain>, m: map<Key, Data>)
    requires Represents(cs, m)
    ensures |cs| > 0
  {
  }

  lemma {:induction false} EntryBound(cs: seq<Chain>, m: map<Key, Data>, h: nat, j: nat)
    requires Represents(cs, m) && h < |cs| && j < |cs[h]|
    ensures cs[h][j].key in m && m[cs[h][j].key] == cs[h][j].value && Probe.Home(cs[h][j].key, |cs|) == h
    ensures forall x :: 0 <= x < |cs[h]| && x != j ==> cs[h][x].key != cs[h][j].key
  {
  }

  /** The inner loop of rehashing. */
  method MoveChain(chain: Chain, dst: array<Chain>, ghost cs: seq<Chain>, ghost m: map<Key, Data>,
                   ghost m0: map<Key, Data>, ghost i: nat) returns (added: nat, ghost m': map<Key, Data>)
    requires Represents(cs, m) && i < |cs| && cs[i] == chain && Represents(dst[..], m0) && Moved(cs, m, m0, i, 0)
    requires |m| <= dst.Length
    modifies dst
    ensures Represents(dst[..], m') && Moved(cs, m, m', i + 1, 0) && |m'| == |m0| + added
  {
    hide Represents, WellHashed, Probe.Hash, Moved;
    added, m' := 0, m0;
    var j := 0;
    while j < |chain|
      invariant 0 <= j <= |chain| && Represents(dst[..], m') && |m'| == |m0| + added && Moved(cs, m, m', i, j)
    {
      MovedOne(cs, m, m', i, j);
      MovedCard(cs, m, m', i, j);
      var was := PutRaw(dst, chain[j].key, chain[j].value, m');
      if was.None? {
        added := added + 1;
      }
      m' := m'[chain[j].key := chain[j].value];
      j := j + 1;
    }
    MovedChain(cs, m, m', i);
  }

  class Table {
    var entries: array<Chain>
    var size: nat
    var capacity: nat
    /** The map the table stands for. */
    ghost var contents: map<Key, Data>

    ghost predicate Valid()
      reads this, entries
    {
      capacity == entries.Length && Represents(entries[..], contents) && size == |contents| && size <= capacity
    }

    constructor (cap: nat)
      requires cap > 0
      ensures Valid() && fresh(entries) && contents == map[] && capacity == cap
    {
      entries := new Chain[cap](_ => []);
      capacity, size := cap, 0;
      contents := map[];
      new;
      EmptyRepresents(entries[..]);
    }

    method Get(key: Key) returns (value: Option<Data>)
      requires Valid()
      ensures value == if key in contents then Some(contents[key]) else None
    {
      hide Represents, WellHashed, Probe.Hash;
      RepresentsLength(entries[..], contents);
      var h := Probe.Home(key, capacity);
      var j := 0;
      while j < |entries[h]|
        invariant 0 <= j <= |entries[h]|
        invariant forall x :: 0 <= x < j ==> entries[h][x].key != key
      {
        if entries[h][j].key == key {
          EntryBound(entries[..], contents, h, j);
          return Some(entries[h][j].value);
        }
        j := j + 1;
      }
      SearchedInVain(entries[..], contents, key);
      value := None;
    }

    /**
      Rehashing moves every entry, and loses and duplicates none. A capacity below the size is corrected; insertion
      never asks for one.
     */
    method Rehash(wanted: nat)
      requires Valid() && wanted > 0
      modifies this
      ensures Valid() && fresh(entries) && contents == old(contents) && size == old(size)
      ensures capacity == if wanted < size then size * 2 else wanted
    {
      hide Represents, WellHashed, Probe.Hash, Moved;
      var newCap := if wanted < size then size * 2 else wanted;
      var newEntries := new Chain[newCap](_ => []);
      EmptyRepresents(newEntries[..]);
      ghost var cs, m := entries[..], contents;
      ghost var m': map<Key, Data> := map[];
      var newSize := 0;
      NoneMoved(cs, m);
      var i := 0;
      while i < capacity
        invariant 0 <= i <= capacity == |cs| && entries == old(entries) && entries[..] == cs && fresh(newEntries)
        invariant capacity == old(capacity) && size == old(size) && contents == m
        invariant newEntries.Length == newCap && Represents(newEntries[..], m') && newSize == |m'|
        invariant Moved(cs, m, m', i, 0)
      {
        var added;
        added, m' := MoveChain(entries[i], newEntries, cs, m, m', i);
        newSize := newSize + added;
        i := i + 1;
      }
      hide Probe.Home;
      MovedAll(cs, m, m');
      entries := newEntries;
      capacity := newCap;
      size := newSize;
    }

    /**
      Insertion. A capacity above 2^26 is taken for corruption and the table is emptied first; up to there, insertion
      changes exactly the binding of its key, whether it rehashes or not.
     */
    method Put(key: Key, value: Data) returns (old_: Option<Data>)
      requires Valid()
      modifies this, entries
      ensures Valid() && (entries == old(entries) || fresh(entries))
      ensures old(capacity) <= 0x400_0000 ==>
        contents == old(contents)[key := value] &&
          old_ == (if key in old(contents) then Some(old(contents)[key]) else None)
      ensures old(capacity) > 0x400_0000 ==> contents == map[key := value] && old_ == None
      ensures capacity == if old(capacity) > 0x400_0000 then 16
                          else if 4 * old(size) < 3 * old(capacity) then old(capacity)
                          else old(capacity) * 2
    {
      hide Represents, WellHashed, Probe.Hash;
      RepresentsLength(entries[..], contents);
      if capacity > 0x400_0000 {
        capacity, size := 16, 0;
        entries := new Chain[16](_ => []);
        contents := map[];
        EmptyRepresents(entries[..]);
      }
      if 4 * size >= 3 * capacity {
        assert size <= capacity * 2;
        Rehash(capacity * 2);
      }
      old_ := PutRaw(entries, key, value, contents);
      if old_.None? {
        size := size + 1;
      }
      contents := contents[key := value];
    }

    method Remove(key: Key) returns (old_: Option<Data>)
      requires Valid()
      modifies this`size, this`contents, entries
      ensures Valid() && contents == old(contents) - {key}
      ensures old_ == if key in old(contents) then Some(old(contents)[key]) else None
    {
      hide Represents, WellHashed, Probe.Hash;
      RepresentsLength(entries[..], contents);
      ghost var cs := entries[..];
      var h := Probe.Home(key, capacity);
      var j := 0;
      while j < |entries[h]|
        invariant 0 <= j <= |entries[h]| && entries[..] == cs
        invariant forall x :: 0 <= x < j ==> entries[h][x].key != key
      {
        if entries[h][j].key == key {
          EntryBound(cs, contents, h, j);
          old_ := Some(entries[h][j].value);
          var chain := Unlink(entries[h], j);
          UnlinkRepresents(cs, contents, h, j);
          CardRemove(contents, key);
          entries[h] := chain;
          assert entries[..] == cs[h := chain];
          size := size - 1;
          contents := contents - {key};
          return;
        }
        j := j + 1;
      }
      SearchedInVain(cs, contents, key);
      old_ := None;
    }

    /** The entries in the order the callback sees them: each binding once. */
    method Foreach() returns (visited: seq<Entry>)
      requires Valid()
      ensures forall e: Entry :: e in visited <==> e.key in contents && contents[e.key] == e.value
      ensures forall i, j :: 0 <= i < j < |visited| ==> visited[i].key != visited[j].key
    {
      hide Probe.Hash;
      visited := [];
      var i := 0;
      while i < capacity
        invariant 0 <= i <= capacity && Visited(entries[..], visited, i, 0)
      {
        var j := 0;
        while j < |entries[i]|
          invariant 0 <= j <= |entries[i]| && Visited(entries[..], visited, i, j)
        {
          VisitOne(entries[..], contents, visited, i, j);
          visited := visited + [entries[i][j]];
          j := j + 1;
        }
        VisitChain(entries[..], visited, i, |entries[i]|);
        i := i + 1;
      }
      VisitedAll(entries[..], contents, visited);
    }
  }

  lemma {:induction false} CardRemove(m: map<Key, Data>, key: Key)
    requires key in m
    ensures |m - {key}| == |m| - 1
  {
    var m' := m - {key};
    assert m'[key := m[key]] == m;
  }

  /** Entry `(i', j')` comes before `(i, j)` in the order of the chains. */
  predicate Earlier(i': int, j': int, i: int, j: int) {
    i' < i || (i' == i && j' < j)
  }

  /** What rehashing has done when it is about to move entry `j` of chain `i`. */
  ghost predicate Moved(cs: seq<Chain>, m: map<Key, Data>, m': map<Key, Data>, i: int, j: int) {
    && (forall k :: k in m' ==> k in m && m'[k] == m[k])
    && forall x, y :: 0 <= x < |cs| && 0 <= y < |cs[x]| && Earlier(x, y, i, j) ==> cs[x][y].key in m'
  }

  lemma {:induction false} NoneMoved(cs: seq<Chain>, m: map<Key, Data>)
    ensures Moved(cs, m, map[], 0, 0)
  {
  }

  lemma {:induction false} MovedOne(cs: seq<Chain>, m: map<Key, Data>, m': map<Key, Data>, i: int, j: int)
    requires Represents(cs, m) && Moved(cs, m, m', i, j) && 0 <= i < |cs| && 0 <= j < |cs[i]|
    ensures Moved(cs, m, m'[cs[i][j].key := cs[i][j].value], i, j + 1)
  {
  }

  /** What has been moved is no more than what there is. */
  lemma {:induction false} MovedCard(cs: seq<Chain>, m: map<Key, Data>, m': map<Key, Data>, i: int, j: int)
    requires Moved(cs, m, m', i, j)
    ensures |m'| <= |m|
  {
    assert m'.Keys <= m.Keys;
    Subset(m'.Keys, m.Keys);
  }

  lemma {:induction false} MovedChain(cs: seq<Chain>, m: map<Key, Data>, m': map<Key, Data>, i: int)
    requires 0 <= i < |cs| && Moved(cs, m, m', i, |cs[i]|)
    ensures Moved(cs, m, m', i + 1, 0)
  {
  }

  lemma {:induction false} MovedAll(cs: seq<Chain>, m: map<Key, Data>, m': map<Key, Data>)
    requires Represents(cs, m) && Moved(cs, m, m', |cs|, 0)
    ensures m' == m
  {
    forall k | k in m
      ensures k in m'
    {
      var h := Probe.Home(k, |cs|);
      var y :| 0 <= y < |cs[h]| && cs[h][y] == Entry(k, m[k]);
      assert Earlier(h, y, |cs|, 0);
    }
  }

  /** `e` is an entry before entry `j` of chain `i`. */
  ghost predicate Seen(cs: seq<Chain>, e: Entry, i: int, j: int) {
    exists x, y :: 0 <= x < |cs| && 0 <= y < |cs[x]| && Earlier(x, y, i, j) && cs[x][y] == e
  }

  /** What iteration has visited when it is about to visit entry `j` of chain `i`. */
  ghost predicate Visited(cs: seq<Chain>, visited: seq<Entry>, i: int, j: int) {
    && (forall x, y :: 0 <= x < |cs| && 0 <= y < |cs[x]| && Earlier(x, y, i, j) ==> cs[x][y] in visited)
    && (forall n :: 0 <= n < |visited| ==> Seen(cs, visited[n], i, j))
    && forall n, n' :: 0 <= n < n' < |visited| ==> visited[n].key != visited[n'].key
  }

  /** The entry to be visited next has a key not seen yet. */
  lemma {:induction false} SeenNext(cs: seq<Chain>, m: map<Key, Data>, e: Entry, i: int, j: int)
    requires Represents(cs, m) && Seen(cs, e, i, j) && 0 <= i < |cs| && 0 <= j < |cs[i]|
    ensures e.key != cs[i][j].key && Seen(cs, e, i, j + 1)
  {
    hide Represents, WellHashed, Probe.Hash;
    EntryBound(cs, m, i, j);
    var x, y :| 0 <= x < |cs| && 0 <= y < |cs[x]| && Earlier(x, y, i, j) && cs[x][y] == e;
    EntryBound(cs, m, x, y);
    assert Earlier(x, y, i, j + 1);
  }

  lemma {:induction false} VisitOne(cs: seq<Chain>, m: map<Key, Data>, visited: seq<Entry>, i: int, j: int)
    requires Represents(cs, m) && Visited(cs, visited, i, j) && 0 <= i < |cs| && 0 <= j < |cs[i]|
    ensures Visited(cs, visited + [cs[i][j]], i, j + 1)
  {
    hide Represents, WellHashed, Probe.Hash;
    var e := cs[i][j];
    forall n | 0 <= n < |visited|
      ensures visited[n].key != e.key && Seen(cs, visited[n], i, j + 1)
    {
      SeenNext(cs, m, visited[n], i, j);
    }
    assert Seen(cs, e, i, j + 1) by {
      assert Earlier(i, j, i, j + 1);
    }
    hide Seen;
    forall x, y | 0 <= x < |cs| && 0 <= y < |cs[x]| && Earlier(x, y, i, j + 1)
      ensures cs[x][y] in visited + [e]
    {
      assert Earlier(x, y, i, j) || (x == i && y == j);
    }
  }

  lemma {:induction false} VisitChain(cs: seq<Chain>, visited: seq<Entry>, i: int, j: int)
    requires 0 <= i < |cs| && j == |cs[i]| && Visited(cs, visited, i, j)
    ensures Visited(cs, visited, i + 1, 0)
  {
    forall n | 0 <= n < |visited|
      ensures Seen(cs, visited[n], i + 1, 0)
    {
      assert Seen(cs, visited[n], i, j);
      var x, y :| 0 <= x < |cs| && 0 <= y < |cs[x]| && Earlier(x, y, i, j) && cs[x][y] == visited[n];
      assert Earlier(x, y, i + 1, 0);
    }
    hide Seen;
    forall x, y | 0 <= x < |cs| && 0 <= y < |cs[x]| && Earlier(x, y, i + 1, 0)
      ensures cs[x][y] in visited
    {
      assert Earlier(x, y, i, j);
    }
  }

  lemma {:induction false} VisitedAll(cs: seq<Chain>, m: map<Key, Data>, visited: seq<Entry>)
    requires Represents(cs, m) && Visited(cs, visited, |cs|, 0)
    ensures forall e: Entry :: e in visited <==> e.key in m && m[e.key] == e.value
    ensures forall i, j :: 0 <= i < j < |visited| ==> visited[i].key != visited[j].key
  {
    forall e: Entry
      ensures e in visited <==> e.key in m && m[e.key] == e.value
    {
      VisitedExactly(cs, m, visited, e);
    }
  }

  lemma {:induction false} VisitedExactly(cs: seq<Chain>, m: map<Key, Data>, visited: seq<Entry>, e: Entry)
    requires Represents(cs, m) && Visited(cs, visited, |cs|, 0)
    ensures e in visited <==> e.key in m && m[e.key] == e.value
  {
    if e.key in m && m[e.key] == e.value {
      var h := Probe.Home(e.key, |cs|);
      assert Entry(e.key, m[e.key]) in cs[h];
      var y :| 0 <= y < |cs[h]| && cs[h][y] == e;
      assert Earlier(h, y, |cs|, 0);
    }
    if e in visited {
      var n :| 0 <= n < |visited| && visited[n] == e;
      assert Seen(cs, visited[n], |cs|, 0);
    }
  }
}
