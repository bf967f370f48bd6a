/** The chained hash table over whole histories of operations. */
module HashHistory {
  import opened Options
  import opened HashTable

  datatype Op = Put(key: Key, value: Data) | Get(key: Key) | Remove(key: Key)

  // ---- What a map does -----------------------------------------------------

  /** What an operation does to a map, and what it reports: the value got, replaced or removed. */
  function Apply(m: map<Key, Data>, op: Op): map<Key, Data> {
    match op
    case Put(k, v) => m[k := v]
    case Get(_) => m
    case Remove(k) => m - {k}
  }

  function Reply(m: map<Key, Data>, op: Op): Option<Data> {
    if op.key in m then Some(m[op.key]) else None
  }

  /** The map a history leaves. */
  function After(ops: seq<Op>): map<Key, Data> {
    if ops == [] then map[] else Apply(After(ops[..|ops| - 1]), ops[|ops| - 1])
  }

  // ---- What the table does -------------------------------------------------

  /** The bindings of a table and its capacity. */
  datatype State = State(m: map<Key, Data>, cap: nat)

  /** An insertion takes this table for corrupt. */
  predicate Corrupt(s: State) { s.cap > 0x400_0000 }

  function Do(s: State, op: Op): State {
    match op
    case Put(k, v) =>
      if Corrupt(s) then State(map[k := v], 16)
      else State(s.m[k := v], if 4 * |s.m| < 3 * s.cap then s.cap else s.cap * 2)
    case Get(_) => s
    case Remove(k) => s.(m := s.m - {k})
  }

  function Answer(s: State, op: Op): Option<Data> {
    if op.Put? && Corrupt(s) then None else Reply(s.m, op)
  }

  /** The state of a table of initial capacity `cap` after a history. */
  function Reached(ops: seq<Op>, cap: nat): State {
    if ops == [] then State(map[], cap) else Do(Reached(ops[..|ops| - 1], cap), ops[|ops| - 1])
  }

  lemma {:induction false} Steps(ops: seq<Op>, cap: nat, k: nat)
    requires k < |ops|
    ensures After(ops[..k + 1]) == Apply(After(ops[..k]), ops[k])
    ensures Reached(ops[..k + 1], cap) == Do(Reached(ops[..k], cap), ops[k])
  {
    assert ops[..k + 1][..k] == ops[..k];
  }

  // ---- When it is a map ----------------------------------------------------

  /** At every operation the table answers like the map, and holds what the map holds after it. */
  ghost predicate Refines(ops: seq<Op>, cap: nat) {
    forall k :: 0 <= k < |ops| ==> RefinesAt(ops, cap, k)
  }

  ghost predicate RefinesAt(ops: seq<Op>, cap: nat, k: nat)
    requires k < |ops|
  {
    && Answer(Reached(ops[..k], cap), ops[k]) == Reply(After(ops[..k]), ops[k])
    && Reached(ops[..k + 1], cap).m == After(ops[..k + 1])
  }

  /** No insertion finds a table that it takes for corrupt, unless there is nothing in it to lose. */
  ghost predicate Safe(ops: seq<Op>, cap: nat) {
    forall k :: 0 <= k < |ops| && ops[k].Put? ==> !Corrupt(Reached(ops[..k], cap)) || Reached(ops[..k], cap).m == map[]
  }

  /** While the table holds what the map holds, one operation goes right exactly if it loses nothing. */
  lemma {:induction false} StepRefines(s: State, op: Op)
    ensures Answer(s, op) == Reply(s.m, op) && Do(s, op).m == Apply(s.m, op)
       <==> (op.Put? && Corrupt(s) ==> s.m == map[])
  {
    if op.Put? && Corrupt(s) && s.m != map[] {
      var k :| k in s.m;
      if k != op.key {
        assert k in Apply(s.m, op) && k !in Do(s, op).m;
      }
    }
  }

  lemma {:induction false} SafeRefines(ops: seq<Op>, cap: nat, k: nat)
    requires Safe(ops, cap) && k <= |ops|
    ensures Reached(ops[..k], cap).m == After(ops[..k])
  {
    if k == 0 {
    } else {
      SafeRefines(ops, cap, k - 1);
      Steps(ops, cap, k - 1);
      StepRefines(Reached(ops[..k - 1], cap), ops[k - 1]);
    }
  }

  /** The table is a map over a history exactly if no insertion empties it while it holds anything. */
  lemma {:induction false} RefinesExactly(ops: seq<Op>, cap: nat)
    ensures Refines(ops, cap) <==> Safe(ops, cap)
  {
    hide Do, Answer, Reply, Apply, Corrupt;
    if Safe(ops, cap) {
      forall k | 0 <= k < |ops|
        ensures RefinesAt(ops, cap, k)
      {
        SafeRefines(ops, cap, k);
        SafeRefines(ops, cap, k + 1);
        Steps(ops, cap, k);
        StepRefines(Reached(ops[..k], cap), ops[k]);
      }
    }
    if Refines(ops, cap) {
      forall k | 0 <= k < |ops| && ops[k].Put?
        ensures !Corrupt(Reached(ops[..k], cap)) || Reached(ops[..k], cap).m == map[]
      {
        assert RefinesAt(ops, cap, k);
        RefinedBefore(ops, cap, k);
        Steps(ops, cap, k);
        StepRefines(Reached(ops[..k], cap), ops[k]);
      }
    }
  }

  lemma {:induction false} RefinedBefore(ops: seq<Op>, cap: nat, k: nat)
    requires Refines(ops, cap) && k < |ops|
    ensures Reached(ops[..k], cap).m == After(ops[..k])
  {
    if k > 0 {
      assert RefinesAt(ops, cap, k - 1);
    }
  }

  // ---- Bounds that suffice -------------------------------------------------

  /**
    Before every insertion fewer than `n` keys are bound. Neither the number nor the other kinds of operations matter.
   */
  ghost predicate Roomy(ops: seq<Op>, n: nat) {
    forall k :: 0 <= k < |ops| && ops[k].Put? ==> |After(ops[..k])| < n
  }

  /** With fewer than 3 * 2^23 keys the capacity never grows beyond 2^26. */
  lemma {:induction false} RoomySafe(ops: seq<Op>, cap: nat, k: nat)
    requires Roomy(ops, 0x180_0000) && cap <= 0x400_0000 && k <= |ops|
    ensures !Corrupt(Reached(ops[..k], cap)) && Reached(ops[..k], cap).m == After(ops[..k])
  {
    if k == 0 {
    } else {
      RoomySafe(ops, cap, k - 1);
      Steps(ops, cap, k - 1);
    }
  }

  function Pow2(n: nat): (p: nat)
    ensures p > 0
  {
    if n == 0 then 1 else 2 * Pow2(n - 1)
  }

  /** From a capacity of 16, which is what every table of the runtime starts with, 3 * 2^24 keys fit. */
  lemma {:induction false} RoomySafeFrom16(ops: seq<Op>, k: nat) returns (j: nat)
    requires Roomy(ops, 0x300_0000) && k <= |ops|
    ensures j <= 22 && Reached(ops[..k], 16).cap == 16 * Pow2(j) <= 0x400_0000
    ensures Reached(ops[..k], 16).m == After(ops[..k])
  {
    if k == 0 {
      j := 0;
    } else {
      hide Do, Reached, After, Roomy, Pow2;
      j := RoomySafeFrom16(ops, k - 1);
      Steps(ops, 16, k - 1);
      j := StepFrom16(Reached(ops[..k - 1], 16), ops[k - 1], j);
    }
  }

  lemma {:induction false} StepFrom16(s: State, op: Op, j: nat) returns (j': nat)
    requires j <= 22 && s.cap == 16 * Pow2(j) <= 0x400_0000 && (op.Put? ==> |s.m| < 0x300_0000)
    ensures j' <= 22 && Do(s, op).cap == 16 * Pow2(j') <= 0x400_0000 && Do(s, op).m == Apply(s.m, op)
  {
    Pow2Steps(j);
    hide Pow2;
    j' := if Do(s, op).cap == s.cap then j else j + 1;
  }

  lemma {:induction false} Pow2Steps(j: nat)
    requires j <= 22
    ensures Pow2(j + 1) == 2 * Pow2(j) && 16 * Pow2(22) == 0x400_0000 && (j < 22 ==> Pow2(j) <= 0x20_0000)
  {
    assert Pow2(8) == 256 && Pow2(16) == 0x1_0000 && Pow2(22) == 0x40_0000;
    Pow2Mono(j, 21);
  }

  lemma {:induction false} Pow2Mono(i: nat, j: nat)
    ensures i <= j ==> Pow2(i) <= Pow2(j)
    decreases j
  {
    if j == 0 || i > j {
    } else {
      Pow2Mono(i, j - 1);
    }
  }

  /** Both bounds are enough for the table to be a map. */
  lemma {:induction false} RoomyRefines(ops: seq<Op>, cap: nat)
    requires (cap <= 0x400_0000 && Roomy(ops, 0x180_0000)) || (cap == 16 && Roomy(ops, 0x300_0000))
    ensures Refines(ops, cap)
  {
    hide Reached, After;
    forall k | 0 <= k < |ops|
      ensures !Corrupt(Reached(ops[..k], cap))
    {
      if cap <= 0x400_0000 && Roomy(ops, 0x180_0000) {
        RoomySafe(ops, cap, k);
      } else {
        var j := RoomySafeFrom16(ops, k);
      }
    }
    RefinesExactly(ops, cap);
  }

  // ---- The table itself ----------------------------------------------------

  /** The answers given so far are those of the table's states. */
  ghost predicate Answers(ops: seq<Op>, cap: nat, rs: seq<Option<Data>>)
    requires |rs| <= |ops|
  {
    forall i :: 0 <= i < |rs| ==> rs[i] == Answer(Reached(ops[..i], cap), ops[i])
  }

  /** The answers a map gives. */
  ghost predicate Replies(ops: seq<Op>, rs: seq<Option<Data>>)
    requires |rs| <= |ops|
  {
    forall i :: 0 <= i < |rs| ==> rs[i] == Reply(After(ops[..i]), ops[i])
  }

  method Step(t: Table, op: Op) returns (r: Option<Data>)
    requires t.Valid()
    modifies t, t.entries
    ensures t.Valid() && (t.entries == old(t.entries) || fresh(t.entries))
    ensures State(t.contents, t.capacity) == Do(old(State(t.contents, t.capacity)), op)
    ensures r == Answer(old(State(t.contents, t.capacity)), op)
  {
    hide Represents;
    match op {
      case Put(k, v) => r := t.Put(k, v);
      case Get(k) => r := t.Get(k);
      case Remove(k) => r := t.Remove(k);
    }
  }

  /**
    Any history on a table of any capacity. The table goes through the states of the specification, and it is a map if
    no insertion empties it while it holds anything.
   */
  method Run(ops: seq<Op>, capacity: nat) returns (t: Table, rs: seq<Option<Data>>)
    requires 0 < capacity
    ensures t.Valid() && State(t.contents, t.capacity) == Reached(ops, capacity)
    ensures |rs| == |ops| && Answers(ops, capacity, rs)
    ensures Safe(ops, capacity) ==> t.contents == After(ops) && t.size == |After(ops)| && Replies(ops, rs)
  {
    hide After, Represents, Apply, Reply, Do, Answer, Reached, Safe, Corrupt;
    t := new Table(capacity);
    rs := [];
    var i := 0;
    Nothing(ops, capacity);
    while i < |ops|
      invariant 0 <= i <= |ops| && |rs| == i && fresh(t) && fresh(t.entries) && t.Valid()
      invariant State(t.contents, t.capacity) == Reached(ops[..i], capacity) && Answers(ops, capacity, rs)
    {
      Steps(ops, capacity, i);
      var r := Step(t, ops[i]);
      rs := rs + [r];
      i := i + 1;
    }
    assert ops[..i] == ops;
    if Safe(ops, capacity) {
      SafeRefines(ops, capacity, |ops|);
      RefinesExactly(ops, capacity);
      AnswersReply(ops, capacity, rs);
    }
  }

  lemma {:induction false} AnswersReply(ops: seq<Op>, cap: nat, rs: seq<Option<Data>>)
    requires Refines(ops, cap) && |rs| == |ops| && Answers(ops, cap, rs)
    ensures Replies(ops, rs)
  {
    hide Reached, After, Answer, Reply;
    forall i | 0 <= i < |rs|
      ensures rs[i] == Reply(After(ops[..i]), ops[i])
    {
      assert RefinesAt(ops, cap, i);
    }
  }

  lemma {:induction false} Nothing(ops: seq<Op>, cap: nat)
    ensures Reached(ops[..0], cap) == State(map[], cap)
  {
  }
}
