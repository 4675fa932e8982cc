/** What the cache drops: over every run, the entry that has been idle longest goes first. */
module LruOrder {
  import opened Wrappers
  import opened HandleTable
  import opened LruCache

  /** The cache has the entry and no client holds it. */
  ghost predicate Idle(s: Shard, e: nat) {
    e in s.entries && s.entries[e].inCache && e !in s.held
  }

  /** The state with which the time begins that an entry idle in state `i` has been idle. */
  ghost function IdleSince(states: seq<Shard>, i: nat, e: nat): (k: nat)
    requires i < |states|
    ensures k <= i
  {
    if i == 0 || !Idle(states[i - 1], e) then i else IdleSince(states, i - 1, e)
  }

  /** `e` stands before `f` in the list. */
  ghost predicate StandsBefore(l: seq<nat>, e: nat, f: nat) {
    exists a, b :: 0 <= a < b < |l| && l[a] == e && l[b] == f
  }

  /** Nothing was added to the list, and what is left of it stands as it stood. */
  ghost predicate LeftOf(m: seq<nat>, l: seq<nat>) {
    && (forall e :: e in m ==> e in l)
    && (forall e, f :: StandsBefore(m, e, f) ==> StandsBefore(l, e, f))
  }

  lemma LeftOfLeft(k: seq<nat>, m: seq<nat>, l: seq<nat>)
    requires LeftOf(k, m) && LeftOf(m, l)
    ensures LeftOf(k, l)
  {
    hide StandsBefore;
  }

  lemma {:induction false} WithoutIsLeft(l: seq<nat>, e: nat)
    ensures LeftOf(Without(l, e), l)
  {
    WithoutMembers(l, e);
    if l != [] {
      WithoutIsLeft(l[1..], e);
      forall x, y | StandsBefore(Without(l, e), x, y)
        ensures StandsBefore(l, x, y)
      {
        BehindHead(l, Without(l, e), e, x, y);
      }
    }
  }

  lemma BehindHead(l: seq<nat>, m: seq<nat>, e: nat, x: nat, y: nat)
    requires l != [] && m == (if l[0] == e then l[1..] else [l[0]] + Without(l[1..], e))
    requires LeftOf(Without(l[1..], e), l[1..]) && StandsBefore(m, x, y)
    ensures StandsBefore(l, x, y)
  {
    var a, b :| 0 <= a < b < |m| && m[a] == x && m[b] == y;
    if l[0] == e {
      assert l[a + 1] == x && l[b + 1] == y;
    } else {
      var rest := Without(l[1..], e);
      assert rest[b - 1] == y && y in rest;
      if a == 0 {
        var c :| 0 <= c < |l[1..]| && l[1..][c] == y;
        assert l[0] == x && l[c + 1] == y;
      } else {
        assert rest[a - 1] == x && StandsBefore(rest, x, y);
        var c, d :| 0 <= c < d < |l[1..]| && l[1..][c] == x && l[1..][d] == y;
        assert l[c + 1] == x && l[d + 1] == y;
      }
    }
  }

  lemma BackIsLeft(l: seq<nat>, n: nat)
    requires n <= |l|
    ensures LeftOf(l[n..], l)
  {
    forall x, y | StandsBefore(l[n..], x, y)
      ensures StandsBefore(l, x, y)
    {
      var a, b :| 0 <= a < b < |l[n..]| && l[n..][a] == x && l[n..][b] == y;
      assert l[a + n] == x && l[b + n] == y;
    }
  }

  /** Letting go of the cache's own reference lists nothing anew. */
  lemma EraseIsLeft(s: Shard, loose: Option<nat>)
    requires loose.Some? ==> loose.value in s.entries && s.entries[loose.value].refs > 0
    ensures LeftOf(FinishErase(s, loose).lru, s.lru)
  {
    hide LeftOf, Without;
    if loose.Some? {
      WithoutIsLeft(s.lru, loose.value);
    } else {
      BackIsLeft(s.lru, 0);
      assert s.lru[0..] == s.lru;
    }
  }

  lemma EvictIsLeft(s: Shard, all: bool)
    requires Inv(s, None)
    ensures LeftOf(Evict(s, all).lru, s.lru)
  {
    hide Inv, Evict, LeftOf;
    EvictMeans(s, all);
    BackIsLeft(s.lru, |s.lru| - |Evict(s, all).lru|);
  }

  lemma AdmittedIsLeft(s: Shard, x: Entry)
    requires Inv(s, None) && !x.inCache && x.refs == 1
    ensures LeftOf(Admitted(s, x).lru, s.lru)
  {
    hide Inv, FinishErase, Admitted, LeftOf;
    AdmittedIs(s, x);
    BackIsLeft(s.lru, 0);
    assert s.lru[0..] == s.lru;
    if s.capacity > 0 {
      EraseIsLeft(Cached(s, x), Replaced(s, x));
    }
  }

  /** One operation: what leaves the list leaves the rest in order; at most one entry joins it, as its last. */
  ghost predicate JoinsLast(l: seq<nat>, m: seq<nat>) {
    LeftOf(m, l) || exists e :: e !in l && m == l + [e]
  }

  lemma RefIsLeft(s: Shard, e: nat)
    requires e in s.entries
    ensures LeftOf(Ref(s, e).lru, s.lru)
  {
    hide LeftOf, Without;
    WithoutIsLeft(s.lru, e);
    BackIsLeft(s.lru, 0);
    assert s.lru[0..] == s.lru;
  }

  lemma UnrefJoins(s: Shard, e: nat)
    requires Inv(s, None) && e in s.held && e in s.entries && s.entries[e].refs > 0
    ensures JoinsLast(s.lru, Unref(s, e).lru)
  {
    assert e !in s.lru;
    hide Inv, LeftOf;
    WithoutMembers(s.lru, e);
    BackIsLeft(s.lru, 0);
    assert s.lru[0..] == s.lru;
  }

  lemma StepJoins(s: Shard, op: Op, t: Shard)
    requires Does(s, op, t)
    ensures JoinsLast(s.lru, t.lru)
  {
    hide Inv, Ref, Unref, FinishErase, LeftOf, Inserted, Evict;
    BackIsLeft(s.lru, 0);
    assert s.lru[0..] == s.lru;
    match op
    case Lookup(key, hash) =>
      if Slot(hash, key) in s.table {
        TableIsAlive(s, Slot(hash, key));
        RefIsLeft(s, s.table[Slot(hash, key)]);
      }
    case Release(e) => UnrefJoins(s, e);
    case Insert(x) => InsertedIsLeft(s, x);
    case Erase(key, hash) =>
      if Slot(hash, key) in s.table {
        TableIsAlive(s, Slot(hash, key));
        EraseIsLeft(s.(table := s.table - {Slot(hash, key)}), Some(s.table[Slot(hash, key)]));
      }
    case Prune => EvictIsLeft(s, true);
    case SetCapacity(n) =>
  }

  lemma InsertedIsLeft(s: Shard, x: Entry)
    requires Inv(s, None) && !x.inCache && x.refs == 1
    ensures LeftOf(Inserted(s, x).lru, s.lru)
  {
    hide Inv, Admitted, Evict, LeftOf;
    AdmittedIsLeft(s, x);
    EvictIsLeft(Admitted(s, x), false);
    LeftOfLeft(Inserted(s, x).lru, Admitted(s, x).lru, s.lru);
  }

  /** The list holds exactly the idle entries. */
  lemma ListsIdle(s: Shard)
    requires Inv(s, None)
    ensures forall e :: e in s.lru <==> Idle(s, e)
  {
    hide NoRepeats, UsageOk, TableOk, LivesOk;
  }

  /** Over every run: an entry stands before another in the list exactly if it became idle earlier. */
  lemma {:induction false} OrderIsByIdleTime(states: seq<Shard>, ops: seq<Op>, i: nat, e: nat, f: nat)
    requires Run(states, ops) && i < |states| && Idle(states[i], e) && Idle(states[i], f)
    ensures StandsBefore(states[i].lru, e, f) <==> IdleSince(states, i, e) < IdleSince(states, i, f)
  {
    hide Does, Inv, Idle, StandsBefore, Run;
    if e != f {
      OneBeforeOther(states, ops, i, e, f);
    }
    if StandsBefore(states[i].lru, e, f) {
      BeforeIsEarlier(states, ops, i, e, f);
    } else if e != f {
      BeforeIsEarlier(states, ops, i, f, e);
    }
  }

  lemma OneBeforeOther(states: seq<Shard>, ops: seq<Op>, i: nat, e: nat, f: nat)
    requires Run(states, ops) && i < |states| && Idle(states[i], e) && Idle(states[i], f) && e != f
    ensures StandsBefore(states[i].lru, e, f) || StandsBefore(states[i].lru, f, e)
  {
    hide Inv, Does, Idle;
    RunKeeps(states, ops, i);
    ListsIdle(states[i]);
    var l := states[i].lru;
    var a :| 0 <= a < |l| && l[a] == e;
    var b :| 0 <= b < |l| && l[b] == f;
  }

  lemma {:induction false} BeforeIsEarlier(states: seq<Shard>, ops: seq<Op>, i: nat, e: nat, f: nat)
    requires Run(states, ops) && i < |states| && StandsBefore(states[i].lru, e, f)
    ensures IdleSince(states, i, e) < IdleSince(states, i, f)
    decreases i
  {
    hide Does, Inv, Idle;
    assert i > 0;
    var s, t := states[i - 1], states[i];
    RunKeeps(states, ops, i - 1);
    ListsIdle(s);
    StepJoins(s, ops[i - 1], t);
    if StandsBefore(s.lru, e, f) {
      BeforeIsEarlier(states, ops, i - 1, e, f);
      StandsIn(s.lru, e, f);
    } else {
      JoinedIsLast(s.lru, t.lru, e, f);
    }
  }

  lemma StandsIn(l: seq<nat>, e: nat, f: nat)
    requires StandsBefore(l, e, f)
    ensures e in l && f in l
  {
  }

  lemma JoinedIsLast(l: seq<nat>, m: seq<nat>, e: nat, f: nat)
    requires JoinsLast(l, m) && StandsBefore(m, e, f) && !StandsBefore(l, e, f)
    ensures e in l && f !in l
  {
    var a, b :| 0 <= a < b < |m| && m[a] == e && m[b] == f;
    assert a < |l| && m == l + [f] && l[a] == e;
  }

  /** Over every run: an idle entry that Insert drops to make room has been idle longer than every idle entry that it
      leaves.  Only an entry of the key inserted goes whatever its turn. */
  lemma InsertDropsLeastRecent(states: seq<Shard>, ops: seq<Op>, i: nat, e: nat, f: nat)
    requires Run(states, ops) && i < |ops| && ops[i].Insert?
    requires Idle(states[i], e) && !Idle(states[i + 1], e) && SlotOfEntry(states[i].entries[e]) != SlotOfEntry(ops[i].x)
    requires Idle(states[i], f) && Idle(states[i + 1], f)
    ensures e in states[i + 1].deleted && IdleSince(states, i, e) < IdleSince(states, i, f)
  {
    hide Inv, Idle, Admitted, Evict, StandsBefore, LeftOf;
    var s, x, t := states[i], ops[i].x, states[i + 1];
    assert Does(s, ops[i], t);
    RunKeeps(states, ops, i);
    ListsIdle(s);
    ListsIdle(t);
    AdmittedStays(s, x, e);
    var m := Admitted(s, x);
    EvictMeans(m, false);
    AdmittedIsLeft(s, x);
    DroppedBeforeLeft(m.lru, |m.lru| - |t.lru|, e, f);
    StandsInOlder(s.lru, m.lru, e, f);
    BeforeIsEarlier(states, ops, i, e, f);
  }

  lemma AdmittedStays(s: Shard, x: Entry, e: nat)
    requires Inv(s, None) && !x.inCache && x.refs == 1 && e in s.lru
    ensures e in s.entries
    ensures SlotOfEntry(s.entries[e]) != SlotOfEntry(x) ==> e in Admitted(s, x).lru
  {
    TableKeys(s, x);
    hide Inv, Without, Admitted;
    AdmittedIs(s, x);
    if Replaced(s, x).Some? {
      WithoutMembers(s.lru, Replaced(s, x).value);
    }
  }

  lemma TableKeys(s: Shard, x: Entry)
    requires Inv(s, None)
    ensures forall e :: e in s.lru ==> e in s.entries
    ensures Replaced(s, x).Some? ==>
              Replaced(s, x).value in s.entries && SlotOfEntry(s.entries[Replaced(s, x).value]) == SlotOfEntry(x)
  {
  }

  lemma DroppedBeforeLeft(l: seq<nat>, n: nat, e: nat, f: nat)
    requires n <= |l| && e in l && e !in l[n..] && f in l[n..]
    ensures StandsBefore(l, e, f) && e in l[..n]
  {
    assert l == l[..n] + l[n..];
    var a :| 0 <= a < |l[..n]| && l[..n][a] == e;
    var b :| 0 <= b < |l[n..]| && l[n..][b] == f;
    assert l[a] == e && l[n + b] == f;
  }

  lemma StandsInOlder(l: seq<nat>, m: seq<nat>, e: nat, f: nat)
    requires LeftOf(m, l) && StandsBefore(m, e, f)
    ensures StandsBefore(l, e, f)
  {
    hide StandsBefore;
  }
}
