/** Reading the memtable while writers insert: the searches of the skip list, the stores of an insertion and the steps
    of group commit, in any interleaving. */
module ConcurrentRead {
  import opened Wrappers
  import opened Bytewise
  import opened InternalKeys
  import opened WriteBatch
  import Commit = GroupCommit
  import List = SkipList

  // ---- internal keys as places on a line ----

  /** Nothing lies between a byte string and the one that goes on with a zero. */
  lemma {:induction false} NextString(a: Bytes, b: Bytes)
    requires Less(a, b)
    ensures Rank(a) < Rank(a + [0]) <= Rank(b)
  {
    RankEmbedsOrder(a, a + [0]);
    LessThanNext(a);
    RankEmbedsOrder(a + [0], b);
    NextIsAtMost(a, b);
  }

  lemma {:induction false} LessThanNext(a: Bytes)
    ensures Less(a, a + [0])
  {
    if a != [] {
      LessThanNext(a[1..]);
      assert (a + [0])[1..] == a[1..] + [0];
    }
  }

  lemma {:induction false} NextIsAtMost(a: Bytes, b: Bytes)
    requires Less(a, b)
    ensures AtMost(a + [0], b)
  {
    if a == [] {
      assert [] + [0] == [0];
      assert b[0] == 0 && b[1..] == [] ==> b == [0];
    } else {
      assert (a + [0])[1..] == a[1..] + [0];
      if a[0] == b[0] {
        NextIsAtMost(a[1..], b[1..]);
        assert b == [b[0]] + b[1..] && a + [0] == [a[0]] + (a[1..] + [0]);
      }
    }
  }

  /** The part of the line that keys of one user key take up: the larger the packed number, the earlier. */
  function Share(tag: nat): real {
    1.0 / (tag as real + 1.0)
  }

  lemma ShareFalls(a: nat, b: nat)
    ensures 0.0 < Share(a) <= 1.0
    ensures a < b ==> Share(b) < Share(a)
  {
    Inverse(Share(a), a as real + 1.0, Share(b), b as real + 1.0);
  }

  lemma Inverse(p: real, x: real, q: real, y: real)
    requires p * x == 1.0 && q * y == 1.0 && 1.0 <= x && 1.0 <= y
    ensures 0.0 < p <= 1.0
    ensures x < y ==> q < p
  {
    assert 0.0 < p && 0.0 < q;
    Larger(p, 1.0, x);
    assert p * q * x == q * (p * x) == q && p * q * y == p * (q * y) == p;
    assert p * q > 0.0;
    Larger(p * q, x, y);
  }

  lemma Larger(k: real, a: real, b: real)
    requires k > 0.0
    ensures a < b ==> k * a < k * b
    ensures a <= b ==> k * a <= k * b
  {
    assert k * (b - a) == k * b - k * a;
    assert a < b ==> k * (b - a) > 0.0;
  }

  function Times(k: real, a: real): real {
    k * a
  }

  lemma TimesRises(k: real, a: real, b: real)
    requires k > 0.0
    ensures 0.0 < a ==> 0.0 < Times(k, a)
    ensures a <= 1.0 ==> Times(k, a) <= k
    ensures a < b ==> Times(k, a) < Times(k, b)
  {
    Larger(k, a, b);
    if a <= 1.0 {
      assert k - k * a == k * (1.0 - a);
    }
  }

  /** A point between two others, nearer to the first for a smaller share. */
  function Between(lo: real, hi: real, share: real): real {
    lo + Times(hi - lo, share)
  }

  lemma BetweenRises(lo: real, hi: real, p: real, q: real)
    requires lo < hi && 0.0 < p <= 1.0
    ensures lo < Between(lo, hi, p) <= hi
    ensures p < q ==> Between(lo, hi, p) < Between(lo, hi, q)
  {
    hide Times;
    TimesRises(hi - lo, p, q);
  }

  function Place(user: Bytes, tag: nat): real {
    Between(Rank(user), Rank(user + [0]), Share(tag))
  }

  lemma PlaceInside(user: Bytes, tag: nat)
    ensures Rank(user) < Place(user, tag) <= Rank(user + [0])
  {
    hide Rank, Share, Between;
    LessThanNext(user);
    RankEmbedsOrder(user, user + [0]);
    ShareFalls(tag, tag);
    BetweenRises(Rank(user), Rank(user + [0]), Share(tag), Share(tag));
  }

  /** Places keep the order of internal keys: user key rising, then packed number falling. */
  lemma PlaceEmbedsOrder(u: Bytes, a: nat, v: Bytes, b: nat)
    ensures Place(u, a) < Place(v, b) <==> Less(u, v) || (u == v && a > b)
    ensures Place(u, a) == Place(v, b) <==> u == v && a == b
  {
    hide Rank, Share, Place;
    LessTrichotomy(u, v);
    PlaceInside(u, a);
    PlaceInside(v, b);
    if Less(u, v) {
      NextString(u, v);
    } else if Less(v, u) {
      NextString(v, u);
    } else {
      SameUser(u, a, b);
      SameUser(u, b, a);
    }
  }

  lemma SameUser(u: Bytes, a: nat, b: nat)
    ensures a < b ==> Place(u, b) < Place(u, a)
  {
    hide Rank, Share, Between;
    LessThanNext(u);
    RankEmbedsOrder(u, u + [0]);
    ShareFalls(a, b);
    ShareFalls(b, a);
    BetweenRises(Rank(u), Rank(u + [0]), Share(b), Share(a));
  }

  // ---- the memtable as list nodes ----

  function TagOf(e: (nat, Op)): nat {
    Pack(e.0, if e.1.Put? then 1 else 0)
  }

  function NodeKey(e: (nat, Op)): real {
    Place(e.1.key, TagOf(e))
  }

  /** Where a read of `user` at `s` begins. */
  function Sought(user: Bytes, s: nat): real {
    Place(user, Pack(s, 1))
  }

  ghost function KeysIn(m: List.Memory): set<real> {
    set n | n in List.Level(m, 0) :: m.keys[n]
  }

  ghost function MemKeys(mem: seq<(nat, Op)>): set<real> {
    set e | e in mem :: NodeKey(e)
  }

  /** The entry that the group at work is about to have in the memtable. */
  function Due(q: Commit.State): Option<(nat, Op)> {
    if Commit.Active(q).Some? && Commit.Active(q).value.stage.Inserting? then
      var g := Commit.Active(q).value;
      var k := g.stage.done;
      if k < |g.ops| then Some((g.first + k, g.ops[k])) else None
    else None
  }

  ghost function DueKeys(q: Commit.State): set<real> {
    if Due(q).Some? then {NodeKey(Due(q).value)} else {}
  }

  datatype System = System(queue: Commit.State, list: List.System)
  datatype Event = Protocol(a: Commit.Action) | Listing(e: List.Event)

  /** One step: of the writers' protocol, where an operation counts as inserted once its node can be reached; or of the
      list, where the writer publishes only the entry that is due. */
  ghost predicate Does(s: System, e: Event, t: System) {
    match e
    case Protocol(a) =>
      && t.list == s.list && Commit.Does(s.queue, a, t.queue)
      && (a.InsertOne? ==> DueKeys(s.queue) <= KeysIn(s.list.mem))
    case Listing(e) =>
      && t.queue == s.queue && List.Does(s.list, e, t.list)
      && (PublishesAt0(e) ==> e.s.x < |s.list.mem.keys| && s.list.mem.keys[e.s.x] in DueKeys(s.queue))
  }

  predicate PublishesAt0(e: List.Event) {
    e.Writes? && e.s.Publish? && e.s.i == 0
  }

  /** The list holds the memtable, and at most the entry that is due. */
  ghost predicate Coupled(s: System) {
    && Commit.Inv(s.queue) && List.SystemOk(s.list)
    && MemKeys(s.queue.mem) <= KeysIn(s.list.mem) <= MemKeys(s.queue.mem) + DueKeys(s.queue)
  }

  ghost predicate Follows(s: System, t: System) {
    exists e :: Does(s, e, t)
  }

  ghost predicate Run(run: seq<System>) {
    && run != [] && run[0].queue == Commit.Start()
    && List.SystemOk(run[0].list) && List.Level(run[0].list.mem, 0) == {}
    && forall k :: 0 < k < |run| ==> Follows(run[k - 1], run[k])
  }

  lemma ListingKeeps(s: System, e: List.Event, t: System)
    requires Coupled(s) && Does(s, Listing(e), t)
    ensures Coupled(t)
  {
    hide Commit.Inv, List.Inv, List.WalkOk, NodeKey, Due, List.Level, List.May, List.Apply;
    List.EventKeeps(s.list, e, t.list);
    KeysAfter(s.list, e, t.list);
  }

  /** Only a publication at the bottom level adds a key. */
  lemma KeysAfter(a: List.System, e: List.Event, b: List.System)
    requires List.SystemOk(a) && List.Does(a, e, b)
    requires PublishesAt0(e) ==> e.s.x < |a.mem.keys|
    ensures KeysIn(b.mem) == KeysIn(a.mem) + if PublishesAt0(e) then {a.mem.keys[e.s.x]} else {}
  {
    hide List.Level, List.SystemOk, List.Does;
    BottomAfter(a, e, b);
    BottomInside(a.mem);
    BottomInside(b.mem);
    forall k
      ensures k in KeysIn(b.mem) <==> k in KeysIn(a.mem) || (PublishesAt0(e) && k == a.mem.keys[e.s.x])
    {
      if n :| n in List.Level(a.mem, 0) && a.mem.keys[n] == k {
        assert n in List.Level(b.mem, 0) && b.mem.keys[n] == k;
      }
      if PublishesAt0(e) {
        assert e.s.x in List.Level(b.mem, 0) && b.mem.keys[e.s.x] == a.mem.keys[e.s.x];
      }
    }
  }

  lemma BottomAfter(a: List.System, e: List.Event, b: List.System)
    requires List.SystemOk(a) && List.Does(a, e, b)
    ensures List.Level(b.mem, 0) == List.Level(a.mem, 0) + if PublishesAt0(e) then {e.s.x} else {}
    ensures a.mem.keys <= b.mem.keys
  {
    hide List.Level, List.Inv, List.May, List.Apply, List.WalkOk;
    if e.Writes? {
      List.StoreKeeps(a.mem, e.s);
    }
  }

  lemma BottomInside(m: List.Memory)
    ensures forall n :: n in List.Level(m, 0) ==> 0 < n < |m.keys|
  {
  }

  /** A protocol step that is not an insertion leaves the memtable and what is due, or makes something due. */
  lemma ProtocolKeeps(s: System, a: Commit.Action, t: System)
    requires Coupled(s) && Does(s, Protocol(a), t)
    ensures Coupled(t)
  {
    hide Commit.Inv, List.SystemOk, NodeKey, KeysIn, MemKeys;
    Commit.DoesKeeps(s.queue, a, t.queue);
    MemAfter(s.queue, a, t.queue);
    MemKeysMore(s.queue.mem, Due(s.queue));
  }

  lemma MemKeysMore(mem: seq<(nat, Op)>, due: Option<(nat, Op)>)
    ensures due.Some? ==> MemKeys(mem + [due.value]) == MemKeys(mem) + {NodeKey(due.value)}
  {
    hide NodeKey;
    if due.Some? {
      assert forall e :: e in mem + [due.value] <==> e in mem || e == due.value;
    }
  }

  /** Only an insertion changes the memtable or takes away what is due; and it inserts what is due. */
  lemma MemAfter(q: Commit.State, a: Commit.Action, t: Commit.State)
    requires Commit.Inv(q) && Commit.Does(q, a, t)
    ensures t.mem == if a.InsertOne? && Due(q).Some? then q.mem + [Due(q).value] else q.mem
    ensures !a.InsertOne? && Due(q).Some? ==> Due(t) == Due(q)
    ensures q.lastSequence <= t.lastSequence
    ensures Due(q).Some? ==> Due(q).value.0 > q.lastSequence
  {
    hide Commit.OneByOne, Commit.MemOk, Commit.Logged, Commit.Durable, Commit.IsGroup, Numbered, Commit.Finishing,
         Commit.MarkDone;
  }

  // ---- runs ----

  lemma StepKeeps(s: System, e: Event, t: System)
    requires Coupled(s) && Does(s, e, t)
    ensures Coupled(t) && s.queue.lastSequence <= t.queue.lastSequence
    ensures t.queue.mem == s.queue.mem || (Due(s.queue).Some? && t.queue.mem == s.queue.mem + [Due(s.queue).value])
    ensures Due(s.queue).Some? ==> Due(s.queue).value.0 > s.queue.lastSequence
  {
    hide Coupled, Does, Due;
    match e
    case Protocol(a) =>
      ProtocolKeeps(s, a, t);
      ParametersOf(s, e, t);
      MemAfter(s.queue, a, t.queue);
    case Listing(l) =>
      ListingKeeps(s, l, t);
      ParametersOf(s, e, t);
      DueIsNew(s.queue);
  }

  lemma ParametersOf(s: System, e: Event, t: System)
    requires Coupled(s) && Does(s, e, t)
    ensures Commit.Inv(s.queue)
    ensures match e case Protocol(a) => Commit.Does(s.queue, a, t.queue) case Listing(_) => t.queue == s.queue
  {
    hide Commit.Inv, Commit.Does, List.Does, List.SystemOk;
  }

  lemma DueIsNew(q: Commit.State)
    requires Commit.Inv(q)
    ensures Due(q).Some? ==> Due(q).value.0 > q.lastSequence
  {
    hide Commit.OneByOne, Commit.MemOk, Commit.Logged, Commit.Durable;
  }

  lemma {:induction false} RunKeeps(run: seq<System>, j: nat)
    requires Run(run) && j < |run|
    ensures Coupled(run[j])
  {
    hide Coupled, Does, Due;
    if j == 0 {
      FirstIsCoupled(run);
    } else {
      RunKeeps(run, j - 1);
      assert Follows(run[j - 1], run[j]);
      var e :| Does(run[j - 1], e, run[j]);
      StepKeeps(run[j - 1], e, run[j]);
    }
  }

  lemma FirstIsCoupled(run: seq<System>)
    requires Run(run)
    ensures Coupled(run[0])
  {
    hide List.SystemOk, List.Level, Commit.Inv;
    Commit.StartIsOk();
  }

  /** Of what is in the memtable later, or due then, only what was there for the published number is numbered up to
      it. */
  ghost predicate OldPart(mem: seq<(nat, Op)>, last: nat, q: Commit.State) {
    && mem <= q.mem && last <= q.lastSequence
    && (forall k :: |mem| <= k < |q.mem| ==> q.mem[k].0 > last)
  }

  lemma {:induction false} OldPartStays(run: seq<System>, i: nat, j: nat)
    requires Run(run) && i <= j < |run|
    ensures var (last, mem) := Commit.OneByOne(run[i].queue.arrived, run[i].queue.outcomes);
            OldPart(mem, last, run[j].queue)
    decreases j
  {
    hide Coupled, Does, Due, Commit.OneByOne;
    if i == j {
      RunKeeps(run, i);
      PublishedPart(run[i].queue, run[i]);
    } else {
      OldPartStays(run, i, j - 1);
      RunKeeps(run, j - 1);
      assert Follows(run[j - 1], run[j]);
      var e :| Does(run[j - 1], e, run[j]);
      StepKeeps(run[j - 1], e, run[j]);
    }
  }

  lemma PublishedPart(q: Commit.State, s: System)
    requires Coupled(s) && q == s.queue
    ensures var (last, mem) := Commit.OneByOne(q.arrived, q.outcomes);
            last == q.lastSequence && OldPart(mem, last, q) && forall e :: e in mem ==> e.0 <= last
  {
    hide Commit.OneByOne, Commit.Logged, Commit.Durable, List.SystemOk, KeysIn, MemKeys;
    Commit.OneByOneRises(q.arrived, q.outcomes);
  }

  // ---- the read ----

  /** `e` is the newest of the entries of `user`. */
  ghost predicate IsNewest(mem: seq<(nat, Op)>, user: Bytes, e: (nat, Op)) {
    e in mem && e.1.key == user && forall o :: o in mem && o.1.key == user ==> o.0 <= e.0
  }

  /** The node a search for `user` ends at decides as the newest of the entries does; without one it has another user
      key. */
  ghost predicate Answers(m: List.Memory, found: List.Link, user: Bytes, mem: seq<(nat, Op)>) {
    && (forall e :: IsNewest(mem, user, e) ==>
          found.Some? && found.value < |m.keys| && m.keys[found.value] == NodeKey(e))
    && ((forall e :: e in mem ==> e.1.key != user) ==>
          found.Some? ==> found.value < |m.keys| && forall tag: nat :: m.keys[found.value] != Place(user, tag))
  }

  /** A read of `user` at the number published at some moment, its search interleaved in any way with a group being
      inserted, finds what the batches finished by that moment, written one at a time, hold for `user`. */
  lemma ReadWhileWriting(run: seq<System>, i: nat, j: nat, r: nat, user: Bytes)
    requires Run(run) && i <= j && j + 1 < |run| && Does(run[j], Listing(List.Reads(r)), run[j + 1])
    requires r in run[j].list.readers && run[j].list.readers[r].target == Some(Sought(user, run[i].queue.lastSequence))
    requires run[j + 1].list.readers[r].walk.Done?
    ensures var (last, mem) := Commit.OneByOne(run[i].queue.arrived, run[i].queue.outcomes);
            last == run[i].queue.lastSequence
            && Answers(run[j].list.mem, run[j + 1].list.readers[r].walk.found, user, mem)
  {
    hide Commit.Inv, Commit.OneByOne, List.Inv, List.WalkOk, Due, NodeKey, Sought, OldPart, Answers, List.IsCeiling;
    RunKeeps(run, i);
    RunKeeps(run, j);
    PublishedPart(run[i].queue, run[i]);
    OldPartStays(run, i, j);
    var (last, mem) := Commit.OneByOne(run[i].queue.arrived, run[i].queue.outcomes);
    var reader := run[j].list.readers[r];
    StillWalking(run[j].list, r, run[j + 1].list);
    List.StepIsExact(run[j].list.mem, reader.target, reader.walk);
    CeilingAnswers(run[j], run[j + 1].list.readers[r].walk.found, user, last, mem);
  }

  lemma StillWalking(a: List.System, r: nat, b: List.System)
    requires List.Does(a, List.Reads(r), b) && r in a.readers && List.SystemOk(a)
    ensures List.Inv(a.mem) && a.readers[r].walk.At? && List.WalkOk(a.mem, a.readers[r].target, a.readers[r].walk)
    ensures List.CanLoad(a.mem, a.readers[r].walk) && r in b.readers
    ensures b.readers[r].walk == List.Step(a.mem, a.readers[r].target, a.readers[r].walk)
  {
    hide List.Inv, List.WalkOk;
  }

  lemma KeyIsOf(s: System, n: nat) returns (e: (nat, Op))
    requires Coupled(s) && n in List.Level(s.list.mem, 0)
    ensures n < |s.list.mem.keys| && s.list.mem.keys[n] == NodeKey(e)
    ensures e in s.queue.mem || Due(s.queue) == Some(e)
  {
    hide Commit.Inv, List.SystemOk, NodeKey, Due;
    BottomInside(s.list.mem);
    assert s.list.mem.keys[n] in KeysIn(s.list.mem);
    if s.list.mem.keys[n] in MemKeys(s.queue.mem) {
      e :| e in s.queue.mem && NodeKey(e) == s.list.mem.keys[n];
    } else {
      e := Due(s.queue).value;
    }
  }

  lemma NodeOf(s: System, e: (nat, Op)) returns (n: nat)
    requires Coupled(s) && e in s.queue.mem
    ensures n in List.Level(s.list.mem, 0) && n < |s.list.mem.keys| && s.list.mem.keys[n] == NodeKey(e)
  {
    hide Commit.Inv, List.SystemOk, NodeKey, Due, List.Level;
    BottomInside(s.list.mem);
    assert NodeKey(e) in MemKeys(s.queue.mem);
    n :| n in List.Level(s.list.mem, 0) && s.list.mem.keys[n] == NodeKey(e);
  }

  /** An entry at or after the place sought, of the same user key, is numbered up to `last`. */
  lemma WhereEntriesAre(e: (nat, Op), user: Bytes, last: nat)
    ensures e.1.key == user ==> (NodeKey(e) >= Sought(user, last) <==> e.0 <= last)
    ensures forall tag: nat :: NodeKey(e) == Place(user, tag) ==> e.1.key == user
  {
    hide Place;
    PlaceEmbedsOrder(e.1.key, TagOf(e), user, Pack(last, 1));
    LessIrreflexive(user);
    forall tag: nat
      ensures NodeKey(e) == Place(user, tag) ==> e.1.key == user
    {
      PlaceEmbedsOrder(e.1.key, TagOf(e), user, tag);
    }
  }

  lemma NumberedUpTo(s: System, mem: seq<(nat, Op)>, last: nat, e: (nat, Op))
    requires Coupled(s) && OldPart(mem, last, s.queue) && (e in s.queue.mem || Due(s.queue) == Some(e)) && e.0 <= last
    ensures e in mem
  {
    hide Commit.Inv, List.SystemOk, KeysIn, MemKeys, Due;
    CommitOk(s);
    DueIsNew(s.queue);
    var k :| 0 <= k < |s.queue.mem| && s.queue.mem[k] == e;
    assert k < |mem| && mem[k] == e;
  }

  lemma CommitOk(s: System)
    requires Coupled(s)
    ensures Commit.Inv(s.queue)
  {
  }

  /** Between the place sought and the newest entry of the user key there is only that entry. */
  lemma OnlyNewestBetween(s: System, mem: seq<(nat, Op)>, user: Bytes, last: nat, e: (nat, Op), o: (nat, Op))
    requires Coupled(s) && OldPart(mem, last, s.queue) && IsNewest(mem, user, e)
    requires o in s.queue.mem || Due(s.queue) == Some(o)
    requires Sought(user, last) <= NodeKey(o) <= NodeKey(e)
    ensures NodeKey(o) == NodeKey(e)
  {
    hide Coupled, Due, Place, OldPart;
    LessTrichotomy(o.1.key, user);
    PlaceEmbedsOrder(o.1.key, TagOf(o), user, Pack(last, 1));
    PlaceEmbedsOrder(o.1.key, TagOf(o), e.1.key, TagOf(e));
    PlaceEmbedsOrder(e.1.key, TagOf(e), o.1.key, TagOf(o));
    WhereEntriesAre(o, user, last);
    NumberedUpTo(s, mem, last, o);
    NumbersOnce(s, mem, last, o, e);
  }

  lemma NumbersOnce(s: System, mem: seq<(nat, Op)>, last: nat, o: (nat, Op), e: (nat, Op))
    requires Coupled(s) && OldPart(mem, last, s.queue) && o in mem && e in mem && o.0 == e.0
    ensures o == e
  {
    hide List.SystemOk, KeysIn, MemKeys, Due, Commit.OneByOne, Commit.Logged, Commit.Durable;
    MemRises(s.queue);
    var a :| 0 <= a < |mem| && mem[a] == o;
    var b :| 0 <= b < |mem| && mem[b] == e;
    assert s.queue.mem[a] == o && s.queue.mem[b] == e;
  }

  lemma MemRises(q: Commit.State)
    requires Commit.Inv(q)
    ensures forall a, b :: 0 <= a < b < |q.mem| ==> q.mem[a].0 < q.mem[b].0
  {
    hide Commit.OneByOne, Commit.Logged, Commit.Durable;
    Commit.OneByOneRises(q.arrived, q.outcomes);
  }

  lemma CeilingAnswers(s: System, found: List.Link, user: Bytes, last: nat, mem: seq<(nat, Op)>)
    requires Coupled(s) && OldPart(mem, last, s.queue) && List.IsCeiling(s.list.mem, Some(Sought(user, last)), found)
    requires forall e :: e in mem ==> e.0 <= last
    ensures Answers(s.list.mem, found, user, mem)
  {
    hide Coupled, Due, NodeKey, Sought, OldPart, List.Level, Place;
    BottomInside(s.list.mem);
    forall e | IsNewest(mem, user, e)
      ensures found.Some? && found.value < |s.list.mem.keys| && s.list.mem.keys[found.value] == NodeKey(e)
    {
      NewestIsFound(s, found, user, last, mem, e);
    }
    if found.Some? {
      var o := KeyIsOf(s, found.value);
      WhereEntriesAre(o, user, last);
      if o.1.key == user {
        NumberedUpTo(s, mem, last, o);
      }
    }
  }

  lemma NewestIsFound(s: System, found: List.Link, user: Bytes, last: nat, mem: seq<(nat, Op)>, e: (nat, Op))
    requires Coupled(s) && OldPart(mem, last, s.queue) && List.IsCeiling(s.list.mem, Some(Sought(user, last)), found)
    requires IsNewest(mem, user, e) && e.0 <= last
    ensures found.Some? && found.value < |s.list.mem.keys| && s.list.mem.keys[found.value] == NodeKey(e)
  {
    hide Coupled, Due, NodeKey, Sought, List.Level, Place;
    BottomInside(s.list.mem);
    assert e in s.queue.mem;
    WhereEntriesAre(e, user, last);
    var n := NodeOf(s, e);
    assert !List.IsAfterNode(s.list.mem, Some(Sought(user, last)), n);
    assert found.Some?;
    var o := KeyIsOf(s, found.value);
    OnlyNewestBetween(s, mem, user, last, e, o);
  }
}
