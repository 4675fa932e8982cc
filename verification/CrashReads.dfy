/** What reads return after a crash: the tables of the version recovered, and the log of writes replayed on top of
    them. */
module CrashReads {
  import opened Wrappers
  import opened Bytewise
  import opened DbFormat
  import opened Tree
  import opened CompactionReads
  import opened Background
  import opened CompactionWork
  import opened Database
  import opened Install
  import opened LogReplay
  import Builder
  import Edits = VersionEdit
  import Log
  import Manifest
  import Picking
  import Recovery
  import WriteBatch

  // ---- logged operations as entries of the database ----

  function Text(b: Bytes): Blob {
    seq(|b|, i requires 0 <= i < |b| => b[i] as int as char)
  }

  function EntryOf(e: (nat, WriteBatch.Op)): Entry {
    match e.1
    case Put(key, value) => Entry(InternalKey(Rank(key), e.0, Value), Text(value))
    case Delete(key) => Entry(InternalKey(Rank(key), e.0, Deletion), "")
  }

  ghost function EntrySet(es: seq<(nat, WriteBatch.Op)>): set<Entry> {
    set e | e in es :: EntryOf(e)
  }

  /** All that the batches write. */
  ghost function Written(batches: seq<Batch>): set<Entry> {
    EntrySet(Entries(batches))
  }

  function Count(batches: seq<Batch>): nat {
    if batches == [] then 0 else Count(batches[..|batches| - 1]) + |batches[|batches| - 1].1|
  }

  /** Each batch begins with the number after the last of the batch before. */
  predicate Consecutive(batches: seq<Batch>) {
    batches == [] ||
    (Consecutive(batches[..|batches| - 1]) && batches[|batches| - 1].0 == Count(batches[..|batches| - 1]) + 1)
  }

  lemma {:induction false} EntriesConcat(a: seq<Batch>, b: seq<Batch>)
    ensures Entries(a + b) == Entries(a) + Entries(b)
    decreases |a|
  {
    hide WriteBatch.Numbered;
    if a == [] {
      assert a + b == b;
    } else {
      assert (a + b)[1..] == a[1..] + b;
      EntriesConcat(a[1..], b);
      assert WriteBatch.Numbered(a[0].1, a[0].0) + (Entries(a[1..]) + Entries(b)) ==
             WriteBatch.Numbered(a[0].1, a[0].0) + Entries(a[1..]) + Entries(b);
    }
  }

  lemma WrittenConcat(a: seq<Batch>, b: seq<Batch>)
    ensures Written(a + b) == Written(a) + Written(b)
  {
    EntriesConcat(a, b);
  }

  lemma WrittenOne(b: Batch)
    ensures Written([b]) == EntrySet(WriteBatch.Numbered(b.1, b.0))
  {
    assert Entries([b]) == WriteBatch.Numbered(b.1, b.0) + Entries([b][1..]);
  }

  lemma {:induction false} CountConcat(a: seq<Batch>, b: seq<Batch>)
    ensures Count(a + b) == Count(a) + Count(b)
    ensures Consecutive(a + b) ==> Consecutive(a)
  {
    if b == [] {
      assert a + b == a;
    } else {
      assert (a + b)[..|a + b| - 1] == a + b[..|b| - 1];
      CountConcat(a, b[..|b| - 1]);
    }
  }

  /** Entries of consecutive batches are numbered from one to their count, and each number is taken once. */
  ghost predicate NumberedBetween(es: set<Entry>, low: nat, high: nat) {
    && (forall e :: e in es ==> low < e.key.seqno <= high)
    && (forall a, b :: a in es && b in es && a.key.seqno == b.key.seqno ==> a == b)
  }

  lemma OneBatch(b: Batch, low: nat)
    requires b.0 == low + 1
    ensures NumberedBetween(Written([b]), low, low + |b.1|)
  {
    hide EntryOf;
    WrittenOne(b);
    EntriesKeepNumbers();
  }

  lemma EntriesKeepNumbers()
    ensures forall e :: EntryOf(e).key.seqno == e.0
  {
  }

  lemma {:induction false} NumbersOf(a: seq<Batch>, b: seq<Batch>)
    requires Consecutive(a + b)
    ensures NumberedBetween(Written(b), Count(a), Count(a + b))
    decreases |b|
  {
    hide Written, WriteBatch.Numbered, EntryOf;
    if b == [] {
      assert a + b == a;
      NothingWritten();
    } else {
      var n := |b| - 1;
      assert (a + b)[..|a + b| - 1] == a + b[..n];
      assert b == b[..n] + [b[n]];
      NumbersOf(a, b[..n]);
      WrittenConcat(b[..n], [b[n]]);
      OneBatch(b[n], Count(a + b[..n]));
      CountConcat(a, b[..n]);
      BetweenJoins(Written(b[..n]), Written([b[n]]), Count(a), Count(a + b[..n]), Count(a + b));
    }
  }

  lemma NothingWritten()
    ensures Written([]) == {}
  {
  }

  lemma BetweenJoins(a: set<Entry>, b: set<Entry>, low: nat, mid: nat, high: nat)
    requires NumberedBetween(a, low, mid) && NumberedBetween(b, mid, high) && low <= mid <= high
    ensures NumberedBetween(a + b, low, high)
  {
  }

  lemma BetweenIsNewer(newer: set<Entry>, older: set<Entry>, low: nat, high: nat)
    requires NumberedBetween(newer, low, high) && forall e :: e in older ==> e.key.seqno <= low
    ensures NewerEntries(newer, older)
    ensures Unique(older) ==> Unique(newer + older)
  {
  }

  // ---- the logs beside the database ----

  /** The batches written so far: those in tables, those in the log of the immutable memtable, and those in the log of
      the memtable. */
  datatype Trail = Trail(flushed: seq<Batch>, frozen: seq<Batch>, current: seq<Batch>) {
    function All(): seq<Batch> {
      flushed + frozen + current
    }
  }

  /** A write is logged in the current log; a memtable switch starts a new one; a flush makes the older log unneeded. */
  ghost predicate Logs(s: State, a: Action, h: Trail, h': Trail) {
    match a
    case Written_(added, n) =>
      exists ops: seq<WriteBatch.Op> ::
        && n == |ops| && added == EntrySet(WriteBatch.Numbered(ops, s.lastSequence + 1))
        && h' == h.(current := h.current + [(s.lastSequence + 1, ops)])
    case Switched => h' == h.(frozen := h.current, current := [])
    case Flushed(_, _) => h' == h.(flushed := h.flushed + h.frozen, frozen := [])
    case _ => h' == h
  }

  ghost predicate LoggedRun(states: seq<State>, actions: seq<Action>, trails: seq<Trail>) {
    && Run(states, actions) && states[0] == Initial()
    && |trails| == |states| && trails[0] == Trail([], [], [])
    && forall i :: 0 <= i < |actions| ==> Logs(states[i], actions[i], trails[i], trails[i + 1])
  }

  /** The memtables hold what their logs hold, and the tables only what was flushed. */
  ghost predicate Matches(s: State, h: Trail) {
    && (s.imm == None ==> h.frozen == [])
    && s.mem == Written(h.current) && s.Frozen() == Written(h.frozen)
    && Consecutive(h.All()) && s.lastSequence == Count(h.All())
    && forall e :: e in Flat(s.version) ==> e.key.seqno <= Count(h.flushed)
  }

  /** The tables answer for `u` as all that was flushed does, wherever a snapshot may still read and past all of it. */
  ghost predicate TablesAnswer(s: State, h: Trail, u: UserKey) {
    forall q: nat :: q >= Count(h.flushed) || q >= s.Oldest() ==>
          Read(Flat(s.version), u, q) == Read(Written(h.flushed), u, q)
  }

  /** The compaction brings `u` back in the tables. */
  ghost predicate Loses(a: Action, u: UserKey) {
    a.Compacted? && |a.job.v| == NUM_LEVELS && a.job.level + 1 < NUM_LEVELS && a.job.Resurrects(u)
  }

  ghost predicate NoneLost(actions: seq<Action>, u: UserKey) {
    forall i :: 0 <= i < |actions| ==> !Loses(actions[i], u)
  }

  lemma WriteMatches(s: State, a: Action, t: State, h: Trail, h': Trail)
    requires s.Inv() && a.Written_? && Step(s, a, t) && Logs(s, a, h, h') && Matches(s, h)
    ensures Matches(t, h') && h'.flushed == h.flushed && t.version == s.version
    ensures exists b :: h'.All() == h.All() + [b]
  {
    hide State.Inv, Step, Logs, Matches, Written, Count;
    var b := LoggedBatch(s, a, h, h');
    WriteIs(s, a, t);
    OneMoreMatches(s, t, h, b);
    assert h'.All() == h.All() + [b];
  }

  lemma LoggedBatch(s: State, a: Action, h: Trail, h': Trail) returns (b: Batch)
    requires a.Written_? && Logs(s, a, h, h')
    ensures b.0 == s.lastSequence + 1 && a.n == |b.1| && a.added == Written([b])
    ensures h' == h.(current := h.current + [b])
  {
    hide Written, EntrySet, WriteBatch.Numbered;
    var ops: seq<WriteBatch.Op> :|
      && a.n == |ops| && a.added == EntrySet(WriteBatch.Numbered(ops, s.lastSequence + 1))
      && h' == h.(current := h.current + [(s.lastSequence + 1, ops)]);
    b := (s.lastSequence + 1, ops);
    WrittenOne(b);
  }

  lemma WriteIs(s: State, a: Action, t: State)
    requires a.Written_? && Step(s, a, t)
    ensures t == s.(mem := s.mem + a.added, lastSequence := s.lastSequence + a.n)
  {
  }

  lemma OneMoreMatches(s: State, t: State, h: Trail, b: Batch)
    requires Matches(s, h) && b.0 == s.lastSequence + 1
    requires t == s.(mem := s.mem + Written([b]), lastSequence := s.lastSequence + |b.1|)
    ensures Matches(t, h.(current := h.current + [b]))
  {
    hide Flat, Written, Consecutive, Count;
    WrittenConcat(h.current, [b]);
    assert h.(current := h.current + [b]).All() == h.All() + [b];
    OneMoreBatch(h.All(), b);
    assert t.Frozen() == s.Frozen();
  }

  lemma OneMoreBatch(batches: seq<Batch>, b: Batch)
    requires Consecutive(batches) && b.0 == Count(batches) + 1
    ensures Consecutive(batches + [b]) && Count(batches + [b]) == Count(batches) + |b.1|
  {
    assert (batches + [b])[..|batches|] == batches;
  }

  lemma SwitchMatches(s: State, t: State, h: Trail, h': Trail)
    requires SwitchMemTable(s, t) && Logs(s, Switched, h, h') && Matches(s, h)
    ensures Matches(t, h') && h'.All() == h.All()
  {
    hide Flat, Consecutive;
    NothingWritten();
    assert h'.All() == h.All();
  }

  lemma FlushedFlat(s: State, t: State, level: nat, f: File)
    requires s.Inv() && Flush(s, t, level, f)
    ensures Flat(t.version) == Flat(s.version) + s.Frozen()
  {
    hide Valid, Flat, FlushEdit, Builder.NextVersion, MayPlace, NewestFile, ValidFile, NumbersBelow, Unique,
         NewerEntries;
    if s.imm.value != {} {
      FlushedIsNewest(s, f);
      VersionOk(s);
      FlushInstalls(s.version, level, f);
    }
  }

  lemma VersionOk(s: State)
    requires s.Inv()
    ensures Valid(s.version)
  {
  }

  lemma FlushMatches(s: State, a: Action, t: State, h: Trail, h': Trail)
    requires s.Inv() && a.Flushed? && Step(s, a, t) && Logs(s, a, h, h') && Matches(s, h)
    ensures Matches(t, h') && h'.All() == h.All()
  {
    hide State.Inv, Flat, Written, Flush, Consecutive;
    FlushedFlat(s, t, a.level, a.f);
    FlushShape(s, t, a.level, a.f);
    NothingWritten();
    assert h'.All() == h.All();
    assert h.All() == h.flushed + h.frozen + h.current;
    CountConcat(h.flushed + h.frozen, h.current);
    NumbersOf(h.flushed, h.frozen);
    CountConcat(h.flushed, h.frozen);
  }

  lemma FlushShape(s: State, t: State, level: nat, f: File)
    requires Flush(s, t, level, f)
    ensures t.imm == None && t.mem == s.mem && t.lastSequence == s.lastSequence && t.snapshots == s.snapshots
  {
    hide Flat;
  }

  lemma FlushAnswers(s: State, a: Action, t: State, h: Trail, h': Trail, u: UserKey)
    requires s.Inv() && a.Flushed? && Step(s, a, t) && Logs(s, a, h, h') && Matches(s, h) && TablesAnswer(s, h, u)
    ensures TablesAnswer(t, h', u)
  {
    hide State.Inv, Flat, Written, Flush, Consecutive, Read, Unique;
    FlushedFlat(s, t, a.level, a.f);
    FlushShape(s, t, a.level, a.f);
    WrittenConcat(h.flushed, h.frozen);
    CountConcat(h.flushed, h.frozen);
    CountConcat(h.flushed + h.frozen, h.current);
    NumbersOf(h.flushed, h.frozen);
    FlushedLayers(s, h);
    forall q: nat | q >= Count(h'.flushed) || q >= t.Oldest()
      ensures Read(Flat(t.version), u, q) == Read(Written(h'.flushed), u, q)
    {
      SameOverSame(Written(h.frozen), Flat(s.version), Written(h.flushed), u, q);
    }
  }

  /** What the immutable memtable adds is newer than the tables, and than all that was flushed before. */
  lemma FlushedLayers(s: State, h: Trail)
    requires s.Inv() && Matches(s, h)
    ensures Unique(Written(h.frozen) + Flat(s.version)) && NewerEntries(Written(h.frozen), Flat(s.version))
    ensures Unique(Written(h.frozen) + Written(h.flushed)) && NewerEntries(Written(h.frozen), Written(h.flushed))
  {
    hide Flat, Written, Valid, NumbersBelow, Consecutive, Unique;
    TablesUnique(s);
    CountConcat(h.flushed + h.frozen, h.current);
    CountConcat(h.flushed, h.frozen);
    assert [] + h.flushed == h.flushed;
    NumbersOf([], h.flushed);
    NumbersOf(h.flushed, h.frozen);
    BetweenIsUnique(Written(h.flushed), 0, Count(h.flushed));
    BetweenIsNewer(Written(h.frozen), Flat(s.version), Count(h.flushed), Count(h.flushed + h.frozen));
    BetweenIsNewer(Written(h.frozen), Written(h.flushed), Count(h.flushed), Count(h.flushed + h.frozen));
  }

  lemma BetweenIsUnique(es: set<Entry>, low: nat, high: nat)
    requires NumberedBetween(es, low, high)
    ensures Unique(es)
  {
  }

  /** The same newer entries over sets that answer alike answer alike. */
  lemma SameOverSame(newer: set<Entry>, a: set<Entry>, b: set<Entry>, u: UserKey, q: nat)
    requires Unique(newer + a) && Unique(newer + b) && NewerEntries(newer, a) && NewerEntries(newer, b)
    requires Read(a, u, q) == Read(b, u, q)
    ensures Read(newer + a, u, q) == Read(newer + b, u, q)
    ensures Read(a + newer, u, q) == Read(b + newer, u, q)
  {
    hide Read;
    ReadOfLayers(newer, a, u, q);
    ReadOfLayers(newer, b, u, q);
    assert a + newer == newer + a && b + newer == newer + b;
  }

  lemma MoveMatches(s: State, a: Action, t: State, h: Trail)
    requires s.Inv() && a.Moved? && Step(s, a, t) && Matches(s, h)
    ensures Matches(t, h) && forall u :: TablesAnswer(s, h, u) ==> TablesAnswer(t, h, u)
  {
    hide State.Inv, Valid, Flat, Written, Builder.NextVersion, CompactionEdit, Consecutive, Read, Picking.GoodInputs,
         Replaces;
    VersionOk(s);
    TrivialMoveInstalls(s.version, a.level, a.f);
    assert t.Frozen() == s.Frozen();
  }

  lemma CompactMatches(s: State, a: Action, t: State, h: Trail)
    requires s.Inv() && a.Compacted? && Step(s, a, t) && Matches(s, h)
    ensures Matches(t, h)
  {
    hide State.Inv, Valid, Flat, Written, Builder.NextVersion, CompactionEdit, Consecutive, Read, Kept, InStaying,
         CompactionWork.Written;
    CompactKeepsInv(s, t, a.job, a.outputs, a.sizeOf);
    JobShape(a.job);
    assert Flat(t.version) <= Flat(s.version);
    assert t.Frozen() == s.Frozen();
  }

  lemma CompactAnswers(s: State, a: Action, t: State, h: Trail, u: UserKey)
    requires s.Inv() && a.Compacted? && Step(s, a, t) && Matches(s, h) && TablesAnswer(s, h, u) && !Loses(a, u)
    ensures TablesAnswer(t, h, u)
  {
    hide State.Inv, Valid, Flat, Written, Builder.NextVersion, CompactionEdit, Consecutive, Read, Kept, InStaying,
         CompactionWork.Written, Job.Resurrects, Job.Ok, Concat, Job.Output;
    CompactMatches(s, a, t, h);
    CompactKeepsInv(s, t, a.job, a.outputs, a.sizeOf);
    JobShape(a.job);
    forall q: nat | q >= Count(h.flushed) || q >= t.Oldest()
      ensures Read(Flat(t.version), u, q) == Read(Written(h.flushed), u, q)
    {
      if q >= s.Oldest() {
        OneReadUnchanged(a.job, u, q);
      } else {
        OneReadUnchanged(a.job, u, s.Oldest());
        TablesReadAlike(s, h, u, q, s.Oldest());
        TablesReadAlike(t, h, u, q, s.Oldest());
      }
    }
  }

  /** Past all that was flushed, reads of the tables do not differ. */
  lemma TablesReadAlike(s: State, h: Trail, u: UserKey, q: nat, r: nat)
    requires s.Inv() && Matches(s, h) && q >= Count(h.flushed) && r >= Count(h.flushed)
    ensures Read(Flat(s.version), u, q) == Read(Flat(s.version), u, r)
  {
    hide Flat, Valid, Written, Read, Unique, Consecutive;
    TablesUnique(s);
    SameVisibleSameRead(Flat(s.version), Flat(s.version), u, q, r);
  }

  lemma OldestRises(s: State, a: Action, t: State)
    requires s.Inv() && Step(s, a, t)
    ensures s.Oldest() <= t.Oldest()
  {
    hide Valid, Flat, Flush, Compact, TrivialMove, Unique, NewerEntries, NumbersBelow;
    if IsBackground(a) {
      SameSequences(s, a, t);
    }
  }

  lemma StepMatches(s: State, a: Action, t: State, h: Trail, h': Trail)
    requires s.Inv() && Step(s, a, t) && Logs(s, a, h, h') && Matches(s, h)
    ensures Matches(t, h')
    ensures a.Written_? ==> exists b :: h'.All() == h.All() + [b]
    ensures !a.Written_? ==> h'.All() == h.All()
  {
    hide State.Inv, Flat, Flush, Compact, TrivialMove, Consecutive, Written;
    match a
    case Written_(_, _) => WriteMatches(s, a, t, h, h');
    case Switched => SwitchMatches(s, t, h, h');
    case Flushed(_, _) => FlushMatches(s, a, t, h, h');
    case Moved(_, _) => MoveMatches(s, a, t, h);
    case Compacted(_, _, _) => CompactMatches(s, a, t, h);
    case SnapshotTaken => assert t.Frozen() == s.Frozen();
    case SnapshotReleased(_) => assert t.Frozen() == s.Frozen();
  }

  lemma StepAnswers(s: State, a: Action, t: State, h: Trail, h': Trail, u: UserKey)
    requires s.Inv() && Step(s, a, t) && Logs(s, a, h, h') && Matches(s, h) && TablesAnswer(s, h, u) && !Loses(a, u)
    ensures TablesAnswer(t, h', u)
  {
    hide State.Inv, Flat, Flush, Compact, TrivialMove, Consecutive, Written, Read, Loses;
    OldestRises(s, a, t);
    match a
    case Written_(_, _) => WriteMatches(s, a, t, h, h');
    case Switched =>
    case Flushed(_, _) => FlushAnswers(s, a, t, h, h', u);
    case Moved(_, _) => MoveMatches(s, a, t, h);
    case Compacted(_, _, _) => CompactAnswers(s, a, t, h, u);
    case SnapshotTaken =>
    case SnapshotReleased(_) =>
  }

  lemma StartMatches(u: UserKey)
    ensures Initial().Inv() && Matches(Initial(), Trail([], [], [])) && TablesAnswer(Initial(), Trail([], [], []), u)
  {
    hide Valid, Flat;
    InitialInv();
    EmptyTreeIsValid(Initial().version);
    NothingWritten();
  }

  lemma OneShorter(states: seq<State>, actions: seq<Action>, trails: seq<Trail>)
    requires LoggedRun(states, actions, trails) && actions != []
    ensures var n := |actions| - 1;
      && |states| == |trails| == n + 2
      && LoggedRun(states[..n + 1], actions[..n], trails[..n + 1])
      && Step(states[n], actions[n], states[n + 1]) && Logs(states[n], actions[n], trails[n], trails[n + 1])
  {
    hide Step, Logs;
  }

  lemma {:induction false} RunMatches(states: seq<State>, actions: seq<Action>, trails: seq<Trail>, u: UserKey)
    requires LoggedRun(states, actions, trails)
    ensures var n := |actions|; states[n].Inv() && Matches(states[n], trails[n])
    ensures NoneLost(actions, u) ==> TablesAnswer(states[|actions|], trails[|actions|], u)
  {
    hide State.Inv, Step, Logs, Matches, TablesAnswer, Loses;
    StartMatches(u);
    if actions != [] {
      var n := |actions| - 1;
      OneShorter(states, actions, trails);
      RunMatches(states[..n + 1], actions[..n], trails[..n + 1], u);
      StepKeepsInv(states[n], actions[n], states[n + 1]);
      StepMatches(states[n], actions[n], states[n + 1], trails[n], trails[n + 1]);
      if NoneLost(actions, u) {
        assert forall i :: 0 <= i < n ==> actions[..n][i] == actions[i];
        StepAnswers(states[n], actions[n], states[n + 1], trails[n], trails[n + 1], u);
      }
    }
  }

  // ---- after the crash ----

  /** The tables with some batches replayed on top. */
  function Replayed(s: State, mem: set<Entry>, lastSequence: nat, nextFile: nat): State {
    State(mem, None, s.version, lastSequence, [], nextFile)
  }

  /** Tables and replayed batches together answer as all that was written up to then. */
  lemma ReplayedReads(s: State, h: Trail, kept: seq<Batch>, u: UserKey, q: nat)
    requires s.Inv() && Matches(s, h) && TablesAnswer(s, h, u)
    requires kept <= h.frozen + h.current && (q >= Count(h.flushed) || q >= s.Oldest())
    ensures Read(Written(kept) + Flat(s.version), u, q) == Read(Written(h.flushed + kept), u, q)
  {
    hide State.Inv, Flat, Written, Read, Unique, Consecutive;
    KeptLayers(s, h, kept);
    WrittenConcat(h.flushed, kept);
    SameOverSame(Written(kept), Flat(s.version), Written(h.flushed), u, q);
    assert Written(h.flushed) + Written(kept) == Written(kept) + Written(h.flushed);
  }

  lemma KeptLayers(s: State, h: Trail, kept: seq<Batch>)
    requires s.Inv() && Matches(s, h) && kept <= h.frozen + h.current
    ensures NumberedBetween(Written(kept), Count(h.flushed), Count(h.flushed + kept)) && Consecutive(h.flushed + kept)
    ensures Unique(Written(kept) + Flat(s.version)) && NewerEntries(Written(kept), Flat(s.version))
    ensures Unique(Written(kept) + Written(h.flushed)) && NewerEntries(Written(kept), Written(h.flushed))
    ensures Count(h.flushed + kept) <= s.lastSequence
  {
    hide Flat, Written, Valid, NumbersBelow, Consecutive, Unique;
    TablesUnique(s);
    var rest := (h.frozen + h.current)[|kept|..];
    assert h.All() == h.flushed + kept + rest;
    CountConcat(h.flushed + kept, rest);
    CountConcat(h.flushed, kept);
    assert [] + h.flushed == h.flushed;
    NumbersOf([], h.flushed);
    NumbersOf(h.flushed, kept);
    BetweenIsUnique(Written(h.flushed), 0, Count(h.flushed));
    BetweenIsNewer(Written(kept), Flat(s.version), Count(h.flushed), Count(h.flushed + kept));
    BetweenIsNewer(Written(kept), Written(h.flushed), Count(h.flushed), Count(h.flushed + kept));
  }

  /** The database reads what all batches written so far hold, wherever a snapshot may still read. */
  lemma ReadsAreHistory(s: State, h: Trail, u: UserKey, q: nat)
    requires s.Inv() && Matches(s, h) && TablesAnswer(s, h, u) && (q >= Count(h.flushed) || q >= s.Oldest())
    ensures Read(s.All(), u, q) == Read(Written(h.All()), u, q)
  {
    hide State.Inv, Flat, Read, Consecutive, Written;
    var kept := h.frozen + h.current;
    ReplayedReads(s, h, kept, u, q);
    assert h.flushed + kept == h.All();
    WrittenConcat(h.frozen, h.current);
    assert s.All() == Written(kept) + Flat(s.version);
  }

  /** Over every run: a read at any sequence number from the oldest snapshot on returns what the batches written, one
      after the other, say; switches, flushes, moves and compactions are not to be seen, of any key that no compaction
      brings back in the tables. */
  lemma ReadsAreWrites(states: seq<State>, actions: seq<Action>, trails: seq<Trail>, u: UserKey, q: nat)
    requires LoggedRun(states, actions, trails) && NoneLost(actions, u) && q >= states[|actions|].Oldest()
    ensures Read(states[|actions|].All(), u, q) == Read(Written(trails[|actions|].All()), u, q)
  {
    hide State.Inv, Step, Logs, Matches, TablesAnswer, Loses, Read, Written;
    RunMatches(states, actions, trails, u);
    ReadsAreHistory(states[|actions|], trails[|actions|], u, q);
  }

  /** Every prefix of the batches written was all there was at some moment. */
  lemma {:induction false} MomentOf(states: seq<State>, actions: seq<Action>, trails: seq<Trail>, k: nat)
    returns (p: nat)
    requires LoggedRun(states, actions, trails) && k <= |trails[|actions|].All()|
    ensures p <= |actions| && trails[p].All() == trails[|actions|].All()[..k]
  {
    hide State.Inv, Step, Logs, Matches;
    var n := |actions|;
    if k == |trails[n].All()| {
      p := n;
    } else {
      assert n > 0;
      RunMatches(states, actions, trails, 0.0);
      var m := n - 1;
      OneShorter(states, actions, trails);
      RunMatches(states[..m + 1], actions[..m], trails[..m + 1], 0.0);
      StepMatches(states[m], actions[m], states[n], trails[m], trails[n]);
      p := MomentOf(states[..m + 1], actions[..m], trails[..m + 1], k);
      assert trails[n].All()[..k] == trails[m].All()[..k];
    }
  }

  /** The state that comes up answers as the state after the last batch kept did, and the invariant holds again. */
  lemma ReplayedAnswers(states: seq<State>, actions: seq<Action>, trails: seq<Trail>, kept: seq<Batch>, up: State)
    returns (p: nat)
    requires LoggedRun(states, actions, trails)
    requires var s, h := states[|actions|], trails[|actions|];
      && kept <= h.frozen + h.current
      && up == Replayed(s, Written(kept), up.lastSequence, up.nextFile)
      && Count(h.flushed + kept) <= up.lastSequence <= s.lastSequence
      && NumbersBelow(s.version, up.nextFile)
    ensures p <= |actions| && trails[p].All() == trails[|actions|].flushed + kept
    ensures up.Inv()
    ensures forall u :: NoneLost(actions, u) ==>
              Read(up.All(), u, up.lastSequence) == Read(states[p].All(), u, states[p].lastSequence)
  {
    hide State.Inv, Step, Logs, Matches, TablesAnswer, Loses, Read, Flat, Written, Consecutive, NumbersBelow;
    var n := |actions|;
    var s, h := states[n], trails[n];
    assert h.All() == h.flushed + (h.frozen + h.current);
    assert h.All()[..|h.flushed + kept|] == h.flushed + kept;
    p := MomentOf(states, actions, trails, |h.flushed + kept|);
    RunMatches(states, actions, trails, 0.0);
    KeptLayers(s, h, kept);
    UpIsSound(s, h, kept, up);
    forall u | NoneLost(actions, u)
      ensures Read(up.All(), u, up.lastSequence) == Read(states[p].All(), u, states[p].lastSequence)
    {
      assert NoneLost(actions[..p], u) by {
        assert forall i :: 0 <= i < p ==> actions[..p][i] == actions[i];
      }
      assert LoggedRun(states[..p + 1], actions[..p], trails[..p + 1]);
      RunMatches(states, actions, trails, u);
      RunMatches(states[..p + 1], actions[..p], trails[..p + 1], u);
      SameAnswer(s, h, kept, up, states[p], trails[p], u);
    }
  }

  lemma UpIsSound(s: State, h: Trail, kept: seq<Batch>, up: State)
    requires s.Inv() && Matches(s, h) && kept <= h.frozen + h.current
    requires up == Replayed(s, Written(kept), up.lastSequence, up.nextFile)
    requires Count(h.flushed + kept) <= up.lastSequence <= s.lastSequence && NumbersBelow(s.version, up.nextFile)
    ensures up.Inv() && up.All() == Written(kept) + Flat(s.version)
  {
    hide State.Inv, Valid, Flat, Written, Consecutive, NumbersBelow, Unique, NewerEntries, Count;
    KeptLayers(s, h, kept);
    CountConcat(h.flushed, kept);
    VersionOk(s);
    LastInBounds(s);
    NothingFrozen(up);
    forall e | e in Written(kept) + Flat(s.version)
      ensures e.key.seqno <= up.lastSequence
    {
    }
    SoundOnTop(up);
  }

  lemma NothingFrozen(up: State)
    requires up.imm == None
    ensures up.Frozen() == {} && up.All() == up.mem + Flat(up.version) && up.mem + up.Frozen() == up.mem
  {
    hide Flat;
    assert {} + Flat(up.version) == Flat(up.version);
    assert up.mem + {} == up.mem;
  }

  lemma LastInBounds(s: State)
    requires s.Inv()
    ensures s.lastSequence < MAX_SEQUENCE
  {
    hide Valid, Flat, Unique, NewerEntries, NumbersBelow;
  }

  /** A memtable of newer entries on top of sound tables. */
  lemma SoundOnTop(up: State)
    requires up.imm == None && up.snapshots == [] && up.lastSequence < MAX_SEQUENCE
    requires Valid(up.version) && NumbersBelow(up.version, up.nextFile)
    requires Unique(up.mem + Flat(up.version)) && NewerEntries(up.mem, Flat(up.version))
    requires forall e :: e in up.mem + Flat(up.version) ==> e.key.seqno <= up.lastSequence
    ensures up.Inv()
  {
    hide Valid, Flat, NumbersBelow, Unique;
    NothingFrozen(up);
  }

  lemma SameAnswer(s: State, h: Trail, kept: seq<Batch>, up: State, m: State, g: Trail, u: UserKey)
    requires s.Inv() && Matches(s, h) && TablesAnswer(s, h, u) && kept <= h.frozen + h.current
    requires m.Inv() && Matches(m, g) && TablesAnswer(m, g, u) && g.All() == h.flushed + kept
    requires up.All() == Written(kept) + Flat(s.version) && Count(h.flushed + kept) <= up.lastSequence
    ensures Read(up.All(), u, up.lastSequence) == Read(m.All(), u, m.lastSequence)
  {
    hide State.Inv, Flat, Written, Read, Consecutive, TablesAnswer;
    assert m.lastSequence == Count(h.flushed + kept);
    CountConcat(h.flushed, kept);
    CountConcat(g.flushed, g.frozen + g.current);
    assert g.All() == g.flushed + (g.frozen + g.current);
    ReplayedReads(s, h, kept, u, up.lastSequence);
    ReadsAreHistory(m, g, u, m.lastSequence);
    HistoryReadsAlike(s, h, kept, u, up.lastSequence, m.lastSequence);
  }

  lemma HistoryReadsAlike(s: State, h: Trail, kept: seq<Batch>, u: UserKey, q: nat, r: nat)
    requires s.Inv() && Matches(s, h) && kept <= h.frozen + h.current
    requires q >= Count(h.flushed + kept) && r >= Count(h.flushed + kept)
    ensures Read(Written(h.flushed + kept), u, q) == Read(Written(h.flushed + kept), u, r)
  {
    hide State.Inv, Flat, Written, Read, Consecutive;
    KeptLayers(s, h, kept);
    var all := h.flushed + kept;
    assert [] + all == all;
    NumbersOf([], all);
    BetweenIsUnique(Written(all), 0, Count(all));
    SameVisibleSameRead(Written(all), Written(all), u, q, r);
  }

  // ---- from the bytes of the files ----

  /** What the manifest says of sequence numbers lies between what is in the tables and what has been written. */
  lemma {:induction false} CountersBetween(states: seq<State>, actions: seq<Action>, trails: seq<Trail>,
          rs: seq<Edits.Edit>, fileOf: Manifest.Files)
    requires LoggedRun(states, actions, trails) && Recovery.Records(states, actions, rs, fileOf)
    requires Manifest.Rebuilt(rs, fileOf).Recovered?
    ensures Count(trails[|actions|].flushed) <= Manifest.Rebuilt(rs, fileOf).lastSequence <=
              states[|actions|].lastSequence
    decreases |actions|
  {
    hide LoggedRun, State.Inv, Step, Logs, Matches, Manifest.Rebuilt, Recovery.Counts, Recovery.Heads, Recovery.EditOf,
         Count, Manifest.FilesOf, TablesAnswer;
    RunShape(states, actions, trails);
    if actions == [] {
      Recovery.HeadsRebuilt(rs, fileOf);
    } else {
      var n := |actions| - 1;
      OneShorter(states, actions, trails);
      RunMatches(states, actions, trails, 0.0);
      match Recovery.EditOf(states[n], actions[n])
      case None =>
        CountersBetween(states[..n + 1], actions[..n], trails[..n + 1], rs, fileOf);
        RunMatches(states[..n + 1], actions[..n], trails[..n + 1], 0.0);
        NoEditNoFlush(states[n], actions[n], states[n + 1], trails[n], trails[n + 1]);
      case Some(e) =>
        Recovery.CountersRebuilt(rs, states[n + 1], fileOf);
        FlushedCount(states[n + 1], trails[n + 1]);
    }
  }

  lemma NoEditNoFlush(s: State, a: Action, t: State, h: Trail, h': Trail)
    requires s.Inv() && Step(s, a, t) && Logs(s, a, h, h') && Recovery.EditOf(s, a) == None
    ensures h'.flushed == h.flushed && s.lastSequence <= t.lastSequence
  {
    hide State.Inv, Step, EntrySet;
    StepKeepsInv(s, a, t);
  }

  lemma FlushedCount(s: State, h: Trail)
    requires Matches(s, h)
    ensures Count(h.flushed) <= s.lastSequence
  {
    hide Flat, Written, Consecutive;
    CountConcat(h.flushed, h.frozen + h.current);
    assert h.All() == h.flushed + (h.frozen + h.current);
  }

  /** The numbers announced by consecutive batches end with their count. */
  lemma {:induction false} LastIsCount(a: seq<Batch>, b: seq<Batch>, least: nat)
    requires Consecutive(a + b) && least <= Count(a + b)
    ensures LastNumber(b, least) <= Count(a + b)
    ensures b != [] ==> LastNumber(b, least) == Count(a + b)
    decreases |b|
  {
    hide Consecutive, Count;
    if b != [] {
      assert a + b == a + [b[0]] + b[1..];
      CountConcat(a + [b[0]], b[1..]);
      LastOfOne(a, b[0]);
      LastIsCount(a + [b[0]], b[1..], Larger(least, b[0].0 + |b[0].1| - 1));
      if |b| == 1 {
        assert a + b == a + [b[0]];
      }
    }
  }

  lemma LastOfOne(a: seq<Batch>, b: Batch)
    requires Consecutive(a + [b])
    ensures b.0 + |b.1| - 1 == Count(a + [b])
  {
    assert (a + [b])[..|a|] == a;
  }

  lemma {:induction false} LastNumberConcat(a: seq<Batch>, b: seq<Batch>, least: nat)
    ensures LastNumber(a + b, least) == LastNumber(b, LastNumber(a, least))
    decreases |a|
  {
    if a == [] {
      assert a + b == b;
    } else {
      assert (a + b)[1..] == a[1..] + b;
      LastNumberConcat(a[1..], b, Larger(least, a[0].0 + |a[0].1| - 1));
    }
  }

  /** The two logs of the memtables, cut by the crash, give back the first batches of them, as long as nothing is
      missing in between. */
  lemma LogsAreReplayed(crc: Log.Crc, h: Trail, t0: nat, t1: nat, paranoid: bool) returns (kept: seq<Batch>)
    requires forall b :: b in h.frozen + h.current ==> Loggable(b)
    requires t0 <= |Log.Stream(crc, 0, Reps(h.frozen))| && t1 <= |Log.Stream(crc, 0, Reps(h.current))|
    requires Log.WholeRecords(crc, 0, Reps(h.frozen), t0) == |h.frozen| ||
             Log.WholeRecords(crc, 0, Reps(h.current), t1) == 0
    ensures var k0, k1 := Log.WholeRecords(crc, 0, Reps(h.frozen), t0), Log.WholeRecords(crc, 0, Reps(h.current), t1);
      kept <= h.frozen + h.current && |kept| == k0 + k1
    ensures var (older, reports0) := Log.ReadAll(crc, true, Log.Stream(crc, 0, Reps(h.frozen))[..t0], 0);
      var (newer, reports1) := Log.ReadAll(crc, true, Log.Stream(crc, 0, Reps(h.current))[..t1], 0);
      var (r, status) := ReplayAll(NOTHING, older, paranoid);
      && reports0 == reports1 == [] && status.OK?
      && ReplayAll(r, newer, paranoid) == (Replay(Entries(kept), LastNumber(kept, 0)), WriteBatch.OK)
  {
    hide Log.Stream, Log.WholeRecords, Log.ReadAll, ReplayAll, Loggable, Reps;
    forall b | b in h.frozen
      ensures Loggable(b)
    {
      assert b in h.frozen + h.current;
    }
    forall b | b in h.current
      ensures Loggable(b)
    {
      assert b in h.frozen + h.current;
    }
    CutLogIsReplayed(crc, h.frozen, t0, NOTHING, paranoid);
    var k0, k1 := Log.WholeRecords(crc, 0, Reps(h.frozen), t0), Log.WholeRecords(crc, 0, Reps(h.current), t1);
    var r := Replay([] + Entries(h.frozen[..k0]), LastNumber(h.frozen[..k0], 0));
    CutLogIsReplayed(crc, h.current, t1, r, paranoid);
    kept := h.frozen[..k0] + h.current[..k1];
    EntriesConcat(h.frozen[..k0], h.current[..k1]);
    LastNumberConcat(h.frozen[..k0], h.current[..k1], 0);
    assert [] + Entries(h.frozen[..k0]) == Entries(h.frozen[..k0]);
    if k0 == |h.frozen| {
      assert kept == (h.frozen + h.current)[..k0 + k1];
    } else {
      assert kept == (h.frozen + h.current)[..k0];
    }
  }

  /** The state in which the database comes up: the version and counters of the manifest, and the logs replayed. */
  ghost function ComesUp(r: Manifest.Outcome, logs: Replay): State
    requires r.Recovered?
  {
    State(EntrySet(logs.mem), None, r.v, Larger(r.lastSequence, logs.maxSequence), [], r.nextFile)
  }

  /** For every run of the database and a crash at any moment of it.  The manifest holds the records of the run, and
      perhaps a part of one more; the logs of the two memtables are cut at any byte, the newer one empty unless the
      older one is whole. Then all are read without a report, the database comes up in a state where the invariant
      holds, and it reads what it read at the moment after the last batch that is whole in the logs, of every key that
      no compaction had brought back in the tables. */
  lemma CrashRecoversReads(crc: Log.Crc, states: seq<State>, actions: seq<Action>, trails: seq<Trail>,
          rs: seq<Edits.Edit>, logged: seq<Edits.Edit>, fileOf: Manifest.Files, t: nat, t0: nat, t1: nat,
          paranoid: bool)
    returns (p: nat, kept: seq<Batch>)
    requires LoggedRun(states, actions, trails) && Recovery.Records(states, actions, rs, fileOf) && rs <= logged
    requires forall i :: 0 <= i < |logged| ==> Edits.EditFits(logged[i])
    requires t <= |Log.Stream(crc, 0, Manifest.Encoded(logged))|
    requires Log.WholeRecords(crc, 0, Manifest.Encoded(logged), t) == |rs|
    requires var h := trails[|actions|];
      && (forall b :: b in h.frozen + h.current ==> Loggable(b))
      && t0 <= |Log.Stream(crc, 0, Reps(h.frozen))| && t1 <= |Log.Stream(crc, 0, Reps(h.current))|
      && (Log.WholeRecords(crc, 0, Reps(h.frozen), t0) == |h.frozen| ||
          Log.WholeRecords(crc, 0, Reps(h.current), t1) == 0)
    ensures var h := trails[|actions|];
      && kept <= h.frozen + h.current && p <= |actions| && trails[p].All() == h.flushed + kept
      && |kept| == Log.WholeRecords(crc, 0, Reps(h.frozen), t0) + Log.WholeRecords(crc, 0, Reps(h.current), t1)
    ensures var h := trails[|actions|];
      var (records, reports) := Log.ReadAll(crc, true, Log.Stream(crc, 0, Manifest.Encoded(logged))[..t], 0);
      var (older, reports0) := Log.ReadAll(crc, true, Log.Stream(crc, 0, Reps(h.frozen))[..t0], 0);
      var (newer, reports1) := Log.ReadAll(crc, true, Log.Stream(crc, 0, Reps(h.current))[..t1], 0);
      var (logs, status) := ReplayAll(ReplayAll(NOTHING, older, paranoid).0, newer, paranoid);
      && reports == reports0 == reports1 == [] && status.OK? && Manifest.Decoded(records) == Some(rs)
      && var r := Manifest.Rebuilt(rs, fileOf);
         r.Recovered? ==>
           && ComesUp(r, logs).Inv()
           && forall u :: NoneLost(actions, u) ==>
                Read(ComesUp(r, logs).All(), u, ComesUp(r, logs).lastSequence) ==
                      Read(states[p].All(), u, states[p].lastSequence)
  {
    hide LoggedRun, State.Inv, Recovery.Records, Manifest.Rebuilt, Manifest.Decoded, Manifest.Encoded, Log.Stream,
         Log.WholeRecords, Log.ReadAll, ReplayAll, Edits.EditFits, Loggable, Reps, Read, Loses, Count, Flat,
         Consecutive;
    RunShape(states, actions, trails);
    var n := |actions|;
    Manifest.CrashRecovers(crc, logged, t, fileOf);
    assert logged[..|rs|] == rs;
    kept := LogsAreReplayed(crc, trails[n], t0, t1, paranoid);
    var r := Manifest.Rebuilt(rs, fileOf);
    if r.Recovered? {
      UpFits(states, actions, trails, rs, fileOf, kept);
      p := ReplayedAnswers(states, actions, trails, kept, ComesUp(r, Replay(Entries(kept), LastNumber(kept, 0))));
    } else {
      var h := trails[n];
      assert h.All() == h.flushed + (h.frozen + h.current);
      assert h.All()[..|h.flushed + kept|] == h.flushed + kept;
      p := MomentOf(states, actions, trails, |h.flushed + kept|);
    }
  }

  lemma RunShape(states: seq<State>, actions: seq<Action>, trails: seq<Trail>)
    requires LoggedRun(states, actions, trails)
    ensures |states| == |trails| == |actions| + 1 && states[0] == Initial() && trails[0] == Trail([], [], [])
    ensures Count([]) == 0
  {
  }

  /** Version and counters recovered are those that replay needs. */
  lemma UpFits(states: seq<State>, actions: seq<Action>, trails: seq<Trail>, rs: seq<Edits.Edit>,
          fileOf: Manifest.Files, kept: seq<Batch>)
    requires LoggedRun(states, actions, trails) && Recovery.Records(states, actions, rs, fileOf)
    requires Manifest.Rebuilt(rs, fileOf).Recovered? && kept <= trails[|actions|].frozen + trails[|actions|].current
    ensures var s, h, r := states[|actions|], trails[|actions|], Manifest.Rebuilt(rs, fileOf);
      var last := Larger(r.lastSequence, LastNumber(kept, 0));
      r.v == s.version && NumbersBelow(s.version, r.nextFile) && Count(h.flushed + kept) <= last <= s.lastSequence
  {
    hide State.Inv, Step, Logs, Matches, Manifest.Rebuilt, Recovery.Counts, Consecutive, NumbersBelow, Recovery.Heads;
    var n := |actions|;
    var s, h := states[n], trails[n];
    RunMatches(states, actions, trails, 0.0);
    CountersBetween(states, actions, trails, rs, fileOf);
    KeptLayers(s, h, kept);
    LastIsCount(h.flushed, kept, 0);
    assert h.flushed + [] == h.flushed;
    var j := Recovery.RecordsUpTo(states, actions, rs, |rs|, fileOf);
    assert rs[..|rs|] == rs;
    Recovery.RebuiltIsReached(states[..j + 1], actions[..j], rs, fileOf);
    Recovery.OneVersion(states, actions, j, rs, fileOf);
    RestartedNumbers(Manifest.Rebuilt(rs, fileOf));
  }

  lemma RestartedNumbers(r: Manifest.Outcome)
    requires r.Recovered? && Recovery.Restarted(r).Inv()
    ensures NumbersBelow(r.v, r.nextFile)
  {
    hide Valid, Flat, NumbersBelow;
  }
}
