/** The whole database as a state machine: writes, memtable switches, background work and snapshots. */
module Database {
  import opened Wrappers
  import opened DbFormat
  import opened Tree
  import opened Builder
  import opened Compaction
  import opened OutputCuts
  import opened CompactionWork
  import opened CompactionReads
  import opened Background
  import opened Install
  import opened Picking

  datatype State = State(mem: set<Entry>, imm: Option<set<Entry>>, version: Version, lastSequence: nat,
                         snapshots: seq<nat>, nextFile: nat)
  {
    ghost function Frozen(): set<Entry> {
      if imm.Some? then imm.value else {}
    }

    ghost function All(): set<Entry> {
      mem + (Frozen() + Flat(version))
    }

    /** The oldest sequence number that some read may still ask for. */
    function Oldest(): nat {
      if snapshots == [] then lastSequence else snapshots[0]
    }

    ghost predicate Inv() {
      && Valid(version)
      && Unique(All())
      && NewerEntries(mem, Frozen()) && NewerEntries(mem + Frozen(), Flat(version))
      && (forall e :: e in All() ==> e.key.seqno <= lastSequence)
      && lastSequence < MAX_SEQUENCE
      && (forall i, j :: 0 <= i < j < |snapshots| ==> snapshots[i] <= snapshots[j])
      && (forall i :: 0 <= i < |snapshots| ==> snapshots[i] <= lastSequence)
      && NumbersBelow(version, nextFile)
    }
  }

  ghost predicate NewerEntries(a: set<Entry>, b: set<Entry>) {
    forall x, y :: x in a && y in b && x.key.user == y.key.user ==> x.key.seqno > y.key.seqno
  }

  ghost predicate NumbersBelow(v: Version, n: nat) {
    forall l, f :: 0 <= l < |v| && f in v[l] ==> f.number < n
  }

  function Initial(): State {
    State({}, None, seq(NUM_LEVELS, _ => []), 0, [], 2)
  }

  /** A batch gives its entries the next sequence numbers. */
  ghost predicate Write(s: State, t: State, added: set<Entry>, n: nat) {
    && t == s.(mem := s.mem + added, lastSequence := s.lastSequence + n)
    && s.lastSequence + n < MAX_SEQUENCE
    && Unique(added)
    && forall e :: e in added ==> s.lastSequence < e.key.seqno <= s.lastSequence + n
  }

  ghost predicate SwitchMemTable(s: State, t: State) {
    s.imm == None && t == s.(mem := {}, imm := Some(s.mem))
  }

  /** The immutable memtable becomes a table at a level that it may go to; an empty one leaves no table. */
  ghost predicate Flush(s: State, t: State, level: nat, f: File) {
    && s.imm.Some? && |s.version| == NUM_LEVELS
    && if s.imm.value == {} then t == s.(imm := None)
       else
         && ValidFile(f) && f.number == s.nextFile && EntriesOf([f]) == s.imm.value
         && MayPlace(s.version, level, f)
         && t == s.(imm := None, version := NextVersion(s.version, FlushEdit(level, f)), nextFile := s.nextFile + 1)
  }

  ghost predicate TrivialMove(s: State, t: State, level: nat, f: File) {
    && |s.version| == NUM_LEVELS
    && GoodInputs(s.version, level, [f], [])
    && t == s.(version := NextVersion(s.version, CompactionEdit(level, [f], [], [f])))
  }

  /** A compaction whose inputs the version set chose. */
  ghost predicate Compact(s: State, t: State, job: Job, outputs: seq<File>, sizeOf: seq<Entry> -> nat) {
    && job.Ok() && job.v == s.version && job.oldest == s.Oldest()
    && Written(outputs, s.nextFile, sizeOf) && Concat(outputs) == job.Output()
    && t == s.(version := NextVersion(s.version, CompactionEdit(job.level, job.in0, job.in1, outputs)),
               nextFile := s.nextFile + |outputs|)
  }

  predicate TakeSnapshot(s: State, t: State) {
    t == s.(snapshots := s.snapshots + [s.lastSequence])
  }

  predicate ReleaseSnapshot(s: State, t: State, i: nat) {
    i < |s.snapshots| && t == s.(snapshots := s.snapshots[..i] + s.snapshots[i + 1..])
  }

  datatype Action =
    | Written_(added: set<Entry>, n: nat)
    | Switched
    | Flushed(level: nat, f: File)
    | Moved(level: nat, f: File)
    | Compacted(job: Job, outputs: seq<File>, sizeOf: seq<Entry> -> nat)
    | SnapshotTaken
    | SnapshotReleased(i: nat)

  ghost predicate Step(s: State, a: Action, t: State) {
    match a
    case Written_(added, n) => Write(s, t, added, n)
    case Switched => SwitchMemTable(s, t)
    case Flushed(level, f) => Flush(s, t, level, f)
    case Moved(level, f) => TrivialMove(s, t, level, f)
    case Compacted(job, outputs, sizeOf) => Compact(s, t, job, outputs, sizeOf)
    case SnapshotTaken => TakeSnapshot(s, t)
    case SnapshotReleased(i) => ReleaseSnapshot(s, t, i)
  }

  predicate IsBackground(a: Action) {
    a.Switched? || a.Flushed? || a.Moved? || a.Compacted?
  }

  /** Which background steps the code takes, of those that keep the database sound: a new table goes where the placement
      rule puts it; compactions start from files that the version set chooses and fill their output files; and a
      compaction that can be done by moving one file is done so, unless it was asked for by hand. */
  ghost predicate AsScheduled(v: Version, a: Action, manual: bool, maxFileSize: nat) {
    && |v| == NUM_LEVELS
    && match a
       case Flushed(level, f) => f.entries == [] || IsPlacement(v, level, f.smallest.user, f.largest.user, maxFileSize)
       case Moved(level, f) =>
         level + 1 < NUM_LEVELS && !manual && Chosen(v, level, [f], maxFileSize) &&
             IsMove(v, level, [f], [], maxFileSize)
       case Compacted(job, outputs, sizeOf) =>
         && job.level + 1 < NUM_LEVELS && Chosen(v, job.level, job.in0, maxFileSize)
         && (manual || !IsMove(v, job.level, job.in0, job.in1, maxFileSize))
         && FilledUp(outputs, job.input, CutRule(Grandparents(v, job.level, job.in0, job.in1), 10 * maxFileSize,
                                                 maxFileSize, sizeOf))
       case _ => true
  }

  lemma InitialInv()
    ensures Initial().Inv()
  {
    var v := Initial().version;
    EmptyTreeIsValid(v);
    hide Valid, Flat;
  }

  lemma EmptyTreeIsValid(v: Version)
    requires |v| == NUM_LEVELS && forall l :: 0 <= l < NUM_LEVELS ==> v[l] == []
    ensures Valid(v) && Flat(v) == {}
  {
    forall e
      ensures e !in Flat(v)
    {
      InDeeper(v, 0, e);
    }
    assert Flat(v) == {};
    hide Flat;
  }

  lemma WriteKeepsInv(s: State, t: State, added: set<Entry>, n: nat)
    requires s.Inv() && Write(s, t, added, n)
    ensures t.Inv()
  {
    hide Valid, Flat;
    assert t.All() == added + s.All();
  }

  lemma FlushKeepsInv(s: State, t: State, level: nat, f: File)
    requires s.Inv() && Flush(s, t, level, f)
    ensures t.Inv() && t.All() == s.All()
  {
    hide Valid, Flat, FlushEdit, NextVersion, MayPlace, NewestFile, ValidFile, NumbersBelow;
    if s.imm.value != {} {
      FlushedIsNewest(s, f);
      FlushInstalls(s.version, level, f);
      FlushedNumbers(s.version, t.version, level, f);
    }
    assert t.All() == s.All();
  }

  lemma FlushedNumbers(v: Version, w: Version, level: nat, f: File)
    requires |v| == |w| == NUM_LEVELS && NumbersBelow(v, f.number)
    requires forall l, g :: 0 <= l < NUM_LEVELS ==> (g in w[l] <==> g in v[l] || (l == level && g == f))
    ensures NumbersBelow(w, f.number + 1)
  {
  }

  lemma FlushedIsNewest(s: State, f: File)
    requires s.Inv() && EntriesOf([f]) == s.Frozen() && f.number == s.nextFile
    ensures NewestFile(s.version, f) && Unique(Flat(s.version) + EntriesOf([f]))
  {
    hide Valid, Flat;
    forall l, g | 0 <= l < |s.version| && g in s.version[l]
      ensures NewerFile(f, g) && g.number < f.number
    {
      forall a, b | a in f.entries && b in g.entries && a.key.user == b.key.user
        ensures a.key.seqno > b.key.seqno
      {
        assert f in [f];
        assert a in EntriesOf([f]);
        InFlat(s.version, l, g, b);
      }
    }
    assert Flat(s.version) + EntriesOf([f]) <= s.All();
  }

  lemma ReplacedNumbersBelow(v: Version, w: Version, level: nat, in0: seq<File>, in1: seq<File>, outputs: seq<File>,
          n: nat, m: nat)
    requires Replaces(v, w, level, in0, in1, outputs) && NumbersBelow(v, n) && n <= m
    requires forall o :: o in outputs ==> o.number < m
    ensures NumbersBelow(w, m)
  {
    hide Replaces;
    forall l, f | 0 <= l < |w| && f in w[l]
      ensures f.number < m
    {
      InReplaced(v, w, level, in0, in1, outputs, l, f);
    }
  }

  lemma MoveKeepsInv(s: State, t: State, level: nat, f: File)
    requires s.Inv() && TrivialMove(s, t, level, f)
    ensures t.Inv() && t.All() == s.All()
  {
    TrivialMoveInstalls(s.version, level, f);
    assert f in [f];
    ReplacedNumbersBelow(s.version, t.version, level, [f], [], [f], s.nextFile, s.nextFile);
    hide Valid, Flat, NextVersion, CompactionEdit, NumbersBelow, Replaces;
    assert t.All() == s.All();
  }

  /** Every compaction keeps the invariant. */
  lemma CompactKeepsInv(s: State, t: State, job: Job, outputs: seq<File>, sizeOf: seq<Entry> -> nat)
    requires s.Inv() && Compact(s, t, job, outputs, sizeOf)
    ensures t.Inv() && Flat(t.version) == job.After()
  {
    hide Valid, Flat, NextVersion, CompactionEdit, NumbersBelow, Replaces, Kept, NewerEntries, Unique;
    NumbersUsable(s);
    CompactionInstalls(job, outputs, s.nextFile, sizeOf);
    WrittenNumbers(outputs, s.nextFile, sizeOf);
    ReplacedNumbersBelow(job.v, t.version, job.level, job.in0, job.in1, outputs, s.nextFile, s.nextFile + |outputs|);
    SmallerTree(s, t);
  }

  /** No memtable has an entry of `u` that a read at `q` sees. */
  ghost predicate UnseenInMemTables(s: State, u: UserKey, q: nat) {
    forall e :: e in s.mem + s.Frozen() ==> !Sees(e, u, q)
  }

  /** Nothing that a read of `u` at `q` sees is newer than the oldest snapshot. */
  ghost predicate SeesOnlyOld(s: State, u: UserKey, q: nat) {
    forall e :: e in s.All() && Sees(e, u, q) ==> e.key.seqno <= s.Oldest()
  }

  /** The compaction drops a deletion of `u` for good although older entries stay, and a read at `q` sees no memtable
      entry of `u` and none that is newer than the oldest snapshot. */
  ghost predicate BringsBack(s: State, a: Action, u: UserKey, q: nat) {
    && a.Compacted? && |a.job.v| == NUM_LEVELS && a.job.level + 1 < NUM_LEVELS
    && a.job.Resurrects(u) && UnseenInMemTables(s, u, q) && SeesOnlyOld(s, u, q)
  }

  /** The exact condition, read by read: a compaction keeps the read of `u` at a sequence number from the oldest
      snapshot on, if and only if it does not bring `u` back there. */
  lemma CompactReadsExactly(s: State, a: Action, t: State, u: UserKey, q: nat)
    requires s.Inv() && a.Compacted? && Step(s, a, t) && q >= s.Oldest()
    ensures Read(t.All(), u, q) == Read(s.All(), u, q) <==> !BringsBack(s, a, u, q)
  {
    hide Valid, Flat, NextVersion, CompactionEdit, Kept, NewerEntries, Unique, Read, Job.Resurrects, NumbersBelow,
         UnseenInMemTables, SeesOnlyOld;
    CompactKeepsInv(s, t, a.job, a.outputs, a.sizeOf);
    JobShape(a.job);
    if !a.job.Resurrects(u) {
      OneReadUnchanged(a.job, u, q);
      ReadThroughMemTables(s, t, u, q);
    } else if !UnseenInMemTables(s, u, q) {
      ReadInMemTables(s, t, u, q);
    } else if !SeesOnlyOld(s, u, q) {
      NewerInTables(s, a.job, u, q);
      ReadThroughMemTables(s, t, u, q);
    } else {
      ResurrectedRead(a.job, u);
      ReadPastMemTables(s, u, q);
      SameInMemTables(s, t, u, q);
      ReadPastMemTables(t, u, q);
      ReadAtOldest(s, t, a.job, u, q);
    }
  }

  lemma SameInMemTables(s: State, t: State, u: UserKey, q: nat)
    requires s.mem == t.mem && s.imm == t.imm && UnseenInMemTables(s, u, q)
    ensures UnseenInMemTables(t, u, q)
  {
    assert s.Frozen() == t.Frozen();
  }

  lemma NewerInTables(s: State, job: Job, u: UserKey, q: nat)
    requires s.Inv() && job.Ok() && job.v == s.version && job.oldest == s.Oldest()
    requires UnseenInMemTables(s, u, q) && !SeesOnlyOld(s, u, q)
    ensures Read(job.After(), u, q) == Read(Flat(job.v), u, q)
  {
    hide Valid, Flat, Job.Ok, Job.After, Unique, Read;
    JobShape(job);
    var e :| e in s.All() && Sees(e, u, q) && e.key.seqno > s.Oldest();
    assert e in Flat(s.version);
    NewerReadUnchanged(job, u, q, e);
  }

  /** With nothing newer to see, reads of the tables at `q` are reads at the oldest snapshot. */
  lemma ReadAtOldest(s: State, t: State, job: Job, u: UserKey, q: nat)
    requires s.Inv() && t.Inv() && job.Ok() && job.v == s.version && job.oldest == s.Oldest() <= q
    requires Flat(t.version) == job.After() && SeesOnlyOld(s, u, q)
    ensures Read(Flat(s.version), u, q) == Read(Flat(job.v), u, job.oldest)
    ensures Read(Flat(t.version), u, q) == Read(job.After(), u, job.oldest)
  {
    hide Valid, Flat, Job.Ok, Unique, Read, Kept, InStaying;
    JobShape(job);
    assert Flat(s.version) <= s.All() && job.After() <= Flat(s.version);
    TablesUnique(s);
    TablesUnique(t);
    SameVisibleSameRead(Flat(s.version), Flat(s.version), u, q, job.oldest);
    SameVisibleSameRead(Flat(t.version), Flat(t.version), u, q, job.oldest);
  }

  lemma TablesUnique(s: State)
    requires s.Inv()
    ensures Unique(Flat(s.version))
  {
    hide Flat, Unique;
  }

  lemma ReadPastMemTables(s: State, u: UserKey, q: nat)
    requires s.Inv() && UnseenInMemTables(s, u, q)
    ensures Read(s.All(), u, q) == Read(Flat(s.version), u, q)
  {
    hide Valid, Flat, Read;
    var m := s.mem + s.Frozen();
    assert s.All() == m + Flat(s.version);
    ReadOfLayers(m, Flat(s.version), u, q);
  }

  lemma ReadInMemTables(s: State, t: State, u: UserKey, q: nat)
    requires s.Inv() && t.Inv() && s.mem == t.mem && s.imm == t.imm && !UnseenInMemTables(s, u, q)
    ensures Read(s.All(), u, q) == Read(t.All(), u, q)
  {
    hide Valid, Flat, Read;
    var m := s.mem + s.Frozen();
    var e :| e in m && Sees(e, u, q);
    assert s.All() == m + Flat(s.version) && t.All() == m + Flat(t.version);
    ReadOfLayers(m, Flat(s.version), u, q);
    ReadOfLayers(m, Flat(t.version), u, q);
  }

  /** Checking the bounds of files is enough: a compaction that leaves no file continuing an input brings nothing
      back. */
  lemma WithoutContinuationNothingComesBack(s: State, a: Action, t: State, u: UserKey, q: nat)
    requires s.Inv() && a.Compacted? && Step(s, a, t) && NoContinuation(a.job.v, a.job.level, a.job.in1)
    ensures !BringsBack(s, a, u, q)
  {
    hide Valid, NextVersion, CompactionEdit, Kept, Job.Resurrects;
    WithoutContinuationNothingResurrects(a.job, u);
  }

  lemma NumbersUsable(s: State)
    requires s.Inv()
    ensures forall l, f :: 0 <= l < NUM_LEVELS && f in s.version[l] ==> f.number < s.nextFile
  {
  }

  lemma WrittenNumbers(outputs: seq<File>, first: nat, sizeOf: seq<Entry> -> nat)
    requires Written(outputs, first, sizeOf)
    ensures forall o :: o in outputs ==> o.number < first + |outputs|
  {
    assert forall i :: 0 <= i < |outputs| ==> outputs[i].number == first + i;
  }

  lemma SmallerTree(s: State, t: State)
    requires s.Inv() && Valid(t.version) && Flat(t.version) <= Flat(s.version) && NumbersBelow(t.version, t.nextFile)
    requires t == s.(version := t.version, nextFile := t.nextFile)
    ensures t.Inv() && t.All() <= s.All()
  {
    hide Valid, Flat, NumbersBelow;
  }

  /** If the tables answer a read as before, so does the database. */
  lemma ReadThroughMemTables(s: State, t: State, u: UserKey, q: nat)
    requires s.Inv() && t.Inv() && s.mem == t.mem && s.imm == t.imm
    requires Read(Flat(s.version), u, q) == Read(Flat(t.version), u, q)
    ensures Read(s.All(), u, q) == Read(t.All(), u, q)
  {
    hide Valid, Flat, Read;
    var m := s.mem + s.Frozen();
    assert s.All() == m + Flat(s.version) && t.All() == m + Flat(t.version);
    ReadOfLayers(m, Flat(s.version), u, q);
    ReadOfLayers(m, Flat(t.version), u, q);
  }

  lemma WriteKeepsReads(s: State, t: State, added: set<Entry>, n: nat, u: UserKey, q: nat)
    requires s.Inv() && Write(s, t, added, n) && q <= s.lastSequence
    ensures Read(t.All(), u, q) == Read(s.All(), u, q)
  {
    WriteKeepsInv(s, t, added, n);
    hide Valid, Flat;
    SameVisibleSameRead(t.All(), s.All(), u, q, q);
  }

  /** Every step keeps the invariant. */
  lemma StepKeepsInv(s: State, a: Action, t: State)
    requires s.Inv() && Step(s, a, t)
    ensures t.Inv() && s.lastSequence <= t.lastSequence
  {
    hide Valid, Flat, NumbersBelow, Unique, NewerEntries, Flush, TrivialMove, Compact;
    match a
    case Written_(added, n) => WriteKeepsInv(s, t, added, n);
    case Switched => SwitchKeepsInv(s, t);
    case Flushed(level, f) =>
      FlushKeepsInv(s, t, level, f);
      assert t.lastSequence == s.lastSequence by { SameSequences(s, a, t); }
    case Moved(level, f) =>
      MoveKeepsInv(s, t, level, f);
      assert t.lastSequence == s.lastSequence by { SameSequences(s, a, t); }
    case Compacted(job, outputs, sizeOf) =>
      CompactKeepsInv(s, t, job, outputs, sizeOf);
      assert t.lastSequence == s.lastSequence by { SameSequences(s, a, t); }
    case SnapshotTaken => assert t.All() == s.All();
    case SnapshotReleased(i) => assert t.All() == s.All();
  }

  /** Every step keeps every read at a sequence number from the oldest live snapshot up to the last one written, and
      background steps at any later number too; only a compaction may do otherwise, for the keys that it brings back
      there. */
  lemma StepKeeps(s: State, a: Action, t: State)
    requires s.Inv() && Step(s, a, t)
    ensures t.Inv() && s.lastSequence <= t.lastSequence
    ensures forall u, q: nat ::
              s.Oldest() <= q && (q <= s.lastSequence || IsBackground(a)) && !BringsBack(s, a, u, q) ==>
              Read(t.All(), u, q) == Read(s.All(), u, q)
  {
    hide Valid, Flat, NumbersBelow, Unique, NewerEntries, Read, Flush, TrivialMove, Compact, BringsBack;
    StepKeepsInv(s, a, t);
    match a
    case Written_(added, n) =>
      forall u, q: nat | q <= s.lastSequence
        ensures Read(t.All(), u, q) == Read(s.All(), u, q)
      {
        WriteKeepsReads(s, t, added, n, u, q);
      }
    case Switched => SwitchKeepsInv(s, t);
    case Flushed(level, f) => FlushKeepsInv(s, t, level, f);
    case Moved(level, f) => MoveKeepsInv(s, t, level, f);
    case Compacted(job, outputs, sizeOf) =>
      forall u, q: nat | q >= s.Oldest() && !BringsBack(s, a, u, q)
        ensures Read(t.All(), u, q) == Read(s.All(), u, q)
      {
        CompactReadsExactly(s, a, t, u, q);
      }
    case SnapshotTaken => assert t.All() == s.All();
    case SnapshotReleased(i) => assert t.All() == s.All();
  }

  lemma SameSequences(s: State, a: Action, t: State)
    requires Step(s, a, t) && IsBackground(a)
    ensures t.lastSequence == s.lastSequence && t.snapshots == s.snapshots
  {
    hide Valid, Flat;
  }

  lemma SwitchKeepsInv(s: State, t: State)
    requires s.Inv() && SwitchMemTable(s, t)
    ensures t.Inv() && t.All() == s.All()
  {
    hide Valid, Flat, NumbersBelow;
    assert t.All() == s.All();
  }

  /** A run: one more state than actions, each joined to the next by its action. */
  ghost predicate Run(states: seq<State>, actions: seq<Action>) {
    |states| == |actions| + 1 && forall i :: 0 <= i < |actions| ==> Step(states[i], actions[i], states[i + 1])
  }

  /** The sequence number stays among the live snapshots through the run. */
  predicate LiveThroughout(states: seq<State>, q: nat) {
    forall i :: 0 <= i < |states| ==> q in states[i].snapshots
  }

  /** No compaction of the run brings `u` back for a read at `q`. */
  ghost predicate NothingComesBack(states: seq<State>, actions: seq<Action>, u: UserKey, q: nat)
    requires |states| == |actions| + 1
  {
    forall i :: 0 <= i < |actions| ==> !BringsBack(states[i], actions[i], u, q)
  }

  /** The invariant holds after every run. */
  lemma {:induction false} RunKeepsInv(states: seq<State>, actions: seq<Action>)
    requires Run(states, actions) && states[0].Inv()
    ensures states[|actions|].Inv()
  {
    hide State.Inv, Step;
    if actions != [] {
      var n := |actions| - 1;
      RunKeepsInv(states[..n + 1], actions[..n]);
      StepKeepsInv(states[n], actions[n], states[n + 1]);
    }
  }

  /** A snapshot reads the same of `u` from the moment it is taken until it is released, whatever the run does
      meanwhile, unless a compaction brings `u` back at it. */
  lemma {:induction false} SnapshotReadsStable(states: seq<State>, actions: seq<Action>, q: nat, u: UserKey)
    requires Run(states, actions) && states[0].Inv() && LiveThroughout(states, q)
    ensures states[|actions|].Inv()
    ensures NothingComesBack(states, actions, u, q) ==>
              Read(states[|actions|].All(), u, q) == Read(states[0].All(), u, q)
  {
    hide State.Inv, Step, Read, BringsBack;
    if actions != [] {
      var n := |actions| - 1;
      SnapshotReadsStable(states[..n + 1], actions[..n], q, u);
      StepKeeps(states[n], actions[n], states[n + 1]);
      LiveSnapshotBounds(states[n], q);
    }
  }

  lemma LiveSnapshotBounds(s: State, q: nat)
    requires s.Inv() && q in s.snapshots
    ensures s.Oldest() <= q <= s.lastSequence
  {
    hide Valid, Flat, Unique, NewerEntries, NumbersBelow;
  }
}
