/** The database object: its reads, writes and background work are steps of the Database machine. */
module DbImpl {
  import opened Wrappers
  import opened DbFormat
  import opened Tree
  import opened Overlap
  import opened VersionGet
  import opened Picking
  import opened Compaction
  import opened OutputCuts
  import opened CompactionWork
  import opened CompactionReads
  import opened Builder
  import opened Install
  import opened Background
  import opened Database
  import Inputs

  // The keys that a manual compaction of a level is to cover.
  datatype Manual = Manual(level: nat, begin: Bound, end: Bound)

  /** What is left of a manual compaction after a round of it: from the last key of the inputs on. */
  function RestOf(m: Manual, a: Action): Option<Manual> {
    if a.Compacted? && a.job.in0 != []
        then Some(Manual(m.level, Some(a.job.in0[|a.job.in0| - 1].largest.user), m.end)) else None
  }

  /** The level that a background step compacts, and the files of that level that it takes. */
  function WorkLevel(a: Action): nat
    requires a.Moved? || a.Compacted?
  {
    if a.Moved? then a.level else a.job.level
  }

  function WorkInputs(a: Action): seq<File>
    requires a.Moved? || a.Compacted?
  {
    if a.Moved? then [a.f] else a.job.in0
  }

  /** The step does what was asked for: without a manual compaction, at the level of the trigger, with the file read too
      often among the inputs, or the first one past the old pointer; else what the manual compaction leads to. */
  ghost predicate Answers(v: Version, pointers: seq<Option<InternalKey>>, manual: Option<Manual>, trigger: Trigger,
          a: Action, maxFileSize: nat)
    requires |v| == |pointers| == NUM_LEVELS
  {
    && (a.Moved? || a.Compacted?) && WorkLevel(a) + 1 < NUM_LEVELS && WorkInputs(a) != []
    && match manual
       case Some(m) =>
         WorkLevel(a) == m.level && IsAskedFor(v, m.begin, m.end, m.level, WorkInputs(a), maxFileSize)
       case None =>
         && trigger != NoTrigger && WorkLevel(a) == trigger.level
         && IsPicked(v, pointers, trigger, trigger.level, WorkInputs(a), maxFileSize)
         && (trigger.TooManySeeks? ==> trigger.file in WorkInputs(a))
         && (trigger.TooMuchData? ==>
               exists i: nat :: i < |v[trigger.level]| && IsNextInTurn(v[trigger.level], pointers[trigger.level], i) &&
                                v[trigger.level][i] in WorkInputs(a))
  }

  /** The pointer of the level compacted stands at the end of what was taken. */
  function PointersAfter(pointers: seq<Option<InternalKey>>, a: Action): seq<Option<InternalKey>>
    requires (a.Moved? || a.Compacted?) && WorkInputs(a) != [] && WorkLevel(a) < |pointers|
  {
    pointers[WorkLevel(a) := Some(Inputs.LargestKey(WorkInputs(a)))]
  }

  datatype Op = Put(key: UserKey, value: Blob) | Delete(key: UserKey)

  function EntryOf(op: Op, seqno: nat): Entry {
    match op
    case Put(k, v) => Entry(InternalKey(k, seqno, Value), v)
    case Delete(k) => Entry(InternalKey(k, seqno, Deletion), [])
  }

  /** Insertion into a memtable, which is kept in key order. */
  function AddEntry(es: seq<Entry>, e: Entry): seq<Entry> {
    if es == [] || Before(e.key, es[0].key) then [e] + es else [es[0]] + AddEntry(es[1..], e)
  }

  lemma {:induction false} AddEntrySorted(es: seq<Entry>, e: Entry)
    requires Sorted(es) && forall o :: o in es ==> o.key.user != e.key.user || o.key.seqno != e.key.seqno
    ensures Sorted(AddEntry(es, e))
    ensures forall o :: o in AddEntry(es, e) <==> o in es || o == e
  {
    if es != [] && !Before(e.key, es[0].key) {
      assert es == [es[0]] + es[1..];
      AddEntrySorted(es[1..], e);
      var rest := AddEntry(es[1..], e);
      forall i | 0 <= i < |rest|
        ensures Before(es[0].key, rest[i].key)
      {
        assert rest[i] in rest;
      }
    }
  }

  ghost function AsEntrySet(es: seq<Entry>): set<Entry> {
    set e | e in es
  }

  /** Two sorted runs in one order; an entry in both is listed once. */
  function MergeRuns(a: seq<Entry>, b: seq<Entry>): seq<Entry> {
    if a == [] then b
    else if b == [] then a
    else if Before(a[0].key, b[0].key) then [a[0]] + MergeRuns(a[1..], b)
    else if Before(b[0].key, a[0].key) then [b[0]] + MergeRuns(a, b[1..])
    else MergeRuns(a, b[1..])
  }

  lemma {:induction false} MergeRunsSorted(a: seq<Entry>, b: seq<Entry>)
    requires Sorted(a) && Sorted(b)
    requires forall x, y :: x in a && y in b && x.key.user == y.key.user && x.key.seqno == y.key.seqno ==> x == y
    ensures Sorted(MergeRuns(a, b))
    ensures forall e :: e in MergeRuns(a, b) <==> e in a || e in b
  {
    if a != [] && b != [] {
      assert a == [a[0]] + a[1..] && b == [b[0]] + b[1..];
      if Before(a[0].key, b[0].key) {
        MergeRunsSorted(a[1..], b);
        HeadFirst(a[0], MergeRuns(a[1..], b));
      } else {
        MergeRunsSorted(a, b[1..]);
        if Before(b[0].key, a[0].key) {
          HeadFirst(b[0], MergeRuns(a, b[1..]));
        } else {
          assert a[0] == b[0];
        }
      }
    }
  }

  lemma HeadFirst(e: Entry, es: seq<Entry>)
    requires Sorted(es) && forall o :: o in es ==> Before(e.key, o.key)
    ensures Sorted([e] + es)
  {
  }

  class DBImpl {
    var mem: seq<Entry>
    var imm: Option<seq<Entry>>
    const versions: VersionSet
    var lastSequence: nat
    var snapshots: seq<nat>
    var nextFile: nat

    ghost function Abs(): State
      reads this, versions
    {
      State(AsEntrySet(mem), if imm.Some? then Some(AsEntrySet(imm.value)) else None, versions.current, lastSequence,
            snapshots, nextFile)
    }

    ghost predicate Ok()
      reads this, versions
    {
      && versions.Ok() && Abs().Inv()
      && Sorted(mem) && (imm.Some? ==> Sorted(imm.value))
    }

    constructor (maxFileSize: nat)
      ensures Ok() && Abs() == Initial() && fresh(versions)
    {
      InitialInv();
      mem, imm, lastSequence, snapshots, nextFile := [], None, 0, [], 2;
      versions := new VersionSet(maxFileSize);
    }

    /** Looks in the memtable, then the immutable one, then the tables, and stops at the first that knows the key. */
    method Get(key: UserKey, snapshot: Option<nat>) returns (r: GetResult)
      requires Ok()
      ensures AsRead(r) == Read(Abs().All(), key, if snapshot.Some? then snapshot.value else lastSequence)
    {
      var s := if snapshot.Some? then snapshot.value else lastSequence;
      hide Valid, Flat;
      ghost var a := Abs();
      r := MemTableGet(mem, key, s, a.mem, a.Frozen() + Flat(a.version));
      if r == NotFound {
        if imm.Some? {
          r := MemTableGet(imm.value, key, s, a.Frozen(), Flat(a.version));
        } else {
          assert a.Frozen() + Flat(a.version) == Flat(a.version);
        }
        if r == NotFound {
          r := VersionGet.Get(versions.current, key, s);
        }
      }
    }

    /** Inserts the operations of a batch under the next sequence numbers. */
    method Write(batch: seq<Op>) returns (ghost added: set<Entry>)
      requires Ok() && lastSequence + |batch| < MAX_SEQUENCE
      modifies this`mem, this`lastSequence
      ensures Ok() && Step(old(Abs()), Written_(added, |batch|), Abs())
      ensures added == BatchEntries(batch, old(lastSequence) + 1)
    {
      hide Valid, Flat, Unique, NewerEntries, NumbersBelow, BatchEntries;
      ghost var start := Abs();
      MemSequences(this);
      added := BatchEntries(batch, lastSequence + 1);
      mem := InsertInto(mem, batch, lastSequence + 1);
      lastSequence := lastSequence + |batch|;
      BatchIsUnique(batch, start.lastSequence + 1);
      assert Abs().mem == start.mem + added;
      WriteKeepsInv(start, Abs(), added, |batch|);
    }

    /** Freezes the full memtable and starts an empty one. */
    method SwitchMemTable()
      requires Ok() && imm == None
      modifies this`mem, this`imm
      ensures Ok() && Step(old(Abs()), Switched, Abs())
    {
      ghost var start := Abs();
      imm := Some(mem);
      mem := [];
      SwitchKeepsInv(start, Abs());
    }

    /** Writes the immutable memtable to a table as deep as it may go. */
    method CompactMemTable(sizeOf: seq<Entry> -> nat) returns (ghost a: Action)
      requires Ok() && imm.Some?
      modifies this`imm, this`nextFile, versions`current
      ensures Ok() && imm == None && Step(old(Abs()), a, Abs()) && a.Flushed?
      ensures AsScheduled(old(versions.current), a, false, versions.maxFileSize)
    {
      hide Valid, Flat, Unique, NewerEntries, NumbersBelow, NextVersion, FlushEdit, ValidFile, MayPlace, IsPlacement;
      ghost var start := Abs();
      ghost var level, f := 0, File(0, 0, LookupKey(0.0, 0), LookupKey(0.0, 0), []);
      EmptyOrNot(imm.value);
      LevelRanged(versions.current, 0);
      if imm.value != [] {
        var table := MakeFile(nextFile, imm.value, sizeOf);
        TableOfMemTable(this, table);
        var l := versions.PickLevelForMemTableOutput(table.smallest.user, table.largest.user);
        level, f := l, table;
        PlacementOk(versions.current, l, table);
        versions.LogAndApply(FlushEdit(l, table));
        nextFile := nextFile + 1;
      }
      imm := None;
      a := Flushed(level, f);
      FlushKeepsInv(start, Abs(), level, f);
    }

    /** One round of background compaction: an immutable memtable is flushed first; otherwise a file is moved down or
        inputs are merged into new files, as a manual compaction asks or as the version set picks; or there is nothing
        to do. `next` is what is left of the manual compaction, whose range then begins where this round ended. */
    method BackgroundCompaction(manual: Option<Manual>, trigger: Trigger, sizeOf: seq<Entry> -> nat)
      returns (ghost a: Option<Action>, next: Option<Manual>)
      requires Ok()
      requires manual.Some? ==> manual.value.level + 1 < NUM_LEVELS
      requires trigger.TooMuchData? ==> trigger.level + 1 < NUM_LEVELS && versions.current[trigger.level] != []
      requires trigger.TooManySeeks? ==>
                 trigger.level + 1 < NUM_LEVELS && trigger.file in versions.current[trigger.level]
      modifies this`imm, this`nextFile, versions`current, versions`compactPointer
      ensures Ok() && if a == None then Abs() == old(Abs()) else Step(old(Abs()), a.value, Abs())
      ensures a.Some? ==> AsScheduled(old(versions.current), a.value, manual.Some?, versions.maxFileSize)
      ensures old(imm).Some? ==> a.Some? && a.value.Flushed? && next == manual
      ensures old(imm) == None && manual == None ==> (a == None <==> trigger == NoTrigger) && next == None
      ensures old(imm) == None && manual.Some? ==>
                (a == None <==> forall f :: f in old(versions.current)[manual.value.level] ==>
                                  !Overlaps(f, manual.value.begin, manual.value.end))
      ensures old(imm) == None && a.Some? ==> a.value.Compacted? || (manual == None && a.value.Moved?)
      ensures old(imm) == None && manual.Some? ==> next == if a == None then None else RestOf(manual.value, a.value)
      ensures old(imm) == None && a.Some? ==>
                Answers(old(versions.current), old(versions.compactPointer), manual, trigger, a.value,
                        versions.maxFileSize) &&
                versions.compactPointer == PointersAfter(old(versions.compactPointer), a.value)
      ensures old(imm).Some? || a == None ==> versions.compactPointer == old(versions.compactPointer)
    {
      hide Valid, State.Inv, Step, AsScheduled, Chosen, IsMove, GoodInputs, Overlaps, Grandparents, TotalFileSize,
           Meets, IsPicked, IsAskedFor, Answers;
      LevelRanged(versions.current, 0);
      next := manual;
      if imm.Some? {
        var flush := CompactMemTable(sizeOf);
        FlushedEitherWay(old(versions.current), flush, manual.Some?, versions.maxFileSize);
        return Some(flush), next;
      }
      var c: Compaction?;
      if manual.Some? {
        c := versions.CompactRange(manual.value.level, manual.value.begin, manual.value.end);
      } else {
        c := versions.PickCompaction(trigger);
      }
      if c == null {
        return None, None;
      }
      var move := c.IsTrivialMove();
      MovesAreTold(c, move);
      assert |c.inputs0| == 1 ==> c.inputs0 == [c.inputs0[0]];
      if manual == None {
        PickAnswers(versions.current, old(versions.compactPointer), trigger, c.level, c.inputs0, versions.maxFileSize);
      } else {
        RangeAnswers(versions.current, old(versions.compactPointer), manual.value, trigger, c.inputs0,
                     versions.maxFileSize);
      }
      if manual == None && move {
        var action := MoveFile(c);
        return Some(action), next;
      }
      var action := CompactFiles(c, manual.Some?, sizeOf);
      if manual.Some? {
        next := Some(Manual(manual.value.level, Some(c.inputs0[|c.inputs0| - 1].largest.user), manual.value.end));
      }
      a := Some(action);
    }

    method MoveFile(c: Compaction) returns (ghost a: Action)
      requires Ok() && c.inputVersion == versions.current && c.Ready() && |c.inputs0| == 1 && c.inputs1 == []
      requires c.level + 1 < NUM_LEVELS && Chosen(versions.current, c.level, c.inputs0, versions.maxFileSize)
      requires IsMove(versions.current, c.level, c.inputs0, c.inputs1, versions.maxFileSize)
      modifies versions`current
      ensures Ok() && a == Moved(c.level, c.inputs0[0]) && Step(old(Abs()), a, Abs())
      ensures AsScheduled(old(versions.current), a, false, versions.maxFileSize)
    {
      hide Valid, Flat, Unique, NewerEntries, NumbersBelow, NextVersion, CompactionEdit, GoodInputs, Chosen, IsMove;
      ghost var start := Abs();
      LevelRanged(versions.current, 0);
      var f := c.inputs0[0];
      assert c.inputs0 == [f];
      MoveEditOk(c.level, f, start.version);
      versions.LogAndApply(CompactionEdit(c.level, [f], [], [f]));
      MoveKeepsInv(start, Abs(), c.level, f);
      a := Moved(c.level, f);
    }

    method CompactFiles(c: Compaction, ghost manual: bool, sizeOf: seq<Entry> -> nat) returns (ghost a: Action)
      requires Ok() && c.inputVersion == versions.current && c.Ready()
      requires c.level + 1 < NUM_LEVELS && Chosen(versions.current, c.level, c.inputs0, versions.maxFileSize)
      requires manual || !IsMove(versions.current, c.level, c.inputs0, c.inputs1, versions.maxFileSize)
      requires c.maxGrandparentOverlap == 10 * versions.maxFileSize
      modifies this`nextFile, versions`current, c`levelPtrs, c`grandparentIndex, c`seenKey, c`overlappedBytes
      ensures Ok() && a.Compacted? && Step(old(Abs()), a, Abs())
      ensures AsScheduled(old(versions.current), a, manual, versions.maxFileSize)
      ensures a.job.level == c.level && a.job.in0 == c.inputs0
    {
      hide Valid, Flat, Unique, NewerEntries, NumbersBelow, NextVersion, CompactionEdit, GoodInputs, Kept, Written,
           Chosen, IsMove, FilledUp, Grandparents;
      ghost var start := Abs();
      LevelRanged(versions.current, 0);
      var input := MergeInputs(c.inputVersion, c.level, c.inputs0, c.inputs1);
      ghost var job := Job(start.version, c.level, c.inputs0, c.inputs1, input, start.Oldest());
      JobIsOk(job);
      var oldest := if snapshots == [] then lastSequence else snapshots[0];
      OldestInBounds(start);
      var outputs := DoCompactionWork(c, input, oldest, versions.maxFileSize, sizeOf, nextFile);
      CompactionEditOk(job, outputs);
      versions.LogAndApply(CompactionEdit(c.level, c.inputs0, c.inputs1, outputs));
      nextFile := nextFile + |outputs|;
      a := Compacted(job, outputs, sizeOf);
      CompactKeepsInv(start, Abs(), job, outputs, sizeOf);
    }

    method GetSnapshot() returns (q: nat)
      requires Ok()
      modifies this`snapshots
      ensures Ok() && Step(old(Abs()), SnapshotTaken, Abs()) && q == lastSequence
    {
      ghost var start := Abs();
      q := lastSequence;
      snapshots := snapshots + [q];
      StepKeepsInv(start, SnapshotTaken, Abs());
    }

    method ReleaseSnapshot(i: nat)
      requires Ok() && i < |snapshots|
      modifies this`snapshots
      ensures Ok() && Step(old(Abs()), SnapshotReleased(i), Abs())
    {
      ghost var start := Abs();
      snapshots := snapshots[..i] + snapshots[i + 1..];
      StepKeepsInv(start, SnapshotReleased(i), Abs());
    }
  }

  /** What a trigger names is among the inputs that it leads to. */
  lemma PickAnswers(v: Version, pointers: seq<Option<InternalKey>>, trigger: Trigger, level: nat, in0: seq<File>,
          maxFileSize: nat)
    requires |v| == |pointers| == NUM_LEVELS && level + 1 < NUM_LEVELS
    requires IsPicked(v, pointers, trigger, level, in0, maxFileSize) && in0 != []
    ensures forall a: Action :: (a.Moved? || a.Compacted?) && WorkLevel(a) == level && WorkInputs(a) == in0 ==>
              Answers(v, pointers, None, trigger, a, maxFileSize)
  {
    hide IsStart, SetUp, IsNextInTurn;
  }

  lemma RangeAnswers(v: Version, pointers: seq<Option<InternalKey>>, m: Manual, trigger: Trigger, in0: seq<File>,
          maxFileSize: nat)
    requires |v| == |pointers| == NUM_LEVELS && m.level + 1 < NUM_LEVELS
    requires IsAskedFor(v, m.begin, m.end, m.level, in0, maxFileSize) && in0 != []
    ensures forall a: Action :: (a.Moved? || a.Compacted?) && WorkLevel(a) == m.level && WorkInputs(a) == in0 ==>
              Answers(v, pointers, Some(m), trigger, a, maxFileSize)
  {
    hide IsAskedFor;
  }

  lemma FlushedEitherWay(v: Version, a: Action, manual: bool, maxFileSize: nat)
    requires a.Flushed? && AsScheduled(v, a, false, maxFileSize)
    ensures AsScheduled(v, a, manual, maxFileSize)
  {
  }

  /** The answer to IsTrivialMove is whether the compaction can be done by a move. */
  lemma MovesAreTold(c: Compaction, move: bool)
    requires |c.inputVersion| == NUM_LEVELS && c.Ready()
    requires move <==>
               && |c.inputs0| == 1
               && (forall g :: g in c.inputVersion[c.level + 1] ==> !Meets(c.inputs0[0], g))
               && TotalFileSize(c.grandparents) <= c.maxGrandparentOverlap
    ensures forall max: nat :: c.maxGrandparentOverlap == 10 * max ==>
              (move <==> IsMove(c.inputVersion, c.level, c.inputs0, c.inputs1, max))
    ensures c.inputs0 != [] && c.level + 1 < NUM_LEVELS
    ensures move ==> c.inputs1 == []
  {
    hide TotalFileSize, Grandparents;
    if |c.inputs0| == 1 {
      assert c.inputs0 == [c.inputs0[0]];
      OneFileTouches(c.inputVersion, c.level, c.inputs0[0]);
    }
  }

  lemma OldestInBounds(s: State)
    requires s.Inv()
    ensures s.Oldest() <= s.lastSequence < MAX_SEQUENCE
  {
    hide Valid, Flat;
  }

  lemma MoveEditOk(level: nat, f: File, v: Version)
    requires GoodInputs(v, level, [f], []) && |v| == NUM_LEVELS
    ensures EditOk(CompactionEdit(level, [f], [], [f]))
  {
  }

  lemma CompactionEditOk(job: Job, outputs: seq<File>)
    requires job.Ok()
    ensures EditOk(CompactionEdit(job.level, job.in0, job.in1, outputs))
  {
    JobShape(job);
  }

  lemma JobIsOk(job: Job)
    requires Valid(job.v) && GoodInputs(job.v, job.level, job.in0, job.in1) && IsMerged(job.input, job.in0, job.in1)
    ensures job.Ok()
  {
    hide Valid, StayersNewer;
    InOverlappingFiles(job.v[job.level + 1], Some(Inputs.SmallestKey(job.in0).user),
                       Some(Inputs.LargestKey(job.in0).user));
  }

  /** All entries of the input files in key order. */
  method MergeInputs(v: Version, level: nat, in0: seq<File>, in1: seq<File>) returns (input: seq<Entry>)
    requires Valid(v) && GoodInputs(v, level, in0, in1)
    ensures IsMerged(input, in0, in1)
  {
    hide Valid, GoodInputs, IsMerged;
    InputsAreInTree(v, level, in0, in1);
    var files := in0 + in1;
    input := [];
    for i := 0 to |files|
      invariant Sorted(input) && forall e :: e in input <==> e in EntriesOf(files[..i])
    {
      var f := files[i];
      assert f in files;
      assert files[..i + 1] == files[..i] + [f];
      SharedEntriesAgree(v, files, i, input);
      MergeRunsSorted(input, f.entries);
      input := MergeRuns(input, f.entries);
      assert f in files[..i + 1];
    }
    assert files[..|files|] == files;
    MergedIsMerged(input, in0, in1);
  }

  lemma MemSequences(db: DBImpl)
    requires db.Ok()
    ensures forall e :: e in db.mem ==> e.key.seqno <= db.lastSequence
  {
    hide Valid, Flat;
    assert forall e :: e in db.mem ==> e in db.Abs().mem;
  }

  ghost function BatchEntries(batch: seq<Op>, first: nat): set<Entry> {
    set i | 0 <= i < |batch| :: EntryOf(batch[i], first + i)
  }

  /** Adds the operations in order, each under the sequence number after the one before. */
  method InsertInto(mem: seq<Entry>, batch: seq<Op>, first: nat) returns (r: seq<Entry>)
    requires Sorted(mem) && forall e :: e in mem ==> e.key.seqno < first
    ensures Sorted(r) && AsEntrySet(r) == AsEntrySet(mem) + BatchEntries(batch, first)
  {
    r := mem;
    for i := 0 to |batch|
      invariant Sorted(r) && forall e :: e in r ==> e.key.seqno < first + i
      invariant AsEntrySet(r) == AsEntrySet(mem) + BatchEntries(batch[..i], first)
    {
      var e := EntryOf(batch[i], first + i);
      AddEntrySorted(r, e);
      BatchStep(batch, i, first);
      r := AddEntry(r, e);
    }
    assert batch[..|batch|] == batch;
  }

  lemma BatchStep(batch: seq<Op>, i: nat, first: nat)
    requires i < |batch|
    ensures BatchEntries(batch[..i + 1], first) == BatchEntries(batch[..i], first) + {EntryOf(batch[i], first + i)}
  {
  }

  lemma BatchIsUnique(batch: seq<Op>, first: nat)
    ensures Unique(BatchEntries(batch, first))
    ensures forall e :: e in BatchEntries(batch, first) ==> first <= e.key.seqno < first + |batch|
  {
  }

  lemma PlacementOk(v: Version, level: nat, f: File)
    requires Valid(v) && level <= MAX_MEM_COMPACT_LEVEL
    requires level > 0 ==>
               forall l, g :: 0 <= l <= level && g in v[l] ==> !Overlaps(g, Some(f.smallest.user), Some(f.largest.user))
    ensures |v| == NUM_LEVELS && MayPlace(v, level, f) && EditOk(FlushEdit(level, f))
  {
    hide ValidLevel;
  }

  lemma EmptyOrNot(es: seq<Entry>)
    ensures es != [] ==> es[0] in AsEntrySet(es)
  {
  }

  lemma TableOfMemTable(db: DBImpl, f: File)
    requires db.Ok() && db.imm.Some? && db.imm.value == f.entries != []
    requires f.smallest == f.entries[0].key && f.largest == f.entries[|f.entries| - 1].key
    ensures ValidFile(f) && EntriesOf([f]) == db.Abs().imm.value
  {
    hide Valid, Flat;
    assert forall e :: e in f.entries ==> e in db.Abs().Frozen();
    assert f in [f];
  }

  /** A memtable that knows the key answers for everything older as well. */
  method MemTableGet(es: seq<Entry>, u: UserKey, s: nat, ghost here: set<Entry>, ghost older: set<Entry>)
    returns (r: GetResult)
    requires Sorted(es) && here == AsEntrySet(es) && Unique(here + older) && NewerEntries(here, older)
    ensures r == NotFound ==> Read(here + older, u, s) == Read(older, u, s)
    ensures r != NotFound ==> AsRead(r) == Read(here + older, u, s)
  {
    var hit := FirstVisible(es, u, s);
    FirstVisibleIsNewest(es, u, s);
    ReadOfLayers(here, older, u, s);
    if hit == None {
      return NotFound;
    }
    assert IsNewest(here, u, s, hit.value);
    assert Unique(here);
    ReadNewest(here, u, s, hit.value);
    r := if hit.value.key.kind.Value? then Found(hit.value.value) else Deleted;
  }

  lemma InputsAreInTree(v: Version, level: nat, in0: seq<File>, in1: seq<File>)
    requires Valid(v) && GoodInputs(v, level, in0, in1)
    ensures forall f :: f in in0 + in1 ==> ValidFile(f) && forall e :: e in f.entries ==> e in Flat(v)
    ensures Unique(Flat(v))
  {
    hide StayersNewer, ValidFile, Flat;
    InOverlappingFiles(v[level + 1], Some(Inputs.SmallestKey(in0).user), Some(Inputs.LargestKey(in0).user));
    forall f | f in in0 + in1
      ensures ValidFile(f) && forall e :: e in f.entries ==> e in Flat(v)
    {
      var l := if f in in0 then level else level + 1;
      assert f in v[l];
      FilesAreValid(v, l, f);
      forall e | e in f.entries
        ensures e in Flat(v)
      {
        InFlat(v, l, f, e);
      }
    }
  }

  lemma SharedEntriesAgree(v: Version, files: seq<File>, i: nat, input: seq<Entry>)
    requires forall f :: f in files ==> forall e :: e in f.entries ==> e in Flat(v)
    requires Unique(Flat(v)) && i < |files|
    requires forall e :: e in input ==> e in EntriesOf(files[..i])
    ensures forall x, y ::
              x in input && y in files[i].entries && x.key.user == y.key.user && x.key.seqno == y.key.seqno ==> x == y
  {
    hide Flat;
    assert files[i] in files;
    forall x | x in input
      ensures x in Flat(v)
    {
      var f :| f in files[..i] && x in f.entries;
      assert f in files;
    }
  }

  lemma MergedIsMerged(input: seq<Entry>, in0: seq<File>, in1: seq<File>)
    requires Sorted(input) && forall e :: e in input <==> e in EntriesOf(in0 + in1)
    ensures IsMerged(input, in0, in1)
  {
    assert EntriesOf(in0 + in1) == EntriesOf(in0) + EntriesOf(in1);
  }
}
