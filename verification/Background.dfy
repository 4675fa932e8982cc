/** The three kinds of background work as version edits: compaction, trivial move and memtable flush. */
module Background {
  import opened DbFormat
  import opened Tree
  import opened Overlap
  import opened Picking
  import opened Compaction
  import opened CompactionWork
  import opened CompactionReads
  import opened Builder
  import opened Install

  function NumbersAt(level: nat, fs: seq<File>): set<(nat, nat)> {
    set f | f in fs :: (level, f.number)
  }

  function PlacedAt(level: nat, fs: seq<File>): seq<(nat, File)> {
    seq(|fs|, i requires 0 <= i < |fs| => (level, fs[i]))
  }

  /** Deletes the inputs and adds the outputs one level down; a trivial move has its one input as output. */
  function CompactionEdit(level: nat, in0: seq<File>, in1: seq<File>, outputs: seq<File>): FileEdit {
    FileEdit(NumbersAt(level, in0) + NumbersAt(level + 1, in1), PlacedAt(level + 1, outputs))
  }

  lemma {:induction false} NewAtPlaced(level: nat, fs: seq<File>, l: nat)
    ensures NewAt(PlacedAt(level, fs), l) == if l == level then fs else []
  {
    if fs != [] {
      var n := |fs| - 1;
      NewAtPlaced(level, fs[..n], l);
      assert PlacedAt(level, fs)[..n] == PlacedAt(level, fs[..n]);
      assert fs == fs[..n] + [fs[n]];
    }
  }

  lemma DeletedByCompaction(v: Version, level: nat, in0: seq<File>, in1: seq<File>, outputs: seq<File>, l: nat, f: File)
    requires Valid(v) && l < NUM_LEVELS && level + 1 < NUM_LEVELS && f in v[l]
    requires forall g :: g in in0 ==> g in v[level]
    requires forall g :: g in in1 ==> g in v[level + 1]
    ensures f.number in DeletedAt(CompactionEdit(level, in0, in1, outputs), l) <==> !Stays(v, level, in0, in1, l, f)
  {
    assert ValidLevel(v, l);
    hide Valid, ValidFile, InOrder, Disjoint;
    var e := CompactionEdit(level, in0, in1, outputs);
    DeletedAtMember(e, l, f.number);
    if !Stays(v, level, in0, in1, l, f) {
      assert (l, f.number) in e.deletedFiles;
    }
    if (l, f.number) in e.deletedFiles {
      if (l, f.number) in NumbersAt(level, in0) {
        var g :| g in in0 && (level, g.number) == (l, f.number);
        assert g == f;
      } else {
        var g :| g in in1 && (level + 1, g.number) == (l, f.number);
        assert g == f;
      }
    }
  }

  ghost predicate NewNumbers(fs: seq<File>, outputs: seq<File>) {
    && (forall f, o :: f in fs && o in outputs ==> f.number != o.number)
    && (forall i, j :: 0 <= i < j < |outputs| ==> outputs[i].number != outputs[j].number)
  }

  /** Applying the edit replaces the inputs by the outputs and touches nothing else. */
  lemma CompactionEditReplaces(v: Version, level: nat, in0: seq<File>, in1: seq<File>, outputs: seq<File>)
    requires Valid(v) && level + 1 < NUM_LEVELS
    requires forall g :: g in in0 ==> g in v[level]
    requires forall g :: g in in1 ==> g in v[level + 1]
    requires NewNumbers(v[level + 1], outputs)
    ensures Replaces(v, NextVersion(v, CompactionEdit(level, in0, in1, outputs)), level, in0, in1, outputs)
  {
    hide Valid, Stays, NewNumbers;
    LevelRanged(v, level);
    var e := CompactionEdit(level, in0, in1, outputs);
    var w := NextVersion(v, e);
    forall l | 0 <= l < NUM_LEVELS
      ensures InOrder(w[l])
      ensures forall f :: f in w[l] <==> Stays(v, level, in0, in1, l, f) || (l == level + 1 && f in outputs)
    {
      LevelAfterCompaction(v, level, in0, in1, outputs, l);
    }
  }

  lemma LevelAfterCompaction(v: Version, level: nat, in0: seq<File>, in1: seq<File>, outputs: seq<File>, l: nat)
    requires Valid(v) && level + 1 < NUM_LEVELS && l < NUM_LEVELS
    requires forall g :: g in in0 ==> g in v[level]
    requires forall g :: g in in1 ==> g in v[level + 1]
    requires NewNumbers(v[level + 1], outputs)
    ensures var w := SaveLevel(v[l], ApplyLevel(EMPTY_LEVEL, CompactionEdit(level, in0, in1, outputs), l));
            InOrder(w) && forall f :: f in w <==> Stays(v, level, in0, in1, l, f) || (l == level + 1 && f in outputs)
  {
    var e := CompactionEdit(level, in0, in1, outputs);
    assert ValidLevel(v, l);
    NewAtPlaced(level + 1, outputs, l);
    assert AddsFresh(v[l], EMPTY_LEVEL, NewAt(e.newFiles, l));
    ApplyToSaved(v[l], e, l);
    forall f | f in v[l]
      ensures f.number in DeletedAt(e, l) <==> !Stays(v, level, in0, in1, l, f)
    {
      DeletedByCompaction(v, level, in0, in1, outputs, l, f);
    }
  }

  lemma {:induction false} InConcat(files: seq<File>, e: Entry)
    ensures e in Concat(files) <==> e in EntriesOf(files)
  {
    if files != [] {
      var n := |files| - 1;
      assert files == files[..n] + [files[n]];
      InConcat(files[..n], e);
    }
  }

  lemma WrittenIsValid(number: nat, es: seq<Entry>, sizeOf: seq<Entry> -> nat)
    requires es != [] && Sorted(es) && forall e :: e in es ==> e.key.seqno <= MAX_SEQUENCE
    ensures ValidFile(MakeFile(number, es, sizeOf))
  {
    assert es[0] in es;
    assert forall i :: 0 <= i < |es| ==> es[i] in es;
  }

  lemma CutBefore(files: seq<File>, front: seq<Entry>, last: seq<Entry>, i: nat)
    requires i < |files| && files[i].entries != [] && last != [] && Sorted(front + last)
    requires front == Concat(files)
    ensures Before(files[i].entries[|files[i].entries| - 1].key, last[0].key)
  {
    var e := files[i].entries[|files[i].entries| - 1];
    assert e in files[i].entries && files[i] in files;
    InConcat(files, e);
    var k :| 0 <= k < |front| && front[k] == e;
    assert (front + last)[k] == e && (front + last)[|front|] == last[0];
  }

  lemma WrittenBounds(files: seq<File>, first: nat, sizeOf: seq<Entry> -> nat, i: nat)
    requires Written(files, first, sizeOf) && i < |files|
    ensures files[i].entries != [] && files[i].smallest == files[i].entries[0].key
    ensures files[i].largest == files[i].entries[|files[i].entries| - 1].key
  {
  }

  lemma SortedParts(a: seq<Entry>, b: seq<Entry>)
    requires Sorted(a + b)
    ensures Sorted(a) && Sorted(b)
  {
    assert a == (a + b)[..|a|] && b == (a + b)[|a|..];
  }

  /** Cutting a sorted list of entries into files gives files that are sound and apart. */
  lemma {:induction false} CutFilesApart(files: seq<File>, first: nat, sizeOf: seq<Entry> -> nat)
    requires Written(files, first, sizeOf) && Sorted(Concat(files))
    requires forall e :: e in Concat(files) ==> e.key.seqno <= MAX_SEQUENCE
    ensures forall f :: f in files ==> ValidFile(f)
    ensures Disjoint(files)
  {
    hide ValidFile, Sorted, Before, MakeFile, Written, Disjoint;
    if files != [] {
      var n := |files| - 1;
      var front, last := Concat(files[..n]), files[n].entries;
      SortedParts(front, last);
      WrittenFront(files, first, sizeOf);
      CutFilesApart(files[..n], first, sizeOf);
      WrittenIsValid(first + n, last, sizeOf);
      assert files == files[..n] + [files[n]];
      forall i | 0 <= i < n
        ensures Before(files[i].largest, files[n].smallest)
      {
        WrittenBounds(files, first, sizeOf, i);
        WrittenBounds(files, first, sizeOf, n);
        CutBefore(files[..n], front, last, i);
      }
      DisjointAppend(files);
    } else {
      NoFilesDisjoint();
    }
  }

  lemma NoFilesDisjoint()
    ensures Disjoint([])
  {
  }

  lemma DisjointAppend(files: seq<File>)
    requires files != [] && Disjoint(files[..|files| - 1])
    requires forall i :: 0 <= i < |files| - 1 ==> Before(files[i].largest, files[|files| - 1].smallest)
    ensures Disjoint(files)
  {
    hide Before;
    var front := files[..|files| - 1];
    assert forall i :: 0 <= i < |files| - 1 ==> front[i] == files[i];
  }

  lemma WrittenFront(files: seq<File>, first: nat, sizeOf: seq<Entry> -> nat)
    requires Written(files, first, sizeOf) && files != []
    ensures Written(files[..|files| - 1], first, sizeOf)
    ensures var last := files[|files| - 1];
      last.entries != [] && last == MakeFile(first + |files| - 1, last.entries, sizeOf)
  {
  }

  /** The files a compaction writes are good outputs when their numbers start past all numbers in use. */
  lemma WrittenOutputsAreGood(job: Job, outputs: seq<File>, first: nat, sizeOf: seq<Entry> -> nat)
    requires job.Ok() && Written(outputs, first, sizeOf) && Concat(outputs) == job.Output()
    requires forall l, f :: 0 <= l < NUM_LEVELS && f in job.v[l] ==> f.number < first
    ensures GoodOutputs(job, outputs) && NewNumbers(job.v[job.level + 1], outputs)
    ensures forall e :: e in EntriesOf(outputs) <==> e in job.Output()
  {
    hide Valid, GoodInputs, ValidFile, Disjoint, Written, GoodOutputs, Kept;
    JobShape(job);
    forall e
      ensures e in EntriesOf(outputs) <==> e in job.Output()
    {
      InConcat(outputs, e);
    }
    InKept(job.v, job.level, job.input, |job.input|, job.oldest);
    InputIsBounded(job);
    CutFilesApart(outputs, first, sizeOf);
    WrittenNumbersAreNew(job, outputs, first, sizeOf);
    forall o, e | o in outputs && e in o.entries
      ensures e in job.input
    {
      assert e in EntriesOf(outputs);
    }
    GoodOutputsFrom(job, outputs);
  }

  lemma GoodOutputsFrom(job: Job, outputs: seq<File>)
    requires |job.v| == NUM_LEVELS
    requires forall o, e :: o in outputs && e in o.entries ==> e in job.input
    requires (forall o :: o in outputs ==> ValidFile(o)) && Disjoint(outputs) && DistinctNumbers(outputs)
    requires forall l, f, o :: 0 <= l < NUM_LEVELS && f in job.v[l] && o in outputs ==> f.number != o.number
    ensures GoodOutputs(job, outputs)
  {
    hide ValidFile, Disjoint, DistinctNumbers;
  }

  lemma InputIsBounded(job: Job)
    requires job.Ok()
    ensures forall e :: e in job.input ==> e.key.seqno <= MAX_SEQUENCE
  {
    hide Valid, GoodInputs, ValidFile;
    forall e | e in job.input
      ensures e.key.seqno <= MAX_SEQUENCE
    {
      var l, f := WhereInInput(job, e);
      JobShape(job);
      FilesAreValid(job.v, l, f);
      BoundedEntries(f, e);
    }
  }

  lemma WrittenNumbersAreNew(job: Job, outputs: seq<File>, first: nat, sizeOf: seq<Entry> -> nat)
    requires |job.v| == NUM_LEVELS && job.level + 1 < NUM_LEVELS && Written(outputs, first, sizeOf)
    requires forall l, f :: 0 <= l < NUM_LEVELS && f in job.v[l] ==> f.number < first
    ensures DistinctNumbers(outputs) && NewNumbers(job.v[job.level + 1], outputs)
    ensures forall l, f, o :: 0 <= l < NUM_LEVELS && f in job.v[l] && o in outputs ==> f.number != o.number
  {
    assert forall i :: 0 <= i < |outputs| ==> outputs[i].number == first + i;
    assert forall o :: o in outputs ==> o.number >= first;
  }

  lemma BoundedEntries(f: File, e: Entry)
    requires ValidFile(f) && e in f.entries
    ensures e.key.seqno <= MAX_SEQUENCE
  {
  }

  /** Installing the result of the merge loop keeps the tree valid; its entries are those the loop did not drop. */
  lemma CompactionInstalls(job: Job, outputs: seq<File>, first: nat, sizeOf: seq<Entry> -> nat)
    requires job.Ok() && Written(outputs, first, sizeOf) && Concat(outputs) == job.Output()
    requires forall l, f :: 0 <= l < NUM_LEVELS && f in job.v[l] ==> f.number < first
    ensures var w := NextVersion(job.v, CompactionEdit(job.level, job.in0, job.in1, outputs));
            Valid(w) && Flat(w) == job.After() && Replaces(job.v, w, job.level, job.in0, job.in1, outputs)
  {
    hide Valid, GoodInputs, GoodOutputs, NewNumbers, Replaces, Written;
    JobShape(job);
    WrittenOutputsAreGood(job, outputs, first, sizeOf);
    InputsInLevels(job);
    CompactionEditReplaces(job.v, job.level, job.in0, job.in1, outputs);
    var w := NextVersion(job.v, CompactionEdit(job.level, job.in0, job.in1, outputs));
    ReplacementIsValid(job, w, outputs);
    ReplacedEntries(job, w, outputs);
  }

  lemma InputsInLevels(job: Job)
    requires job.Ok()
    ensures job.level + 1 < |job.v|
    ensures forall f :: f in job.in0 ==> f in job.v[job.level]
    ensures forall f :: f in job.in1 ==> f in job.v[job.level + 1]
  {
  }

  /** Moving a file that touches nothing in the next level keeps the tree valid and every entry in it. */
  lemma TrivialMoveInstalls(v: Version, level: nat, f: File)
    requires Valid(v) && GoodInputs(v, level, [f], [])
    ensures var w := NextVersion(v, CompactionEdit(level, [f], [], [f]));
            Valid(w) && Flat(w) == Flat(v) && Replaces(v, w, level, [f], [], [f])
  {
    var job := Job(v, level, [f], [], f.entries, 0);
    assert f in [f] && [f][0] == f;
    FilesAreValid(v, level, f);
    assert forall e :: e in EntriesOf([f]) <==> e in f.entries;
    assert EntriesOf([]) == {};
    assert job.Ok();
    MovedFileIsGood(job, f);
    hide Valid, GoodInputs, GoodOutputs, NewNumbers, Replaces;
    CompactionEditReplaces(v, level, [f], [], [f]);
    var w := NextVersion(v, CompactionEdit(level, [f], [], [f]));
    ReplacementIsValid(job, w, [f]);
    forall e
      ensures e in Flat(w) <==> e in Flat(v)
    {
      WhereReplaced(job, w, [f], e);
      if e in Flat(v) {
        EveryEntryHasAPlace(job, e);
      }
    }
  }

  lemma MovedFileIsGood(job: Job, f: File)
    requires job.Ok() && job.in0 == [f] && job.in1 == [] && job.input == f.entries
    ensures GoodOutputs(job, [f]) && NewNumbers(job.v[job.level + 1], [f])
  {
    assert [f][0] == f && f in [f];
    FilesAreValid(job.v, job.level, f);
    forall l, g | 0 <= l < NUM_LEVELS && g in job.v[l] && g.number == f.number
      ensures l == job.level && g == f
    {
      NumberDeterminesFile(job.v, job.level, f, l, g);
    }
  }

  lemma NumberDeterminesFile(v: Version, l: nat, f: File, m: nat, g: File)
    requires Valid(v) && l < NUM_LEVELS && m < NUM_LEVELS && f in v[l] && g in v[m] && f.number == g.number
    ensures l == m && f == g
  {
    assert ValidLevel(v, l);
  }

  /** Adds one table at a level. */
  function FlushEdit(level: nat, f: File): FileEdit {
    FileEdit({}, [(level, f)])
  }

  /** A new table may go to `level`: it touches no file down to there, unless it goes on top. */
  ghost predicate MayPlace(v: Version, level: nat, f: File)
    requires |v| == NUM_LEVELS
  {
    level < NUM_LEVELS && (level > 0 ==> forall l, g :: 0 <= l <= level && g in v[l] ==> !Meets(f, g))
  }

  ghost predicate NewestFile(v: Version, f: File) {
    forall l, g :: 0 <= l < |v| && g in v[l] ==> NewerFile(f, g) && g.number < f.number
  }

  lemma LevelAfterFlush(v: Version, level: nat, f: File, l: nat)
    requires Valid(v) && l < NUM_LEVELS && NewestFile(v, f)
    ensures var w := SaveLevel(v[l], ApplyLevel(EMPTY_LEVEL, FlushEdit(level, f), l));
            InOrder(w) && forall g :: g in w <==> g in v[l] || (l == level && g == f)
  {
    var e := FlushEdit(level, f);
    assert ValidLevel(v, l);
    hide Valid, ValidLevel;
    assert e.newFiles == PlacedAt(level, [f]);
    NewAtPlaced(level, [f], l);
    assert AddsFresh(v[l], EMPTY_LEVEL, NewAt(e.newFiles, l));
    ApplyToSaved(v[l], e, l);
    assert DeletedAt(e, l) == {};
  }

  lemma FlushedLevelIsValid(v: Version, w: Version, level: nat, f: File, l: nat)
    requires Valid(v) && |w| == NUM_LEVELS && l < NUM_LEVELS && NewestFile(v, f) && ValidFile(f) &&
             MayPlace(v, level, f)
    requires InOrder(w[l]) && forall g :: g in w[l] <==> g in v[l] || (l == level && g == f)
    ensures ValidLevel(w, l)
  {
    if l != level {
      SublistIsValid(v, w, l);
    } else {
      FilesStayValid(v, w, l, f);
      if l > 0 {
        LevelRanged(v, l);
        hide Valid, ValidFile;
        forall g, h | g in w[l] && h in w[l] && g != h
          ensures Before(g.largest, h.smallest) || Before(h.largest, g.smallest)
        {
          if g == f {
            assert !Meets(f, h);
          } else if h == f {
            assert !Meets(f, g);
          } else {
            OneOfTwo(v[l], g, h);
          }
        }
        ApartInOrder(w[l]);
      }
    }
  }

  lemma FilesStayValid(v: Version, w: Version, l: nat, f: File)
    requires Valid(v) && |w| == NUM_LEVELS && l < NUM_LEVELS && NewestFile(v, f) && ValidFile(f)
    requires forall g :: g in w[l] <==> g in v[l] || g == f
    ensures forall g :: g in w[l] ==> ValidFile(g) && Ranged(g)
    ensures DistinctNumbers(w[l])
    ensures l == 0 ==> forall g, h :: g in w[0] && h in w[0] && g.number > h.number ==> NewerFile(g, h)
  {
    assert ValidLevel(v, l);
    forall g | g in w[l]
      ensures Ranged(g)
    {
      RangeOrdered(g);
    }
  }

  /** Flushing the newest entries as one table keeps the tree valid and adds exactly those entries. */
  lemma FlushInstalls(v: Version, level: nat, f: File)
    requires Valid(v) && ValidFile(f) && NewestFile(v, f) && MayPlace(v, level, f)
    requires Unique(Flat(v) + EntriesOf([f]))
    ensures var w := NextVersion(v, FlushEdit(level, f));
            Valid(w) && Flat(w) == Flat(v) + EntriesOf([f]) &&
            forall l, g :: 0 <= l < NUM_LEVELS ==> (g in w[l] <==> g in v[l] || (l == level && g == f))
  {
    var w := NextVersion(v, FlushEdit(level, f));
    forall l | 0 <= l < NUM_LEVELS
      ensures ValidLevel(w, l) && forall g :: g in w[l] <==> g in v[l] || (l == level && g == f)
    {
      LevelAfterFlush(v, level, f, l);
      FlushedLevelIsValid(v, w, level, f, l);
    }
    FlushedLevels(v, w, level, f);
    FlushedEntries(v, w, level, f);
  }

  lemma FlushedLevels(v: Version, w: Version, level: nat, f: File)
    requires Valid(v) && |w| == NUM_LEVELS && ValidFile(f) && NewestFile(v, f) && MayPlace(v, level, f)
    requires forall l, g :: 0 <= l < NUM_LEVELS ==> (g in w[l] <==> g in v[l] || (l == level && g == f))
    ensures forall l, m :: 0 <= l < m < |w| ==> NewerFiles(w[l], w[m])
    ensures NumbersOnce(w)
  {
    hide ValidLevel, Unique, ValidFile;
    forall l, m, g, h | 0 <= l < m < |w| && g in w[l] && h in w[m]
      ensures NewerFile(g, h) && g.number != h.number
    {
      if m == level && h == f {
        assert !Meets(f, g);
        FilesAreValid(v, l, g);
        ApartIsNewer(g, f);
      } else if g != f {
        assert NewerFiles(v[l], v[m]);
      }
    }
  }

  lemma FlushedEntries(v: Version, w: Version, level: nat, f: File)
    requires |v| == |w| == NUM_LEVELS && level < NUM_LEVELS
    requires forall l, g :: 0 <= l < NUM_LEVELS ==> (g in w[l] <==> g in v[l] || (l == level && g == f))
    ensures Flat(w) == Flat(v) + EntriesOf([f])
  {
    hide Flat;
    forall e
      ensures e in Flat(w) <==> e in Flat(v) || e in EntriesOf([f])
    {
      if e in Flat(w) {
        var l, g := WhereInFlat(w, e);
        if g in v[l] {
          InFlat(v, l, g, e);
        }
      }
      if e in Flat(v) {
        var l, g := WhereInFlat(v, e);
        InFlat(w, l, g, e);
      }
      if e in EntriesOf([f]) {
        InFlat(w, level, f, e);
      }
    }
  }
}
