/** A run of the database after which a compaction brings a deleted key back: the file left in the output level
    continues, with an older entry, the last user key of an input file. */
module Resurrection {
  import opened Wrappers
  import opened DbFormat
  import opened Tree
  import opened Overlap
  import opened Picking
  import opened Builder
  import opened Compaction
  import opened OutputCuts
  import opened CompactionWork
  import opened CompactionReads
  import opened Install
  import opened Background
  import opened Database
  import Inputs

  const OLD := Entry(InternalKey(5.0, 1, Value), "old")
  const DELETED := Entry(InternalKey(5.0, 2, Deletion), "")
  const STALE := Entry(InternalKey(1.0, 3, Value), "stale")
  const FRESH := Entry(InternalKey(1.0, 4, Value), "fresh")

  const SIZE: seq<Entry> -> nat := es => 50 * |es|
  const MAX_FILE_SIZE: nat := 100

  const FIRST := File(2, 50, OLD.key, OLD.key, [OLD])
  const SECOND := File(3, 100, STALE.key, DELETED.key, [STALE, DELETED])
  const CUT := File(4, 100, STALE.key, DELETED.key, [STALE, DELETED])
  const REST := File(5, 50, OLD.key, OLD.key, [OLD])
  const UPPER := File(6, 50, FRESH.key, FRESH.key, [FRESH])
  const MERGED := File(7, 50, FRESH.key, FRESH.key, [FRESH])

  const EMPTY: Version := [[], [], [], [], [], [], []]
  const FLUSHED: Version := [[], [], [FIRST], [], [], [], []]
  const STACKED: Version := [[], [SECOND], [FIRST], [], [], [], []]
  const SPLIT: Version := [[], [], [CUT, REST], [], [], [], []]
  const TREE: Version := [[], [UPPER], [CUT, REST], [], [], [], []]

  // A compaction under a live snapshot keeps all entries; its first output file is full before the last of key 5.
  const SPLITTING := Job(STACKED, 1, [SECOND], [FIRST], [STALE, DELETED, OLD], 1)
  const JOB := Job(TREE, 1, [UPPER], [CUT], [FRESH, STALE, DELETED], 4)

  lemma TreeEntries(e: Entry)
    ensures e in Flat(TREE) <==> e == FRESH || e == STALE || e == DELETED || e == OLD
    ensures e in EntriesOf([UPPER]) <==> e == FRESH
    ensures e in EntriesOf([CUT]) <==> e == STALE || e == DELETED
  {
    InDeeper(TREE, 0, e);
    assert UPPER in TREE[1] && CUT in TREE[2] && REST in TREE[2] && UPPER in [UPPER] && CUT in [CUT];
    if e in Flat(TREE) {
      var l :| 0 <= l < |TREE| && e in EntriesOf(TREE[l]);
      var f :| f in TREE[l] && e in f.entries;
      assert l == 1 || l == 2;
    }
    assert FRESH in UPPER.entries && STALE in CUT.entries && DELETED in CUT.entries && OLD in REST.entries;
    assert FRESH in EntriesOf(TREE[1]);
    assert STALE in EntriesOf(TREE[2]) && DELETED in EntriesOf(TREE[2]) && OLD in EntriesOf(TREE[2]);
  }

  lemma LevelsAreValid(l: nat)
    requires l < NUM_LEVELS
    ensures ValidLevel(TREE, l)
  {
    assert ValidFile(UPPER) && ValidFile(CUT) && ValidFile(REST);
    assert TREE[1] == [UPPER] && TREE[2] == [CUT, REST];
    assert l != 1 && l != 2 ==> TREE[l] == [];
  }

  lemma TreeIsValid()
    ensures Valid(TREE)
  {
    hide ValidLevel, Flat;
    forall l | 0 <= l < NUM_LEVELS
      ensures ValidLevel(TREE, l)
    {
      LevelsAreValid(l);
    }
    forall e
      ensures e in Flat(TREE) <==> e == FRESH || e == STALE || e == DELETED || e == OLD
    {
      TreeEntries(e);
    }
    forall l, m, f, g | 0 <= l < m < NUM_LEVELS && f in TREE[l] && g in TREE[m]
      ensures f == UPPER && (g == CUT || g == REST)
    {
      assert l == 1 && m == 2;
    }
  }

  /** The version set chooses exactly these inputs for a compaction of the upper file. */
  lemma InputsAreChosen()
    ensures Valid(TREE) && Startable(TREE, 1, [UPPER]) && GoodInputs(TREE, 1, [UPPER], [CUT])
    ensures !NoContinuation(TREE, 1, [CUT])
  {
    TreeIsValid();
    hide Valid;
    assert IsRun(TREE[1], [UPPER], 0, 1);
    OverlappingStep([CUT, REST], 0, Some(1.0), Some(1.0));
    OverlappingStep([CUT, REST], 1, Some(1.0), Some(1.0));
    assert [CUT, REST][..2] == [CUT, REST];
    assert Touched(TREE, 1, [UPPER]) == [CUT];
    assert StayersNewer(TREE, 1, [UPPER]);
    assert REST in TREE[2] && CUT in [CUT];
  }

  /** Before the compaction key 5 is deleted at every snapshot that may be read; after it, its old value is back. */
  lemma CompactionMayResurrect()
    ensures JOB.Ok() && JOB.Resurrects(5.0)
    ensures Read(Flat(TREE), 5.0, 4) == None && Read(JOB.After(), 5.0, 4) == Some("old")
    ensures !JOB.ReadsUnchanged()
  {
    hide Valid, ValidLevel, GoodInputs, Flat;
    InputsAreChosen();
    forall e
      ensures e in Flat(TREE) <==> e == FRESH || e == STALE || e == DELETED || e == OLD
      ensures e in JOB.input <==> e in EntriesOf([UPPER]) || e in EntriesOf([CUT])
    {
      TreeEntries(e);
    }
    assert JOB.Ok();
    assert IsNewest(Flat(TREE), 5.0, 4, DELETED);
    ReadNewest(Flat(TREE), 5.0, 4, DELETED);
    NothingBelow();
    LeftBehindHoldsOld();
    assert IsNewest(JOB.LeftBehind(), 5.0, 4, OLD);
    ReadNewest(JOB.LeftBehind(), 5.0, 4, OLD);
    ReadWithoutDeletion(JOB, DELETED, 4);
  }

  lemma NothingBelow()
    ensures BaseLevel(TREE, 1, 5.0)
  {
    assert forall l :: 3 <= l < NUM_LEVELS ==> TREE[l] == [];
  }

  lemma LeftBehindHoldsOld()
    ensures JOB.LeftBehind() == {OLD}
  {
    assert REST in TREE[2] && REST !in [CUT] && OLD in REST.entries;
    forall e
      ensures e in JOB.LeftBehind() <==> e == OLD
    {
      if e in JOB.LeftBehind() {
        var f :| f in TREE[2] && f !in [CUT] && e in f.entries;
        assert f == CUT || f == REST;
      }
    }
  }

  // ---- the run that leads there ----

  const S0 := State({}, None, EMPTY, 0, [], 2)
  const S1 := State({OLD}, None, EMPTY, 1, [], 2)
  const S2 := S1.(mem := {}, imm := Some({OLD}))
  const S3 := S2.(imm := None, version := FLUSHED, nextFile := 3)
  const S4 := S3.(snapshots := [1])
  const S5 := S4.(mem := {DELETED, STALE}, lastSequence := 3)
  const S6 := S5.(mem := {}, imm := Some({DELETED, STALE}))
  const S7 := S6.(imm := None, version := STACKED, nextFile := 4)
  const S8 := S7.(version := SPLIT, nextFile := 6)
  const S9 := S8.(snapshots := [])
  const S10 := S9.(mem := {FRESH}, lastSequence := 4)
  const S11 := S10.(mem := {}, imm := Some({FRESH}))
  const S12 := S11.(imm := None, version := TREE, nextFile := 7)

  ghost function Last(): State {
    S12.(version := NextVersion(TREE, CompactionEdit(1, [UPPER], [CUT], [MERGED])), nextFile := 8)
  }

  const ACTIONS: seq<Action> := [
    Written_({OLD}, 1), Switched, Flushed(2, FIRST), SnapshotTaken,
    Written_({DELETED, STALE}, 2), Switched, Flushed(1, SECOND), Compacted(SPLITTING, [CUT, REST], SIZE),
          SnapshotReleased(0),
    Written_({FRESH}, 1), Switched, Flushed(1, UPPER), Compacted(JOB, [MERGED], SIZE)
  ]

  ghost function States(): seq<State> {
    [S0, S1, S2, S3, S4, S5, S6, S7, S8, S9, S10, S11, S12, Last()]
  }

  lemma {:induction false} DropsNone(fs: seq<File>)
    ensures Drop(fs, {}) == fs
  {
    if fs != [] {
      DropsNone(fs[1..]);
    }
  }

  /** A flush into an empty level. */
  lemma FlushedIntoEmpty(v: Version, level: nat, f: File)
    requires |v| == NUM_LEVELS && level < NUM_LEVELS && v[level] == []
    ensures NextVersion(v, FlushEdit(level, f)) == v[level := [f]]
  {
    var e := FlushEdit(level, f);
    forall l | 0 <= l < NUM_LEVELS
      ensures NextVersion(v, e)[l] == v[level := [f]][l]
    {
      assert DeletedAt(e, l) == {};
      assert e.newFiles[..0] == [];
      assert NewAt(e.newFiles, l) == if l == level then [f] else [];
      assert [f][..0] == [];
      var none: set<nat> := {};
      assert none + none == none && none - {f.number} == none;
      var start := LevelState(EMPTY_LEVEL.deleted + DeletedAt(e, l), EMPTY_LEVEL.added);
      assert start == EMPTY_LEVEL;
      assert AddAll(start, [f]) == AddOne(start, f) == LevelState({}, [f]);
      assert ApplyLevel(EMPTY_LEVEL, e, l) == LevelState({}, if l == level then [f] else []);
      DropsNone(if l == level then [f] else v[l]);
    }
  }

  lemma Starts()
    ensures S0 == Initial() && S0.Inv()
    ensures Step(S0, ACTIONS[0], S1) && Step(S1, ACTIONS[1], S2)
  {
    hide State.Inv;
    assert Initial().version == EMPTY;
    InitialInv();
    assert {} + {OLD} == {OLD};
  }

  lemma FlushesFirst()
    ensures Step(S2, ACTIONS[2], S3)
  {
    hide NextVersion, FlushEdit;
    FlushedIntoEmpty(EMPTY, 2, FIRST);
    assert EMPTY[2 := [FIRST]] == FLUSHED;
    assert FIRST in [FIRST] && OLD in FIRST.entries;
    assert EntriesOf([FIRST]) == S2.imm.value;
  }

  lemma WritesSecond()
    ensures Step(S3, ACTIONS[3], S4) && Step(S4, ACTIONS[4], S5) && Step(S5, ACTIONS[5], S6)
  {
    assert {} + {DELETED, STALE} == {DELETED, STALE};
  }

  lemma FlushesSecond()
    ensures Step(S6, ACTIONS[6], S7)
  {
    hide NextVersion, FlushEdit;
    FlushedIntoEmpty(FLUSHED, 1, SECOND);
    assert FLUSHED[1 := [SECOND]] == STACKED;
    assert SECOND in [SECOND] && STALE in SECOND.entries && DELETED in SECOND.entries;
    assert EntriesOf([SECOND]) == S6.imm.value;
  }

  /** Under the snapshot nothing is dropped. */
  lemma SplitKeepsAll()
    ensures SPLITTING.Output() == [STALE, DELETED, OLD] == Concat([CUT, REST])
    ensures Written([CUT, REST], 4, SIZE)
  {
    var input := SPLITTING.input;
    assert forall i :: 0 <= i < 3 ==> !DroppedAt(STACKED, 1, input, i, 1);
    assert Kept(STACKED, 1, input, 1, 1) == Kept(STACKED, 1, input, 0, 1) + [STALE] == [STALE];
    assert Kept(STACKED, 1, input, 2, 1) == [STALE] + [DELETED] == [STALE, DELETED];
    assert Kept(STACKED, 1, input, 3, 1) == [STALE, DELETED] + [OLD];
    assert [CUT, REST][..1] == [CUT] && [CUT][..0] == [];
    assert Concat([CUT]) == Concat([]) + [STALE, DELETED] == [STALE, DELETED];
    assert Concat([CUT, REST]) == Concat([CUT]) + [OLD];
  }

  lemma StackedInputs()
    ensures Touched(STACKED, 1, [SECOND]) == [FIRST]
    ensures IsRun(STACKED[1], [SECOND], 0, 1) && StayersNewer(STACKED, 1, [SECOND])
  {
    OverlappingStep([FIRST], 0, Some(1.0), Some(5.0));
    assert [FIRST][..1] == [FIRST];
  }

  lemma SplitIsOk()
    requires Valid(STACKED)
    ensures SPLITTING.Ok()
  {
    hide Valid;
    StackedInputs();
    assert FIRST in [FIRST] && SECOND in [SECOND];
    forall e
      ensures e in SPLITTING.input <==> e in EntriesOf([SECOND]) || e in EntriesOf([FIRST])
    {
      assert e in EntriesOf([FIRST]) <==> e in FIRST.entries;
      assert e in EntriesOf([SECOND]) <==> e in SECOND.entries;
    }
  }

  lemma Splits()
    requires S7.Inv()
    ensures Step(S7, ACTIONS[7], S8)
  {
    hide Kept, Valid, Flat, NextVersion, CompactionEdit, Unique, NewerEntries, NumbersBelow, Job.Ok, Job.Output,
         Written, Concat;
    assert Valid(STACKED);
    SplitIsOk();
    SplitKeepsAll();
    SplitInstalls();
  }

  lemma SplitInstalls()
    requires Valid(STACKED)
    ensures NextVersion(STACKED, CompactionEdit(1, [SECOND], [FIRST], [CUT, REST])) == SPLIT
  {
    hide Valid, NextVersion, CompactionEdit;
    assert NewNumbers(STACKED[2], [CUT, REST]);
    CompactionEditReplaces(STACKED, 1, [SECOND], [FIRST], [CUT, REST]);
    var w := NextVersion(STACKED, CompactionEdit(1, [SECOND], [FIRST], [CUT, REST]));
    forall l: nat | l < NUM_LEVELS
      ensures w[l] == SPLIT[l]
    {
      SplitLevel(w, l);
    }
  }

  lemma SplitLevel(w: Version, l: nat)
    requires Replaces(STACKED, w, 1, [SECOND], [FIRST], [CUT, REST]) && l < NUM_LEVELS
    ensures |w| == NUM_LEVELS && w[l] == SPLIT[l]
  {
    var outputs := [CUT, REST];
    assert outputs[0] in outputs && outputs[1] in outputs;
    assert FIRST in [FIRST] && SECOND in [SECOND];
    forall f
      ensures f in w[l] <==> f in SPLIT[l]
    {
      if f in STACKED[l] {
        assert (l == 1 && f == SECOND) || (l == 2 && f == FIRST);
      }
      if f in outputs {
        assert f == CUT || f == REST;
      }
    }
    OrderedListsAgree(w[l], SPLIT[l]);
  }

  lemma FlushesUpper()
    ensures Step(S8, ACTIONS[8], S9) && Step(S9, ACTIONS[9], S10) && Step(S10, ACTIONS[10], S11) &&
            Step(S11, ACTIONS[11], S12)
  {
    hide NextVersion, FlushEdit;
    FlushedIntoEmpty(SPLIT, 1, UPPER);
    assert SPLIT[1 := [UPPER]] == TREE;
    assert UPPER in [UPPER] && FRESH in UPPER.entries;
    assert EntriesOf([UPPER]) == {FRESH};
    assert {} + {FRESH} == {FRESH};
    assert [1][..0] + [1][1..] == [];
  }

  /** The last compaction writes only the fresh entry. */
  lemma MergedIsFresh()
    ensures JOB.Output() == [FRESH] == Concat([MERGED]) && Written([MERGED], 7, SIZE)
  {
    hide BaseLevel;
    NothingBelow();
    var input := JOB.input;
    assert !DroppedAt(TREE, 1, input, 0, 4);
    assert HiddenAt(input, 1, 4) by {
      assert input[0].key.user == input[1].key.user && input[0].key.seqno <= 4;
    }
    assert ObsoleteDeletion(TREE, 1, input[2], 4);
    assert Kept(TREE, 1, input, 1, 4) == [FRESH];
    assert Kept(TREE, 1, input, 2, 4) == [FRESH];
    assert [MERGED][..0] == [];
  }

  lemma FirstHalf()
    ensures S0.Inv() && S7.Inv()
    ensures Step(S0, ACTIONS[0], S1) && Step(S1, ACTIONS[1], S2) && Step(S2, ACTIONS[2], S3) && Step(S3, ACTIONS[3], S4)
    ensures Step(S4, ACTIONS[4], S5) && Step(S5, ACTIONS[5], S6) && Step(S6, ACTIONS[6], S7)
  {
    hide Step, State.Inv;
    Starts();
    StepKeepsInv(S0, ACTIONS[0], S1);
    StepKeepsInv(S1, ACTIONS[1], S2);
    FlushesFirst();
    StepKeepsInv(S2, ACTIONS[2], S3);
    WritesSecond();
    StepKeepsInv(S3, ACTIONS[3], S4);
    StepKeepsInv(S4, ACTIONS[4], S5);
    StepKeepsInv(S5, ACTIONS[5], S6);
    FlushesSecond();
    StepKeepsInv(S6, ACTIONS[6], S7);
  }

  lemma SecondHalf()
    requires S7.Inv()
    ensures S12.Inv()
    ensures Step(S7, ACTIONS[7], S8) && Step(S8, ACTIONS[8], S9) && Step(S9, ACTIONS[9], S10) &&
            Step(S10, ACTIONS[10], S11)
    ensures Step(S11, ACTIONS[11], S12)
  {
    hide Step, State.Inv;
    Splits();
    StepKeepsInv(S7, ACTIONS[7], S8);
    FlushesUpper();
    StepKeepsInv(S8, ACTIONS[8], S9);
    StepKeepsInv(S9, ACTIONS[9], S10);
    StepKeepsInv(S10, ACTIONS[10], S11);
    StepKeepsInv(S11, ACTIONS[11], S12);
  }

  lemma Merges()
    ensures Step(S12, ACTIONS[12], Last())
  {
    hide Valid, Flat, Read, Kept, Written, Job.Ok, Job.Output, Job.Resurrects, Job.ReadsUnchanged, NextVersion,
         CompactionEdit, Concat;
    CompactionMayResurrect();
    MergedIsFresh();
  }

  // ---- the code takes these steps ----

  /** Into the empty tree the first table goes as deep as a new table may; the other two stop above what they touch. */
  lemma FirstIsPlaced()
    ensures AsScheduled(S2.version, ACTIONS[2], false, MAX_FILE_SIZE)
  {
    assert GoesDeeper(EMPTY, 0, 5.0, 5.0, MAX_FILE_SIZE) && GoesDeeper(EMPTY, 1, 5.0, 5.0, MAX_FILE_SIZE);
  }

  lemma StopsAtOne(v: Version, smallest: UserKey, largest: UserKey, f: File)
    requires |v| == NUM_LEVELS && v[0] == v[1] == [] && f.size <= 10 * MAX_FILE_SIZE
    requires OverlappingFiles(v[2], Some(smallest), Some(largest)) == [f]
    ensures IsPlacement(v, 1, smallest, largest, MAX_FILE_SIZE)
  {
    hide OverlappingFiles, Overlaps;
    InOverlappingFiles(v[2], Some(smallest), Some(largest));
    OneFileSize(f);
    assert f in [f];
    assert GoesDeeper(v, 0, smallest, largest, MAX_FILE_SIZE) && !GoesDeeper(v, 1, smallest, largest, MAX_FILE_SIZE);
  }

  lemma SecondIsPlaced()
    ensures AsScheduled(S6.version, ACTIONS[6], false, MAX_FILE_SIZE)
  {
    hide IsPlacement;
    OverlappingStep([FIRST], 0, Some(1.0), Some(5.0));
    assert [FIRST][..1] == [FIRST];
    StopsAtOne(FLUSHED, 1.0, 5.0, FIRST);
  }

  lemma UpperIsPlaced()
    ensures AsScheduled(S11.version, ACTIONS[11], false, MAX_FILE_SIZE)
  {
    hide IsPlacement;
    UpperTouchesCut();
    StopsAtOne(SPLIT, 1.0, 1.0, CUT);
  }

  lemma OneFileSize(f: File)
    ensures TotalFileSize([f]) == f.size
  {
    assert [f][..0] == [];
  }

  lemma UpperTouchesCut()
    ensures OverlappingFiles([CUT, REST], Some(1.0), Some(1.0)) == [CUT]
  {
    OverlappingStep([CUT, REST], 0, Some(1.0), Some(1.0));
    OverlappingStep([CUT, REST], 1, Some(1.0), Some(1.0));
    assert [CUT, REST][..2] == [CUT, REST];
  }

  /** A file on its own in its level is chosen for a compaction, and nothing is added to it. */
  lemma AloneIsChosen(v: Version, f: File, in1: seq<File>)
    requires |v| == NUM_LEVELS && v[1] == [f] && Ranged(f)
    requires in1 == Touched(v, 1, [f]) != [] && (forall g :: g in in1 ==> Ranged(g))
    ensures Chosen(v, 1, [f], MAX_FILE_SIZE)
  {
    assert IsRun(v[1], [f], 0, 1);
    assert Startable(v, 1, [f]);
    assert Inputs.LargestKey([f]) == f.largest;
    assert BoundaryClosed(v[1], [f], [f]);
    var all := [f] + in1;
    Inputs.KeyBounds(all);
    assert all[0] == f;
    assert IsTouchedBy(1, v[1], all, [f]) by {
      OverlappingStep([f], 0, Some(Inputs.SmallestKey(all).user), Some(Inputs.LargestKey(all).user));
      assert [f][..1] == [f];
    }
    assert SetUp(v, 1, [f], [f], [f], [f], [f], MAX_FILE_SIZE);
  }

  lemma CompactionsAreChosen()
    ensures AsScheduled(S7.version, ACTIONS[7], false, MAX_FILE_SIZE)
    ensures AsScheduled(S12.version, ACTIONS[12], false, MAX_FILE_SIZE)
  {
    hide SetUp, Startable;
    StackedInputs();
    AloneIsChosen(STACKED, SECOND, [FIRST]);
    UpperTouchesCut();
    assert Touched(TREE, 1, [UPPER]) == [CUT];
    AloneIsChosen(TREE, UPPER, [CUT]);
    assert [OLD][..1] == [OLD] && |[STALE, DELETED][..1]| == 1;
    assert Grandparents(STACKED, 1, [SECOND], [FIRST]) == [] == Grandparents(TREE, 1, [UPPER], [CUT]);
    var rule := CutRule([], 10 * MAX_FILE_SIZE, MAX_FILE_SIZE, SIZE);
    NothingToOverlap([CUT, REST], SPLITTING.input, rule);
    NothingToOverlap([MERGED], JOB.input, rule);
  }

  /** A run from the empty database at the end of which a deleted key is back: nothing is read of it before the last
      compaction, and its old value after.  The code takes every step of it: tables go where the placement rule puts
      them, compactions start from files that the version set chooses, and neither could be done by moving a file. */
  lemma DatabaseMayResurrect()
    ensures Run(States(), ACTIONS) && States()[0] == Initial() && |ACTIONS| == 13
    ensures forall i :: 0 <= i < |ACTIONS| ==> AsScheduled(States()[i].version, ACTIONS[i], false, MAX_FILE_SIZE)
    ensures BringsBack(States()[12], ACTIONS[12], 5.0, 4)
    ensures Read(States()[12].All(), 5.0, 4) == None && Read(States()[13].All(), 5.0, 4) == Some("old")
  {
    hide Valid, Flat, Step, State.Inv, Kept, NextVersion, CompactionEdit, Job.Resurrects, Read, AsScheduled;
    FirstHalf();
    SecondHalf();
    Starts();
    Merges();
    CompactionMayResurrect();
    AllScheduled();
    assert {} + {} == S12.mem + S12.Frozen();
    StepKeepsInv(S12, ACTIONS[12], Last());
    LastReads();
    SeesNothingNew();
  }

  lemma AllScheduled()
    ensures forall i :: 0 <= i < |ACTIONS| ==> AsScheduled(States()[i].version, ACTIONS[i], false, MAX_FILE_SIZE)
  {
    hide IsPlacement, Chosen, IsMove, FilledUp;
    FirstIsPlaced();
    SecondIsPlaced();
    UpperIsPlaced();
    CompactionsAreChosen();
  }

  lemma SeesNothingNew()
    ensures SeesOnlyOld(S12, 5.0, 4)
  {
    hide Flat;
  }

  lemma LastReads()
    requires S12.Inv() && Last().Inv() && Step(S12, ACTIONS[12], Last())
    ensures Read(S12.All(), 5.0, 4) == None && Read(Last().All(), 5.0, 4) == Some("old")
  {
    hide Valid, Flat, State.Inv, Kept, NextVersion, CompactionEdit, Job.Resurrects, Read, Written;
    CompactionMayResurrect();
    CompactKeepsInv(S12, Last(), JOB, [MERGED], SIZE);
    ReadPastMemTables(S12, 5.0, 4);
    ReadPastMemTables(Last(), 5.0, 4);
  }
}
