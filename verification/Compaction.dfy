/** The compaction object and the version set that fills it in. */
module Compaction {
  import opened Wrappers
  import opened DbFormat
  import opened Tree
  import opened Overlap
  import opened Inputs
  import opened Picking
  import opened Builder

  class Compaction {
    const level: nat
    const inputVersion: Version
    const maxGrandparentOverlap: nat
    var inputs0: seq<File>
    var inputs1: seq<File>
    var grandparents: seq<File>
    var levelPtrs: seq<nat>
    var grandparentIndex: nat
    var seenKey: bool
    var overlappedBytes: nat

    constructor (level: nat, version: Version, maxFileSize: nat)
      ensures this.level == level && inputVersion == version && maxGrandparentOverlap == 10 * maxFileSize
      ensures inputs0 == inputs1 == grandparents == [] && levelPtrs == seq(NUM_LEVELS, _ => 0)
      ensures grandparentIndex == 0 && !seenKey && overlappedBytes == 0
    {
      this.level, inputVersion, maxGrandparentOverlap := level, version, 10 * maxFileSize;
      inputs0, inputs1, grandparents := [], [], [];
      levelPtrs := seq(NUM_LEVELS, _ => 0);
      grandparentIndex, seenKey, overlappedBytes := 0, false, 0;
    }

    ghost predicate Ready()
      reads this
    {
      && GoodInputs(inputVersion, level, inputs0, inputs1)
      && levelPtrs == seq(NUM_LEVELS, _ => 0)
      && grandparentIndex == overlappedBytes == 0 && !seenKey
      && grandparents == Grandparents(inputVersion, level, inputs0, inputs1)
    }

    /** The cursors of the deeper levels have passed only files that end before `u`. */
    ghost predicate CursorsBefore(u: UserKey)
      reads this`levelPtrs
    {
      && |levelPtrs| == |inputVersion| == NUM_LEVELS
      && (forall l :: level + 2 <= l < NUM_LEVELS ==> levelPtrs[l] <= |inputVersion[l]|)
      && (forall l, i :: level + 2 <= l < NUM_LEVELS && 0 <= i < levelPtrs[l] ==> inputVersion[l][i].largest.user < u)
    }

    lemma LaterKeyKeepsCursors(u: UserKey, w: UserKey)
      requires CursorsBefore(u) && u <= w
      ensures CursorsBefore(w)
    {
    }

    lemma ReadyToWork(u: UserKey)
      requires Valid(inputVersion) && Ready()
      ensures |inputVersion| == NUM_LEVELS && CursorsBefore(u)
    {
    }

    /** Exact although its cursors only move forward, as long as the keys asked for do not decrease. */
    method IsBaseLevelForKey(u: UserKey) returns (r: bool)
      requires Valid(inputVersion) && CursorsBefore(u)
      modifies this`levelPtrs
      ensures CursorsBefore(u)
      ensures r <==> BaseLevel(inputVersion, level, u)
    {
      hide Valid;
      var lvl := level + 2;
      while lvl < NUM_LEVELS
        invariant level + 2 <= lvl
        invariant CursorsBefore(u)
        invariant forall l, f :: level + 2 <= l < lvl && l < NUM_LEVELS && f in inputVersion[l] ==> !Covers(f, u)
      {
        LevelRanged(inputVersion, lvl);
        var files := inputVersion[lvl];
        while levelPtrs[lvl] < |files| && files[levelPtrs[lvl]].largest.user < u
          invariant CursorsBefore(u)
          decreases |files| - levelPtrs[lvl]
        {
          levelPtrs := levelPtrs[lvl := levelPtrs[lvl] + 1];
        }
        var p := levelPtrs[lvl];
        if p < |files| && files[p].smallest.user <= u {
          assert files[p] in files && Covers(files[p], u);
          return false;
        }
        forall f | f in files
          ensures !Covers(f, u)
        {
          var i :| 0 <= i < |files| && files[i] == f;
          if p < i {
            assert Ranged(files[p]) && Before(files[p].largest, files[i].smallest);
          }
        }
        lvl := lvl + 1;
      }
      r := true;
    }

    /** The output so far overlaps too many bytes two levels down: start a new file before `key`. */
    method ShouldStopBefore(key: InternalKey) returns (r: bool)
      requires grandparentIndex <= |grandparents|
      modifies this`grandparentIndex, this`seenKey, this`overlappedBytes
      ensures old(grandparentIndex) <= grandparentIndex <= |grandparents| && seenKey
      ensures forall i :: old(grandparentIndex) <= i < grandparentIndex ==> Before(grandparents[i].largest, key)
      ensures grandparentIndex < |grandparents| ==> !Before(grandparents[grandparentIndex].largest, key)
      ensures var bytes := old(overlappedBytes) +
                (if old(seenKey) then PassedBytes(grandparents, old(grandparentIndex), grandparentIndex) else 0);
              (r <==> bytes > maxGrandparentOverlap) && overlappedBytes == if r then 0 else bytes
    {
      while grandparentIndex < |grandparents| && Before(grandparents[grandparentIndex].largest, key)
        invariant old(grandparentIndex) <= grandparentIndex <= |grandparents|
        invariant seenKey == old(seenKey)
        invariant forall i :: old(grandparentIndex) <= i < grandparentIndex ==> Before(grandparents[i].largest, key)
        invariant overlappedBytes == old(overlappedBytes) +
            (if seenKey then PassedBytes(grandparents, old(grandparentIndex), grandparentIndex) else 0)
        decreases |grandparents| - grandparentIndex
      {
        if seenKey {
          overlappedBytes := overlappedBytes + grandparents[grandparentIndex].size;
        }
        grandparentIndex := grandparentIndex + 1;
      }
      seenKey := true;
      r := overlappedBytes > maxGrandparentOverlap;
      if r {
        overlappedBytes := 0;
      }
    }

    /** The compaction only has to relabel one file: on its own that file is a good input, and no file of the next level
        touches it.  Other compactions that could be done so are held back only by what they overlap two levels down. */
    method IsTrivialMove() returns (r: bool)
      ensures r && Ready() ==>
                |inputs0| == 1 && level + 1 < |inputVersion| && GoodInputs(inputVersion, level, [inputs0[0]], [])
      ensures Ready() ==>
                && level + 1 < |inputVersion|
                && (r <==>
                      && |inputs0| == 1
                      && (forall g :: g in inputVersion[level + 1] ==> !Meets(inputs0[0], g))
                      && TotalFileSize(grandparents) <= maxGrandparentOverlap)
    {
      r := |inputs0| == 1 && |inputs1| == 0 && TotalFileSize(grandparents) <= maxGrandparentOverlap;
      if |inputs0| == 1 {
        assert inputs0 == [inputs0[0]];
        if level + 1 < |inputVersion| {
          OneFileTouches(inputVersion, level, inputs0[0]);
        }
      }
    }
  }

  /** What one file touches in the next level. */
  lemma OneFileTouches(v: Version, level: nat, f: File)
    requires level + 1 < |v|
    ensures Touched(v, level, [f]) == [] <==> forall g :: g in v[level + 1] ==> !Meets(f, g)
  {
    var files, b, e := v[level + 1], Some(f.smallest.user), Some(f.largest.user);
    assert SmallestKey([f]) == f.smallest && LargestKey([f]) == f.largest;
    InOverlappingFiles(files, b, e);
    var touched := Touched(v, level, [f]);
    assert touched == OverlappingFiles(files, b, e);
    if touched == [] {
      forall g | g in files
        ensures !Meets(f, g)
      {
        assert g !in touched;
      }
    } else {
      assert touched[0] in touched;
      assert Meets(f, touched[0]);
    }
  }

  /** No file two or more levels below the compacted one may hold `u`. */
  ghost predicate BaseLevel(v: Version, level: nat, u: UserKey)
    requires |v| == NUM_LEVELS
  {
    forall l, f :: level + 2 <= l < NUM_LEVELS && f in v[l] ==> !Covers(f, u)
  }

  /** The bytes of grandparent files [i, j). */
  function PassedBytes(files: seq<File>, i: nat, j: nat): nat
    requires i <= j <= |files|
  {
    if i == j then 0 else PassedBytes(files, i, j - 1) + files[j - 1].size
  }

  datatype Trigger = TooMuchData(level: nat) | TooManySeeks(level: nat, file: File) | NoTrigger

  class VersionSet {
    const maxFileSize: nat
    var current: Version
    var compactPointer: seq<Option<InternalKey>>

    ghost predicate Ok()
      reads this
    {
      Valid(current) && |compactPointer| == NUM_LEVELS
    }

    constructor (maxFileSize: nat)
      ensures this.maxFileSize == maxFileSize && current == seq(NUM_LEVELS, _ => [])
      ensures compactPointer == seq(NUM_LEVELS, _ => None)
    {
      this.maxFileSize := maxFileSize;
      current := seq(NUM_LEVELS, _ => []);
      compactPointer := seq(NUM_LEVELS, _ => None);
    }

    /** Makes the version that the edit leads to the current one. */
    method LogAndApply(edit: FileEdit)
      requires Ok() && EditOk(edit)
      modifies this`current
      ensures current == NextVersion(old(current), edit)
    {
      forall l | 0 <= l < NUM_LEVELS
        ensures InOrder(current[l]) && InOrder(ApplyLevel(EMPTY_LEVEL, edit, l).added)
      {
        assert ValidLevel(current, l);
        AddAllKeepsOrder(LevelState(EMPTY_LEVEL.deleted + DeletedAt(edit, l), []), NewAt(edit.newFiles, l));
      }
      hide Valid;
      var builder := new Builder(current);
      builder.Apply(edit);
      current := builder.SaveTo();
    }

    /** Adds boundary files to a level's inputs and finds the files of the next level that they touch. */
    method CloseInputs(level: nat, start: seq<File>) returns (in0: seq<File>, in1: seq<File>)
      requires Ok() && level + 1 < NUM_LEVELS && Startable(current, level, start)
      ensures GoodInputs(current, level, in0, in1)
      ensures forall f :: f in start ==> f in in0
      ensures BoundaryClosed(current[level], start, in0)
    {
      hide Valid, BoundaryChain, StayersNewer;
      LevelRanged(current, level);
      LevelRanged(current, level + 1);
      assert forall f :: f in start ==> f in current[level];
      in0 := AddBoundaryInputs(current[level], start);
      ClosedStartIsSafe(current, level, start, in0);
      var smallest, largest := GetRange(in0);
      ghost var b, e;
      in1, b, e := GetOverlappingInputs(level + 1, current[level + 1], Some(smallest.user), Some(largest.user));
    }

    /** Both inputs for a start, those of the level grown when that adds no file of the next and not too many bytes.
        `first` is the choice before growing; `wide` is what the whole range of it touches, and `grown` that closed. */
    method ChooseInputs(level: nat, start: seq<File>)
      returns (in0: seq<File>, in1: seq<File>, ghost first: seq<File>, ghost wide: seq<File>, ghost grown: seq<File>)
      requires Ok() && level + 1 < NUM_LEVELS && Startable(current, level, start)
      ensures GoodInputs(current, level, in0, in1)
      ensures forall f :: f in start ==> f in in0
      ensures SetUp(current, level, start, in0, first, wide, grown, maxFileSize)
    {
      hide Valid, StayersNewer, Startable, OverlappingFiles, BoundaryClosed;
      in0, in1 := CloseInputs(level, start);
      first, wide, grown := in0, [], [];
      if in1 != [] {
        var allStart, allLimit := GetRange(in0 + in1);
        LevelRanged(current, level);
        ghost var b, e;
        var expanded0;
        expanded0, b, e := GetOverlappingInputs(level, current[level], Some(allStart.user), Some(allLimit.user));
        WideningIsStartable(current, level, in0 + in1, in0, expanded0, b, e);
        wide := expanded0;
        var expanded1;
        expanded0, expanded1 := CloseInputs(level, expanded0);
        grown := expanded0;
        if |expanded0| > |in0| && TotalFileSize(in1) + TotalFileSize(expanded0) < 25 * maxFileSize
           && |expanded1| == |in1| {
          in0, in1 := expanded0, expanded1;
        }
      }
    }

    /** Fills in the inputs and what they overlap two levels down. */
    method SetupOtherInputs(c: Compaction)
      returns (ghost first: seq<File>, ghost wide: seq<File>, ghost grown: seq<File>)
      requires Ok() && c.inputVersion == current && c.level + 1 < NUM_LEVELS
      requires Startable(current, c.level, c.inputs0)
      modifies this`compactPointer, c`inputs0, c`inputs1, c`grandparents
      ensures Ok() && GoodInputs(current, c.level, c.inputs0, c.inputs1)
      ensures forall f :: f in old(c.inputs0) ==> f in c.inputs0
      ensures SetUp(current, c.level, old(c.inputs0), c.inputs0, first, wide, grown, maxFileSize)
      ensures compactPointer == old(compactPointer)[c.level := Some(LargestKey(c.inputs0))]
      ensures c.grandparents == Grandparents(current, c.level, c.inputs0, c.inputs1)
    {
      hide Valid, StayersNewer, Startable, OverlappingFiles, SetUp;
      var level := c.level;
      var in0, in1;
      in0, in1, first, wide, grown := ChooseInputs(level, c.inputs0);
      c.inputs0, c.inputs1 := in0, in1;
      c.grandparents := [];
      LevelRanged(current, level);
      if level + 2 < NUM_LEVELS {
        LevelRanged(current, level + 2);
        var allStart, allLimit := GetRange(in0 + in1);
        ghost var b, e;
        var touched;
        touched, b, e := GetOverlappingInputs(level + 2, current[level + 2], Some(allStart.user), Some(allLimit.user));
        c.grandparents := touched;
      }
      var smallest, largest := GetRange(in0);
      compactPointer := compactPointer[level := Some(largest)];
    }

    method FirstAfterPointer(files: seq<File>, pointer: Option<InternalKey>) returns (f: File)
      requires files != []
      ensures exists i: nat :: i < |files| && IsNextInTurn(files, pointer, i) && files[i] == f
    {
      for i := 0 to |files|
        invariant forall j :: 0 <= j < i ==> !AfterPointer(files[j], pointer)
        invariant pointer == None ==> i == 0
      {
        if AfterPointer(files[i], pointer) {
          assert IsNextInTurn(files, pointer, i);
          return files[i];
        }
      }
      assert IsNextInTurn(files, pointer, 0);
      f := files[0];
    }

    /** Picks the next file of an overfull level after the compaction pointer, or the file read too often. */
    method PickCompaction(trigger: Trigger) returns (c: Compaction?)
      requires Ok()
      requires trigger.TooMuchData? ==> trigger.level + 1 < NUM_LEVELS && current[trigger.level] != []
      requires trigger.TooManySeeks? ==> trigger.level + 1 < NUM_LEVELS && trigger.file in current[trigger.level]
      modifies this`compactPointer
      ensures Ok() && (c == null <==> trigger == NoTrigger)
      ensures c != null ==> fresh(c) && c.level == trigger.level && c.inputVersion == current && c.Ready()
      ensures c != null ==>
                Chosen(current, c.level, c.inputs0, maxFileSize) && c.maxGrandparentOverlap == 10 * maxFileSize
      ensures c != null ==> IsPicked(current, old(compactPointer), trigger, c.level, c.inputs0, maxFileSize)
      ensures compactPointer == if c == null then old(compactPointer)
                                else old(compactPointer)[c.level := Some(LargestKey(c.inputs0))]
    {
      hide Valid, GoodInputs, Startable, OverlappingFiles, SetUp, Chosen, Grandparents, IsStart, IsPick, IsPicked;
      if trigger == NoTrigger {
        return null;
      }
      LevelRanged(current, trigger.level);
      ghost var pointers := compactPointer;
      var picked := PickFile(trigger);
      c := new Compaction(trigger.level, current, maxFileSize);
      c.inputs0 := StartFrom(trigger.level, picked);
      ghost var start := c.inputs0;
      ghost var first, wide, grown := SetupOtherInputs(c);
      ChosenFrom(current, c.level, start, c.inputs0, first, wide, grown, maxFileSize);
      PickedFrom(current, pointers, trigger, picked, start, c.inputs0, first, wide, grown, maxFileSize);
    }

    method PickFile(trigger: Trigger) returns (picked: File)
      requires Ok() && trigger != NoTrigger && trigger.level < NUM_LEVELS
      requires trigger.TooMuchData? ==> current[trigger.level] != []
      requires trigger.TooManySeeks? ==> trigger.file in current[trigger.level]
      ensures IsPick(current, compactPointer, trigger, picked) && picked in current[trigger.level]
    {
      hide Valid, IsNextInTurn;
      LevelRanged(current, trigger.level);
      if trigger.TooMuchData? {
        picked := FirstAfterPointer(current[trigger.level], compactPointer[trigger.level]);
      } else {
        picked := trigger.file;
      }
    }

    /** The file picked; in level 0, with all that overlaps it. */
    method StartFrom(level: nat, picked: File) returns (start: seq<File>)
      requires Ok() && level < NUM_LEVELS && picked in current[level]
      ensures picked in start && Startable(current, level, start) && IsStart(current, level, picked, start)
    {
      hide Valid, Startable, OverlappingFiles;
      LevelRanged(current, level);
      if level == 0 {
        ghost var b, e;
        start, b, e := GetOverlappingInputs(0, current[0], Some(picked.smallest.user), Some(picked.largest.user));
        ClosureIsStartable(current, picked, start, b, e);
      } else {
        start := [picked];
        OneFileIsStartable(current, level, picked);
      }
    }

    /** How many files it takes to reach the size of one output file. */
    method FirstFiles(inputs: seq<File>) returns (n: nat)
      requires inputs != []
      ensures IsCut(inputs, n, maxFileSize)
    {
      n := |inputs|;
      var total, i := 0, 0;
      while i < |inputs|
        invariant 0 <= i <= |inputs| == n
        invariant total == TotalFileSize(inputs[..i]) && (i > 0 ==> total < maxFileSize)
      {
        assert inputs[..i + 1][..i] == inputs[..i];
        total := total + inputs[i].size;
        if total >= maxFileSize {
          n := i + 1;
          break;
        }
        i := i + 1;
      }
      assert inputs[..|inputs|] == inputs;
      assert n == |inputs| || i + 1 == n;
      assert inputs[..n][..n - 1] == inputs[..n - 1];
    }

    /** The files of a level that a manual compaction of [begin, end] takes on first: all of them in level 0, deeper
        down as many as it takes to reach the size of one file. */
    method CompactRange(level: nat, begin: Bound, end: Bound) returns (c: Compaction?)
      requires Ok() && level + 1 < NUM_LEVELS
      modifies this`compactPointer
      ensures Ok() && (c == null <==> forall f :: f in current[level] ==> !Overlaps(f, begin, end))
      ensures c != null ==> fresh(c) && c.level == level && c.inputVersion == current && c.Ready()
      ensures c != null ==>
                Chosen(current, c.level, c.inputs0, maxFileSize) && c.maxGrandparentOverlap == 10 * maxFileSize
      ensures c != null && level == 0 ==> forall f :: f in current[0] && Overlaps(f, begin, end) ==> f in c.inputs0
      ensures c != null && level > 0 ==>
                exists n: nat :: IsCut(OverlappingFiles(current[level], begin, end), n, maxFileSize) &&
                                 forall f :: f in OverlappingFiles(current[level], begin, end)[..n] ==> f in c.inputs0
      ensures c != null ==> IsAskedFor(current, begin, end, c.level, c.inputs0, maxFileSize)
      ensures compactPointer == if c == null then old(compactPointer)
                                else old(compactPointer)[c.level := Some(LargestKey(c.inputs0))]
    {
      hide Valid, GoodInputs, Startable, SetUp, Chosen, Grandparents, IsTouching, IsAskedFor;
      LevelRanged(current, level);
      ghost var b, e;
      var inputs;
      inputs, b, e := GetOverlappingInputs(level, current[level], begin, end);
      RangeChoice(current, level, inputs, begin, end, b, e);
      AreTouching(level, current[level], begin, end, inputs, b, e);
      if inputs == [] {
        return null;
      }
      var n := |inputs|;
      if level > 0 {
        n := FirstFiles(inputs);
        FrontIsStartable(current, level, inputs, n);
      }
      c := new Compaction(level, current, maxFileSize);
      c.inputs0 := inputs[..n];
      assert inputs[..|inputs|] == inputs;
      ghost var first, wide, grown := SetupOtherInputs(c);
      ChosenFrom(current, c.level, inputs[..n], c.inputs0, first, wide, grown, maxFileSize);
      AskedFrom(current, begin, end, level, inputs, n, c.inputs0, first, wide, grown, maxFileSize);
    }

    /** How deep a new table of keys [smallest, largest] may be placed: never past a level that it touches. */
    method PickLevelForMemTableOutput(smallest: UserKey, largest: UserKey) returns (level: nat)
      requires Ok()
      ensures level <= MAX_MEM_COMPACT_LEVEL
      ensures level > 0 ==>
                forall l, f :: 0 <= l <= level && f in current[l] ==> !Overlaps(f, Some(smallest), Some(largest))
      ensures level < MAX_MEM_COMPACT_LEVEL ==>
                || (exists f :: f in current[0] && Overlaps(f, Some(smallest), Some(largest)))
                || (exists f :: f in current[level + 1] && Overlaps(f, Some(smallest), Some(largest)))
                || TotalFileSize(OverlappingFiles(current[level + 2], Some(smallest), Some(largest))) > 10 * maxFileSize
      ensures IsPlacement(current, level, smallest, largest, maxFileSize)
    {
      hide Valid, OverlappingFiles, Overlaps;
      LevelRanged(current, 0);
      level := 0;
      var overlap := SomeFileOverlapsRange(false, current[0], Some(smallest), Some(largest));
      if overlap {
        return;
      }
      while level < MAX_MEM_COMPACT_LEVEL
        invariant level <= MAX_MEM_COMPACT_LEVEL
        invariant forall l, f :: 0 <= l <= level && f in current[l] ==> !Overlaps(f, Some(smallest), Some(largest))
        invariant forall l :: 0 <= l < level ==> GoesDeeper(current, l, smallest, largest, maxFileSize)
      {
        LevelRanged(current, level + 1);
        LevelRanged(current, level + 2);
        LargestInBounds(current, level + 1);
        overlap := SomeFileOverlapsRange(true, current[level + 1], Some(smallest), Some(largest));
        if overlap {
          break;
        }
        ghost var b, e;
        var overlaps;
        overlaps, b, e := GetOverlappingInputs(level + 2, current[level + 2], Some(smallest), Some(largest));
        if TotalFileSize(overlaps) > 10 * maxFileSize {
          break;
        }
        level := level + 1;
      }
    }
  }

  predicate AfterPointer(f: File, pointer: Option<InternalKey>) {
    pointer == None || Before(pointer.value, f.largest)
  }

  /** The compaction of a level goes on with file `i`: the first that ends past the pointer, or the first of all if none
      does. */
  predicate IsNextInTurn(files: seq<File>, pointer: Option<InternalKey>, i: nat)
    requires i < |files|
  {
    if pointer == None then i == 0
    else
      || (Before(pointer.value, files[i].largest) &&
          forall j :: 0 <= j < i ==> !Before(pointer.value, files[j].largest))
      || (i == 0 && forall j :: 0 <= j < |files| ==> !Before(pointer.value, files[j].largest))
  }

  /** A start with the files that continue its last user key, one after another, until none does. */
  ghost predicate BoundaryClosed(files: seq<File>, start: seq<File>, r: seq<File>) {
    start <= r && BoundaryChain(files, r, |start|) && forall f :: f in files ==> !IsBoundary(f, LargestKey(r))
  }

  /** How the inputs of a level come about: the start closed under boundary keys; or, if that reads no more files of the
      next level and not too many bytes, all that its whole range touches. */
  ghost predicate SetUp(v: Version, level: nat, start: seq<File>, in0: seq<File>, first: seq<File>, wide: seq<File>,
                        grown: seq<File>, maxFileSize: nat)
    requires level + 1 < |v|
  {
    && first != [] && BoundaryClosed(v[level], start, first)
    && var in1 := Touched(v, level, first);
       if in1 == [] then in0 == first
       else
         && IsTouchedBy(level, v[level], first + in1, wide)
         && grown != [] && BoundaryClosed(v[level], wide, grown)
         && in0 == if |grown| > |first| && TotalFileSize(in1) + TotalFileSize(grown) < 25 * maxFileSize &&
                      |Touched(v, level, grown)| == |in1| then grown else first
  }

  /** The files that touch a range, in the order of the level; in level 0, the least such choice that is closed under
      overlap. */
  ghost predicate IsTouching(level: nat, files: seq<File>, b: Bound, e: Bound, r: seq<File>) {
    if level > 0 then r == OverlappingFiles(files, b, e)
    else
      && Closed(AsSet(r), files, b, e) && (forall s :: Closed(s, files, b, e) ==> AsSet(r) <= s)
      && exists wb, we :: r == OverlappingFiles(files, wb, we)
  }

  lemma AreTouching(level: nat, files: seq<File>, begin: Bound, end: Bound, r: seq<File>, b: Bound, e: Bound)
    requires r == OverlappingFiles(files, b, e) && (level > 0 ==> b == begin && e == end)
    requires level == 0 ==> Closed(AsSet(r), files, begin, end)
    requires level == 0 ==> forall s :: Closed(s, files, begin, end) ==> AsSet(r) <= s
    ensures IsTouching(level, files, begin, end, r)
  {
  }

  /** The files that touch the whole range of `fs`. */
  ghost predicate IsTouchedBy(level: nat, files: seq<File>, fs: seq<File>, r: seq<File>)
    requires fs != []
  {
    IsTouching(level, files, Some(SmallestKey(fs).user), Some(LargestKey(fs).user), r)
  }

  /** The file that a trigger names: the one read too often, or the next in turn of an overfull level. */
  ghost predicate IsPick(v: Version, pointers: seq<Option<InternalKey>>, trigger: Trigger, f: File)
    requires |v| == |pointers| == NUM_LEVELS
  {
    match trigger
    case TooManySeeks(_, file) => f == file
    case TooMuchData(level) =>
      level < NUM_LEVELS &&
      exists i: nat :: i < |v[level]| && IsNextInTurn(v[level], pointers[level], i) && v[level][i] == f
    case NoTrigger => false
  }

  /** The first choice for a file: in level 0 what overlaps it, deeper the file alone. */
  ghost predicate IsStart(v: Version, level: nat, f: File, start: seq<File>)
    requires level < |v|
  {
    if level > 0 then start == [f] else IsTouching(0, v[0], Some(f.smallest.user), Some(f.largest.user), start)
  }

  /** The inputs of the level that a trigger leads to. */
  ghost predicate IsPicked(v: Version, pointers: seq<Option<InternalKey>>, trigger: Trigger, level: nat, in0: seq<File>,
          maxFileSize: nat)
    requires |v| == |pointers| == NUM_LEVELS && level + 1 < NUM_LEVELS
  {
    && trigger != NoTrigger && level == trigger.level
    && exists f, start, first, wide, grown ::
          && IsPick(v, pointers, trigger, f) && f in in0 && IsStart(v, level, f, start)
          && SetUp(v, level, start, in0, first, wide, grown, maxFileSize)
  }

  /** The first choice for a range: in level 0 all that touches it, deeper the front of it up to the size of a file. */
  ghost predicate IsRangeStart(v: Version, level: nat, begin: Bound, end: Bound, start: seq<File>, maxFileSize: nat)
    requires level < |v|
  {
    if level == 0 then IsTouching(0, v[0], begin, end, start)
    else
      var all := OverlappingFiles(v[level], begin, end);
      exists n: nat :: IsCut(all, n, maxFileSize) && start == all[..n]
  }

  /** The inputs of the level that a manual compaction of a range leads to. */
  ghost predicate IsAskedFor(v: Version, begin: Bound, end: Bound, level: nat, in0: seq<File>, maxFileSize: nat)
    requires level + 1 < |v|
  {
    exists start, first, wide, grown ::
      && IsRangeStart(v, level, begin, end, start, maxFileSize) && (forall f :: f in start ==> f in in0)
      && SetUp(v, level, start, in0, first, wide, grown, maxFileSize)
  }

  lemma PickedFrom(v: Version, pointers: seq<Option<InternalKey>>, trigger: Trigger, f: File, start: seq<File>,
                   in0: seq<File>, first: seq<File>, wide: seq<File>, grown: seq<File>, maxFileSize: nat)
    requires |v| == |pointers| == NUM_LEVELS && trigger != NoTrigger && trigger.level + 1 < NUM_LEVELS
    requires IsPick(v, pointers, trigger, f) && f in in0 && IsStart(v, trigger.level, f, start)
    requires SetUp(v, trigger.level, start, in0, first, wide, grown, maxFileSize)
    ensures IsPicked(v, pointers, trigger, trigger.level, in0, maxFileSize)
  {
    hide IsPick, IsStart, SetUp;
  }

  lemma AskedFrom(v: Version, begin: Bound, end: Bound, level: nat, all: seq<File>, n: nat, in0: seq<File>,
                  first: seq<File>, wide: seq<File>, grown: seq<File>, maxFileSize: nat)
    requires level + 1 < |v| && IsTouching(level, v[level], begin, end, all) && n <= |all|
    requires if level == 0 then n == |all| else IsCut(all, n, maxFileSize)
    requires (forall f :: f in all[..n] ==> f in in0)
    requires SetUp(v, level, all[..n], in0, first, wide, grown, maxFileSize)
    ensures IsAskedFor(v, begin, end, level, in0, maxFileSize)
  {
    hide SetUp, IsCut;
    assert all[..|all|] == all;
    assert IsRangeStart(v, level, begin, end, all[..n], maxFileSize);
  }

  function WholeRangeTouches(v: Version, level: nat, fs: seq<File>): seq<File>
    requires level < |v| && fs != []
  {
    OverlappingFiles(v[level], Some(SmallestKey(fs).user), Some(LargestKey(fs).user))
  }

  /** What the whole range of a compaction touches two levels down. */
  function Grandparents(v: Version, level: nat, in0: seq<File>, in1: seq<File>): seq<File> {
    if level + 2 < |v| && in0 != [] then WholeRangeTouches(v, level + 2, in0 + in1) else []
  }

  /** Inputs of a level that some first choice of files leads to. */
  ghost predicate Chosen(v: Version, level: nat, in0: seq<File>, maxFileSize: nat)
    requires level + 1 < |v|
  {
    exists start, first, wide, grown ::
      Startable(v, level, start) && SetUp(v, level, start, in0, first, wide, grown, maxFileSize)
  }

  lemma ChosenFrom(v: Version, level: nat, start: seq<File>, in0: seq<File>, first: seq<File>, wide: seq<File>,
                   grown: seq<File>, maxFileSize: nat)
    requires level + 1 < |v| && Startable(v, level, start)
    requires SetUp(v, level, start, in0, first, wide, grown, maxFileSize)
    ensures Chosen(v, level, in0, maxFileSize)
  {
  }

  /** A compaction that is done by giving one file another level. */
  predicate IsMove(v: Version, level: nat, in0: seq<File>, in1: seq<File>, maxFileSize: nat) {
    |in0| == 1 && in1 == [] && TotalFileSize(Grandparents(v, level, in0, in1)) <= 10 * maxFileSize
  }

  /** A new table of keys [smallest, largest] may go from `level` one further down. */
  ghost predicate GoesDeeper(v: Version, level: nat, smallest: UserKey, largest: UserKey, maxFileSize: nat)
    requires level + 2 < |v|
  {
    && (forall f :: f in v[level + 1] ==> !Overlaps(f, Some(smallest), Some(largest)))
    && TotalFileSize(OverlappingFiles(v[level + 2], Some(smallest), Some(largest))) <= 10 * maxFileSize
  }

  /** The level where a new table goes: as deep as it may, but no deeper than level 2, and not past level 0 if it
      touches a file there. */
  ghost predicate IsPlacement(v: Version, level: nat, smallest: UserKey, largest: UserKey, maxFileSize: nat)
    requires |v| == NUM_LEVELS
  {
    var touches := exists f :: f in v[0] && Overlaps(f, Some(smallest), Some(largest));
    && level <= MAX_MEM_COMPACT_LEVEL
    && (touches ==> level == 0)
    && (forall l :: 0 <= l < level ==> GoesDeeper(v, l, smallest, largest, maxFileSize))
    && (level < MAX_MEM_COMPACT_LEVEL && !touches ==> !GoesDeeper(v, level, smallest, largest, maxFileSize))
  }

  /** What overlaps the whole range of a compaction may itself be compacted, and includes the files already chosen. */
  lemma WideningIsStartable(v: Version, level: nat, all: seq<File>, in0: seq<File>, wide: seq<File>, b: Bound, e: Bound)
    requires Valid(v) && level < NUM_LEVELS && in0 != [] && in0 <= all
    requires wide == OverlappingFiles(v[level], b, e)
    requires level > 0 ==> b == Some(SmallestKey(all).user) && e == Some(LargestKey(all).user)
    requires level == 0 ==> Closed(AsSet(wide), v[level], Some(SmallestKey(all).user), Some(LargestKey(all).user))
    requires forall f :: f in in0 ==> f in v[level]
    ensures Startable(v, level, wide)
    ensures forall f :: f in in0 ==> f in wide
  {
    LevelRanged(v, level);
    InOverlappingFiles(v[level], b, e);
    KeyBounds(all);
    forall f | f in in0
      ensures f in wide
    {
      assert f in all && Ranged(f);
      assert Overlaps(f, Some(SmallestKey(all).user), Some(LargestKey(all).user));
    }
    assert in0[0] in wide;
    if level > 0 {
      assert v[level][..|v[level]|] == v[level];
      OverlappingIsRun(v[level], |v[level]|, b, e);
    }
  }

  lemma OneFileIsStartable(v: Version, level: nat, f: File)
    requires Valid(v) && 0 < level < NUM_LEVELS && f in v[level]
    ensures Startable(v, level, [f])
  {
    var i: nat :| i < |v[level]| && v[level][i] == f;
    assert IsRun(v[level], [f], i, i + 1);
  }

  lemma ClosureIsStartable(v: Version, f: File, closure: seq<File>, b: Bound, e: Bound)
    requires Valid(v) && f in v[0] && closure == OverlappingFiles(v[0], b, e)
    requires Closed(AsSet(closure), v[0], Some(f.smallest.user), Some(f.largest.user))
    ensures f in closure && Startable(v, 0, closure)
  {
    InOverlappingFiles(v[0], b, e);
    LevelRanged(v, 0);
    assert Ranged(f);
    assert Overlaps(f, Some(f.smallest.user), Some(f.largest.user));
    assert f in AsSet(closure);
  }

  lemma RangeChoice(v: Version, level: nat, inputs: seq<File>, begin: Bound, end: Bound, b: Bound, e: Bound)
    requires Valid(v) && level < NUM_LEVELS && inputs == OverlappingFiles(v[level], b, e)
    requires level > 0 ==> b == begin && e == end
    requires level == 0 ==> Closed(AsSet(inputs), v[level], begin, end)
    requires level == 0 ==> forall s :: Closed(s, v[level], begin, end) ==> AsSet(inputs) <= s
    ensures inputs == [] <==> forall f :: f in v[level] ==> !Overlaps(f, begin, end)
    ensures inputs != [] ==> Startable(v, level, inputs)
  {
    assert |v| == NUM_LEVELS;
    hide Valid;
    InOverlappingFiles(v[level], b, e);
    if level == 0 {
      LeastClosureEmpty(v[level], inputs, begin, end);
    } else {
      RangeIsStartable(v, level, inputs, b, e);
    }
  }

  lemma LeastClosureEmpty(files: seq<File>, inputs: seq<File>, begin: Bound, end: Bound)
    requires Closed(AsSet(inputs), files, begin, end)
    requires forall s :: Closed(s, files, begin, end) ==> AsSet(inputs) <= s
    ensures inputs == [] <==> forall f :: f in files ==> !Overlaps(f, begin, end)
  {
    assert inputs != [] ==> inputs[0] in AsSet(inputs);
    if forall f :: f in files ==> !Overlaps(f, begin, end) {
      assert Closed({}, files, begin, end);
    } else {
      var f :| f in files && Overlaps(f, begin, end);
      assert f in AsSet(inputs);
    }
  }

  lemma RangeIsStartable(v: Version, level: nat, inputs: seq<File>, b: Bound, e: Bound)
    requires Valid(v) && 0 < level < NUM_LEVELS && inputs == OverlappingFiles(v[level], b, e)
    ensures inputs == [] <==> forall f :: f in v[level] ==> !Overlaps(f, b, e)
    ensures inputs != [] ==> Startable(v, level, inputs)
  {
    LevelRanged(v, level);
    OverlappingRun(v[level], inputs, b, e);
  }

  lemma OverlappingRun(files: seq<File>, inputs: seq<File>, b: Bound, e: Bound)
    requires AllRanged(files) && Disjoint(files) && inputs == OverlappingFiles(files, b, e)
    ensures inputs == [] <==> forall f :: f in files ==> !Overlaps(f, b, e)
    ensures inputs != [] ==> exists lo: nat, hi: nat :: IsRun(files, inputs, lo, hi)
    ensures forall f :: f in inputs ==> f in files
  {
    hide AllRanged, Disjoint, Overlaps, OverlappingFiles, IsRun;
    InOverlappingFiles(files, b, e);
    assert files[..|files|] == files;
    OverlappingIsRun(files, |files|, b, e);
    if f :| f in files && Overlaps(f, b, e) {
      assert f in inputs;
    }
    assert inputs != [] ==> inputs[0] in inputs;
  }

  /** The first `n` files reach the limit, or are all there are, and fewer do not. */
  predicate IsCut(files: seq<File>, n: nat, limit: nat) {
    && 0 < n <= |files|
    && (n > 1 ==> TotalFileSize(files[..n - 1]) < limit)
    && (n < |files| ==> TotalFileSize(files[..n]) >= limit)
  }

  lemma FrontIsStartable(v: Version, level: nat, inputs: seq<File>, n: nat)
    requires Valid(v) && 0 < level < NUM_LEVELS && Startable(v, level, inputs) && 0 < n <= |inputs|
    ensures Startable(v, level, inputs[..n])
  {
    var a: nat, b: nat :| IsRun(v[level], inputs, a, b);
    assert IsRun(v[level], inputs[..n], a, a + n);
  }

  lemma LargestInBounds(v: Version, l: nat)
    requires Valid(v) && l < NUM_LEVELS
    ensures forall f :: f in v[l] ==> f.largest.seqno <= MAX_SEQUENCE
  {
    assert ValidLevel(v, l);
    forall f | f in v[l]
      ensures f.largest.seqno <= MAX_SEQUENCE
    {
      assert f.entries[|f.entries| - 1] in f.entries;
    }
  }
}
