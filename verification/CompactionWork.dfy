/** The merge loop of a compaction: which entries it drops, and the files it writes the others to. */
module CompactionWork {
  import opened Wrappers
  import opened DbFormat
  import opened Tree
  import opened Overlap
  import opened Inputs
  import opened Compaction
  import opened Picking
  import opened OutputCuts

  /** An earlier entry of the same user key is newer and still visible at the oldest snapshot. */
  ghost predicate HiddenAt(input: seq<Entry>, i: nat, oldest: nat)
    requires i < |input|
  {
    exists j :: 0 <= j < i && input[j].key.user == input[i].key.user && input[j].key.seqno <= oldest
  }

  /** A deletion that every snapshot sees, with nothing for its key below the output level. */
  ghost predicate ObsoleteDeletion(v: Version, level: nat, e: Entry, oldest: nat)
    requires |v| == NUM_LEVELS
  {
    e.key.kind.Deletion? && e.key.seqno <= oldest && BaseLevel(v, level, e.key.user)
  }

  ghost predicate DroppedAt(v: Version, level: nat, input: seq<Entry>, i: nat, oldest: nat)
    requires |v| == NUM_LEVELS && i < |input|
  {
    HiddenAt(input, i, oldest) || ObsoleteDeletion(v, level, input[i], oldest)
  }

  /** What is written of the first `n` entries, in order. */
  ghost function Kept(v: Version, level: nat, input: seq<Entry>, n: nat, oldest: nat): seq<Entry>
    requires |v| == NUM_LEVELS && n <= |input|
  {
    if n == 0 then []
    else Kept(v, level, input, n - 1, oldest) +
          (if DroppedAt(v, level, input, n - 1, oldest) then [] else [input[n - 1]])
  }

  lemma {:induction false} InKept(v: Version, level: nat, input: seq<Entry>, n: nat, oldest: nat)
    requires |v| == NUM_LEVELS && n <= |input| && Sorted(input)
    ensures forall e :: e in Kept(v, level, input, n, oldest) <==>
              exists i :: 0 <= i < n && input[i] == e && !DroppedAt(v, level, input, i, oldest)
    ensures Sorted(Kept(v, level, input, n, oldest))
  {
    hide DroppedAt;
    if n > 0 {
      InKept(v, level, input, n - 1, oldest);
      forall e | e in Kept(v, level, input, n, oldest)
        ensures exists i :: 0 <= i < n && input[i] == e && !DroppedAt(v, level, input, i, oldest)
      {
        if e !in Kept(v, level, input, n - 1, oldest) {
          assert e == input[n - 1] && !DroppedAt(v, level, input, n - 1, oldest);
        }
      }
      var was := Kept(v, level, input, n - 1, oldest);
      forall k | 0 <= k < |was|
        ensures Before(was[k].key, input[n - 1].key)
      {
        assert was[k] in was;
      }
    }
  }

  function Concat(files: seq<File>): seq<Entry> {
    if files == [] then [] else Concat(files[..|files| - 1]) + files[|files| - 1].entries
  }

  function MakeFile(number: nat, entries: seq<Entry>, sizeOf: seq<Entry> -> nat): File
    requires entries != []
  {
    File(number, sizeOf(entries), entries[0].key, entries[|entries| - 1].key, entries)
  }

  ghost predicate Written(files: seq<File>, firstNumber: nat, sizeOf: seq<Entry> -> nat) {
    forall i :: 0 <= i < |files| ==>
          files[i].entries != [] && files[i] == MakeFile(firstNumber + i, files[i].entries, sizeOf)
  }

  /** Whether the previous entry hides the next is all the loop has to remember. */
  lemma LastSequenceDecides(input: seq<Entry>, i: nat, oldest: nat)
    requires Sorted(input) && i < |input|
    ensures HiddenAt(input, i, oldest) <==>
              i > 0 && input[i - 1].key.user == input[i].key.user && input[i - 1].key.seqno <= oldest
  {
  }

  lemma KeptStep(v: Version, level: nat, input: seq<Entry>, n: nat, oldest: nat)
    requires |v| == NUM_LEVELS && n < |input|
    ensures Kept(v, level, input, n + 1, oldest) ==
            Kept(v, level, input, n, oldest) + (if DroppedAt(v, level, input, n, oldest) then [] else [input[n]])
  {
  }

  lemma SortedAt(es: seq<Entry>, i: nat, j: nat)
    requires Sorted(es) && i < j < |es|
    ensures Before(es[i].key, es[j].key)
  {
  }

  lemma NothingWritten(v: Version, level: nat, input: seq<Entry>, oldest: nat, firstNumber: nat,
          sizeOf: seq<Entry> -> nat)
    requires |v| == NUM_LEVELS
    ensures Kept(v, level, input, 0, oldest) == [] == Concat([]) && Written([], firstNumber, sizeOf)
  {
  }

  /** Closes the open output file if it has to end here. */
  method FinishOutputIf(end: bool, outputs: seq<File>, builder: seq<Entry>, sizeOf: seq<Entry> -> nat, firstNumber: nat)
    returns (finished: seq<File>, open: seq<Entry>)
    requires Written(outputs, firstNumber, sizeOf)
    ensures Written(finished, firstNumber, sizeOf) && Concat(finished) + open == Concat(outputs) + builder
    ensures end ==> open == []
    ensures !end || builder == [] ==> finished == outputs && open == builder
    ensures end && builder != [] ==> finished == outputs + [MakeFile(firstNumber + |outputs|, builder, sizeOf)]
  {
    finished, open := outputs, builder;
    if end && builder != [] {
      finished, open := outputs + [MakeFile(firstNumber + |outputs|, builder, sizeOf)], [];
      assert finished[..|outputs|] == outputs;
    }
  }

  /** The compaction has passed the first `n` entries: its counter holds the bytes since the last stop. */
  ghost predicate PassedUpTo(c: Compaction, rule: CutRule, input: seq<Entry>, n: nat)
    requires n <= |input|
    reads c`grandparents, c`grandparentIndex, c`seenKey, c`overlappedBytes
  {
    && c.grandparents == rule.grandparents && c.maxGrandparentOverlap == rule.maxOverlap
    && c.grandparentIndex <= |c.grandparents|
    && if n == 0 then !c.seenKey && c.grandparentIndex == c.overlappedBytes == 0
       else
         && c.seenKey && EndBefore(c.grandparents, c.grandparentIndex, input[n - 1].key)
         && c.overlappedBytes ==
            BytesBetween(c.grandparents, input[LastStop(rule, input, n - 1)].key, input[n - 1].key)
  }

  lemma PassedAreBefore(rule: CutRule, input: seq<Entry>, n: nat, i: nat, j: nat)
    requires Sorted(input) && n < |input| && Rising(rule.grandparents) && i <= j <= |rule.grandparents|
    requires n > 0 ==> EndBefore(rule.grandparents, i, input[n - 1].key)
    requires n == 0 ==> i == 0
    requires forall k :: i <= k < j ==> Before(rule.grandparents[k].largest, input[n].key)
    requires j < |rule.grandparents| ==> !Before(rule.grandparents[j].largest, input[n].key)
    ensures EndBefore(rule.grandparents, j, input[n].key)
    ensures n > 0 ==> var s := input[LastStop(rule, input, n - 1)].key;
              BytesBetween(rule.grandparents, s, input[n].key) ==
              BytesBetween(rule.grandparents, s, input[n - 1].key) + PassedBytes(rule.grandparents, i, j)
    ensures BytesBetween(rule.grandparents, input[n].key, input[n].key) == 0
  {
    hide LastStop;
    NoBytes(rule.grandparents, input[n].key);
    if n > 0 {
      PassedOn(rule.grandparents, i, j, input[LastStop(rule, input, n - 1)].key, input[n - 1].key, input[n].key);
    }
  }

  /** Asking before each entry in turn tells just the stops. */
  method StopsBefore(c: Compaction, ghost rule: CutRule, input: seq<Entry>, n: nat) returns (stop: bool)
    requires Sorted(input) && n < |input| && PassedUpTo(c, rule, input, n) && Rising(c.grandparents)
    modifies c`grandparentIndex, c`seenKey, c`overlappedBytes
    ensures stop <==> IsStop(rule, input, n)
    ensures PassedUpTo(c, rule, input, n + 1)
  {
    hide Sorted, BytesBetween, PassedBytes, Rising, EndBefore;
    ghost var i := c.grandparentIndex;
    stop := c.ShouldStopBefore(input[n].key);
    PassedAreBefore(rule, input, n, i, c.grandparentIndex);
  }

  /** Before an entry that is to start a new file. */
  method StopIf(stop: bool, outputs: seq<File>, builder: seq<Entry>, sizeOf: seq<Entry> -> nat, firstNumber: nat,
        ghost rule: CutRule, ghost input: seq<Entry>, ghost n: nat)
    returns (finished: seq<File>, open: seq<Entry>)
    requires n < |input| && (stop <==> IsStop(rule, input, n))
    requires Written(outputs, firstNumber, sizeOf) && Filling(rule, input, outputs, builder, n, n)
    ensures Written(finished, firstNumber, sizeOf) && Filling(rule, input, finished, open, n, n + 1)
    ensures Concat(finished) + open == Concat(outputs) + builder
  {
    hide Written, Filling, Concat, IsStop;
    finished, open := FinishOutputIf(stop, outputs, builder, sizeOf, firstNumber);
    if stop {
      ghost var number := firstNumber + |outputs|;
      ghost var f := if builder == [] then File(number, 0, input[n].key, input[n].key, [])
                     else MakeFile(number, builder, sizeOf);
      StopCloses(rule, input, outputs, f, builder, n);
    } else {
      NoStopGoesOn(rule, input, outputs, builder, n);
    }
  }

  /** Adds an entry to the open file, and closes that once it has reached the limit. */
  method AddEntry(e: Entry, outputs: seq<File>, builder: seq<Entry>, limit: nat, sizeOf: seq<Entry> -> nat,
        firstNumber: nat, ghost rule: CutRule, ghost input: seq<Entry>, ghost n: nat)
    returns (finished: seq<File>, open: seq<Entry>)
    requires Sorted(input) && n < |input| && e == input[n] && rule.maxSize == limit && rule.sizeOf == sizeOf
    requires Written(outputs, firstNumber, sizeOf) && Filling(rule, input, outputs, builder, n, n + 1)
    ensures Written(finished, firstNumber, sizeOf) && Filling(rule, input, finished, open, n + 1, n + 1)
    ensures Concat(finished) + open == Concat(outputs) + builder + [e]
  {
    hide Written, Filling, Concat, Sorted;
    ghost var f := MakeFile(firstNumber + |outputs|, builder + [e], sizeOf);
    AddedGoesOn(rule, input, outputs, f, builder, n);
    finished, open := FinishOutputIf(sizeOf(builder + [e]) >= limit, outputs, builder + [e], sizeOf, firstNumber);
    assert Concat(outputs) + (builder + [e]) == Concat(outputs) + builder + [e];
  }

  /** Drops what a newer entry hides from every snapshot, and deletions that hide nothing. */
  method DropDecision(c: Compaction, input: seq<Entry>, i: nat, lastSequenceForKey: nat, oldest: nat)
    returns (drop: bool)
    requires Valid(c.inputVersion) && i < |input| && c.CursorsBefore(input[i].key.user)
    requires lastSequenceForKey <= oldest <==> HiddenAt(input, i, oldest)
    modifies c`levelPtrs
    ensures c.CursorsBefore(input[i].key.user)
    ensures drop <==> DroppedAt(c.inputVersion, c.level, input, i, oldest)
  {
    hide Valid, BaseLevel, HiddenAt;
    drop := false;
    if lastSequenceForKey <= oldest {
      drop := true;
    } else if input[i].key.kind.Deletion? && input[i].key.seqno <= oldest {
      drop := c.IsBaseLevelForKey(input[i].key.user);
    }
  }

  /** Takes up one entry of the input: may close the open file before it, and adds it to that file unless it is dropped.
      `lastSequenceForKey` is the number of the entry before it, if that has the same user key. */
  method TakeEntry(c: Compaction, input: seq<Entry>, i: nat, lastSequenceForKey: nat, oldest: nat, outputs: seq<File>,
        builder: seq<Entry>, limit: nat, sizeOf: seq<Entry> -> nat, firstNumber: nat, ghost rule: CutRule)
    returns (finished: seq<File>, open: seq<Entry>)
    requires Valid(c.inputVersion) && Sorted(input) && i < |input| && c.CursorsBefore(input[i].key.user)
    requires lastSequenceForKey <= oldest <==> HiddenAt(input, i, oldest)
    requires rule.maxSize == limit && rule.sizeOf == sizeOf && Rising(rule.grandparents)
    requires PassedUpTo(c, rule, input, i)
    requires Written(outputs, firstNumber, sizeOf) && Filling(rule, input, outputs, builder, i, i)
    modifies c`levelPtrs, c`grandparentIndex, c`seenKey, c`overlappedBytes
    ensures c.CursorsBefore(input[i].key.user) && PassedUpTo(c, rule, input, i + 1)
    ensures Written(finished, firstNumber, sizeOf) && Filling(rule, input, finished, open, i + 1, i + 1)
    ensures Concat(finished) + open ==
            Concat(outputs) + builder +
                  (if DroppedAt(c.inputVersion, c.level, input, i, oldest) then [] else [input[i]])
  {
    hide Valid, BaseLevel, Concat, Written, HiddenAt, DroppedAt, c.CursorsBefore, Filling, Sorted, IsStop, LastStop,
         BytesBetween, Rising, EndBefore;
    var stop := StopsBefore(c, rule, input, i);
    finished, open := StopIf(stop, outputs, builder, sizeOf, firstNumber, rule, input, i);
    var drop := DropDecision(c, input, i, lastSequenceForKey, oldest);
    if drop {
      DroppedGoesOn(rule, input, finished, open, i);
    } else {
      finished, open := AddEntry(input[i], finished, open, limit, sizeOf, firstNumber, rule, input, i);
    }
  }

  /** The files that a compaction overlaps two levels down end one after another. */
  lemma GrandparentsRise(v: Version, level: nat, in0: seq<File>, in1: seq<File>)
    requires Valid(v)
    ensures Rising(Grandparents(v, level, in0, in1))
  {
    if level + 2 < |v| && in0 != [] {
      var b, e := Some(SmallestKey(in0 + in1).user), Some(LargestKey(in0 + in1).user);
      LevelRanged(v, level + 2);
      var files := v[level + 2];
      hide Valid, Disjoint, AllRanged, OverlappingFiles, SmallestKey, LargestKey;
      assert files[..|files|] == files;
      OverlappingIsRun(files, |files|, b, e);
      if OverlappingFiles(files, b, e) != [] {
        var lo: nat, hi: nat :| IsRun(files, OverlappingFiles(files, b, e), lo, hi);
        RunRises(files, lo, hi);
      }
    }
  }

  lemma RunRises(files: seq<File>, lo: nat, hi: nat)
    requires AllRanged(files) && Disjoint(files) && lo <= hi <= |files|
    ensures Rising(files[lo..hi])
  {
    forall i, j | lo <= i < j < hi
      ensures Before(files[i].largest, files[j].largest)
    {
      assert Ranged(files[j]);
    }
  }

  /** Every file written lies between two entries of the input. */
  lemma OutputsLieInInput(v: Version, level: nat, input: seq<Entry>, oldest: nat, outputs: seq<File>,
          firstNumber: nat, sizeOf: seq<Entry> -> nat)
    requires |v| == NUM_LEVELS && Sorted(input) && Written(outputs, firstNumber, sizeOf)
    requires Concat(outputs) == Kept(v, level, input, |input|, oldest)
    ensures forall g :: g in outputs ==> exists i, j :: 0 <= i <= j < |input| && g.smallest == input[i].key &&
                                                        g.largest == input[j].key
  {
    hide Kept, DroppedAt, Concat, Sorted, Written;
    InKept(v, level, input, |input|, oldest);
    forall g | g in outputs
      ensures exists i, j :: 0 <= i <= j < |input| && g.smallest == input[i].key && g.largest == input[j].key
    {
      var k :| 0 <= k < |outputs| && outputs[k] == g;
      var first, last := EndsInConcat(outputs, k, firstNumber, sizeOf);
      assert Concat(outputs)[first] in Concat(outputs) && Concat(outputs)[last] in Concat(outputs);
      InOrderInInput(Concat(outputs), input, first, last);
    }
  }

  lemma EndsInConcat(files: seq<File>, k: nat, firstNumber: nat, sizeOf: seq<Entry> -> nat)
    returns (first: nat, last: nat)
    requires k < |files| && Written(files, firstNumber, sizeOf)
    ensures first <= last < |Concat(files)|
    ensures files[k].smallest == Concat(files)[first].key && files[k].largest == Concat(files)[last].key
  {
    hide Concat;
    first := PlaceInConcat(files, k);
    last := first + |files[k].entries| - 1;
    assert last - first == |files[k].entries| - 1 && Concat(files)[first + 0] == files[k].entries[0];
    assert Concat(files)[first + (last - first)] == files[k].entries[last - first];
  }

  lemma InOrderInInput(es: seq<Entry>, input: seq<Entry>, first: nat, last: nat)
    requires Sorted(es) && Sorted(input) && first <= last < |es| && es[first] in input && es[last] in input
    ensures exists i, j :: 0 <= i <= j < |input| && input[i].key == es[first].key && input[j].key == es[last].key
  {
    var i: nat :| i < |input| && input[i] == es[first];
    var j: nat :| j < |input| && input[j] == es[last];
    if j < i {
      assert Before(input[j].key, input[i].key);
      assert first == last;
      assert input[i].key == es[first].key && input[i].key == es[last].key;
    }
  }

  lemma {:induction false} PlaceInConcat(files: seq<File>, k: nat) returns (p: nat)
    requires k < |files|
    ensures p + |files[k].entries| <= |Concat(files)|
    ensures forall i :: 0 <= i < |files[k].entries| ==> Concat(files)[p + i] == files[k].entries[i]
  {
    var n := |files| - 1;
    if k == n {
      p := |Concat(files[..n])|;
    } else {
      p := PlaceInConcat(files[..n], k);
    }
  }

  lemma BeginsAtNothing(c: Compaction, rule: CutRule, input: seq<Entry>)
    requires Valid(c.inputVersion) && c.Ready()
    requires rule.grandparents == c.grandparents && rule.maxOverlap == c.maxGrandparentOverlap
    ensures PassedUpTo(c, rule, input, 0) && Rising(rule.grandparents) && Filling(rule, input, [], [], 0, 0)
  {
    hide Valid, GoodInputs, Grandparents;
    GrandparentsRise(c.inputVersion, c.level, c.inputs0, c.inputs1);
    NothingFilled(rule, input);
  }

  /** Merges the sorted input into new files of numbers firstNumber, firstNumber + 1, ...; a file is closed when it
      grows too large or overlaps too much of the level below the output. */
  method DoCompactionWork(c: Compaction, input: seq<Entry>, oldest: nat, maxOutputFileSize: nat,
        sizeOf: seq<Entry> -> nat, firstNumber: nat)
    returns (outputs: seq<File>)
    requires Valid(c.inputVersion) && c.Ready()
    requires Sorted(input) && oldest < MAX_SEQUENCE
    modifies c`levelPtrs, c`grandparentIndex, c`seenKey, c`overlappedBytes
    ensures Written(outputs, firstNumber, sizeOf)
    ensures Concat(outputs) == Kept(c.inputVersion, c.level, input, |input|, oldest)
    ensures FilledUp(outputs, input, CutRule(c.grandparents, c.maxGrandparentOverlap, maxOutputFileSize, sizeOf))
  {
    hide Valid, GoodInputs, BaseLevel, Kept, Concat, Written, HiddenAt, DroppedAt, ObsoleteDeletion, c.CursorsBefore,
         Sorted, Filling, FilledUp, PassedUpTo, Grandparents, c.Ready, Rising;
    ghost var rule := CutRule(c.grandparents, c.maxGrandparentOverlap, maxOutputFileSize, sizeOf);
    c.ReadyToWork(if input == [] then 0.0 else input[0].key.user);
    NothingWritten(c.inputVersion, c.level, input, oldest, firstNumber, sizeOf);
    BeginsAtNothing(c, rule, input);
    outputs := [];
    var builder: seq<Entry> := [];
    var currentUserKey := None;
    var lastSequenceForKey := MAX_SEQUENCE;
    var i := 0;
    while i < |input|
      invariant 0 <= i <= |input| && PassedUpTo(c, rule, input, i)
      invariant currentUserKey == if i == 0 then None else Some(input[i - 1].key.user)
      invariant i > 0 ==> lastSequenceForKey == input[i - 1].key.seqno
      invariant i < |input| ==> c.CursorsBefore(input[i].key.user)
      invariant Written(outputs, firstNumber, sizeOf) && Filling(rule, input, outputs, builder, i, i)
      invariant Concat(outputs) + builder == Kept(c.inputVersion, c.level, input, i, oldest)
    {
      var e := input[i];
      if currentUserKey != Some(e.key.user) {
        currentUserKey := Some(e.key.user);
        lastSequenceForKey := MAX_SEQUENCE;
      }
      LastSequenceDecides(input, i, oldest);
      KeptStep(c.inputVersion, c.level, input, i, oldest);
      outputs, builder := TakeEntry(c, input, i, lastSequenceForKey, oldest, outputs, builder, maxOutputFileSize,
                                    sizeOf, firstNumber, rule);
      lastSequenceForKey := e.key.seqno;
      i := i + 1;
      if i < |input| {
        SortedAt(input, i - 1, i);
        c.LaterKeyKeepsCursors(e.key.user, input[i].key.user);
      }
    }
    ghost var closed, open := outputs, builder;
    outputs, builder := FinishOutputIf(true, outputs, builder, sizeOf, firstNumber);
    OutputsLieInInput(c.inputVersion, c.level, input, oldest, outputs, firstNumber, sizeOf);
    FilledInTheEnd(rule, input, closed, if open == [] then File(0, 0, LookupKey(0.0, 0), LookupKey(0.0, 0), [])
                                        else MakeFile(firstNumber + |closed|, open, sizeOf), open, outputs);
  }
}
