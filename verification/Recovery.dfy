/** Recovery after a crash: the manifest of a run, cut at any byte, gives back a version that was current during the
    run. */
module Recovery {
  import opened Wrappers
  import opened DbFormat
  import opened Tree
  import opened Builder
  import opened CompactionWork
  import opened CompactionReads
  import opened Background
  import opened Install
  import opened Database
  import opened Manifest
  import Edits = VersionEdit
  import Log
  import Picking

  const NO_CHANGE := FileEdit({}, [])

  /** The change of files that an action logs and applies. */
  function EditOf(s: State, a: Action): Option<FileEdit> {
    match a
    case Flushed(level, f) => Some(if s.imm == Some({}) then NO_CHANGE else FlushEdit(level, f))
    case Moved(level, f) => Some(CompactionEdit(level, [f], [], [f]))
    case Compacted(job, outputs, _) => Some(CompactionEdit(job.level, job.in0, job.in1, outputs))
    case _ => None
  }

  // ---- a file number never comes back to a level ----

  /** A builder that takes in the edits has or had a file of this number in the level. */
  ghost predicate Held(es: seq<FileEdit>, l: nat, n: nat) {
    exists i :: 0 <= i < |es| && n in NumbersOf(NewAt(es[i].newFiles, l))
  }

  /** Numbers are handed out once, and files only move down: where a number was held, its file now is no higher up. */
  ghost predicate OnlyDown(v: Version, es: seq<FileEdit>, next: nat)
    requires |v| == NUM_LEVELS
  {
    forall l, n: nat :: 0 <= l < NUM_LEVELS && Held(es, l, n) ==>
      n < next && NotAbove(v, l, n)
  }

  ghost predicate NotAbove(v: Version, l: nat, n: nat)
    requires |v| == NUM_LEVELS
  {
    forall m, f :: 0 <= m < NUM_LEVELS && f in v[m] && f.number == n ==> l <= m
  }

  predicate ComesFromAbove(v: Version, level: nat, f: File)
    requires level <= |v|
  {
    exists m :: 0 <= m < level && f in v[m]
  }

  /** What an edit does that places files at one level: each is new or comes from higher up. */
  ghost predicate Places(v: Version, w: Version, e: FileEdit, level: nat, files: seq<File>, next: nat, next': nat)
    requires |v| == |w| == NUM_LEVELS
  {
    && next <= next' && level < NUM_LEVELS
    && (forall l :: 0 <= l < NUM_LEVELS ==> NewAt(e.newFiles, l) == if l == level then files else [])
    && (forall i, j :: 0 <= i < j < |files| ==> files[i].number != files[j].number)
    && (forall f :: f in files ==> f.number < next' && (next <= f.number || ComesFromAbove(v, level, f)))
    && (forall l, f :: 0 <= l < NUM_LEVELS && f in w[l] ==>
          (l == level && f in files) || (f in v[l] && f.number < next && f.number !in NumbersOf(files)))
  }

  lemma NotBackAgain(v: Version, w: Version, es: seq<FileEdit>, e: FileEdit, level: nat, files: seq<File>, next: nat,
          next': nat, l: nat)
    requires |v| == |w| == NUM_LEVELS && l < NUM_LEVELS
    requires OnlyDown(v, es, next) && Places(v, w, e, level, files, next, next')
    ensures AddsFresh(NO_FILES[l], Fold(es, l), NewAt(e.newFiles, l))
  {
    hide Fold, NewAt;
    assert NO_FILES[l] == [];
    forall f, n | f in Fold(es, l).added && n in NewAt(e.newFiles, l)
      ensures f.number != n.number
    {
      AddedIsHeld(es, l, f);
    }
  }

  lemma {:induction false} AddedIsHeld(es: seq<FileEdit>, l: nat, f: File)
    requires f in Fold(es, l).added
    ensures Held(es, l, f.number)
  {
    hide AddAll, DeletedAt, NewAt;
    if es != [] {
      var n := |es| - 1;
      var s := Fold(es[..n], l);
      FoldInOrder(es[..n], l);
      AddAllKeepsOrder(LevelState(s.deleted + DeletedAt(es[n], l), s.added), NewAt(es[n].newFiles, l));
      if f in s.added {
        AddedIsHeld(es[..n], l, f);
        var i :| 0 <= i < n && f.number in NumbersOf(NewAt(es[..n][i].newFiles, l));
        assert es[i] == es[..n][i];
      } else {
        assert f.number in NumbersOf(NewAt(es[n].newFiles, l));
      }
    }
  }

  lemma HeldMore(es: seq<FileEdit>, e: FileEdit, l: nat, n: nat)
    ensures Held(es + [e], l, n) <==> Held(es, l, n) || n in NumbersOf(NewAt(e.newFiles, l))
  {
    hide NewAt, NumbersOf;
    var all := es + [e];
    assert all[|es|] == e;
    if i :| 0 <= i < |all| && n in NumbersOf(NewAt(all[i].newFiles, l)) {
      if i < |es| {
        assert es[i] == all[i];
      }
    }
    if i :| 0 <= i < |es| && n in NumbersOf(NewAt(es[i].newFiles, l)) {
      assert es[i] == all[i];
    }
  }

  lemma StaysDown(v: Version, w: Version, es: seq<FileEdit>, e: FileEdit, level: nat, files: seq<File>, next: nat,
          next': nat)
    requires |v| == |w| == NUM_LEVELS
    requires OnlyDown(v, es, next) && Places(v, w, e, level, files, next, next')
    ensures OnlyDown(w, es + [e], next')
  {
    hide Held, NewAt;
    forall l, n: nat | 0 <= l < NUM_LEVELS && Held(es + [e], l, n)
      ensures n < next' && NotAbove(w, l, n)
    {
      HeldMore(es, e, l, n);
    }
  }

  // ---- the edits of a run ----

  lemma NothingChanges(v: Version, next: nat)
    requires Valid(v) && NumbersBelow(v, next)
    ensures NextVersion(v, NO_CHANGE) == v && Places(v, v, NO_CHANGE, 0, [], next, next)
  {
    hide Flat, Unique, ApplyLevel, SaveLevel, ValidFile, NewerFiles;
    forall l | 0 <= l < NUM_LEVELS
      ensures SaveLevel(v[l], ApplyLevel(EMPTY_LEVEL, NO_CHANGE, l)) == v[l]
    {
      assert ValidLevel(v, l);
      LevelUnchanged(v[l], l);
    }
  }

  lemma LevelUnchanged(fs: seq<File>, l: nat)
    requires InOrder(fs)
    ensures SaveLevel(fs, ApplyLevel(EMPTY_LEVEL, NO_CHANGE, l)) == fs
  {
    hide SaveLevel, ApplyLevel;
    ApplyToSaved(fs, NO_CHANGE, l);
    OrderedListsAgree(SaveLevel(fs, ApplyLevel(EMPTY_LEVEL, NO_CHANGE, l)), fs);
  }

  lemma FlushPlaces(s: State, t: State, level: nat, f: File)
    requires s.Inv() && Flush(s, t, level, f) && s.imm != Some({})
    ensures |s.version| == |t.version| == NUM_LEVELS
    ensures Places(s.version, t.version, FlushEdit(level, f), level, [f], s.nextFile, t.nextFile)
  {
    hide Valid, Flat, SaveLevel, ApplyLevel, NewestFile, ValidFile, NewerEntries;
    Picking.LevelRanged(s.version, 0);
    FlushedIsNewest(s, f);
    FlushInstalls(s.version, level, f);
    forall l | 0 <= l < NUM_LEVELS
      ensures NewAt(FlushEdit(level, f).newFiles, l) == if l == level then [f] else []
    {
      assert FlushEdit(level, f).newFiles == PlacedAt(level, [f]);
      NewAtPlaced(level, [f], l);
    }
  }

  lemma MovePlaces(s: State, t: State, level: nat, f: File)
    requires s.Inv() && TrivialMove(s, t, level, f)
    ensures |s.version| == |t.version| == NUM_LEVELS
    ensures Places(s.version, t.version, CompactionEdit(level, [f], [], [f]), level + 1, [f], s.nextFile, t.nextFile)
  {
    hide Valid, Flat, SaveLevel, ApplyLevel, NewerEntries, Replaces, Picking.StayersNewer;
    Picking.LevelRanged(s.version, 0);
    TrivialMoveInstalls(s.version, level, f);
    assert f in [f] && [f][0] == f;
    assert f in s.version[level] && f.number < s.nextFile;
    assert ComesFromAbove(s.version, level + 1, f);
    forall l, g | 0 <= l < NUM_LEVELS && g in t.version[l]
      ensures (l == level + 1 && g in [f]) ||
              (g in s.version[l] && g.number < s.nextFile && g.number !in NumbersOf([f]))
    {
      InReplaced(s.version, t.version, level, [f], [], [f], l, g);
      if !(l == level + 1 && g in [f]) && g.number == f.number {
        NumberDeterminesFile(s.version, level, f, l, g);
      }
    }
    forall l | 0 <= l < NUM_LEVELS
      ensures NewAt(CompactionEdit(level, [f], [], [f]).newFiles, l) == if l == level + 1 then [f] else []
    {
      NewAtPlaced(level + 1, [f], l);
    }
  }

  lemma ReplacedShape(v: Version, w: Version, level: nat, in0: seq<File>, in1: seq<File>, outputs: seq<File>)
    requires Replaces(v, w, level, in0, in1, outputs)
    ensures |v| == |w| == NUM_LEVELS
  {
  }

  lemma OutputNumbers(outputs: seq<File>, first: nat, sizeOf: seq<Entry> -> nat)
    requires Written(outputs, first, sizeOf)
    ensures forall o :: o in outputs ==> first <= o.number < first + |outputs|
    ensures forall i, j :: 0 <= i < j < |outputs| ==> outputs[i].number != outputs[j].number
  {
    assert forall i :: 0 <= i < |outputs| ==> outputs[i].number == first + i;
  }

  lemma OutputsPlaced(job: Job, outputs: seq<File>)
    ensures forall l :: 0 <= l < NUM_LEVELS ==>
              NewAt(CompactionEdit(job.level, job.in0, job.in1, outputs).newFiles, l) ==
                    if l == job.level + 1 then outputs else []
  {
    forall l | 0 <= l < NUM_LEVELS
      ensures NewAt(CompactionEdit(job.level, job.in0, job.in1, outputs).newFiles, l) ==
                if l == job.level + 1 then outputs else []
    {
      NewAtPlaced(job.level + 1, outputs, l);
    }
  }

  lemma CompactLeaves(s: State, t: State, job: Job, outputs: seq<File>, sizeOf: seq<Entry> -> nat)
    requires s.Inv() && Compact(s, t, job, outputs, sizeOf)
    ensures job.level + 1 < NUM_LEVELS && job.v == s.version
    ensures Replaces(s.version, t.version, job.level, job.in0, job.in1, outputs)
  {
    hide Valid, Flat, NextVersion, CompactionEdit, NewerEntries, Replaces, Picking.GoodInputs, Kept, Written, Unique,
         Job.After;
    JobShape(job);
    NumbersUsable(s);
    CompactionInstalls(job, outputs, s.nextFile, sizeOf);
  }

  lemma LeftInPlace(v: Version, w: Version, level: nat, in0: seq<File>, in1: seq<File>, outputs: seq<File>, n: nat,
          l: nat, f: File)
    requires Replaces(v, w, level, in0, in1, outputs) && NumbersBelow(v, n) && l < NUM_LEVELS && f in w[l]
    requires forall o :: o in outputs ==> n <= o.number
    ensures (l == level + 1 && f in outputs) || (f in v[l] && f.number < n && f.number !in NumbersOf(outputs))
  {
    hide Replaces;
    InReplaced(v, w, level, in0, in1, outputs, l, f);
  }

  lemma CompactPlaces(s: State, t: State, job: Job, outputs: seq<File>, sizeOf: seq<Entry> -> nat)
    requires s.Inv() && Compact(s, t, job, outputs, sizeOf)
    ensures |s.version| == |t.version| == NUM_LEVELS
    ensures Places(s.version, t.version, CompactionEdit(job.level, job.in0, job.in1, outputs), job.level + 1, outputs,
                   s.nextFile, t.nextFile)
  {
    hide Valid, Flat, NextVersion, CompactionEdit, NewerEntries, Unique, NumbersBelow, Concat, Job.Ok, Job.Output,
         Written, NewAt, NumbersOf, Replaces;
    CompactLeaves(s, t, job, outputs, sizeOf);
    ReplacedShape(s.version, t.version, job.level, job.in0, job.in1, outputs);
    OutputNumbers(outputs, s.nextFile, sizeOf);
    OutputsPlaced(job, outputs);
    forall l, f | 0 <= l < NUM_LEVELS && f in t.version[l]
      ensures (l == job.level + 1 && f in outputs) ||
              (f in s.version[l] && f.number < s.nextFile && f.number !in NumbersOf(outputs))
    {
      LeftInPlace(s.version, t.version, job.level, job.in0, job.in1, outputs, s.nextFile, l, f);
    }
  }

  /** An action that logs an edit leaves the version that the edit leads to; any other leaves the version alone. */
  lemma EditIsStep(s: State, a: Action, t: State)
    requires s.Inv() && Step(s, a, t)
    ensures |s.version| == |t.version| == NUM_LEVELS
    ensures EditOf(s, a) == None ==> t.version == s.version && t.nextFile == s.nextFile
    ensures EditOf(s, a).Some? ==>
              && t.version == NextVersion(s.version, EditOf(s, a).value)
              && exists level, files ::
                    Places(s.version, t.version, EditOf(s, a).value, level, files, s.nextFile, t.nextFile)
  {
    hide Valid, Flat, NextVersion, CompactionEdit, FlushEdit, NewerEntries, Unique, NumbersBelow, Places, MayPlace,
         ValidFile, Picking.GoodInputs, Written, Job.Ok;
    Picking.LevelRanged(s.version, 0);
    match a
    case Flushed(level, f) =>
      if s.imm == Some({}) {
        NothingChanges(s.version, s.nextFile);
      } else {
        FlushPlaces(s, t, level, f);
      }
    case Moved(level, f) => MovePlaces(s, t, level, f);
    case Compacted(job, outputs, sizeOf) => CompactPlaces(s, t, job, outputs, sizeOf);
    case _ =>
  }

  // ---- the records of a run ----

  /** The counters that the record of a step to `t` holds. */
  predicate Counts(r: Edits.Edit, t: State) {
    && r.logNumber.Some?
    && r.lastSequence == Some(t.lastSequence)
    && r.nextFileNumber.Some? && t.nextFile <= r.nextFileNumber.value
  }

  /** The records a manifest starts with: they name no file. */
  ghost predicate Heads(rs: seq<Edits.Edit>, fileOf: Files) {
    forall i :: 0 <= i < |rs| ==>
          FilesOf(rs[i], fileOf) == NO_CHANGE && (rs[i].lastSequence == None || rs[i].lastSequence == Some(0))
  }

  /** The manifest has one record for each action of the run that logs an edit. */
  ghost predicate Records(states: seq<State>, actions: seq<Action>, rs: seq<Edits.Edit>, fileOf: Files)
    requires |states| == |actions| + 1
    decreases |actions|
  {
    if actions == [] then Heads(rs, fileOf)
    else
      var n := |actions| - 1;
      match EditOf(states[n], actions[n])
      case None => Records(states[..n + 1], actions[..n], rs, fileOf)
      case Some(e) =>
        && rs != []
        && FilesOf(rs[|rs| - 1], fileOf) == e && Counts(rs[|rs| - 1], states[n + 1])
        && Records(states[..n + 1], actions[..n], rs[..|rs| - 1], fileOf)
  }

  /** Up to each record there is a state of the run that the records so far lead to. */
  lemma {:induction false} RecordsUpTo(states: seq<State>, actions: seq<Action>, rs: seq<Edits.Edit>, k: nat,
          fileOf: Files)
    returns (j: nat)
    requires |states| == |actions| + 1 && Records(states, actions, rs, fileOf) && k <= |rs|
    ensures j <= |actions| && Records(states[..j + 1], actions[..j], rs[..k], fileOf)
    ensures j > 0 ==> k > 0 && Counts(rs[k - 1], states[j])
    decreases |actions|
  {
    hide Counts, FilesOf;
    if actions == [] {
      j := 0;
      assert states[..1] == states && actions[..0] == actions;
    } else {
      var n := |actions| - 1;
      match EditOf(states[n], actions[n])
      case None =>
        j := RecordsUpTo(states[..n + 1], actions[..n], rs, k, fileOf);
        Prefixes(states, actions, n, j);
      case Some(e) =>
        if k == |rs| {
          j := n + 1;
          assert states[..j + 1] == states && actions[..j] == actions && rs[..k] == rs;
        } else {
          j := RecordsUpTo(states[..n + 1], actions[..n], rs[..|rs| - 1], k, fileOf);
          Prefixes(states, actions, n, j);
          assert rs[..|rs| - 1][..k] == rs[..k];
        }
    }
  }

  lemma Prefixes(states: seq<State>, actions: seq<Action>, n: nat, j: nat)
    requires |states| == |actions| + 1 && j <= n <= |actions|
    ensures states[..n + 1][..j + 1] == states[..j + 1] && actions[..n][..j] == actions[..j] &&
            states[..n + 1][j] == states[j]
  {
  }

  lemma {:induction false} HeadsChangeNothing(rs: seq<Edits.Edit>, fileOf: Files)
    requires Heads(rs, fileOf)
    ensures Tracks(NO_FILES, NO_FILES, AllFilesOf(rs, fileOf), 0)
    ensures LastOf(rs, (e: Edits.Edit) => e.lastSequence) in {None, Some(0)}
  {
    hide Tracks, FilesOf, Heads;
    if rs == [] {
      assert AllFilesOf(rs, fileOf) == [];
      NothingTracked();
    } else {
      var n := |rs| - 1;
      HeadsShorter(rs, fileOf);
      HeadsChangeNothing(rs[..n], fileOf);
      FilesMore(rs, fileOf);
      EmptyTreeIsValid(NO_FILES);
      NothingChanges(NO_FILES, 0);
      Tracked(NO_FILES, NO_FILES, AllFilesOf(rs[..n], fileOf), NO_CHANGE, 0, [], 0, 0);
    }
  }

  lemma HeadsShorter(rs: seq<Edits.Edit>, fileOf: Files)
    requires Heads(rs, fileOf) && rs != []
    ensures var n := |rs| - 1;
      Heads(rs[..n], fileOf) && FilesOf(rs[n], fileOf) == NO_CHANGE && rs[n].lastSequence in {None, Some(0)}
  {
    hide FilesOf;
  }

  lemma FilesMore(rs: seq<Edits.Edit>, fileOf: Files)
    requires rs != []
    ensures var n := |rs| - 1; AllFilesOf(rs, fileOf) == AllFilesOf(rs[..n], fileOf) + [FilesOf(rs[n], fileOf)]
  {
    hide FilesOf;
  }

  /** The edits lead from `start` to `v`, and add no file number twice to a level. */
  ghost predicate Tracks(start: Version, v: Version, es: seq<FileEdit>, next: nat)
    requires |start| == NUM_LEVELS
  {
    && |v| == NUM_LEVELS && Replay(start, es) == v
    && OnlyDown(v, es, next)
    && forall l :: 0 <= l < NUM_LEVELS ==> NeverReadded(start, es, l)
  }

  lemma NothingTracked()
    ensures Tracks(NO_FILES, NO_FILES, [], 0)
  {
  }

  lemma OneMoreFresh(start: Version, es: seq<FileEdit>, e: FileEdit, l: nat)
    requires l < |start| && NeverReadded(start, es, l) && AddsFresh(start[l], Fold(es, l), NewAt(e.newFiles, l))
    ensures NeverReadded(start, es + [e], l)
  {
    hide AddsFresh, Fold, NewAt;
    var all := es + [e];
    forall i | 0 <= i < |all|
      ensures AddsFresh(start[l], Fold(all[..i], l), NewAt(all[i].newFiles, l))
    {
      if i < |es| {
        assert all[..i] == es[..i] && all[i] == es[i];
      } else {
        assert all[..i] == es && all[i] == e;
      }
    }
  }

  lemma Tracked(v: Version, w: Version, es: seq<FileEdit>, e: FileEdit, level: nat, files: seq<File>, next: nat,
          next': nat)
    requires Tracks(NO_FILES, v, es, next) && |w| == NUM_LEVELS && Places(v, w, e, level, files, next, next') &&
             w == NextVersion(v, e)
    ensures Tracks(NO_FILES, w, es + [e], next')
  {
    hide Places, OnlyDown, AddsFresh, Fold, NextVersion, NewAt;
    assert (es + [e])[..|es|] == es;
    forall l | 0 <= l < NUM_LEVELS
      ensures NeverReadded(NO_FILES, es + [e], l)
    {
      NotBackAgain(v, w, es, e, level, files, next, next', l);
      OneMoreFresh(NO_FILES, es, e, l);
    }
    StaysDown(v, w, es, e, level, files, next, next');
  }

  /** The records of a run lead to the version the run has reached. */
  lemma {:induction false} RunIsTracked(states: seq<State>, actions: seq<Action>, rs: seq<Edits.Edit>, fileOf: Files)
    requires Run(states, actions) && states[0] == Initial() && Records(states, actions, rs, fileOf)
    ensures var t := states[|actions|]; t.Inv() && Tracks(NO_FILES, t.version, AllFilesOf(rs, fileOf), t.nextFile)
    decreases |actions|
  {
    hide Tracks, State.Inv, Step, FilesOf, Heads, Counts, EditOf, Places, AllFilesOf, NextVersion;
    InitialInv();
    RunKeepsInv(states, actions);
    if actions == [] {
      HeadsChangeNothing(rs, fileOf);
      MoreNumbers(NO_FILES, AllFilesOf(rs, fileOf), 0, Initial().nextFile);
      assert Initial().version == NO_FILES;
    } else {
      var n := |actions| - 1;
      var s, t := states[n], states[n + 1];
      RunKeepsInv(states[..n + 1], actions[..n]);
      EditIsStep(s, actions[n], t);
      match EditOf(s, actions[n])
      case None => RunIsTracked(states[..n + 1], actions[..n], rs, fileOf);
      case Some(e) =>
        RunIsTracked(states[..n + 1], actions[..n], rs[..|rs| - 1], fileOf);
        FilesMore(rs, fileOf);
        var level, files :| Places(s.version, t.version, e, level, files, s.nextFile, t.nextFile);
        Tracked(s.version, t.version, AllFilesOf(rs[..|rs| - 1], fileOf), e, level, files, s.nextFile, t.nextFile);
    }
  }

  lemma MoreNumbers(v: Version, es: seq<FileEdit>, next: nat, next': nat)
    requires Tracks(NO_FILES, v, es, next) && next <= next'
    ensures Tracks(NO_FILES, v, es, next')
  {
    hide Replay, NeverReadded, Held;
  }

  // ---- the crash ----

  /** The state the database comes up in: the recovered tables and counters, no snapshots, and memtables yet to be
      filled from the log of writes. */
  function Restarted(r: Outcome): State
    requires r.Recovered?
  {
    State({}, None, r.v, r.lastSequence, [], r.nextFile)
  }

  /** What the records up to some state of a run rebuild is the version of that state, and the invariant holds again. */
  lemma RebuiltIsReached(states: seq<State>, actions: seq<Action>, rs: seq<Edits.Edit>, fileOf: Files)
    requires Run(states, actions) && states[0] == Initial() && Records(states, actions, rs, fileOf)
    requires actions != [] ==> rs != [] && Counts(rs[|rs| - 1], states[|actions|])
    ensures actions != [] ==> Rebuilt(rs, fileOf).Recovered?
    ensures var r := Rebuilt(rs, fileOf);
      r.Recovered? ==> r.v == states[|actions|].version && Restarted(r).Inv()
  {
    hide State.Inv, Step, AllFilesOf, Replay, NeverReadded, OnlyDown, FilesOf, Rebuilt, Counts;
    var t := states[|actions|];
    RunIsTracked(states, actions, rs, fileOf);
    var r := Rebuilt(rs, fileOf);
    if actions != [] {
      CountersRebuilt(rs, t, fileOf);
    }
    if r.Recovered? {
      RebuiltIsReplay(rs, fileOf);
      if actions == [] {
        HeadsRebuilt(rs, fileOf);
        FirstStateInv(Restarted(r));
      } else {
        FewerEntriesInv(t, Restarted(r));
      }
    }
  }

  lemma CountersRebuilt(rs: seq<Edits.Edit>, t: State, fileOf: Files)
    requires rs != [] && Counts(rs[|rs| - 1], t)
    ensures var r := Rebuilt(rs, fileOf); r.Recovered? && r.lastSequence == t.lastSequence && t.nextFile <= r.nextFile
  {
    hide Fold, SaveLevel, AllFilesOf;
  }

  lemma HeadsRebuilt(rs: seq<Edits.Edit>, fileOf: Files)
    requires Heads(rs, fileOf) && Rebuilt(rs, fileOf).Recovered?
    ensures Rebuilt(rs, fileOf).lastSequence == 0
  {
    hide Fold, SaveLevel, AllFilesOf, FilesOf;
    HeadsChangeNothing(rs, fileOf);
  }

  lemma FirstStateInv(s: State)
    requires s.version == NO_FILES && s.mem == {} && s.imm == None && s.snapshots == [] && s.lastSequence == 0
    ensures s.Inv()
  {
    EmptyTreeIsValid(s.version);
    hide Valid, Flat;
  }

  lemma FewerEntriesInv(t: State, s: State)
    requires t.Inv() && s == State({}, None, t.version, t.lastSequence, [], s.nextFile) && t.nextFile <= s.nextFile
    ensures s.Inv()
  {
    hide Valid, Flat;
    assert s.All() <= t.All();
  }

  lemma OneVersion(states: seq<State>, actions: seq<Action>, j: nat, rs: seq<Edits.Edit>, fileOf: Files)
    requires Run(states, actions) && states[0] == Initial() && Records(states, actions, rs, fileOf)
    requires j <= |actions| && Records(states[..j + 1], actions[..j], rs, fileOf)
    ensures states[j].version == states[|actions|].version
  {
    hide Records, State.Inv, Step, AllFilesOf, Replay, NeverReadded, OnlyDown;
    RunIsTracked(states, actions, rs, fileOf);
    RunIsTracked(states[..j + 1], actions[..j], rs, fileOf);
  }

  /** A crash may cut the manifest of a run at any byte; replaying what is left gives, without a report, the version
      that was current at some moment of the run: the moment after the last step whose record is there in full, and the
      last version if all are. */
  lemma CrashRecoversRun(crc: Log.Crc, states: seq<State>, actions: seq<Action>, rs: seq<Edits.Edit>, t: nat,
          fileOf: Files)
    returns (j: nat)
    requires Run(states, actions) && states[0] == Initial() && Records(states, actions, rs, fileOf)
    requires forall i :: 0 <= i < |rs| ==> Edits.EditFits(rs[i])
    requires t <= |Log.Stream(crc, 0, Encoded(rs))|
    ensures j <= |actions|
    ensures var k := Log.WholeRecords(crc, 0, Encoded(rs), t);
      var (records, reports) := Log.ReadAll(crc, true, Log.Stream(crc, 0, Encoded(rs))[..t], 0);
      && k <= |rs| && reports == [] && Decoded(records) == Some(rs[..k])
      && (k == |rs| ==> states[j].version == states[|actions|].version)
      && Records(states[..j + 1], actions[..j], rs[..k], fileOf)
      && var r := Rebuilt(rs[..k], fileOf);
         && (j > 0 ==> r.Recovered?)
         && (r.Recovered? ==> r.v == states[j].version && Restarted(r).Inv())
  {
    hide Rebuilt, Records, State.Inv, Step, Decoded, Encoded, Log.WholeRecords, Log.ReadAll, Log.Stream, Edits.EditFits,
         Counts;
    CrashRecovers(crc, rs, t, fileOf);
    var k := Log.WholeRecords(crc, 0, Encoded(rs), t);
    j := RecordsUpTo(states, actions, rs, k, fileOf);
    RebuiltIsReached(states[..j + 1], actions[..j], rs[..k], fileOf);
    if k == |rs| {
      assert rs[..k] == rs;
      OneVersion(states, actions, j, rs, fileOf);
    }
  }
}
