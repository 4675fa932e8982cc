/** Whether a compaction changes what snapshots read. */
module CompactionReads {
  import opened Wrappers
  import opened DbFormat
  import opened Tree
  import opened Overlap
  import opened Compaction
  import opened Picking
  import opened CompactionWork
  import Inputs

  /** Files of the level that the compaction does not read. */
  ghost predicate Stays(v: Version, level: nat, in0: seq<File>, in1: seq<File>, l: nat, f: File)
    requires l < |v|
  {
    f in v[l] && (l == level ==> f !in in0) && (l == level + 1 ==> f !in in1)
  }

  ghost predicate InStaying(v: Version, level: nat, in0: seq<File>, in1: seq<File>, e: Entry) {
    exists l, f :: 0 <= l < |v| && Stays(v, level, in0, in1, l, f) && e in f.entries
  }

  /** The input of the merge loop: all entries of the input files in key order. */
  ghost predicate IsMerged(input: seq<Entry>, in0: seq<File>, in1: seq<File>) {
    Sorted(input) && forall e :: e in input <==> e in EntriesOf(in0) || e in EntriesOf(in1)
  }

  /** A compaction of a tree: its version, inputs, merged input and oldest live snapshot. */
  datatype Job = Job(v: Version, level: nat, in0: seq<File>, in1: seq<File>, input: seq<Entry>, oldest: nat) {
    ghost predicate Ok() {
      Valid(v) && GoodInputs(v, level, in0, in1) && (forall f :: f in in1 ==> f in v[level + 1]) &&
          IsMerged(input, in0, in1)
    }

    ghost function Output(): seq<Entry>
      requires |v| == NUM_LEVELS
    {
      Kept(v, level, input, |input|, oldest)
    }

    /** The entries of the tree once the output has replaced the inputs. */
    ghost function After(): set<Entry>
      requires |v| == NUM_LEVELS
    {
      set e | e in Flat(v) && (InStaying(v, level, in0, in1, e) || e in Output())
    }

    /** The files of the output level that the compaction leaves alone. */
    ghost function LeftBehind(): set<Entry>
      requires level + 1 < |v|
    {
      set f, e | f in v[level + 1] && f !in in1 && e in f.entries :: e
    }

    /** At the oldest snapshot `u` is deleted by an input entry with nothing for it further down, yet a file that stays
        in the output level still has a value for it. */
    ghost predicate Resurrects(u: UserKey)
      requires |v| == NUM_LEVELS && level + 1 < NUM_LEVELS
    {
      && BaseLevel(v, level, u)
      && (exists t :: IsNewest(Flat(v), u, oldest, t) && t.key.kind.Deletion? && t in input)
      && Read(LeftBehind(), u, oldest) != None
    }

    ghost predicate ReadsUnchanged()
      requires |v| == NUM_LEVELS
    {
      forall u, s :: s >= oldest ==> Read(After(), u, s) == Read(Flat(v), u, s)
    }
  }

  lemma InFlat(v: Version, l: nat, f: File, e: Entry)
    requires l < |v| && f in v[l] && e in f.entries
    ensures e in Flat(v)
  {
    assert e in EntriesOf(v[l]);
    InDeeper(v, 0, e);
  }

  lemma WhereInFlat(v: Version, e: Entry) returns (l: nat, f: File)
    requires e in Flat(v)
    ensures l < |v| && f in v[l] && e in f.entries
  {
    InDeeper(v, 0, e);
    l :| 0 <= l < |v| && e in EntriesOf(v[l]);
    f :| f in v[l] && e in f.entries;
  }

  lemma WhereInInput(job: Job, e: Entry) returns (l: nat, f: File)
    requires job.Ok() && e in job.input
    ensures l < |job.v| && f in job.v[l] && e in f.entries && e in Flat(job.v)
    ensures (l == job.level && f in job.in0) || (l == job.level + 1 && f in job.in1)
  {
    if e in EntriesOf(job.in0) {
      l := job.level;
      f :| f in job.in0 && e in f.entries;
    } else {
      l := job.level + 1;
      f :| f in job.in1 && e in f.entries;
    }
    InFlat(job.v, l, f, e);
  }

  lemma EveryEntryHasAPlace(job: Job, e: Entry)
    requires job.Ok() && e in Flat(job.v)
    ensures e in job.input || InStaying(job.v, job.level, job.in0, job.in1, e)
  {
    var l, f := WhereInFlat(job.v, e);
    if !Stays(job.v, job.level, job.in0, job.in1, l, f) {
      assert e in EntriesOf(job.in0) || e in EntriesOf(job.in1);
    }
  }

  /** An entry that stays in a file, but not in one left behind in the output level, is newer than an input entry of
      its user key with nothing for that key below. */
  lemma StayersAreNewer(job: Job, e: Entry, l: nat, f: File, t: Entry)
    requires job.Ok() && t in job.input && BaseLevel(job.v, job.level, t.key.user)
    requires l < |job.v| && Stays(job.v, job.level, job.in0, job.in1, l, f) && e in f.entries &&
             e.key.user == t.key.user
    ensures e.key.seqno > t.key.seqno || e in job.LeftBehind()
  {
    var m, g := WhereInInput(job, t);
    assert ValidLevel(job.v, l) && ValidFile(f);
    KeysWithinRange(f, e);
    if l < m {
      assert NewerFiles(job.v[l], job.v[m]) && NewerFile(f, g);
    } else if l == m == job.level {
      assert NewerFile(f, g);
    } else if l == job.level + 1 {
      assert e in job.LeftBehind();
    } else {
      assert Covers(f, e.key.user);
      assert false;
    }
  }

  /** An input entry is nowhere else in the tree. */
  lemma InputEntriesDoNotStay(job: Job, t: Entry)
    requires job.Ok() && t in job.input
    ensures !InStaying(job.v, job.level, job.in0, job.in1, t)
  {
    var m, g := WhereInInput(job, t);
    forall l, f | 0 <= l < |job.v| && Stays(job.v, job.level, job.in0, job.in1, l, f)
      ensures t !in f.entries
    {
      if t in f.entries {
        TwoPlacesAreOne(job.v, l, f, m, g, t);
      }
    }
  }

  /** Only level 0 might hold an entry in two files. */
  lemma TwoPlacesAreOne(v: Version, l: nat, f: File, m: nat, g: File, t: Entry)
    requires Valid(v) && l < NUM_LEVELS && m < NUM_LEVELS && f in v[l] && g in v[m] && t in f.entries && t in g.entries
    ensures l == m && (l > 0 ==> f == g)
  {
    if l != m {
      LevelsAreNewer(v, if l < m then l else m, if l < m then m else l);
    } else if l > 0 {
      SortedFilesShareNothing(v, l, f, g, t);
    }
  }

  lemma LevelsAreNewer(v: Version, l: nat, m: nat)
    requires Valid(v) && l < m < NUM_LEVELS
    ensures NewerFiles(v[l], v[m])
  {
  }

  lemma SortedFilesShareNothing(v: Version, l: nat, f: File, g: File, t: Entry)
    requires Valid(v) && 0 < l < NUM_LEVELS && f in v[l] && g in v[l] && t in f.entries && t in g.entries
    ensures f == g
  {
    FilesAreValid(v, l, f);
    FilesAreValid(v, l, g);
    LevelRanged(v, l);
    hide Valid, AllRanged;
    KeysWithinRange(f, t);
    KeysWithinRange(g, t);
    hide ValidFile;
    var i :| 0 <= i < |v[l]| && v[l][i] == f;
    var j :| 0 <= j < |v[l]| && v[l][j] == g;
  }

  lemma OlderThanVisibleIsDropped(job: Job, n: Entry, x: Entry)
    requires job.Ok() && n in job.input && x in job.input && n.key.user == x.key.user
    requires x.key.seqno < n.key.seqno <= job.oldest
    ensures x !in job.Output()
  {
    InKept(job.v, job.level, job.input, |job.input|, job.oldest);
    var j :| 0 <= j < |job.input| && job.input[j] == n;
    forall i | 0 <= i < |job.input| && job.input[i] == x
      ensures DroppedAt(job.v, job.level, job.input, i, job.oldest)
    {
      assert j < i;
      assert HiddenAt(job.input, i, job.oldest);
    }
  }

  lemma ObsoleteIsDropped(job: Job, t: Entry)
    requires job.Ok() && t in job.input && ObsoleteDeletion(job.v, job.level, t, job.oldest)
    ensures t !in job.Output()
  {
    InKept(job.v, job.level, job.input, |job.input|, job.oldest);
  }

  /** What a compaction writes: the input entries that no newer one of their key hides at the oldest snapshot, save the
      deletions seen by every snapshot whose key no deeper file may hold. */
  lemma OutputIsExactly(job: Job, e: Entry)
    requires job.Ok()
    ensures e in job.Output() <==>
              && (exists f :: f in job.in0 + job.in1 && e in f.entries)
              && !(exists o, f :: f in job.in0 + job.in1 && o in f.entries && o.key.user == e.key.user &&
                                  e.key.seqno < o.key.seqno <= job.oldest)
              && !(e.key.kind.Deletion? && e.key.seqno <= job.oldest &&
                   forall l, f :: job.level + 2 <= l < NUM_LEVELS && f in job.v[l] ==> !Covers(f, e.key.user))
  {
    hide Valid, GoodInputs, Kept, DroppedAt, HiddenAt;
    InputEntries(job);
    if e in job.input {
      if e in job.Output() {
        forall o | o in job.input && o.key.user == e.key.user && o.key.seqno <= job.oldest
          ensures o.key.seqno <= e.key.seqno
        {
          if o.key.seqno > e.key.seqno {
            OlderThanVisibleIsDropped(job, o, e);
          }
        }
        if ObsoleteDeletion(job.v, job.level, e, job.oldest) {
          ObsoleteIsDropped(job, e);
        }
      } else {
        DroppedInInput(job, e);
      }
    } else {
      OutputIsInput(job, e);
    }
  }

  lemma InputEntries(job: Job)
    requires job.Ok()
    ensures |job.v| == NUM_LEVELS
    ensures forall e :: e in job.input <==> exists f :: f in job.in0 + job.in1 && e in f.entries
  {
    hide Valid, GoodInputs, Sorted;
    assert EntriesOf(job.in0 + job.in1) == EntriesOf(job.in0) + EntriesOf(job.in1);
    assert |job.v| == NUM_LEVELS by {
      JobLevels(job.v);
    }
  }

  lemma JobLevels(v: Version)
    requires Valid(v)
    ensures |v| == NUM_LEVELS
  {
  }

  lemma OutputIsInput(job: Job, e: Entry)
    requires job.Ok()
    ensures e in job.Output() ==> e in job.input
  {
    InKept(job.v, job.level, job.input, |job.input|, job.oldest);
  }

  /** An entry dropped without need of the rest of the tree: what hides it is in the input too. */
  lemma DroppedInInput(job: Job, n: Entry)
    requires job.Ok() && n in job.input && n !in job.Output()
    ensures || (exists h :: h in job.input && h.key.user == n.key.user && n.key.seqno < h.key.seqno <= job.oldest)
            || ObsoleteDeletion(job.v, job.level, n, job.oldest)
  {
    InKept(job.v, job.level, job.input, |job.input|, job.oldest);
    var i :| 0 <= i < |job.input| && job.input[i] == n;
    assert DroppedAt(job.v, job.level, job.input, i, job.oldest);
    if HiddenAt(job.input, i, job.oldest) {
      var j :| 0 <= j < i && job.input[j].key.user == n.key.user && job.input[j].key.seqno <= job.oldest;
      var h := job.input[j];
      assert Before(h.key, n.key);
      var l, f := WhereInInput(job, h);
      var m, g := WhereInInput(job, n);
      assert h.key.seqno != n.key.seqno;
    }
  }

  /** A dropped entry is hidden, or a deletion whose key has no older entry among those written. */
  lemma DroppedEntry(job: Job, n: Entry)
    requires job.Ok() && n in job.input && n !in job.Output()
    ensures || (exists h :: h in Flat(job.v) && h.key.user == n.key.user && n.key.seqno < h.key.seqno <= job.oldest)
            || ObsoleteDeletion(job.v, job.level, n, job.oldest)
  {
    DroppedInInput(job, n);
    if h :| h in job.input && h.key.user == n.key.user && n.key.seqno < h.key.seqno <= job.oldest {
      var l, f := WhereInInput(job, h);
    }
  }

  /** Once an obsolete deletion that was the newest entry is gone, reads see what was left behind. */
  lemma ReadWithoutDeletion(job: Job, t: Entry, s: nat)
    requires job.Ok() && t in job.input && ObsoleteDeletion(job.v, job.level, t, job.oldest) && s >= job.oldest
    requires IsNewest(Flat(job.v), t.key.user, s, t)
    ensures Read(job.After(), t.key.user, s) == Read(job.LeftBehind(), t.key.user, job.oldest)
  {
    var u := t.key.user;
    InputEntriesDoNotStay(job, t);
    ObsoleteIsDropped(job, t);
    forall x
      ensures x in job.After() && Sees(x, u, s) <==> x in job.LeftBehind() && Sees(x, u, job.oldest)
    {
      if x in job.After() && Sees(x, u, s) {
        VisibleAfterIsLeftBehind(job, t, s, x);
      }
      if x in job.LeftBehind() && Sees(x, u, job.oldest) {
        var f :| f in job.v[job.level + 1] && f !in job.in1 && x in f.entries;
        assert Stays(job.v, job.level, job.in0, job.in1, job.level + 1, f);
        InFlat(job.v, job.level + 1, f, x);
      }
    }
    SameVisibleSameRead(job.After(), job.LeftBehind(), u, s, job.oldest);
  }

  lemma VisibleAfterIsLeftBehind(job: Job, t: Entry, s: nat, x: Entry)
    requires job.Ok() && t in job.input && ObsoleteDeletion(job.v, job.level, t, job.oldest) && s >= job.oldest
    requires IsNewest(Flat(job.v), t.key.user, s, t)
    requires !InStaying(job.v, job.level, job.in0, job.in1, t) && t !in job.Output()
    requires x in job.After() && Sees(x, t.key.user, s)
    ensures x in job.LeftBehind() && Sees(x, t.key.user, job.oldest)
  {
    assert x in Flat(job.v) && x != t;
    assert x.key.seqno < t.key.seqno;
    if x in job.Output() {
      InKept(job.v, job.level, job.input, |job.input|, job.oldest);
      OlderThanVisibleIsDropped(job, t, x);
    }
    var l, f :| 0 <= l < |job.v| && Stays(job.v, job.level, job.in0, job.in1, l, f) && x in f.entries;
    StayersAreNewer(job, x, l, f, t);
  }

  lemma SameVisibleSameRead(a: set<Entry>, b: set<Entry>, u: UserKey, s: nat, r: nat)
    requires Unique(a)
    requires forall x :: x in a && Sees(x, u, s) <==> x in b && Sees(x, u, r)
    ensures Read(a, u, s) == Read(b, u, r)
  {
    forall x
      ensures IsNewest(a, u, s, x) <==> IsNewest(b, u, r, x)
    {
    }
    if x :| IsNewest(a, u, s, x) {
      ReadNewest(a, u, s, x);
    }
  }

  /** A key that resurrects was deleted at the oldest snapshot, and is no longer. */
  lemma ResurrectedRead(job: Job, u: UserKey)
    requires job.Ok() && job.Resurrects(u)
    ensures Read(Flat(job.v), u, job.oldest) == None && Read(job.After(), u, job.oldest) != None
  {
    var t :| IsNewest(Flat(job.v), u, job.oldest, t) && t.key.kind.Deletion? && t in job.input;
    ReadWithoutDeletion(job, t, job.oldest);
    ReadNewest(Flat(job.v), u, job.oldest, t);
  }

  /** The exact condition: reads at every snapshot from the oldest on are unchanged if and only if no key resurrects. */
  lemma CompactionPreservesReads(job: Job)
    requires job.Ok()
    ensures job.ReadsUnchanged() <==> forall u :: !job.Resurrects(u)
  {
    if u :| job.Resurrects(u) {
      ResurrectedRead(job, u);
    } else {
      forall u, s | s >= job.oldest
        ensures Read(job.After(), u, s) == Read(Flat(job.v), u, s)
      {
        OneReadUnchanged(job, u, s);
      }
    }
  }

  lemma OneReadUnchanged(job: Job, u: UserKey, s: nat)
    requires job.Ok() && !job.Resurrects(u) && s >= job.oldest
    ensures Read(job.After(), u, s) == Read(Flat(job.v), u, s)
  {
    if e :| e in Flat(job.v) && Sees(e, u, s) {
      var n := NewestExists(Flat(job.v), u, s, e);
      ReadNewest(Flat(job.v), u, s, n);
      if n in job.After() {
        assert IsNewest(job.After(), u, s, n);
        ReadNewest(job.After(), u, s, n);
      } else {
        EveryEntryHasAPlace(job, n);
        DroppedEntry(job, n);
        assert IsNewest(Flat(job.v), u, job.oldest, n);
        ReadWithoutDeletion(job, n, s);
      }
    } else {
      ReadNothing(Flat(job.v), u, s);
      ReadNothing(job.After(), u, s);
    }
  }

  /** An entry newer than the oldest snapshot decides reads that see it, before and after. */
  lemma NewerReadUnchanged(job: Job, u: UserKey, s: nat, e: Entry)
    requires job.Ok() && e in Flat(job.v) && Sees(e, u, s) && e.key.seqno > job.oldest
    ensures Read(job.After(), u, s) == Read(Flat(job.v), u, s)
  {
    var n := NewestExists(Flat(job.v), u, s, e);
    EveryEntryHasAPlace(job, n);
    if n !in job.After() {
      DroppedEntry(job, n);
    }
    assert IsNewest(job.After(), u, s, n);
    ReadNewest(Flat(job.v), u, s, n);
    ReadNewest(job.After(), u, s, n);
  }

  /** No file left in the output level starts with the last user key of an input file. */
  predicate NoContinuation(v: Version, level: nat, in1: seq<File>) {
    level + 1 < |v| ==> forall f, g :: f in v[level + 1] && f !in in1 && g in in1 ==> f.smallest.user != g.largest.user
  }

  /** Checking the file bounds is enough. */
  lemma WithoutContinuationNothingResurrects(job: Job, u: UserKey)
    requires job.Ok() && NoContinuation(job.v, job.level, job.in1)
    ensures !job.Resurrects(u)
  {
    if job.Resurrects(u) {
      var t :| IsNewest(Flat(job.v), u, job.oldest, t) && t.key.kind.Deletion? && t in job.input;
      var x :| IsNewest(job.LeftBehind(), u, job.oldest, x);
      var f :| f in job.v[job.level + 1] && f !in job.in1 && x in f.entries;
      InFlat(job.v, job.level + 1, f, x);
      LeftFilesAreApart(job, t, f, x);
    }
  }

  lemma LeftFilesAreApart(job: Job, t: Entry, f: File, x: Entry)
    requires job.Ok() && NoContinuation(job.v, job.level, job.in1)
    requires t in job.input && f in job.v[job.level + 1] && f !in job.in1 && x in f.entries
    requires x.key.user == t.key.user
    ensures x.key.seqno > t.key.seqno
  {
    var l, g := WhereInInput(job, t);
    FilesAreValid(job.v, job.level + 1, f);
    FilesAreValid(job.v, l, g);
    hide Valid, ValidFile;
    if l == job.level {
      UntouchedIsApart(job, f, g);
      ApartIsNewer(f, g);
    } else {
      LeftOrder(job, f, g);
      if Before(f.largest, g.smallest) {
        EarlierIsNewer(job.v, l, f, g);
      } else {
        ApartIsNewer(f, g);
      }
    }
  }

  lemma UntouchedIsApart(job: Job, f: File, g: File)
    requires job.Ok() && f in job.v[job.level + 1] && f !in job.in1 && g in job.in0
    ensures !Meets(g, f)
  {
    LevelRanged(job.v, job.level);
    hide Valid, StayersNewer;
    Inputs.KeyBounds(job.in0);
    assert Ranged(g);
    InOverlappingFiles(job.v[job.level + 1], Some(Inputs.SmallestKey(job.in0).user),
                       Some(Inputs.LargestKey(job.in0).user));
  }

  lemma LeftOrder(job: Job, f: File, g: File)
    requires job.Ok() && NoContinuation(job.v, job.level, job.in1)
    requires f in job.v[job.level + 1] && f !in job.in1 && g in job.in1
    ensures Before(f.largest, g.smallest) || !Meets(g, f)
  {
    LevelRanged(job.v, job.level + 1);
    hide Valid, StayersNewer;
    var i :| 0 <= i < |job.v[job.level + 1]| && job.v[job.level + 1][i] == f;
    var j :| 0 <= j < |job.v[job.level + 1]| && job.v[job.level + 1][j] == g;
  }
}
