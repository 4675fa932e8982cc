/** Installing the result of background work keeps the tree valid. */
module Install {
  import opened Wrappers
  import opened DbFormat
  import opened Tree
  import opened Overlap
  import opened Picking
  import opened CompactionReads
  import opened Builder
  import Inputs

  /** In `w` the outputs, placed one level down, stand for the inputs. */
  ghost predicate Replaces(v: Version, w: Version, level: nat, in0: seq<File>, in1: seq<File>, outputs: seq<File>) {
    && |v| == |w| == NUM_LEVELS
    && (forall l :: 0 <= l < NUM_LEVELS ==> InOrder(w[l]))
    && (forall l, f :: 0 <= l < NUM_LEVELS ==>
          (f in w[l] <==> Stays(v, level, in0, in1, l, f) || (l == level + 1 && f in outputs)))
  }

  lemma InReplaced(v: Version, w: Version, level: nat, in0: seq<File>, in1: seq<File>, outputs: seq<File>, l: nat,
          f: File)
    requires Replaces(v, w, level, in0, in1, outputs) && (l < NUM_LEVELS || l < |w|)
    ensures |v| == |w| == NUM_LEVELS
    ensures f in w[l] <==> Stays(v, level, in0, in1, l, f) || (l == level + 1 && f in outputs)
    ensures Stays(v, level, in0, in1, l, f) ==> f in v[l]
  {
  }

  /** Outputs of a compaction: sound files made of input entries, in order, with numbers that no other file has. */
  ghost predicate GoodOutputs(job: Job, outputs: seq<File>)
    requires |job.v| == NUM_LEVELS
  {
    && (forall o :: o in outputs ==> ValidFile(o) && forall e :: e in o.entries ==> e in job.input)
    && Disjoint(outputs)
    && DistinctNumbers(outputs)
    && (forall l, f, o :: 0 <= l < NUM_LEVELS && Stays(job.v, job.level, job.in0, job.in1, l, f) && o in outputs ==>
          f.number != o.number)
  }

  /** A file left in the output level lies before all input entries or after all of them. */
  lemma LeftFileIsOutside(job: Job, f: File)
    requires job.Ok() && f in job.v[job.level + 1] && f !in job.in1
    ensures (forall e :: e in job.input ==> Before(f.largest, e.key)) ||
            (forall e :: e in job.input ==> Before(e.key, f.smallest))
  {
    var a, b := Inputs.SmallestKey(job.in0).user, Inputs.LargestKey(job.in0).user;
    hide StayersNewer;
    assert job.in1 == Touched(job.v, job.level, job.in0);
    InOverlappingFiles(job.v[job.level + 1], Some(a), Some(b));
    forall e | e in job.input
      ensures f.largest.user < a ==> Before(f.largest, e.key)
      ensures f.smallest.user > b ==> Before(e.key, f.smallest)
    {
      LeftFileMissesEntry(job, f, e);
    }
  }

  lemma LeftFileMissesEntry(job: Job, f: File, e: Entry)
    requires job.Ok() && f in job.v[job.level + 1] && f !in job.in1 && e in job.input
    ensures f.largest.user < Inputs.SmallestKey(job.in0).user ==> Before(f.largest, e.key)
    ensures f.smallest.user > Inputs.LargestKey(job.in0).user ==> Before(e.key, f.smallest)
  {
    var l, g := WhereInInput(job, e);
    FilesAreValid(job.v, l, g);
    KeysWithinRange(g, e);
    if l == job.level {
      Inputs.KeyBounds(job.in0);
    } else {
      LeftFileMissesFile(job, f, g);
    }
  }

  lemma LeftFileMissesFile(job: Job, f: File, g: File)
    requires job.Ok() && f in job.v[job.level + 1] && f !in job.in1 && g in job.in1
    ensures f.largest.user < Inputs.SmallestKey(job.in0).user ==> Before(f.largest, g.smallest)
    ensures f.smallest.user > Inputs.LargestKey(job.in0).user ==> Before(g.largest, f.smallest)
  {
    var files := job.v[job.level + 1];
    LevelRanged(job.v, job.level + 1);
    InOverlappingFiles(files, Some(Inputs.SmallestKey(job.in0).user), Some(Inputs.LargestKey(job.in0).user));
    hide Valid, StayersNewer, ValidFile, IsMerged;
    OneOfTwo(files, f, g);
    assert Ranged(f) && Ranged(g);
  }

  /** Whatever was newer than all the inputs is newer than an output, and an output is newer than what all were. */
  lemma OutputInherits(job: Job, o: File, l: nat, f: File)
    requires job.Ok() && ValidFile(o) && (forall e :: e in o.entries ==> e in job.input)
    requires l < NUM_LEVELS && Stays(job.v, job.level, job.in0, job.in1, l, f)
    ensures l <= job.level ==> NewerFile(f, o)
    ensures l > job.level + 1 ==> NewerFile(o, f)
  {
    forall x, y | x in f.entries && y in o.entries && x.key.user == y.key.user
      ensures l <= job.level ==> x.key.seqno > y.key.seqno
      ensures l > job.level + 1 ==> y.key.seqno > x.key.seqno
    {
      var m, g := WhereInInput(job, y);
      if l < m {
        LevelsAreNewer(job.v, l, m);
        assert NewerFile(f, g);
      } else if m < l {
        LevelsAreNewer(job.v, m, l);
        assert NewerFile(g, f);
      } else {
        assert l == job.level ==> NewerFile(f, g);
      }
    }
  }

  lemma ReplacedLevelIsValid(job: Job, w: Version, outputs: seq<File>, l: nat)
    requires job.Ok() && GoodOutputs(job, outputs) && l < NUM_LEVELS
    requires Replaces(job.v, w, job.level, job.in0, job.in1, outputs)
    ensures ValidLevel(w, l)
  {
    if l == job.level + 1 {
      OutputLevelApart(job, w, outputs);
      OutputLevelNumbers(job, w, outputs);
    } else {
      forall f | f in w[l]
        ensures f in job.v[l]
      {
        InReplaced(job.v, w, job.level, job.in0, job.in1, outputs, l, f);
      }
      SublistIsValid(job.v, w, l);
    }
  }

  lemma SublistIsValid(v: Version, w: Version, l: nat)
    requires l < |v| && l < |w| && ValidLevel(v, l) && InOrder(w[l])
    requires forall f :: f in w[l] ==> f in v[l]
    ensures ValidLevel(w, l)
  {
    if l > 0 {
      forall f | f in w[l]
        ensures Ranged(f)
      {
        RangeOrdered(f);
      }
      hide ValidFile, InOrder;
      forall f, g | f in w[l] && g in w[l] && f != g
        ensures Before(f.largest, g.smallest) || Before(g.largest, f.smallest)
      {
        OneOfTwo(v[l], f, g);
      }
      ApartInOrder(w[l]);
    }
  }

  lemma OutputLevelNumbers(job: Job, w: Version, outputs: seq<File>)
    requires job.Ok() && GoodOutputs(job, outputs)
    requires Replaces(job.v, w, job.level, job.in0, job.in1, outputs)
    ensures DistinctNumbers(w[job.level + 1])
    ensures forall f :: f in w[job.level + 1] ==> ValidFile(f)
  {
    assert ValidLevel(job.v, job.level + 1);
  }

  /** In a list ordered by smallest key, files that lie pairwise apart are apart in that order. */
  lemma ApartInOrder(fs: seq<File>)
    requires InOrder(fs) && AllRanged(fs)
    requires forall f, g :: f in fs && g in fs && f != g ==>
               Before(f.largest, g.smallest) || Before(g.largest, f.smallest)
    ensures Disjoint(fs)
  {
    forall i, j | 0 <= i < j < |fs|
      ensures Before(fs[i].largest, fs[j].smallest)
    {
      assert BySmallestKey(fs[i], fs[j]) && fs[i] in fs && fs[j] in fs && Ranged(fs[i]) && Ranged(fs[j]);
    }
  }

  lemma OutputLevelApart(job: Job, w: Version, outputs: seq<File>)
    requires job.Ok() && GoodOutputs(job, outputs)
    requires Replaces(job.v, w, job.level, job.in0, job.in1, outputs)
    ensures Disjoint(w[job.level + 1])
  {
    var l := job.level + 1;
    LevelRanged(job.v, l);
    forall f | f in w[l]
      ensures Ranged(f)
    {
      if f in outputs {
        RangeOrdered(f);
      }
    }
    hide Valid, GoodInputs;
    forall f, g | f in w[l] && g in w[l] && f != g
      ensures Before(f.largest, g.smallest) || Before(g.largest, f.smallest)
    {
      if f in outputs && g in outputs {
        OneOfTwo(outputs, f, g);
      } else if f in outputs {
        LeftFileMissesOutput(job, g, f);
      } else if g in outputs {
        LeftFileMissesOutput(job, f, g);
      } else {
        OneOfTwo(job.v[l], f, g);
      }
    }
    ApartInOrder(w[l]);
  }

  lemma OneOfTwo(fs: seq<File>, f: File, g: File)
    requires Disjoint(fs) && f in fs && g in fs && f != g
    ensures Before(f.largest, g.smallest) || Before(g.largest, f.smallest)
  {
    var i :| 0 <= i < |fs| && fs[i] == f;
    var j :| 0 <= j < |fs| && fs[j] == g;
  }

  lemma LeftFileMissesOutput(job: Job, f: File, o: File)
    requires job.Ok() && f in job.v[job.level + 1] && f !in job.in1
    requires ValidFile(o) && forall e :: e in o.entries ==> e in job.input
    ensures Before(f.largest, o.smallest) || Before(o.largest, f.smallest)
  {
    LeftFileIsOutside(job, f);
    assert o.entries[0] in o.entries && o.entries[|o.entries| - 1] in o.entries;
  }

  /** Compactions and trivial moves keep the tree valid. */
  lemma ReplacementIsValid(job: Job, w: Version, outputs: seq<File>)
    requires job.Ok() && GoodOutputs(job, outputs)
    requires Replaces(job.v, w, job.level, job.in0, job.in1, outputs)
    ensures Valid(w)
  {
    hide ValidLevel, NewerFiles, Flat, GoodInputs, GoodOutputs, IsMerged, NumbersOnce;
    forall l | 0 <= l < NUM_LEVELS
      ensures ValidLevel(w, l)
    {
      ReplacedLevelIsValid(job, w, outputs, l);
    }
    forall l, m | 0 <= l < m < NUM_LEVELS
      ensures NewerFiles(w[l], w[m])
    {
      ReplacedLevelsNewer(job, w, outputs, l, m);
    }
    ReplacedNumbers(job, w, outputs);
    ReplacedEntries(job, w, outputs);
  }

  lemma ReplacedNumbers(job: Job, w: Version, outputs: seq<File>)
    requires job.Ok() && GoodOutputs(job, outputs)
    requires Replaces(job.v, w, job.level, job.in0, job.in1, outputs)
    ensures NumbersOnce(w)
  {
    hide ValidLevel, NewerFiles, Flat, GoodInputs, Unique, IsMerged, ValidFile, Disjoint, InOrder;
  }

  lemma ReplacedLevelsNewer(job: Job, w: Version, outputs: seq<File>, l: nat, m: nat)
    requires job.Ok() && GoodOutputs(job, outputs) && l < m < NUM_LEVELS
    requires Replaces(job.v, w, job.level, job.in0, job.in1, outputs)
    ensures NewerFiles(w[l], w[m])
  {
    LevelsAreNewer(job.v, l, m);
    assert job.level + 1 < NUM_LEVELS == |w|;
    hide Valid, GoodInputs, NewerFile, ValidFile, Disjoint, DistinctNumbers, IsMerged, Replaces, Stays;
    forall f, g | f in w[l] && g in w[m]
      ensures NewerFile(f, g)
    {
      InReplaced(job.v, w, job.level, job.in0, job.in1, outputs, l, f);
      InReplaced(job.v, w, job.level, job.in0, job.in1, outputs, m, g);
      if m == job.level + 1 && g in outputs {
        OutputInherits(job, g, l, f);
      } else if l == job.level + 1 && f in outputs {
        OutputInherits(job, f, m, g);
      }
    }
  }

  lemma ReplacedEntries(job: Job, w: Version, outputs: seq<File>)
    requires job.Ok() && GoodOutputs(job, outputs)
    requires Replaces(job.v, w, job.level, job.in0, job.in1, outputs)
    ensures Flat(w) <= Flat(job.v)
    ensures (forall e :: e in EntriesOf(outputs) <==> e in job.Output()) ==> Flat(w) == job.After()
  {
    forall e
      ensures e in Flat(w) <==> InStaying(job.v, job.level, job.in0, job.in1, e) || e in EntriesOf(outputs)
      ensures e in Flat(w) ==> e in Flat(job.v)
    {
      WhereReplaced(job, w, outputs, e);
    }
  }

  lemma JobShape(job: Job)
    requires job.Ok()
    ensures |job.v| == NUM_LEVELS && job.level + 1 < NUM_LEVELS
  {
  }

  lemma OutputEntry(job: Job, outputs: seq<File>, o: File, e: Entry)
    requires |job.v| == NUM_LEVELS && GoodOutputs(job, outputs) && o in outputs && e in o.entries
    ensures e in job.input
  {
  }

  lemma WhereReplaced(job: Job, w: Version, outputs: seq<File>, e: Entry)
    requires job.Ok() && GoodOutputs(job, outputs)
    requires Replaces(job.v, w, job.level, job.in0, job.in1, outputs)
    ensures e in Flat(w) <==> InStaying(job.v, job.level, job.in0, job.in1, e) || e in EntriesOf(outputs)
    ensures e in Flat(w) ==> e in Flat(job.v)
  {
    hide Valid, GoodInputs, ValidFile, Flat, Replaces, IsMerged, GoodOutputs;
    JobShape(job);
    if e in Flat(w) {
      var l, f := WhereInFlat(w, e);
      InReplaced(job.v, w, job.level, job.in0, job.in1, outputs, l, f);
      if f in outputs && l == job.level + 1 {
        OutputEntry(job, outputs, f, e);
        var m, g := WhereInInput(job, e);
      } else {
        InFlat(job.v, l, f, e);
      }
    }
    if e in EntriesOf(outputs) {
      var o :| o in outputs && e in o.entries;
      InReplaced(job.v, w, job.level, job.in0, job.in1, outputs, job.level + 1, o);
      InFlat(w, job.level + 1, o, e);
    }
    if InStaying(job.v, job.level, job.in0, job.in1, e) {
      var l, f :| 0 <= l < |job.v| && Stays(job.v, job.level, job.in0, job.in1, l, f) && e in f.entries;
      InReplaced(job.v, w, job.level, job.in0, job.in1, outputs, l, f);
      InFlat(w, l, f, e);
    }
  }
}
