/** The compaction object, and the ways a version set fills in its inputs. */
module Picking {
  import opened Wrappers
  import opened DbFormat
  import opened Tree
  import opened Overlap
  import opened Inputs

  function TotalFileSize(fs: seq<File>): nat {
    if fs == [] then 0 else TotalFileSize(fs[..|fs| - 1]) + fs[|fs| - 1].size
  }

  /** A first choice of files of one level that may be compacted: in level 0 everything that touches a chosen file is
      chosen too; deeper, the choice is a run of neighbours. */
  ghost predicate Startable(v: Version, level: nat, in0: seq<File>)
    requires level < |v|
  {
    && in0 != []
    && (forall f :: f in in0 ==> f in v[level])
    && (if level == 0 then forall f, g :: f in in0 && g in v[0] && Meets(f, g) ==> g in in0
        else exists a: nat, b: nat :: IsRun(v[level], in0, a, b))
  }

  predicate IsRun(files: seq<File>, run: seq<File>, a: nat, b: nat) {
    a < b <= |files| && run == files[a..b]
  }

  /** Files that stay in the level are newer than the chosen ones for every user key they share. */
  ghost predicate StayersNewer(v: Version, level: nat, in0: seq<File>)
    requires level < |v|
  {
    forall f, g :: f in v[level] && f !in in0 && g in in0 ==> NewerFile(f, g)
  }

  /** The files of the next level that touch the user-key range of the chosen ones. */
  function Touched(v: Version, level: nat, in0: seq<File>): seq<File>
    requires level + 1 < |v| && in0 != []
  {
    OverlappingFiles(v[level + 1], Some(SmallestKey(in0).user), Some(LargestKey(in0).user))
  }

  /** What every compaction may rely on: the inputs of its level leave nothing older behind, and those of the next level
      are exactly the files touched. */
  ghost predicate GoodInputs(v: Version, level: nat, in0: seq<File>, in1: seq<File>) {
    && level + 1 < |v|
    && in0 != []
    && (forall f :: f in in0 ==> f in v[level])
    && StayersNewer(v, level, in0)
    && in1 == Touched(v, level, in0)
  }

  lemma LevelRanged(v: Version, l: nat)
    requires Valid(v) && l < NUM_LEVELS
    ensures |v| == NUM_LEVELS && AllRanged(v[l])
    ensures l > 0 ==> Disjoint(v[l])
  {
    assert ValidLevel(v, l);
    forall f | f in v[l]
      ensures Ranged(f)
    {
      RangeOrdered(f);
    }
  }

  lemma SliceOfPrefix(files: seq<File>, n: nat, lo: nat, hi: nat)
    requires lo <= hi <= n <= |files|
    ensures files[..n][lo..hi] == files[lo..hi]
  {
  }

  /** In a sorted level the files that touch a range are neighbours. */
  lemma {:induction false} OverlappingIsRun(files: seq<File>, n: nat, b: Bound, e: Bound)
    requires n <= |files| && AllRanged(files) && Disjoint(files)
    ensures OverlappingFiles(files[..n], b, e) == [] ||
            exists lo: nat, hi: nat :: IsRun(files[..n], OverlappingFiles(files[..n], b, e), lo, hi)
  {
    hide OverlappingFiles, Overlaps, AllRanged, Disjoint;
    OverlappingStep(files, if n == 0 then 0 else n - 1, b, e);
    if n > 0 {
      OverlappingIsRun(files, n - 1, b, e);
      var was := OverlappingFiles(files[..n - 1], b, e);
      var now := OverlappingFiles(files[..n], b, e);
      if was == [] {
        if Overlaps(files[n - 1], b, e) {
          SliceOfPrefix(files, n, n - 1, n);
          assert now == [files[n - 1]];
          assert files[n - 1..n] == [files[n - 1]];
          assert IsRun(files[..n], now, n - 1, n);
        }
      } else {
        var lo: nat, hi: nat :| IsRun(files[..n - 1], was, lo, hi);
        SliceOfPrefix(files, n - 1, lo, hi);
        SliceOfPrefix(files, n, lo, hi);
        if Overlaps(files[n - 1], b, e) {
          InOverlappingFiles(files[..n - 1], b, e);
          RunReachesEnd(files, n, was, lo, hi, b, e);
          SliceOfPrefix(files, n, lo, n);
          assert now == files[lo..n];
          assert IsRun(files[..n], now, lo, n);
        } else {
          assert IsRun(files[..n], now, lo, hi);
        }
      }
    }
  }

  lemma RunReachesEnd(files: seq<File>, n: nat, was: seq<File>, lo: nat, hi: nat, b: Bound, e: Bound)
    requires 0 < n <= |files| && AllRanged(files) && Disjoint(files) && lo < hi < n && was == files[lo..hi]
    requires forall f :: f in was <==> f in files[..n - 1] && Overlaps(f, b, e)
    requires Overlaps(files[n - 1], b, e)
    ensures hi == n - 1
  {
    assert files[hi - 1] == was[|was| - 1] && files[hi - 1] in was;
    if hi < n - 1 {
      assert files[hi] == files[..n - 1][hi] && files[hi] in files[..n - 1];
      BetweenOverlaps(files, hi - 1, hi, n - 1, b, e);
      NotInEarlierRun(files, lo, hi);
    }
  }

  lemma BetweenOverlaps(files: seq<File>, i: nat, j: nat, k: nat, b: Bound, e: Bound)
    requires AllRanged(files) && Disjoint(files) && i < j < k < |files|
    requires Overlaps(files[i], b, e) && Overlaps(files[k], b, e)
    ensures Overlaps(files[j], b, e)
  {
    assert Ranged(files[i]) && Ranged(files[j]) && Ranged(files[k]);
  }

  lemma NotInEarlierRun(files: seq<File>, lo: nat, hi: nat)
    requires AllRanged(files) && Disjoint(files) && lo < hi < |files|
    ensures files[hi] !in files[lo..hi]
  {
    assert Ranged(files[hi]);
  }

  lemma ApartIsNewer(f: File, g: File)
    requires ValidFile(f) && ValidFile(g) && !Meets(g, f)
    ensures NewerFile(f, g)
  {
    forall x, y | x in f.entries && y in g.entries && x.key.user == y.key.user
      ensures false
    {
      KeysWithinRange(f, x);
      KeysWithinRange(g, y);
    }
  }

  lemma EarlierIsNewer(v: Version, level: nat, f: File, g: File)
    requires Valid(v) && level < NUM_LEVELS && f in v[level] && g in v[level]
    requires ValidFile(f) && ValidFile(g) && Before(f.largest, g.smallest)
    ensures NewerFile(f, g)
  {
    hide Valid, ValidFile;
    forall x, y | x in f.entries && y in g.entries && x.key.user == y.key.user
      ensures x.key.seqno > y.key.seqno
    {
      KeysWithinRange(f, x);
      KeysWithinRange(g, y);
      SameSequenceSameEntry(v, level, f, x, g, y);
    }
  }

  /** A run whose successor does not continue its last user key leaves only newer files behind. */
  lemma RunLeavesNewer(v: Version, level: nat, a: nat, b: nat)
    requires Valid(v) && 0 < level < NUM_LEVELS && a < b <= |v[level]|
    requires b < |v[level]| ==> v[level][b].smallest.user != v[level][b - 1].largest.user
    ensures StayersNewer(v, level, v[level][a..b])
  {
    LevelRanged(v, level);
    forall f, g | f in v[level] && f !in v[level][a..b] && g in v[level][a..b]
      ensures NewerFile(f, g)
    {
      hide Valid, ValidFile, NewerFile;
      var i :| 0 <= i < |v[level]| && v[level][i] == f;
      var j :| a <= j < b && v[level][j] == g;
      InRun(v[level], a, b, i);
      FilesAreValid(v, level, f);
      FilesAreValid(v, level, g);
      if b <= i {
        assert Ranged(v[level][b - 1]) && Ranged(v[level][b]);
        ApartIsNewer(f, g);
      } else {
        EarlierIsNewer(v, level, f, g);
      }
    }
  }

  lemma InRun(files: seq<File>, a: nat, b: nat, i: nat)
    requires a <= b <= |files|
    ensures a <= i < b ==> files[i] in files[a..b]
  {
    if a <= i < b {
      assert files[a..b][i - a] == files[i];
    }
  }

  lemma FilesAreValid(v: Version, level: nat, f: File)
    requires Valid(v) && level < NUM_LEVELS && f in v[level]
    ensures ValidFile(f)
  {
    assert ValidLevel(v, level);
  }

  lemma SameSequenceSameEntry(v: Version, level: nat, f: File, x: Entry, g: File, y: Entry)
    requires Valid(v) && level < NUM_LEVELS && f in v[level] && g in v[level] && x in f.entries && y in g.entries
    ensures x.key.user == y.key.user && x.key.seqno == y.key.seqno ==> x == y
  {
    assert x in EntriesOf(v[level]) && y in EntriesOf(v[level]);
    InDeeper(v, 0, x);
    InDeeper(v, 0, y);
  }

  /** Closing a startable choice under boundary user keys makes it safe to move down. */
  lemma ClosedStartIsSafe(v: Version, level: nat, start: seq<File>, in0: seq<File>)
    requires Valid(v) && level < NUM_LEVELS && Startable(v, level, start)
    requires start <= in0 && BoundaryChain(v[level], in0, |start|)
    requires forall f :: f in v[level] ==> !IsBoundary(f, LargestKey(in0))
    requires forall f :: f in in0 ==> f in v[level]
    ensures StayersNewer(v, level, in0)
  {
    if level == 0 {
      Level0HasNoBoundary(v, start);
      assert in0[..|start|] == start;
      Level0ClosureLeavesNewer(v, start);
    } else {
      var a: nat, b: nat :| IsRun(v[level], start, a, b);
      ClosedRunIsSafe(v, level, a, b, in0);
    }
  }

  lemma ClosedRunIsSafe(v: Version, level: nat, a: nat, b: nat, in0: seq<File>)
    requires Valid(v) && 0 < level < NUM_LEVELS && a < b <= |v[level]| && v[level][a..b] <= in0
    requires BoundaryChain(v[level], in0, b - a)
    requires forall f :: f in v[level] ==> !IsBoundary(f, LargestKey(in0))
    ensures StayersNewer(v, level, in0)
  {
    hide BoundaryChain, StayersNewer, LargestKey, SmallestKey;
    LevelRanged(v, level);
    hide Valid;
    assert in0[..b - a] == v[level][a..b];
    ChainContinuesRun(v[level], a, b, in0);
    var c := a + |in0|;
    RunLargest(v[level], a, c);
    if c < |v[level]| {
      assert !IsBoundary(v[level][c], v[level][c - 1].largest);
      assert Before(v[level][c - 1].largest, v[level][c].smallest);
    }
    RunLeavesNewer(v, level, a, c);
  }

  lemma Level0HasNoBoundary(v: Version, in0: seq<File>)
    requires Valid(v) && Startable(v, 0, in0)
    ensures forall f :: f in v[0] ==> !IsBoundary(f, LargestKey(in0))
  {
    LevelRanged(v, 0);
    KeyBounds(in0);
    forall f | f in v[0] && IsBoundary(f, LargestKey(in0))
      ensures false
    {
      var g :| g in in0 && g.largest == LargestKey(in0);
      assert Ranged(f) && Ranged(g);
      assert Meets(g, f);
    }
  }

  lemma Level0ClosureLeavesNewer(v: Version, in0: seq<File>)
    requires Valid(v) && Startable(v, 0, in0)
    ensures StayersNewer(v, 0, in0)
  {
    assert |v| == NUM_LEVELS;
    hide Valid, ValidFile, NewerFile;
    forall f, g | f in v[0] && f !in in0 && g in in0
      ensures NewerFile(f, g)
    {
      FilesAreValid(v, 0, f);
      FilesAreValid(v, 0, g);
      ApartIsNewer(f, g);
    }
  }
}
