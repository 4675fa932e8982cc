/** Which files of a level a key range touches, and the closures that choosing compaction inputs relies on. */
module Overlap {
  import opened Wrappers
  import opened DbFormat
  import opened Tree
  import VersionGet

  // A missing bound reaches past every key.
  type Bound = Option<UserKey>

  predicate AfterFile(u: Bound, f: File) {
    u.Some? && u.value > f.largest.user
  }

  predicate BeforeFile(u: Bound, f: File) {
    u.Some? && u.value < f.smallest.user
  }

  predicate Overlaps(f: File, begin: Bound, end: Bound) {
    !AfterFile(begin, f) && !BeforeFile(end, f)
  }

  /** The user-key ranges of two files meet. */
  predicate Meets(f: File, g: File) {
    Overlaps(g, Some(f.smallest.user), Some(f.largest.user))
  }

  method SomeFileOverlapsRange(disjointSorted: bool, files: seq<File>, begin: Bound, end: Bound) returns (r: bool)
    requires AllRanged(files)
    requires disjointSorted ==> Disjoint(files) && forall f :: f in files ==> f.largest.seqno <= MAX_SEQUENCE
    ensures r <==> exists f :: f in files && Overlaps(f, begin, end)
  {
    if !disjointSorted {
      for i := 0 to |files|
        invariant forall j :: 0 <= j < i ==> !Overlaps(files[j], begin, end)
      {
        if !AfterFile(begin, files[i]) && !BeforeFile(end, files[i]) {
          assert files[i] in files && Overlaps(files[i], begin, end);
          return true;
        }
      }
      return false;
    }
    var index := 0;
    if begin.Some? {
      // The earliest possible internal key of the first user key in the range.
      index := VersionGet.FindFile(files, LookupKey(begin.value, MAX_SEQUENCE));
    }
    r := index < |files| && !BeforeFile(end, files[index]);
    forall i | 0 <= i < |files| && Overlaps(files[i], begin, end)
      ensures r
    {
      assert files[i].largest.seqno <= MAX_SEQUENCE;
      assert index <= i && Ranged(files[index]);
    }
    if r {
      assert Overlaps(files[index], begin, end);
    }
  }

  function OverlappingFiles(files: seq<File>, begin: Bound, end: Bound): seq<File> {
    if files == [] then []
    else
      var n := |files| - 1;
      OverlappingFiles(files[..n], begin, end) + (if Overlaps(files[n], begin, end) then [files[n]] else [])
  }

  lemma {:induction false} InOverlappingFiles(files: seq<File>, begin: Bound, end: Bound)
    ensures forall f :: f in OverlappingFiles(files, begin, end) <==> f in files && Overlaps(f, begin, end)
  {
    if files != [] {
      var n := |files| - 1;
      assert files == files[..n] + [files[n]];
      InOverlappingFiles(files[..n], begin, end);
    }
  }

  lemma OverlappingStep(files: seq<File>, i: nat, begin: Bound, end: Bound)
    requires i <= |files|
    ensures OverlappingFiles(files[..0], begin, end) == []
    ensures i < |files| ==>
              OverlappingFiles(files[..i + 1], begin, end) ==
              OverlappingFiles(files[..i], begin, end) + (if Overlaps(files[i], begin, end) then [files[i]] else [])
  {
    if i < |files| {
      assert files[..i + 1][..i] == files[..i];
    }
  }

  /** A set of files that holds everything touching the range and everything touching one of its members. */
  ghost predicate Closed(s: set<File>, files: seq<File>, begin: Bound, end: Bound) {
    && (forall f :: f in files && Overlaps(f, begin, end) ==> f in s)
    && (forall f, g :: f in s && f in files && g in files && Meets(f, g) ==> g in s)
  }

  ghost function AsSet(files: seq<File>): set<File> {
    set f | f in files
  }

  predicate BeforeStart(f: File, u: Bound) {
    u.Some? && f.smallest.user < u.value
  }

  predicate AfterEnd(f: File, u: Bound) {
    u.Some? && f.largest.user > u.value
  }

  /** How many bounds of files stick out of the range. */
  function SticksOut(files: seq<File>, b: Bound, e: Bound): nat {
    if files == [] then 0
    else
      (if BeforeStart(files[0], b) then 1 else 0) + (if AfterEnd(files[0], e) then 1 else 0) +
            SticksOut(files[1..], b, e)
  }

  lemma {:induction false} GrowingSticksOutLess(files: seq<File>, b: Bound, e: Bound, b': Bound, e': Bound, f: File)
    requires b.Some? ==> b'.Some? && b'.value <= b.value
    requires e.Some? ==> e'.Some? && e'.value >= e.value
    requires b == None ==> b' == None
    requires e == None ==> e' == None
    ensures SticksOut(files, b', e') <= SticksOut(files, b, e)
    ensures f in files && BeforeStart(f, b) && !BeforeStart(f, b') ==> SticksOut(files, b', e') < SticksOut(files, b, e)
    ensures f in files && AfterEnd(f, e) && !AfterEnd(f, e') ==> SticksOut(files, b', e') < SticksOut(files, b, e)
  {
    if files != [] {
      GrowingSticksOutLess(files[1..], b, e, b', e', f);
      assert files == [files[0]] + files[1..];
    }
  }

  /** Every closed set holds what touches the range the search has grown to. */
  ghost predicate ForcedRange(files: seq<File>, begin: Bound, end: Bound, b: Bound, e: Bound) {
    forall s: set<File> :: Closed(s, files, begin, end) ==> forall f :: f in files && Overlaps(f, b, e) ==> f in s
  }

  lemma GrowingStaysForced(files: seq<File>, begin: Bound, end: Bound, b: Bound, e: Bound, f: File, b': Bound,
          e': Bound)
    requires ForcedRange(files, begin, end, b, e)
    requires AllRanged(files)
    requires f in files && Overlaps(f, b, e)
    requires (b.Some? && b' == Some(f.smallest.user) && e' == e) || (e.Some? && b' == b && e' == Some(f.largest.user))
    ensures ForcedRange(files, begin, end, b', e')
  {
    forall s: set<File>, g | Closed(s, files, begin, end) && g in files && Overlaps(g, b', e')
      ensures g in s
    {
      assert f in s;
      assert Ranged(f) && Ranged(g);
      assert Overlaps(g, b, e) || Meets(f, g);
    }
  }

  /** All files that touch the range; in level 0, where files may touch each other, also all that touch one of those. */
  method GetOverlappingInputs(level: nat, files: seq<File>, begin: Bound, end: Bound)
    returns (inputs: seq<File>, ghost b: Bound, ghost e: Bound)
    requires AllRanged(files)
    ensures inputs == OverlappingFiles(files, b, e)
    ensures level > 0 ==> b == begin && e == end
    ensures level == 0 ==> Closed(AsSet(inputs), files, begin, end)
    ensures level == 0 ==> forall s :: Closed(s, files, begin, end) ==> AsSet(inputs) <= s
  {
    inputs := [];
    var i := 0;
    var userBegin, userEnd := begin, end;
    while i < |files|
      invariant 0 <= i <= |files|
      invariant level > 0 ==> userBegin == begin && userEnd == end
      invariant userBegin.Some? <==> begin.Some?
      invariant userEnd.Some? <==> end.Some?
      invariant begin.Some? ==> userBegin.value <= begin.value
      invariant end.Some? ==> userEnd.value >= end.value
      invariant inputs == OverlappingFiles(files[..i], userBegin, userEnd)
      invariant level == 0 ==> forall f :: f in inputs ==> !BeforeStart(f, userBegin) && !AfterEnd(f, userEnd)
      invariant ForcedRange(files, begin, end, userBegin, userEnd)
      decreases SticksOut(files, userBegin, userEnd), |files| - i
    {
      hide ForcedRange, SticksOut, OverlappingFiles;
      var f := files[i];
      OverlappingStep(files, i, userBegin, userEnd);
      i := i + 1;
      if AfterFile(userBegin, f) || BeforeFile(userEnd, f) {
        // entirely outside the range
      } else {
        inputs := inputs + [f];
        if level == 0 {
          if BeforeStart(f, userBegin) {
            GrowingStaysForced(files, begin, end, userBegin, userEnd, f, Some(f.smallest.user), userEnd);
            GrowingSticksOutLess(files, userBegin, userEnd, Some(f.smallest.user), userEnd, f);
            userBegin, inputs, i := Some(f.smallest.user), [], 0;
            OverlappingStep(files, i, userBegin, userEnd);
          } else if AfterEnd(f, userEnd) {
            GrowingStaysForced(files, begin, end, userBegin, userEnd, f, userBegin, Some(f.largest.user));
            GrowingSticksOutLess(files, userBegin, userEnd, userBegin, Some(f.largest.user), f);
            userEnd, inputs, i := Some(f.largest.user), [], 0;
            OverlappingStep(files, i, userBegin, userEnd);
          }
        }
      }
    }
    assert files[..i] == files;
    b, e := userBegin, userEnd;
    if level == 0 {
      ForcedRangeIsClosure(files, begin, end, b, e);
    }
  }

  lemma ForcedRangeIsClosure(files: seq<File>, begin: Bound, end: Bound, b: Bound, e: Bound)
    requires AllRanged(files) && ForcedRange(files, begin, end, b, e)
    requires begin.Some? <==> b.Some?
    requires end.Some? <==> e.Some?
    requires begin.Some? ==> b.value <= begin.value
    requires end.Some? ==> e.value >= end.value
    requires forall f :: f in OverlappingFiles(files, b, e) ==> !BeforeStart(f, b) && !AfterEnd(f, e)
    ensures Closed(AsSet(OverlappingFiles(files, b, e)), files, begin, end)
    ensures forall s :: Closed(s, files, begin, end) ==> AsSet(OverlappingFiles(files, b, e)) <= s
  {
    InOverlappingFiles(files, b, e);
    forall f, g | f in OverlappingFiles(files, b, e) && g in files && Meets(f, g)
      ensures g in OverlappingFiles(files, b, e)
    {
      assert Overlaps(g, b, e);
    }
  }
}
