/** Point reads of one Version: level by level, newest level-0 file first, one file per deeper level. */
module VersionGet {
  import opened Wrappers
  import opened DbFormat
  import opened Tree

  /** Binary search for the first file whose largest key is at or after `k`. */
  method FindFile(files: seq<File>, k: InternalKey) returns (r: nat)
    requires AllRanged(files) && Disjoint(files)
    ensures r <= |files|
    ensures forall i :: 0 <= i < r ==> Before(files[i].largest, k)
    ensures forall i :: r <= i < |files| ==> !Before(files[i].largest, k)
  {
    var left, right := 0, |files|;
    while left < right
      invariant 0 <= left <= right <= |files|
      invariant forall i :: 0 <= i < left ==> Before(files[i].largest, k)
      invariant forall i :: right <= i < |files| ==> !Before(files[i].largest, k)
    {
      var mid := (left + right) / 2;
      forall i | 0 <= i < |files|
        ensures i < mid ==> Before(files[i].largest, files[mid].largest)
        ensures mid < i ==> Before(files[mid].largest, files[i].largest)
      {
        assert Ranged(files[i]) && Ranged(files[mid]);
      }
      if Before(files[mid].largest, k) {
        left := mid + 1;
      } else {
        right := mid;
      }
    }
    r := right;
  }

  function InsertNewestFirst(fs: seq<File>, f: File): seq<File> {
    if fs == [] || f.number > fs[0].number then [f] + fs else [fs[0]] + InsertNewestFirst(fs[1..], f)
  }

  ghost predicate NewestFirst(fs: seq<File>) {
    forall i, j :: 0 <= i < j < |fs| ==> fs[i].number >= fs[j].number
  }

  lemma {:induction false} InsertKeepsNewestFirst(fs: seq<File>, f: File)
    requires NewestFirst(fs)
    ensures NewestFirst(InsertNewestFirst(fs, f))
    ensures multiset(InsertNewestFirst(fs, f)) == multiset(fs) + multiset{f}
  {
    if fs == [] || f.number > fs[0].number {
      assert InsertNewestFirst(fs, f) == [f] + fs;
    } else {
      InsertKeepsNewestFirst(fs[1..], f);
      var rest := InsertNewestFirst(fs[1..], f);
      assert fs == [fs[0]] + fs[1..];
      forall g | g in rest
        ensures g.number <= fs[0].number
      {
        assert g in multiset(rest);
      }
      assert InsertNewestFirst(fs, f) == [fs[0]] + rest;
    }
  }

  /** The level-0 files whose user-key range holds `u`, newest first. */
  method OverlappingNewestFirst(files: seq<File>, u: UserKey) returns (tmp: seq<File>)
    ensures NewestFirst(tmp)
    ensures forall f :: f in tmp <==> f in files && Covers(f, u)
  {
    tmp := [];
    for i := 0 to |files|
      invariant NewestFirst(tmp)
      invariant forall f :: f in tmp <==> f in files[..i] && Covers(f, u)
    {
      assert files[..i + 1] == files[..i] + [files[i]];
      if Covers(files[i], u) {
        InsertKeepsNewestFirst(tmp, files[i]);
        var was := tmp;
        tmp := InsertNewestFirst(tmp, files[i]);
        forall f
          ensures f in tmp <==> f in was || f == files[i]
        {
          assert f in tmp <==> f in multiset(tmp);
          assert f in was <==> f in multiset(was);
        }
      }
    }
    assert files[..|files|] == files;
  }

  /** Of the entries of `level` that a read may see, some file in `files` holds one at least as new. */
  ghost predicate Suffices(files: seq<File>, level: set<Entry>, u: UserKey, s: nat) {
    forall e :: e in level && Sees(e, u, s) ==> exists f :: f in files && HoldsAsNew(f, e, u, s)
  }

  ghost predicate HoldsAsNew(f: File, e: Entry, u: UserKey, s: nat) {
    exists n :: n in f.entries && Sees(n, u, s) && n.key.seqno >= e.key.seqno
  }

  /** The one file of a sorted level that can hold entries of `u` visible at `s`. */
  method FileForKey(files: seq<File>, u: UserKey, s: nat) returns (r: seq<File>)
    requires forall f :: f in files ==> ValidFile(f)
    requires Disjoint(files)
    ensures |r| <= 1 && forall f :: f in r ==> f in files
    ensures Suffices(r, EntriesOf(files), u, s)
  {
    hide Suffices, ValidFile, Disjoint;
    RangesOrdered(files);
    var index := FindFile(files, LookupKey(u, s));
    r := if index < |files| && files[index].smallest.user <= u then [files[index]] else [];
    FoundFileSuffices(files, index, u, s);
  }

  lemma RangesOrdered(files: seq<File>)
    requires forall f :: f in files ==> ValidFile(f)
    ensures AllRanged(files)
  {
    forall f | f in files
      ensures Ranged(f)
    {
      RangeOrdered(f);
    }
  }

  lemma FoundFileSuffices(files: seq<File>, index: nat, u: UserKey, s: nat)
    requires forall f :: f in files ==> ValidFile(f)
    requires Disjoint(files) && index <= |files|
    requires forall i :: 0 <= i < index ==> Before(files[i].largest, LookupKey(u, s))
    requires forall i :: index <= i < |files| ==> !Before(files[i].largest, LookupKey(u, s))
    ensures Suffices(if index < |files| && files[index].smallest.user <= u then [files[index]]
            else [], EntriesOf(files), u, s)
  {
    forall e | e in EntriesOf(files) && Sees(e, u, s)
      ensures index < |files| && files[index].smallest.user <= u && HoldsAsNew(files[index], e, u, s)
    {
      var f :| f in files && e in f.entries;
      var i :| 0 <= i < |files| && files[i] == f;
      KeysWithinRange(f, e);
      assert index <= i;
      if index < i {
        LastEntryIsNewer(files[index], f, e, u, s);
      }
    }
  }

  /** If `g` comes first but reaches the lookup key, its last entry is of the same user key and at least as new. */
  lemma LastEntryIsNewer(g: File, f: File, e: Entry, u: UserKey, s: nat)
    requires ValidFile(g) && ValidFile(f) && Before(g.largest, f.smallest)
    requires e in f.entries && Sees(e, u, s) && !Before(g.largest, LookupKey(u, s))
    ensures HoldsAsNew(g, e, u, s) && g.smallest.user <= u
  {
    KeysWithinRange(f, e);
    var n := g.entries[|g.entries| - 1];
    KeysWithinRange(g, n);
    assert n in g.entries && Sees(n, u, s) && n.key.seqno >= e.key.seqno;
  }

  datatype GetResult = Found(value: Blob) | Deleted | NotFound

  function AsRead(r: GetResult): Option<Blob> {
    if r.Found? then Some(r.value) else None
  }

  ghost predicate NewerFirst(files: seq<File>) {
    forall i, j :: 0 <= i < j < |files| ==> NewerFile(files[i], files[j]) || files[i] == files[j]
  }

  ghost predicate Unseen(f: File, u: UserKey, s: nat) {
    forall e :: e in f.entries ==> !Sees(e, u, s)
  }

  /** The first file with a visible entry holds the newest visible entry of the level. */
  lemma FirstHitIsNewest(files: seq<File>, level: set<Entry>, i: nat, u: UserKey, s: nat)
    requires i < |files| && NewerFirst(files) && Suffices(files, level, u, s)
    requires ValidFile(files[i]) && EntriesOf(files) <= level
    requires forall j :: 0 <= j < i ==> Unseen(files[j], u, s)
    requires TableGet(files[i], u, s).Some?
    ensures IsNewest(level, u, s, TableGet(files[i], u, s).value)
  {
    FirstVisibleIsNewest(files[i].entries, u, s);
    var n := TableGet(files[i], u, s).value;
    assert n in EntriesOf(files);
    forall e | e in level && Sees(e, u, s)
      ensures e.key.seqno <= n.key.seqno
    {
      var f :| f in files && HoldsAsNew(f, e, u, s);
      var m :| m in f.entries && Sees(m, u, s) && m.key.seqno >= e.key.seqno;
      var j :| 0 <= j < |files| && files[j] == f;
      assert j >= i;
      assert j > i && f != files[i] ==> NewerFile(files[i], f);
    }
  }

  lemma TableGetUnseen(f: File, u: UserKey, s: nat)
    requires ValidFile(f)
    ensures TableGet(f, u, s) == None <==> Unseen(f, u, s)
  {
    FirstVisibleIsNewest(f.entries, u, s);
  }

  lemma NoHitMeansUnseen(files: seq<File>, level: set<Entry>, u: UserKey, s: nat)
    requires Suffices(files, level, u, s)
    requires forall j :: 0 <= j < |files| ==> Unseen(files[j], u, s)
    ensures forall e :: e in level ==> !Sees(e, u, s)
  {
  }

  /** Searches files in order and stops at the first that has a visible entry. */
  method SearchFiles(files: seq<File>, u: UserKey, s: nat, ghost level: set<Entry>) returns (r: GetResult)
    requires forall f :: f in files ==> ValidFile(f)
    requires EntriesOf(files) <= level && Unique(level)
    requires Suffices(files, level, u, s) && NewerFirst(files)
    ensures r == NotFound <==> forall e :: e in level ==> !Sees(e, u, s)
    ensures AsRead(r) == Read(level, u, s)
  {
    hide Suffices, NewerFirst, EntriesOf, Unique;
    var i := 0;
    while i < |files|
      invariant 0 <= i <= |files|
      invariant forall j :: 0 <= j < i ==> Unseen(files[j], u, s)
    {
      var hit := TableGet(files[i], u, s);
      TableGetUnseen(files[i], u, s);
      if hit.Some? {
        FirstHitIsNewest(files, level, i, u, s);
        ReadNewest(level, u, s, hit.value);
        return if hit.value.key.kind.Value? then Found(hit.value.value) else Deleted;
      }
      i := i + 1;
    }
    NoHitMeansUnseen(files, level, u, s);
    ReadNothing(level, u, s);
    r := NotFound;
  }

  /** The files of one level that a read has to look at, in the order it does. */
  method FilesToSearch(v: Version, level: nat, u: UserKey, s: nat) returns (files: seq<File>)
    requires Valid(v) && level < NUM_LEVELS
    ensures forall f :: f in files ==> f in v[level]
    ensures Suffices(files, EntriesOf(v[level]), u, s) && NewerFirst(files)
  {
    assert ValidLevel(v, level);
    if level == 0 {
      files := OverlappingNewestFirst(v[0], u);
      CoveringFilesSuffice(v[0], files, u, s);
    } else {
      files := FileForKey(v[level], u, s);
    }
  }

  /** Reads `u` at snapshot `s` from a valid tree: the result is that of the flat set of all its entries. */
  method Get(v: Version, u: UserKey, s: nat) returns (r: GetResult)
    requires Valid(v)
    ensures r == NotFound <==> forall e :: e in Flat(v) ==> !Sees(e, u, s)
    ensures AsRead(r) == Read(Flat(v), u, s)
  {
    for level := 0 to NUM_LEVELS
      invariant (exists e :: e in Flat(v) && Sees(e, u, s)) <==> exists e :: e in Deeper(v, level) && Sees(e, u, s)
      invariant Read(Flat(v), u, s) == Read(Deeper(v, level), u, s)
    {
      var files := FilesToSearch(v, level, u, s);
      DeeperIsSubset(v, level);
      assert ValidLevel(v, level);
      r := SearchFiles(files, u, s, EntriesOf(v[level]));
      LevelsRead(v, level, u, s);
      if r != NotFound {
        return;
      }
    }
    r := NotFound;
    ReadNothing(Deeper(v, NUM_LEVELS), u, s);
  }

  lemma DeeperIsSubset(v: Version, level: nat)
    requires Valid(v) && level < |v|
    ensures EntriesOf(v[level]) <= Flat(v) && Deeper(v, level) <= Flat(v)
    ensures Unique(EntriesOf(v[level])) && Unique(Deeper(v, level))
  {
    forall e
      ensures e in EntriesOf(v[level]) ==> e in Flat(v)
      ensures e in Deeper(v, level) ==> e in Flat(v)
    {
      InDeeper(v, level, e);
      InDeeper(v, 0, e);
    }
  }

  lemma CoveringFilesSuffice(files: seq<File>, covering: seq<File>, u: UserKey, s: nat)
    requires forall f :: f in files ==> ValidFile(f)
    requires forall f :: f in covering <==> f in files && Covers(f, u)
    ensures Suffices(covering, EntriesOf(files), u, s)
  {
    forall e | e in EntriesOf(files) && Sees(e, u, s)
      ensures exists f :: f in covering && HoldsAsNew(f, e, u, s)
    {
      var f :| f in files && e in f.entries;
      KeysWithinRange(f, e);
      assert f in covering && HoldsAsNew(f, e, u, s);
    }
  }

  /** A level with a visible entry decides the read; without one it can be skipped. */
  lemma LevelsRead(v: Version, level: nat, u: UserKey, s: nat)
    requires Valid(v) && level < |v|
    ensures (exists e :: e in EntriesOf(v[level]) && Sees(e, u, s)) ==>
              Read(Deeper(v, level), u, s) == Read(EntriesOf(v[level]), u, s)
    ensures (forall e :: e in EntriesOf(v[level]) ==> !Sees(e, u, s)) ==>
              Read(Deeper(v, level), u, s) == Read(Deeper(v, level + 1), u, s)
  {
    DeeperIsSubset(v, level);
    var newer, older := EntriesOf(v[level]), Deeper(v, level + 1);
    forall a, b | a in newer && b in older && a.key.user == b.key.user
      ensures a.key.seqno > b.key.seqno
    {
      InDeeper(v, level + 1, b);
      var l :| level + 1 <= l < |v| && b in EntriesOf(v[l]);
      assert NewerFiles(v[level], v[l]);
      var f :| f in v[level] && a in f.entries;
      var g :| g in v[l] && b in g.entries;
      assert NewerFile(f, g);
    }
    ReadOfLayers(newer, older, u, s);
  }
}
