/** The iterator under a user-level one: memtables, level-0 tables and the tables of each deeper level, merged. */
module InternalIterator {
  import opened Wrappers
  import opened DbFormat
  import opened Tree
  import opened Picking
  import opened CompactionWork
  import opened Background
  import opened Cursor
  import opened Database
  import opened DbImpl
  import MergingIterator
  import TwoLevelIterator
  import DbIter

  // ---- every iterator over a set of entries is a cursor on them in order ----

  /** Landing at `p` after a move, as the move's cut says, is landing where the run lands. */
  ghost predicate Alike(r: Run, es: set<Entry>, k: InternalKey, p: Position)
    requires r.Ok()
  {
    && (FirstAbove(es, Start, p) ==> p == r.SeekToFirst().At())
    && (LastBelow(es, End, p) ==> p == r.SeekToLast().At())
    && (FirstAbove(es, BeforeKey(k), p) ==> p == r.Seek(k).At())
    && (r.Valid() && FirstAbove(es, AfterKey(r.Current().key), p) ==> p == r.Next().At())
    && (r.Valid() && LastBelow(es, BeforeKey(r.Current().key), p) ==> p == r.Prev().At())
  }

  /** An iterator that lands where its cut says stands where a run over the same entries would, whichever way both
      move. */
  lemma MovesAlike(r: Run, es: set<Entry>, k: InternalKey, p: Position)
    requires r.Ok() && r.Entries() == es
    ensures Alike(r, es, k, p)
  {
    hide Run.PastCut, Run.BeforeCut, FirstAbove, LastBelow, Run.Entries;
    r.MovesCut(k);
    KeysAreDistinct(r);
    SamePlace(r, r.SeekToFirst(), Start, p);
    SamePlace(r, r.SeekToLast(), End, p);
    SamePlace(r, r.Seek(k), BeforeKey(k), p);
    if r.Valid() {
      SamePlace(r, r.Next(), AfterKey(r.Current().key), p);
      SamePlace(r, r.Prev(), BeforeKey(r.Current().key), p);
    }
  }

  lemma KeysAreDistinct(r: Run)
    requires r.Ok()
    ensures DistinctKeys(r.Entries())
  {
  }

  lemma SamePlace(r: Run, moved: Run, cut: Cut, p: Position)
    requires moved.entries == r.entries && DistinctKeys(r.Entries())
    ensures moved.PastCut(cut) && FirstAbove(r.Entries(), cut, p) ==> p == moved.At()
    ensures moved.BeforeCut(cut) && LastBelow(r.Entries(), cut, p) ==> p == moved.At()
  {
    hide Run.PastCut, Run.BeforeCut, FirstAbove, LastBelow, DistinctKeys;
    assert moved.Entries() == r.Entries();
    moved.CutsArePositions(cut);
    PositionsAreDetermined(r.Entries(), cut, p, moved.At());
  }

  // ---- the tables of a version ----

  lemma {:induction false} LevelIsSorted(files: seq<File>)
    requires (forall f :: f in files ==> ValidFile(f)) && Disjoint(files)
    ensures Sorted(Concat(files))
  {
    hide ValidFile, Sorted;
    if files == [] {
      assert Sorted([]) by { NothingIsSorted(); }
    } else {
      var n := |files| - 1;
      assert files == files[..n] + [files[n]];
      LevelIsSorted(files[..n]);
      forall a, b | a in Concat(files[..n]) && b in files[n].entries
        ensures Before(a.key, b.key)
      {
        EarlierFile(files, n, a, b);
      }
      SortedTogether(Concat(files[..n]), files[n].entries, files[n]);
    }
  }

  lemma NothingIsSorted()
    ensures Sorted([])
  {
  }

  lemma EarlierFile(files: seq<File>, n: nat, a: Entry, b: Entry)
    requires (forall f :: f in files ==> ValidFile(f)) && Disjoint(files) && n < |files|
    requires a in Concat(files[..n]) && b in files[n].entries
    ensures Before(a.key, b.key)
  {
    hide ValidFile;
    InConcat(files[..n], a);
    var f :| f in files[..n] && a in f.entries;
    var i :| 0 <= i < n && files[i] == f;
    KeysWithinRange(f, a);
    KeysWithinRange(files[n], b);
  }

  lemma SortedTogether(a: seq<Entry>, b: seq<Entry>, f: File)
    requires Sorted(a) && ValidFile(f) && f.entries == b
    requires forall x, y :: x in a && y in b ==> Before(x.key, y.key)
    ensures Sorted(a + b)
  {
  }

  /** The tables of a deeper level, with their largest keys for an index, as the two-level iterator wants them; it then
      walks the entries of the level. */
  lemma LevelIsLayered(v: Version, l: nat)
    requires Valid(v) && 0 < l < NUM_LEVELS
    ensures TwoLevelIterator.Layered(LargestKeys(v[l]), Contents(v[l])) &&
            TwoLevelIterator.Entries(Contents(v[l])) == EntriesOf(v[l])
  {
    var files := v[l];
    assert ValidLevel(v, l);
    hide Valid, ValidLevel, ValidFile;
    forall i, e | 0 <= i < |files| && e in files[i].entries
      ensures AtOrBefore(e.key, files[i].largest) && AtOrBefore(files[i].smallest, e.key) && Sorted(files[i].entries)
    {
      KeysWithinRange(files[i], e);
      EntriesSorted(files[i]);
    }
    forall i | 0 <= i < |files|
      ensures Sorted(files[i].entries)
      ensures AtOrBefore(files[i].smallest, files[i].largest)
    {
      EntriesSorted(files[i]);
      RangeOrdered(files[i]);
    }
    ContentsAre(files);
  }

  function LargestKeys(files: seq<File>): seq<InternalKey> {
    seq(|files|, i requires 0 <= i < |files| => files[i].largest)
  }

  function Contents(files: seq<File>): seq<seq<Entry>> {
    seq(|files|, i requires 0 <= i < |files| => files[i].entries)
  }

  lemma EntriesSorted(f: File)
    requires ValidFile(f)
    ensures Sorted(f.entries)
  {
  }

  lemma ContentsAre(files: seq<File>)
    ensures TwoLevelIterator.Entries(Contents(files)) == EntriesOf(files)
  {
    var blocks := Contents(files);
    forall e
      ensures e in TwoLevelIterator.Entries(blocks) <==> e in EntriesOf(files)
    {
      if e in EntriesOf(files) {
        var f :| f in files && e in f.entries;
        var i :| 0 <= i < |files| && files[i] == f;
        assert blocks[i] in blocks;
      }
      if e in TwoLevelIterator.Entries(blocks) {
        var b :| b in blocks && e in b;
        var i :| 0 <= i < |blocks| && blocks[i] == b;
        assert files[i] in files;
      }
    }
  }

  /** Entries of two different tables of a tree have different keys. */
  lemma TablesShareNoKey(v: Version, l: nat, f: File, m: nat, g: File, a: Entry, b: Entry)
    requires Valid(v) && l <= m < NUM_LEVELS && f in v[l] && g in v[m] && (l == m ==> f != g)
    requires a in f.entries && b in g.entries
    ensures a.key != b.key
  {
    assert ValidLevel(v, l);
    hide ValidLevel, Flat, Unique, NumbersOnce, NewerFile;
    if l == m > 0 {
      ApartInLevel(v, l, f, g, a, b);
    } else if l == m {
      Level0NewerFile(v, f, g);
      NewerSharesNoKey(f, g, a, b);
    } else {
      assert NewerFiles(v[l], v[m]);
      NewerSharesNoKey(f, g, a, b);
    }
  }

  lemma NewerSharesNoKey(f: File, g: File, a: Entry, b: Entry)
    requires NewerFile(f, g) || NewerFile(g, f)
    requires a in f.entries && b in g.entries
    ensures a.key != b.key
  {
  }

  lemma Level0NewerFile(v: Version, f: File, g: File)
    requires |v| > 0 && ValidLevel(v, 0) && f in v[0] && g in v[0] && f != g
    ensures NewerFile(f, g) || NewerFile(g, f)
  {
    hide ValidFile, InOrder, NewerFile;
    assert f.number != g.number;
  }

  lemma ApartInLevel(v: Version, l: nat, f: File, g: File, a: Entry, b: Entry)
    requires 0 < l < |v| && ValidLevel(v, l) && f in v[l] && g in v[l] && f != g
    requires a in f.entries && b in g.entries
    ensures a.key != b.key
  {
    hide ValidFile, InOrder, DistinctNumbers;
    KeysWithinRange(f, a);
    KeysWithinRange(g, b);
    var i :| 0 <= i < |v[l]| && v[l][i] == f;
    var j :| 0 <= j < |v[l]| && v[l][j] == g;
  }

  /** The children for a version, numbered: first the tables of level 0 one by one, then the deeper levels. */
  function Child(v: Version, id: nat): seq<Entry>
    requires |v| == NUM_LEVELS && id < |v[0]| + 6
  {
    if id < |v[0]| then v[0][id].entries else Concat(v[id - |v[0]| + 1])
  }

  lemma WhereInChild(v: Version, id: nat, e: Entry) returns (l: nat, f: File)
    requires |v| == NUM_LEVELS && id < |v[0]| + 6 && e in Child(v, id)
    ensures l < NUM_LEVELS && f in v[l] && e in f.entries
    ensures if l == 0 then id < |v[0]| && f == v[0][id] else id == |v[0]| + l - 1
  {
    if id < |v[0]| {
      l, f := 0, v[0][id];
    } else {
      l := id - |v[0]| + 1;
      InConcat(v[l], e);
      f :| f in v[l] && e in f.entries;
    }
  }

  lemma ChildrenShareNoKey(v: Version, i: nat, j: nat, a: Entry, b: Entry)
    requires Valid(v) && i < j < |v[0]| + 6 && a in Child(v, i) && b in Child(v, j)
    ensures a.key != b.key
  {
    var l, f := WhereInChild(v, i, a);
    var m, g := WhereInChild(v, j, b);
    assert l == m ==> f != g by {
      if l == m {
        Level0FilesDiffer(v, i, j);
      }
    }
    TablesShareNoKey(v, l, f, m, g, a, b);
  }

  lemma Level0FilesDiffer(v: Version, i: nat, j: nat)
    requires Valid(v) && i < j < |v[0]|
    ensures v[0][i] != v[0][j]
  {
    assert ValidLevel(v, 0);
  }

  lemma ChildIsSorted(v: Version, id: nat)
    requires Valid(v) && id < |v[0]| + 6
    ensures Sorted(Child(v, id))
  {
    if id < |v[0]| {
      assert ValidLevel(v, 0);
      assert ValidFile(v[0][id]);
    } else {
      assert ValidLevel(v, id - |v[0]| + 1);
      LevelIsSorted(v[id - |v[0]| + 1]);
    }
  }

  lemma InSomeChild(v: Version, e: Entry)
    requires |v| == NUM_LEVELS
    ensures e in Flat(v) <==> exists id: nat :: id < |v[0]| + 6 && e in Child(v, id)
  {
    InDeeper(v, 0, e);
    if e in Flat(v) {
      var l :| 0 <= l < |v| && e in EntriesOf(v[l]);
      if l == 0 {
        var f :| f in v[0] && e in f.entries;
        var i: nat :| i < |v[0]| && v[0][i] == f;
        assert e in Child(v, i);
      } else {
        InConcat(v[l], e);
        assert e in Child(v, |v[0]| + l - 1);
      }
    }
    if id: nat :| id < |v[0]| + 6 && e in Child(v, id) {
      var l, f := WhereInChild(v, id, e);
      assert e in EntriesOf(v[l]);
    }
  }

  /** Which children the runs are; children without entries may be missing. */
  ghost predicate AreChildren(v: Version, runs: seq<seq<Entry>>, ids: seq<nat>, n: nat)
    requires |v| == NUM_LEVELS && n <= |v[0]| + 6
  {
    && |ids| == |runs|
    && (forall i :: 0 <= i < |ids| ==> ids[i] < n && runs[i] == Child(v, ids[i]))
    && (forall i, j :: 0 <= i < j < |ids| ==> ids[i] < ids[j])
    && (forall id: nat :: id < n && Child(v, id) != [] ==> id in ids)
  }

  lemma OneMoreChild(v: Version, runs: seq<seq<Entry>>, ids: seq<nat>, n: nat)
    requires |v| == NUM_LEVELS && n < |v[0]| + 6 && AreChildren(v, runs, ids, n)
    ensures AreChildren(v, runs + [Child(v, n)], ids + [n], n + 1)
    ensures Child(v, n) == [] ==> AreChildren(v, runs, ids, n + 1)
  {
    hide Child;
  }

  /** Level-0 tables one by one, since they may overlap; each deeper level that has tables as one run. */
  method AddIterators(v: Version) returns (runs: seq<seq<Entry>>, ghost ids: seq<nat>)
    requires |v| == NUM_LEVELS
    ensures AreChildren(v, runs, ids, |v[0]| + 6)
  {
    hide AreChildren, Concat;
    runs, ids := [], [];
    assert AreChildren(v, [], [], 0) by { NoChildrenYet(v); }
    var i := 0;
    while i < |v[0]|
      invariant i <= |v[0]| && AreChildren(v, runs, ids, i)
    {
      OneMoreChild(v, runs, ids, i);
      runs, ids := runs + [v[0][i].entries], ids + [i];
      i := i + 1;
    }
    var level := 1;
    while level < NUM_LEVELS
      invariant 1 <= level <= NUM_LEVELS && AreChildren(v, runs, ids, |v[0]| + level - 1)
    {
      OneMoreChild(v, runs, ids, |v[0]| + level - 1);
      if v[level] != [] {
        runs, ids := runs + [Concat(v[level])], ids + [|v[0]| + level - 1];
      } else {
        assert Concat(v[level]) == [] by { NothingInNoFiles(); }
      }
      level := level + 1;
    }
  }

  lemma NoChildrenYet(v: Version)
    requires |v| == NUM_LEVELS
    ensures AreChildren(v, [], [], 0)
  {
  }

  lemma NothingInNoFiles()
    ensures Concat([]) == []
  {
  }

  // ---- all that the database holds ----

  predicate InRuns(runs: seq<seq<Entry>>, e: Entry) {
    exists i :: 0 <= i < |runs| && e in runs[i]
  }

  /** Sorted, and no key is in two of them: what the merging iterator asks of its children. */
  ghost predicate Mergeable(runs: seq<seq<Entry>>) {
    && (forall i :: 0 <= i < |runs| ==> Sorted(runs[i]))
    && (forall i, j, a, b :: 0 <= i < j < |runs| && a in runs[i] && b in runs[j] ==> a.key != b.key)
  }

  lemma TablesAreMergeable(v: Version, runs: seq<seq<Entry>>, ids: seq<nat>)
    requires |v| == NUM_LEVELS && Valid(v) && AreChildren(v, runs, ids, |v[0]| + 6)
    ensures Mergeable(runs)
    ensures forall e :: InRuns(runs, e) <==> e in Flat(v)
  {
    hide Valid, Flat, Child;
    forall i | 0 <= i < |runs|
      ensures Sorted(runs[i])
    {
      ChildIsSorted(v, ids[i]);
    }
    forall i, j, a: Entry, b: Entry | 0 <= i < j < |runs| && a in runs[i] && b in runs[j]
      ensures a.key != b.key
    {
      ChildrenShareNoKey(v, ids[i], ids[j], a, b);
    }
    forall e
      ensures InRuns(runs, e) <==> e in Flat(v)
    {
      InSomeChild(v, e);
      if id: nat :| id < |v[0]| + 6 && e in Child(v, id) {
        assert Child(v, id) != [];
        var i :| 0 <= i < |ids| && ids[i] == id;
        assert e in runs[i];
      }
    }
  }

  /** Newer entries in front. */
  lemma InFront(run: seq<Entry>, runs: seq<seq<Entry>>, newer: set<Entry>, older: set<Entry>)
    requires Sorted(run) && Mergeable(runs) && NewerEntries(newer, older)
    requires (forall e :: e in run <==> e in newer) && forall e :: InRuns(runs, e) <==> e in older
    ensures Mergeable([run] + runs) && forall e :: InRuns([run] + runs, e) <==> e in newer + older
  {
    hide Sorted;
    var all := [run] + runs;
    forall i, j, a: Entry, b: Entry | 0 <= i < j < |all| && a in all[i] && b in all[j]
      ensures a.key != b.key
    {
      if i == 0 {
        assert b in runs[j - 1];
        assert InRuns(runs, b);
      } else {
        assert a in runs[i - 1] && b in runs[j - 1];
      }
    }
    forall e
      ensures InRuns(all, e) <==> e in newer + older
    {
      if e in older {
        var i :| 0 <= i < |runs| && e in runs[i];
        assert e in all[i + 1];
      }
      if e in newer {
        assert e in all[0];
      }
      if i :| 0 <= i < |all| && e in all[i] {
        if i > 0 {
          assert e in runs[i - 1];
        }
      }
    }
  }

  lemma RunsMakeChildren(runs: seq<seq<Entry>>, all: set<Entry>)
    requires Mergeable(runs) && forall e :: InRuns(runs, e) <==> e in all
    ensures var children := seq(|runs|, i requires 0 <= i < |runs| => Run(runs[i], |runs[i]|));
            MergingIterator.ChildrenOk(children) && MergingIterator.Union(children) == all
  {
    hide Sorted;
    var children := seq(|runs|, i requires 0 <= i < |runs| => Run(runs[i], |runs[i]|));
    forall e
      ensures e in MergingIterator.Union(children) <==> e in all
    {
      if e in all {
        var i :| 0 <= i < |runs| && e in runs[i];
        assert children[i] in children;
      }
      if e in MergingIterator.Union(children) {
        var c :| c in children && e in c.entries;
        var i :| 0 <= i < |children| && children[i] == c;
        assert e in runs[i];
      }
    }
  }

  /** The iterator over everything in the database: memtable, immutable memtable, tables. */
  method NewInternalIterator(db: DBImpl) returns (m: MergingIterator.MergingIterator)
    requires db.Ok()
    ensures fresh(m) && m.Ok() && !m.Valid() && m.Entries() == db.Abs().All()
  {
    hide Valid, Flat, Mergeable, InRuns, NewerEntries, Unique, NumbersBelow, Sorted, AreChildren;
    LevelRanged(db.versions.current, 0);
    ghost var s := db.Abs();
    var runs;
    ghost var ids;
    runs, ids := AddIterators(db.versions.current);
    TablesAreMergeable(db.versions.current, runs, ids);
    ghost var all := Flat(s.version);
    if db.imm.Some? {
      LayersAreNewer(s);
      InFront(db.imm.value, runs, s.Frozen(), all);
      runs := [db.imm.value] + runs;
    }
    all := s.Frozen() + all;
    assert db.imm == None ==> all == Flat(s.version);
    LayersAreNewer(s);
    InFront(db.mem, runs, s.mem, all);
    runs := [db.mem] + runs;
    RunsMakeChildren(runs, s.All());
    m := new MergingIterator.MergingIterator(runs);
  }

  lemma LayersAreNewer(s: State)
    requires s.Inv()
    ensures NewerEntries(s.Frozen(), Flat(s.version)) && NewerEntries(s.mem, s.Frozen() + Flat(s.version))
  {
    hide Valid, Flat;
  }

  // ---- what a user-level iterator over it shows ----

  lemma {:induction false} SomeEntryIsLast(es: set<Entry>) returns (last: Entry)
    requires es != {}
    ensures LastBelow(es, End, Some(last))
  {
    var e :| e in es;
    last := e;
    if es - {e} != {} {
      var rest := SomeEntryIsLast(es - {e});
      last := if Before(e.key, rest.key) then rest else e;
      forall x | x in es
        ensures AtOrBefore(x.key, last.key)
      {
        assert x == e || x in es - {e};
      }
    } else {
      assert es <= {e};
    }
  }

  /** The entries of a set in the order in which iterators visit them. */
  lemma {:induction false} Ordered(all: set<Entry>) returns (es: seq<Entry>)
    requires DistinctKeys(all)
    ensures Sorted(es) && (set e | e in es) == all
  {
    if all == {} {
      es := [];
    } else {
      var last := SomeEntryIsLast(all);
      var rest := Ordered(all - {last});
      es := rest + [last];
      forall i | 0 <= i < |rest|
        ensures Before(rest[i].key, last.key)
      {
        assert rest[i] in (set e | e in rest);
      }
      assert (set e | e in es) == (set e | e in rest) + {last};
    }
  }

  lemma UniqueIsDistinct(all: set<Entry>)
    requires Unique(all)
    ensures DistinctKeys(all)
  {
  }

  /** A user-level iterator at a snapshot walks the internal iterator, which moves as a run over everything in the
      database in order does; it shows for each user key what a point read at the snapshot finds, and no key that reads
      as nothing. */
  lemma IteratorShowsReads(s: State, q: nat) returns (es: seq<Entry>)
    requires s.Inv()
    ensures Sorted(es) && (set e | e in es) == s.All()
    ensures forall r: Run, k, p :: r.entries == es && r.Ok() ==> Alike(r, s.All(), k, p)
    ensures forall u :: Read(s.All(), u, q) == None <==>
              forall i :: 0 <= i < |es| && DbIter.Yields(es, q, i) ==> es[i].key.user != u
    ensures forall i :: 0 <= i < |es| && DbIter.Yields(es, q, i) ==>
              Read(s.All(), es[i].key.user, q) == Some(es[i].value)
  {
    hide Sorted, DbIter.Yields, Read;
    AllIsUnique(s);
    UniqueIsDistinct(s.All());
    es := Ordered(s.All());
    forall r: Run, k, p | r.entries == es && r.Ok()
      ensures Alike(r, s.All(), k, p)
    {
      MovesAlike(r, s.All(), k, p);
    }
    forall u
      ensures Read(s.All(), u, q) == None <==>
                forall i :: 0 <= i < |es| && DbIter.Yields(es, q, i) ==> es[i].key.user != u
      ensures forall i :: 0 <= i < |es| && DbIter.Yields(es, q, i) && es[i].key.user == u ==>
                Read(s.All(), u, q) == Some(es[i].value)
    {
      DbIter.ShownIsRead(es, q, u);
    }
  }

  lemma AllIsUnique(s: State)
    requires s.Inv()
    ensures Unique(s.All())
  {
    hide Valid, Flat;
  }
}
