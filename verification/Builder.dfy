/** Version edits, and the builder that folds them into the files of a version. */
module Builder {
  import opened DbFormat
  import opened Tree

  /** The part of a version edit that changes files; both lists carry the level. */
  datatype FileEdit = FileEdit(deletedFiles: set<(nat, nat)>, newFiles: seq<(nat, File)>)

  predicate EditOk(e: FileEdit) {
    && (forall d :: d in e.deletedFiles ==> d.0 < NUM_LEVELS)
    && (forall n :: n in e.newFiles ==> n.0 < NUM_LEVELS)
  }

  function DeletedAt(e: FileEdit, l: nat): set<nat> {
    set d | d in e.deletedFiles && d.0 == l :: d.1
  }

  function NewAt(news: seq<(nat, File)>, l: nat): seq<File> {
    if news == [] then []
    else NewAt(news[..|news| - 1], l) + (if news[|news| - 1].0 == l then [news[|news| - 1].1] else [])
  }

  function NumbersOf(fs: seq<File>): set<nat> {
    set f | f in fs :: f.number
  }

  /** What a builder knows of one level: deleted numbers, and added files in order. */
  datatype LevelState = LevelState(deleted: set<nat>, added: seq<File>)

  const EMPTY_LEVEL := LevelState({}, [])

  /** Insertion into an ordered set: a file that ties with one already there is not inserted. */
  function Insert(fs: seq<File>, f: File): seq<File> {
    if fs == [] || BySmallestKey(f, fs[0]) then [f] + fs
    else if BySmallestKey(fs[0], f) then [fs[0]] + Insert(fs[1..], f)
    else fs
  }

  function AddOne(s: LevelState, f: File): LevelState {
    LevelState(s.deleted - {f.number}, Insert(s.added, f))
  }

  function AddAll(s: LevelState, fs: seq<File>): LevelState {
    if fs == [] then s else AddOne(AddAll(s, fs[..|fs| - 1]), fs[|fs| - 1])
  }

  function ApplyLevel(s: LevelState, e: FileEdit, l: nat): LevelState {
    AddAll(LevelState(s.deleted + DeletedAt(e, l), s.added), NewAt(e.newFiles, l))
  }

  /** Base files and added files in one order, a base file before an added one that ties with it. */
  function Merge(base: seq<File>, added: seq<File>): seq<File> {
    if added == [] then base
    else if base == [] then added
    else if BySmallestKey(added[0], base[0]) then [added[0]] + Merge(base, added[1..])
    else [base[0]] + Merge(base[1..], added)
  }

  function Drop(fs: seq<File>, deleted: set<nat>): seq<File> {
    if fs == [] then []
    else (if fs[0].number in deleted then [] else [fs[0]]) + Drop(fs[1..], deleted)
  }

  function SaveLevel(base: seq<File>, s: LevelState): seq<File> {
    Drop(Merge(base, s.added), s.deleted)
  }

  predicate Ties(f: File, g: File) {
    f.smallest == g.smallest && f.number == g.number
  }

  lemma ConsOrdered(f: File, fs: seq<File>)
    requires InOrder(fs) && forall g :: g in fs ==> BySmallestKey(f, g)
    ensures InOrder([f] + fs)
  {
  }

  lemma TailOrdered(fs: seq<File>)
    requires InOrder(fs) && fs != []
    ensures InOrder(fs[1..]) && fs == [fs[0]] + fs[1..]
    ensures forall g :: g in fs[1..] ==> BySmallestKey(fs[0], g) && g != fs[0]
  {
  }

  lemma {:induction false} InsertKeepsOrder(fs: seq<File>, f: File)
    requires InOrder(fs)
    ensures InOrder(Insert(fs, f))
    ensures forall g :: g in Insert(fs, f) ==> g in fs || g == f
    ensures forall g :: g in fs ==> g in Insert(fs, f)
    ensures f in Insert(fs, f) || exists g :: g in fs && Ties(g, f)
  {
    if fs == [] || BySmallestKey(f, fs[0]) {
      if fs != [] {
        TailOrdered(fs);
      }
      ConsOrdered(f, fs);
    } else {
      TailOrdered(fs);
      if BySmallestKey(fs[0], f) {
        InsertKeepsOrder(fs[1..], f);
        ConsOrdered(fs[0], Insert(fs[1..], f));
      } else {
        assert Ties(fs[0], f);
      }
    }
  }

  lemma {:induction false} AddAllKeepsOrder(s: LevelState, fs: seq<File>)
    requires InOrder(s.added)
    ensures InOrder(AddAll(s, fs).added)
    ensures AddAll(s, fs).deleted == s.deleted - NumbersOf(fs)
    ensures forall g :: g in AddAll(s, fs).added ==> g in s.added || g in fs
    ensures forall g :: g in s.added ==> g in AddAll(s, fs).added
    ensures forall f :: f in fs ==> exists g :: g in AddAll(s, fs).added && Ties(g, f)
  {
    if fs != [] {
      var n := |fs| - 1;
      assert fs == fs[..n] + [fs[n]];
      AddAllKeepsOrder(s, fs[..n]);
      var was := AddAll(s, fs[..n]);
      InsertKeepsOrder(was.added, fs[n]);
      forall f | f in fs
        ensures exists g :: g in AddAll(s, fs).added && Ties(g, f)
      {
        if f == fs[n] && f in Insert(was.added, f) {
          assert Ties(f, f);
        }
      }
    }
  }

  lemma {:induction false} InMerge(base: seq<File>, added: seq<File>)
    ensures forall f :: f in Merge(base, added) <==> f in base || f in added
  {
    if added != [] && base != [] {
      if BySmallestKey(added[0], base[0]) {
        InMerge(base, added[1..]);
        assert added == [added[0]] + added[1..];
      } else {
        InMerge(base[1..], added);
        assert base == [base[0]] + base[1..];
      }
    }
  }

  lemma {:induction false} MergeOrdered(base: seq<File>, added: seq<File>)
    requires InOrder(base) && InOrder(added)
    requires forall f, g :: f in base && g in added ==> !Ties(f, g)
    ensures InOrder(Merge(base, added))
  {
    if added != [] && base != [] {
      TailOrdered(base);
      TailOrdered(added);
      if BySmallestKey(added[0], base[0]) {
        MergeOrdered(base, added[1..]);
        InMerge(base, added[1..]);
        ConsOrdered(added[0], Merge(base, added[1..]));
      } else {
        assert !Ties(base[0], added[0]);
        MergeOrdered(base[1..], added);
        InMerge(base[1..], added);
        ConsOrdered(base[0], Merge(base[1..], added));
      }
    }
  }

  lemma {:induction false} InDrop(fs: seq<File>, deleted: set<nat>)
    ensures forall f :: f in Drop(fs, deleted) <==> f in fs && f.number !in deleted
    ensures InOrder(fs) ==> InOrder(Drop(fs, deleted))
  {
    if fs != [] {
      InDrop(fs[1..], deleted);
      assert fs == [fs[0]] + fs[1..];
    }
  }

  lemma FirstIsMember(b: seq<File>)
    ensures b != [] ==> b[0] in b
  {
  }

  /** An ordered list is determined by its members. */
  lemma {:induction false} OrderedListsAgree(a: seq<File>, b: seq<File>)
    requires InOrder(a) && InOrder(b)
    requires forall f :: f in a <==> f in b
    ensures a == b
  {
    if a == [] {
      FirstIsMember(b);
    } else {
      assert a[0] in b && b[0] in a;
      TailOrdered(a);
      TailOrdered(b);
      forall f
        ensures f in a[1..] <==> f in b[1..]
      {
        assert f in a <==> f in b;
      }
      OrderedListsAgree(a[1..], b[1..]);
    }
  }

  /** A level's base files and builder state fit together: both in order, nothing listed twice. */
  ghost predicate LevelOk(base: seq<File>, s: LevelState) {
    InOrder(base) && InOrder(s.added) && forall f, g :: f in base && g in s.added ==> !Ties(f, g)
  }

  ghost predicate SavedMember(base: seq<File>, s: LevelState, f: File) {
    (f in base || f in s.added) && f.number !in s.deleted
  }

  /** Saving yields the ordered list of the files that were there or were added, less the deleted ones. */
  lemma InSaveLevel(base: seq<File>, s: LevelState)
    requires LevelOk(base, s)
    ensures InOrder(SaveLevel(base, s))
    ensures forall f :: f in SaveLevel(base, s) <==> SavedMember(base, s, f)
  {
    InMerge(base, s.added);
    MergeOrdered(base, s.added);
    InDrop(Merge(base, s.added), s.deleted);
  }

  /** The edit adds no file number that the level holds or held, and none twice. */
  ghost predicate AddsFresh(base: seq<File>, s: LevelState, news: seq<File>) {
    && (forall f, n :: (f in base || f in s.added) && n in news ==> f.number != n.number)
    && (forall i, j :: 0 <= i < j < |news| ==> news[i].number != news[j].number)
  }

  lemma {:induction false} AddAllFresh(base: seq<File>, s: LevelState, news: seq<File>)
    requires LevelOk(base, s) && AddsFresh(base, s, news)
    ensures LevelOk(base, AddAll(s, news))
    ensures AddAll(s, news).deleted == s.deleted - NumbersOf(news)
    ensures forall f :: f in AddAll(s, news).added <==> f in s.added || f in news
  {
    if news != [] {
      var n := |news| - 1;
      var f := news[n];
      assert news == news[..n] + [f];
      AddAllFresh(base, s, news[..n]);
      var was := AddAll(s, news[..n]);
      InsertKeepsOrder(was.added, f);
      assert forall g :: g in was.added ==> g.number != f.number by {
        forall g | g in news[..n]
          ensures g.number != f.number
        {
          var i :| 0 <= i < n && news[i] == g;
        }
      }
    }
  }

  /** What one edit does to a saved level that it adds only fresh numbers to. */
  lemma ApplyToSaved(base: seq<File>, e: FileEdit, l: nat)
    requires InOrder(base) && AddsFresh(base, EMPTY_LEVEL, NewAt(e.newFiles, l))
    ensures InOrder(SaveLevel(base, ApplyLevel(EMPTY_LEVEL, e, l)))
    ensures forall f :: f in SaveLevel(base, ApplyLevel(EMPTY_LEVEL, e, l)) <==>
              (f in base && f.number !in DeletedAt(e, l)) || f in NewAt(e.newFiles, l)
  {
    var s := LevelState(DeletedAt(e, l), []);
    var news := NewAt(e.newFiles, l);
    assert LevelOk(base, s);
    AddAllFresh(base, s, news);
    var t := AddAll(s, news);
    assert ApplyLevel(EMPTY_LEVEL, e, l) == t by {
      assert {} + DeletedAt(e, l) == DeletedAt(e, l);
    }
    InSaveLevel(base, t);
    assert forall f :: f in base ==> f.number !in NumbersOf(news);
    forall f
      ensures SavedMember(base, t, f) <==> (f in base && f.number !in DeletedAt(e, l)) || f in news
    {
      if f in news {
        assert f.number in NumbersOf(news);
      }
    }
  }

  /** One more edit in the builder is one more version. */
  lemma FoldedEditIsOneVersion(base: seq<File>, s: LevelState, e: FileEdit, l: nat)
    requires LevelOk(base, s) && AddsFresh(base, s, NewAt(e.newFiles, l))
    ensures LevelOk(base, ApplyLevel(s, e, l))
    ensures AddsFresh(SaveLevel(base, s), EMPTY_LEVEL, NewAt(e.newFiles, l))
    ensures SaveLevel(base, ApplyLevel(s, e, l)) == SaveLevel(SaveLevel(base, s), ApplyLevel(EMPTY_LEVEL, e, l))
  {
    var news := NewAt(e.newFiles, l);
    var s' := LevelState(s.deleted + DeletedAt(e, l), s.added);
    AddAllFresh(base, s', news);
    var folded := ApplyLevel(s, e, l);
    InSaveLevel(base, folded);
    InSaveLevel(base, s);
    assert forall f :: f in base || f in s.added ==> f.number !in NumbersOf(news);
    ApplyToSaved(SaveLevel(base, s), e, l);
    forall f
      ensures SavedMember(base, folded, f) <==> (SavedMember(base, s, f) && f.number !in DeletedAt(e, l)) || f in news
    {
      if f in news {
        assert f.number in NumbersOf(news);
      }
    }
    OrderedListsAgree(SaveLevel(base, folded), SaveLevel(SaveLevel(base, s), ApplyLevel(EMPTY_LEVEL, e, l)));
  }

  /** The version that one edit of a valid one leads to. */
  function NextVersion(v: Version, e: FileEdit): Version
    requires |v| == NUM_LEVELS
  {
    seq(NUM_LEVELS, l requires 0 <= l < NUM_LEVELS => SaveLevel(v[l], ApplyLevel(EMPTY_LEVEL, e, l)))
  }

  /** Folds edits into the files of a base version without making the versions in between. */
  class Builder {
    const base: Version
    var levels: seq<LevelState>

    constructor (base: Version)
      ensures this.base == base && levels == seq(NUM_LEVELS, _ => EMPTY_LEVEL)
    {
      this.base := base;
      levels := seq(NUM_LEVELS, _ => EMPTY_LEVEL);
    }

    method ApplyDeletions(edit: FileEdit)
      requires |levels| == NUM_LEVELS && EditOk(edit)
      modifies this
      ensures |levels| == NUM_LEVELS
      ensures forall l :: 0 <= l < NUM_LEVELS ==>
                levels[l] == LevelState(old(levels)[l].deleted + DeletedAt(edit, l), old(levels)[l].added)
    {
      var todo := edit.deletedFiles;
      while todo != {}
        invariant |levels| == NUM_LEVELS && todo <= edit.deletedFiles
        invariant forall l :: 0 <= l < NUM_LEVELS ==> levels[l].added == old(levels)[l].added
        invariant forall l, n :: 0 <= l < NUM_LEVELS ==>
                    (n in levels[l].deleted <==> n in old(levels)[l].deleted || (l, n) in edit.deletedFiles - todo)
        decreases todo
      {
        var d :| d in todo;
        levels := levels[d.0 := LevelState(levels[d.0].deleted + {d.1}, levels[d.0].added)];
        todo := todo - {d};
      }
      forall l | 0 <= l < NUM_LEVELS
        ensures levels[l].deleted == old(levels)[l].deleted + DeletedAt(edit, l)
      {
        forall n
          ensures n in DeletedAt(edit, l) <==> (l, n) in edit.deletedFiles
        {
          DeletedAtMember(edit, l, n);
        }
      }
    }

    method ApplyNewFiles(edit: FileEdit)
      requires |levels| == NUM_LEVELS && EditOk(edit)
      modifies this
      ensures |levels| == NUM_LEVELS
      ensures forall l :: 0 <= l < NUM_LEVELS ==> levels[l] == AddAll(old(levels)[l], NewAt(edit.newFiles, l))
    {
      for i := 0 to |edit.newFiles|
        invariant |levels| == NUM_LEVELS
        invariant forall l :: 0 <= l < NUM_LEVELS ==> levels[l] == AddAll(old(levels)[l], NewAt(edit.newFiles[..i], l))
      {
        var (l, f) := edit.newFiles[i];
        forall m | 0 <= m < NUM_LEVELS
          ensures AddAll(old(levels)[m], NewAt(edit.newFiles[..i + 1], m)) ==
                    if m == l then AddOne(levels[l], f) else levels[m]
        {
          NewAtStep(old(levels)[m], edit.newFiles, i, m);
        }
        levels := levels[l := AddOne(levels[l], f)];
      }
      assert edit.newFiles[..|edit.newFiles|] == edit.newFiles;
    }

    /** Adds one edit; an added file is no longer deleted. */
    method Apply(edit: FileEdit)
      requires |levels| == NUM_LEVELS && EditOk(edit)
      modifies this
      ensures |levels| == NUM_LEVELS
      ensures forall l :: 0 <= l < NUM_LEVELS ==> levels[l] == ApplyLevel(old(levels)[l], edit, l)
    {
      ApplyDeletions(edit);
      ApplyNewFiles(edit);
    }

    /** One level: the base files up to each added one, then that one, then the remaining base files. */
    method SaveOneLevel(l: nat) returns (r: seq<File>)
      requires l < |levels| && l < |base| && InOrder(base[l]) && InOrder(levels[l].added)
      ensures r == SaveLevel(base[l], levels[l])
    {
      hide Merge, Drop, BySmallestKey, MaybeAddFile;
      r := [];
      var b, added, deleted := base[l], levels[l].added, levels[l].deleted;
      assert added[0..] == added && [] + Drop(Merge(b, added), deleted) == Drop(Merge(b, added), deleted);
      for a := 0 to |added|
        invariant InOrder(b)
        invariant r + Drop(Merge(b, added[a..]), deleted) == SaveLevel(base[l], levels[l])
      {
        var n := UpperBound(b, added[a]);
        SaveStep(b, added, a, n, deleted);
        ghost var rest := Drop(Merge(b[n..], added[a + 1..]), deleted);
        assert r + (Drop(b[..n], deleted) + MaybeAddFile(added[a], deleted) + rest) ==
               r + Drop(b[..n], deleted) + MaybeAddFile(added[a], deleted) + rest;
        r := r + Drop(b[..n], deleted) + MaybeAddFile(added[a], deleted);
        b := b[n..];
      }
      NoneAdded(b, added[|added|..]);
      r := r + Drop(b, deleted);
    }

    method SaveTo() returns (v: Version)
      requires |base| == |levels| == NUM_LEVELS
      requires forall l :: 0 <= l < NUM_LEVELS ==> InOrder(base[l]) && InOrder(levels[l].added)
      ensures |v| == NUM_LEVELS && forall l :: 0 <= l < NUM_LEVELS ==> v[l] == SaveLevel(base[l], levels[l])
    {
      v := [];
      for l := 0 to NUM_LEVELS
        invariant |v| == l && forall m :: 0 <= m < l ==> v[m] == SaveLevel(base[m], levels[m])
      {
        var files := SaveOneLevel(l);
        v := v + [files];
      }
    }
  }

  lemma DeletedAtMember(e: FileEdit, l: nat, n: nat)
    ensures n in DeletedAt(e, l) <==> (l, n) in e.deletedFiles
  {
    if (l, n) in e.deletedFiles {
      var d := (l, n);
      assert d in e.deletedFiles && d.0 == l && d.1 == n;
    }
  }

  lemma NewAtStep(s: LevelState, news: seq<(nat, File)>, i: nat, l: nat)
    requires i < |news|
    ensures var was := AddAll(s, NewAt(news[..i], l));
            AddAll(s, NewAt(news[..i + 1], l)) == if news[i].0 == l then AddOne(was, news[i].1) else was
  {
    assert news[..i + 1][..i] == news[..i];
    var was := NewAt(news[..i], l);
    if news[i].0 == l {
      assert (was + [news[i].1])[..|was|] == was;
    } else {
      assert was + [] == was;
    }
  }

  function MaybeAddFile(f: File, deleted: set<nat>): seq<File> {
    if f.number in deleted then [] else [f]
  }

  /** The number of files in an ordered list that do not come after `f`. */
  method UpperBound(fs: seq<File>, f: File) returns (n: nat)
    requires InOrder(fs)
    ensures n <= |fs|
    ensures forall i :: 0 <= i < n ==> !BySmallestKey(f, fs[i])
    ensures n < |fs| ==> BySmallestKey(f, fs[n])
  {
    n := 0;
    var hi := |fs|;
    while n < hi
      invariant 0 <= n <= hi <= |fs|
      invariant forall i :: 0 <= i < n ==> !BySmallestKey(f, fs[i])
      invariant hi < |fs| ==> BySmallestKey(f, fs[hi])
    {
      var mid := (n + hi) / 2;
      if BySmallestKey(f, fs[mid]) {
        hi := mid;
      } else {
        forall i | 0 <= i <= mid
          ensures !BySmallestKey(f, fs[i])
        {
          assert i < mid ==> BySmallestKey(fs[i], fs[mid]);
        }
        n := mid + 1;
      }
    }
  }

  lemma MergeTakes(b: seq<File>, added: seq<File>)
    requires added != []
    ensures b != [] && !BySmallestKey(added[0], b[0]) ==> Merge(b, added) == [b[0]] + Merge(b[1..], added)
    ensures b != [] && BySmallestKey(added[0], b[0]) ==> Merge(b, added) == [added[0]] + Merge(b, added[1..])
    ensures b == [] ==> Merge(b, added) == [added[0]] + Merge(b, added[1..])
  {
    hide BySmallestKey;
    assert added == [added[0]] + added[1..];
  }

  lemma {:induction false} MergeFront(b: seq<File>, added: seq<File>, n: nat)
    requires added != [] && n <= |b|
    requires forall i :: 0 <= i < n ==> !BySmallestKey(added[0], b[i])
    requires n < |b| ==> BySmallestKey(added[0], b[n])
    ensures Merge(b, added) == b[..n] + ([added[0]] + Merge(b[n..], added[1..]))
  {
    hide BySmallestKey, Merge;
    MergeTakes(b, added);
    if n > 0 {
      MergeFront(b[1..], added, n - 1);
      assert b[1..][n - 1..] == b[n..];
      assert b[..n] == [b[0]] + b[1..][..n - 1];
    } else {
      assert b[n..] == b && b[..n] == [];
    }
  }

  lemma NoneAdded(b: seq<File>, added: seq<File>)
    requires added == []
    ensures Merge(b, added) == b
  {
  }

  lemma SaveStep(b: seq<File>, added: seq<File>, a: nat, n: nat, deleted: set<nat>)
    requires a < |added| && n <= |b|
    requires forall i :: 0 <= i < n ==> !BySmallestKey(added[a], b[i])
    requires n < |b| ==> BySmallestKey(added[a], b[n])
    ensures Drop(Merge(b, added[a..]), deleted) ==
            Drop(b[..n], deleted) + MaybeAddFile(added[a], deleted) + Drop(Merge(b[n..], added[a + 1..]), deleted)
  {
    hide Merge, Drop, BySmallestKey, MaybeAddFile;
    MergeFront(b, added[a..], n);
    assert added[a..][1..] == added[a + 1..];
    DropSplits(b[..n], [added[a]] + Merge(b[n..], added[a + 1..]), deleted);
    DropCons(added[a], Merge(b[n..], added[a + 1..]), deleted);
  }

  lemma DropCons(f: File, fs: seq<File>, deleted: set<nat>)
    ensures Drop([f] + fs, deleted) == MaybeAddFile(f, deleted) + Drop(fs, deleted)
  {
    assert ([f] + fs)[1..] == fs;
  }

  lemma {:induction false} DropSplits(a: seq<File>, b: seq<File>, deleted: set<nat>)
    ensures Drop(a + b, deleted) == Drop(a, deleted) + Drop(b, deleted)
  {
    DropNothing(deleted);
    hide Drop, MaybeAddFile;
    if a == [] {
      assert a + b == b;
    } else {
      DropSplits(a[1..], b, deleted);
      DropCons(a[0], a[1..], deleted);
      DropCons(a[0], a[1..] + b, deleted);
      assert a + b == [a[0]] + (a[1..] + b) && a == [a[0]] + a[1..];
    }
  }

  lemma DropNothing(deleted: set<nat>)
    ensures Drop([], deleted) == []
  {
  }
}
