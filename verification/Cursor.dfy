/** What it means to stand at an entry of a sorted collection, and the plain cursor that every iterator refines. */
module Cursor {
  import opened Wrappers
  import opened DbFormat
  import opened Tree

  // The entry a cursor stands at; None when it is not valid.
  type Position = Option<Entry>

  /** A place between keys: before all, just before or just after one key, or after all. */
  datatype Cut = Start | BeforeKey(k: InternalKey) | AfterKey(k: InternalKey) | End

  predicate Below(k: InternalKey, cut: Cut) {
    match cut
    case Start => false
    case BeforeKey(c) => Before(k, c)
    case AfterKey(c) => AtOrBefore(k, c)
    case End => true
  }

  /** The first entry past the cut: where SeekToFirst (Start), Seek(k) (BeforeKey) and Next from k (AfterKey) land. */
  ghost predicate FirstAbove(es: set<Entry>, cut: Cut, p: Position) {
    if p == None then forall e :: e in es ==> Below(e.key, cut)
    else p.value in es && !Below(p.value.key, cut) && forall e :: e in es && !Below(e.key, cut) ==>
          AtOrBefore(p.value.key, e.key)
  }

  /** The last entry before the cut: where SeekToLast (End) and Prev from k (BeforeKey) land. */
  ghost predicate LastBelow(es: set<Entry>, cut: Cut, p: Position) {
    if p == None then forall e :: e in es ==> !Below(e.key, cut)
    else p.value in es && Below(p.value.key, cut) && forall e :: e in es && Below(e.key, cut) ==>
          AtOrBefore(e.key, p.value.key)
  }

  /** No two entries share an internal key. */
  ghost predicate DistinctKeys(es: set<Entry>) {
    forall a, b :: a in es && b in es && a.key == b.key ==> a == b
  }

  /** With distinct keys a cut determines the positions next to it, and stepping back undoes stepping forward. */
  lemma PositionsAreDetermined(es: set<Entry>, cut: Cut, p: Position, q: Position)
    requires DistinctKeys(es)
    ensures FirstAbove(es, cut, p) && FirstAbove(es, cut, q) ==> p == q
    ensures LastBelow(es, cut, p) && LastBelow(es, cut, q) ==> p == q
  {
  }

  lemma PrevUndoesNext(es: set<Entry>, e: Entry, p: Position, q: Position)
    requires DistinctKeys(es) && e in es && p.Some?
    ensures FirstAbove(es, AfterKey(e.key), p) && LastBelow(es, BeforeKey(p.value.key), q) ==> q == Some(e)
    ensures LastBelow(es, BeforeKey(e.key), p) && FirstAbove(es, AfterKey(p.value.key), q) ==> q == Some(e)
  {
  }

  /** A position in a sorted run of entries; the length of the run stands for not valid. */
  datatype Run = Run(entries: seq<Entry>, pos: nat) {
    predicate Ok() {
      Sorted(entries) && pos <= |entries|
    }

    predicate Valid() {
      pos < |entries|
    }

    function Current(): Entry
      requires Valid()
    {
      entries[pos]
    }

    function At(): Position {
      if Valid() then Some(entries[pos]) else None
    }

    function SeekToFirst(): Run {
      this.(pos := 0)
    }

    function SeekToLast(): Run {
      this.(pos := if entries == [] then 0 else |entries| - 1)
    }

    function Seek(k: InternalKey): Run {
      this.(pos := SeekIndex(entries, k))
    }

    function Next(): Run
      requires Valid()
    {
      this.(pos := pos + 1)
    }

    function Prev(): Run
      requires Valid()
    {
      this.(pos := if pos == 0 then |entries| else pos - 1)
    }

    ghost function Entries(): set<Entry> {
      set e | e in entries
    }

    /** The run stands just past the cut. */
    ghost predicate PastCut(cut: Cut) {
      && Ok()
      && (forall j :: 0 <= j < pos ==> Below(entries[j].key, cut))
      && (forall j :: pos <= j < |entries| ==> !Below(entries[j].key, cut))
    }

    /** The run stands just before the cut. */
    ghost predicate BeforeCut(cut: Cut) {
      && Ok()
      && (forall j :: 0 <= j <= pos < |entries| ==> Below(entries[j].key, cut))
      && (forall j :: (if Valid() then pos < j else 0 <= j) && j < |entries| ==> !Below(entries[j].key, cut))
    }

    lemma MovesCut(k: InternalKey)
      requires Ok()
      ensures SeekToFirst().PastCut(Start) && SeekToLast().BeforeCut(End) && Seek(k).PastCut(BeforeKey(k))
      ensures Valid() ==> Next().PastCut(AfterKey(Current().key)) && Prev().BeforeCut(BeforeKey(Current().key))
    {
      if Valid() {
        StepsCut();
      }
    }

    lemma StepsCut()
      requires Ok() && Valid()
      ensures Next().PastCut(AfterKey(Current().key)) && Prev().BeforeCut(BeforeKey(Current().key))
    {
    }

    /** Standing next to a cut is standing where a cursor on the set of entries would. */
    lemma CutsArePositions(cut: Cut)
      ensures PastCut(cut) ==> FirstAbove(Entries(), cut, At())
      ensures BeforeCut(cut) ==> LastBelow(Entries(), cut, At())
    {
      assert Valid() ==> entries[pos] in Entries();
    }
  }
}
