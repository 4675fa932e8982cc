/** The iterator that walks several sorted children as one, in both directions. */
module MergingIterator {
  import opened Wrappers
  import opened DbFormat
  import opened Cursor

  ghost function Union(children: seq<Run>): set<Entry> {
    set c, e | c in children && e in c.entries :: e
  }

  ghost predicate ChildrenOk(children: seq<Run>) {
    && AllOk(children)
    && (forall i, j, a, b :: 0 <= i < j < |children| && a in children[i].entries && b in children[j].entries ==>
          a.key != b.key)
  }

  ghost predicate IsSmallest(children: seq<Run>, r: Option<nat>) {
    if r == None then forall i :: 0 <= i < |children| ==> !children[i].Valid()
    else r.value < |children| && children[r.value].Valid() &&
         forall i :: 0 <= i < |children| && children[i].Valid() ==>
               AtOrBefore(children[r.value].Current().key, children[i].Current().key)
  }

  ghost predicate IsLargest(children: seq<Run>, r: Option<nat>) {
    if r == None then forall i :: 0 <= i < |children| ==> !children[i].Valid()
    else r.value < |children| && children[r.value].Valid() &&
         forall i :: 0 <= i < |children| && children[i].Valid() ==>
               AtOrBefore(children[i].Current().key, children[r.value].Current().key)
  }

  ghost predicate SameEntries(a: seq<Run>, b: seq<Run>) {
    |a| == |b| && forall i :: 0 <= i < |a| ==> a[i].entries == b[i].entries
  }

  ghost predicate AllPast(children: seq<Run>, cut: Cut) {
    forall i :: 0 <= i < |children| ==> children[i].PastCut(cut)
  }

  ghost predicate AllBefore(children: seq<Run>, cut: Cut) {
    forall i :: 0 <= i < |children| ==> children[i].BeforeCut(cut)
  }

  function AtOf(children: seq<Run>, current: Option<nat>): Position
    requires current.Some? ==> current.value < |children| && children[current.value].Valid()
  {
    if current.Some? then Some(children[current.value].Current()) else None
  }

  /** A child past the cut that does not start before `best` has nothing between the cut and `best`. */
  lemma ChildPastCut(c: Run, cut: Cut, best: Position)
    requires c.PastCut(cut) && (best == None ==> !c.Valid())
    requires best.Some? ==> !Below(best.value.key, cut) && (c.Valid() ==> AtOrBefore(best.value.key, c.Current().key))
    ensures forall e :: e in c.entries && !Below(e.key, cut) ==> best.Some? && AtOrBefore(best.value.key, e.key)
    ensures best.Some? ==> c.PastCut(BeforeKey(best.value.key))
  {
    forall j | 0 <= j < |c.entries|
      ensures !Below(c.entries[j].key, cut) ==> best.Some? && AtOrBefore(best.value.key, c.entries[j].key)
      ensures best.Some? && j < c.pos ==> Before(c.entries[j].key, best.value.key)
    {
      assert c.pos < j ==> Before(c.entries[c.pos].key, c.entries[j].key);
    }
  }

  lemma ChildBeforeCut(c: Run, cut: Cut, best: Position)
    requires c.BeforeCut(cut) && (best == None ==> !c.Valid())
    requires best.Some? ==> Below(best.value.key, cut) && (c.Valid() ==> AtOrBefore(c.Current().key, best.value.key))
    requires best.Some? && c.Valid() ==> c.Current().key != best.value.key
    ensures forall e :: e in c.entries && Below(e.key, cut) ==> best.Some? && AtOrBefore(e.key, best.value.key)
    ensures best.Some? ==> c.BeforeCut(BeforeKey(best.value.key))
  {
    forall j | 0 <= j < |c.entries|
      ensures Below(c.entries[j].key, cut) ==> best.Some? && AtOrBefore(c.entries[j].key, best.value.key)
      ensures best.Some? && c.Valid() && j <= c.pos ==> Before(c.entries[j].key, best.value.key)
      ensures best.Some? && (c.Valid() ==> c.pos < j) ==> !Before(c.entries[j].key, best.value.key)
    {
      assert j < c.pos < |c.entries| ==> Before(c.entries[j].key, c.entries[c.pos].key);
    }
  }

  /** When every child stands past a cut, the smallest of them is the first entry of the union past it. */
  lemma SmallestIsFirstAbove(children: seq<Run>, cut: Cut, r: Option<nat>)
    requires AllPast(children, cut) && IsSmallest(children, r)
    ensures FirstAbove(Union(children), cut, AtOf(children, r))
    ensures r.Some? ==> AllPast(children, BeforeKey(children[r.value].Current().key))
  {
    var best := AtOf(children, r);
    if r.Some? {
      assert children[r.value].PastCut(cut) && children[r.value] in children;
      assert best.value in children[r.value].entries;
    }
    forall i | 0 <= i < |children|
      ensures forall e :: e in children[i].entries && !Below(e.key, cut) ==>
                best.Some? && AtOrBefore(best.value.key, e.key)
      ensures best.Some? ==> children[i].PastCut(BeforeKey(best.value.key))
    {
      ChildPastCut(children[i], cut, best);
    }
  }

  /** When every child stands before a cut, the largest of them is the last entry of the union before it. */
  lemma LargestIsLastBelow(children: seq<Run>, cut: Cut, r: Option<nat>)
    requires ChildrenOk(children) && AllBefore(children, cut) && IsLargest(children, r)
    ensures LastBelow(Union(children), cut, AtOf(children, r))
    ensures r.Some? ==> forall i :: 0 <= i < |children| && i != r.value ==>
              children[i].BeforeCut(BeforeKey(children[r.value].Current().key))
  {
    var best := AtOf(children, r);
    if r.Some? {
      assert children[r.value].BeforeCut(cut) && children[r.value] in children;
      assert best.value in children[r.value].entries;
    }
    forall i | 0 <= i < |children|
      ensures forall e :: e in children[i].entries && Below(e.key, cut) ==>
                best.Some? && AtOrBefore(e.key, best.value.key)
      ensures best.Some? && i != r.value ==> children[i].BeforeCut(BeforeKey(best.value.key))
    {
      if best.Some? && i == r.value {
        CurrentIsLast(children[i], cut);
      } else {
        KeysDiffer(children, r, i);
        ChildBeforeCut(children[i], cut, best);
      }
    }
  }

  lemma CurrentIsLast(c: Run, cut: Cut)
    requires c.BeforeCut(cut) && c.Valid()
    ensures forall e :: e in c.entries && Below(e.key, cut) ==> AtOrBefore(e.key, c.Current().key)
  {
    c.CutsArePositions(cut);
    assert forall e :: e in c.entries ==> e in c.Entries();
  }

  lemma KeysDiffer(children: seq<Run>, r: Option<nat>, i: nat)
    requires ChildrenOk(children) && i < |children|
    requires r.Some? ==> r.value < |children| && children[r.value].Valid() && r.value != i
    ensures r.Some? && children[i].Valid() ==> children[i].Current().key != children[r.value].Current().key
  {
  }

  class MergingIterator {
    var children: seq<Run>
    var current: Option<nat>
    var forward: bool

    predicate Valid()
      reads this
    {
      current.Some?
    }

    /** Where the iterator stands. */
    function At(): Position
      requires current.Some? ==> current.value < |children| && children[current.value].Valid()
      reads this
    {
      if current.Some? then Some(children[current.value].Current()) else None
    }

    ghost predicate Ok()
      reads this
    {
      && ChildrenOk(children)
      && (current.Some? ==>
            && current.value < |children| && children[current.value].Valid()
            && var cut := BeforeKey(children[current.value].Current().key);
               if forward then OthersPast(children, current.value, cut) else OthersBefore(children, current.value, cut))
    }

    ghost function Entries(): set<Entry>
      reads this
    {
      Union(children)
    }

    constructor (runs: seq<seq<Entry>>)
      requires ChildrenOk(seq(|runs|, i requires 0 <= i < |runs| => Run(runs[i], |runs[i]|)))
      ensures Ok() && !Valid() && children == seq(|runs|, i requires 0 <= i < |runs| => Run(runs[i], |runs[i]|))
    {
      children := seq(|runs|, i requires 0 <= i < |runs| => Run(runs[i], |runs[i]|));
      current, forward := None, true;
    }

    method FindSmallest()
      modifies this`current
      ensures IsSmallest(children, current)
    {
      current := None;
      for i := 0 to |children|
        invariant IsSmallest(children[..i], current)
      {
        assert children[..i + 1] == children[..i] + [children[i]];
        if children[i].Valid() &&
            (current == None || Before(children[i].Current().key, children[current.value].Current().key)) {
          current := Some(i);
        }
      }
      assert children[..|children|] == children;
    }

    method FindLargest()
      modifies this`current
      ensures IsLargest(children, current)
    {
      current := None;
      for i := |children| downto 0
        invariant current.Some? ==> i <= current.value
        invariant IsLargest(children[i..], if current.Some? then Some(current.value - i) else None)
      {
        ghost var was := children[i + 1..];
        assert children[i..] == [children[i]] + was;
        if children[i].Valid() &&
            (current == None || Before(children[current.value].Current().key, children[i].Current().key)) {
          current := Some(i);
        }
      }
      assert children[0..] == children;
    }

    method SeekToFirst()
      requires Ok()
      modifies this
      ensures Ok() && SameEntries(children, old(children)) && FirstAbove(Entries(), Start, At())
    {
      hide Run.PastCut, Run.BeforeCut, FirstAbove, LastBelow, Union, ChildrenOk;
      AreOk(children);
      children := AllToFirst(children);
      SameKeysStayDistinct(old(children), children);
      SettleForward(Start);
    }

    method SeekToLast()
      requires Ok()
      modifies this
      ensures Ok() && SameEntries(children, old(children)) && LastBelow(Entries(), End, At())
    {
      hide Run.PastCut, Run.BeforeCut, FirstAbove, LastBelow, Union, ChildrenOk;
      AreOk(children);
      children := AllToLast(children);
      SameKeysStayDistinct(old(children), children);
      SettleBackward(End);
    }

    method Seek(target: InternalKey)
      requires Ok()
      modifies this
      ensures Ok() && SameEntries(children, old(children)) && FirstAbove(Entries(), BeforeKey(target), At())
    {
      hide Run.PastCut, Run.BeforeCut, FirstAbove, LastBelow, Union, ChildrenOk;
      AreOk(children);
      children := AllTo(children, target);
      SameKeysStayDistinct(old(children), children);
      SettleForward(BeforeKey(target));
    }

    /** All children stand past the cut: take up the smallest. */
    method SettleForward(ghost cut: Cut)
      requires ChildrenOk(children) && AllPast(children, cut)
      modifies this`current, this`forward
      ensures Ok() && FirstAbove(Entries(), cut, At())
    {
      FindSmallest();
      SmallestIsFirstAbove(children, cut, current);
      forward := true;
    }

    /** All children stand before the cut: take up the largest. */
    method SettleBackward(ghost cut: Cut)
      requires ChildrenOk(children) && AllBefore(children, cut)
      modifies this`current, this`forward
      ensures Ok() && LastBelow(Entries(), cut, At())
    {
      FindLargest();
      LargestIsLastBelow(children, cut, current);
      forward := false;
    }

    method Next()
      requires Ok() && Valid()
      modifies this
      ensures Ok() && SameEntries(children, old(children))
      ensures FirstAbove(Entries(), AfterKey(old(At()).value.key), At())
    {
      hide Run.PastCut, Run.BeforeCut, FirstAbove, LastBelow, Union, ChildrenOk;
      ghost var k := At().value.key;
      AreOk(children);
      if !forward {
        children := TurnForward(children, current.value);
        forward := true;
      } else {
        OthersArePast(children, current.value);
      }
      children := StepCurrentForward(children, current.value);
      SameKeysStayDistinct(old(children), children);
      SettleForward(AfterKey(k));
    }

    method Prev()
      requires Ok() && Valid()
      modifies this
      ensures Ok() && SameEntries(children, old(children))
      ensures LastBelow(Entries(), BeforeKey(old(At()).value.key), At())
    {
      hide Run.PastCut, Run.BeforeCut, FirstAbove, LastBelow, Union, ChildrenOk;
      ghost var k := At().value.key;
      AreOk(children);
      if forward {
        children := TurnBackward(children, current.value);
        forward := false;
      }
      children := StepCurrentBackward(children, current.value);
      SameKeysStayDistinct(old(children), children);
      SettleBackward(BeforeKey(k));
    }
  }

  method AllToFirst(children: seq<Run>) returns (r: seq<Run>)
    requires AllOk(children)
    ensures SameEntries(r, children) && AllOk(r) && AllPast(r, Start)
  {
    hide Run.PastCut, Run.BeforeCut;
    r := children;
    for i := 0 to |r|
      invariant SameEntries(r, children) && AllPast(r[..i], Start)
      invariant forall j :: i <= j < |r| ==> r[j] == children[j]
    {
      r[i].MovesCut(LookupKey(0.0, 0));
      r := r[i := r[i].SeekToFirst()];
    }
    assert r[..|r|] == r;
    PastIsOk(r, Start);
  }

  method AllToLast(children: seq<Run>) returns (r: seq<Run>)
    requires AllOk(children)
    ensures SameEntries(r, children) && AllOk(r) && AllBefore(r, End)
  {
    hide Run.PastCut, Run.BeforeCut;
    r := children;
    for i := 0 to |r|
      invariant SameEntries(r, children) && AllBefore(r[..i], End)
      invariant forall j :: i <= j < |r| ==> r[j] == children[j]
    {
      r[i].MovesCut(LookupKey(0.0, 0));
      r := r[i := r[i].SeekToLast()];
    }
    assert r[..|r|] == r;
    BeforeIsOk(r, End);
  }

  method AllTo(children: seq<Run>, target: InternalKey) returns (r: seq<Run>)
    requires AllOk(children)
    ensures SameEntries(r, children) && AllOk(r) && AllPast(r, BeforeKey(target))
  {
    hide Run.PastCut, Run.BeforeCut;
    r := children;
    for i := 0 to |r|
      invariant SameEntries(r, children) && AllPast(r[..i], BeforeKey(target))
      invariant forall j :: i <= j < |r| ==> r[j] == children[j]
    {
      r[i].MovesCut(target);
      r := r[i := r[i].Seek(target)];
    }
    assert r[..|r|] == r;
    PastIsOk(r, BeforeKey(target));
  }

  /** After walking backwards, puts every child but the current one past the current key. */
  method TurnForward(children: seq<Run>, current: nat) returns (r: seq<Run>)
    requires ChildrenOk(children) && current < |children| && children[current].Valid()
    ensures SameEntries(r, children) && r[current] == children[current] && AllOk(r)
    ensures OthersPast(r, current, AfterKey(children[current].Current().key))
  {
    hide Run.PastCut, Run.BeforeCut, Run.Ok, ChildrenOk;
    AreOk(children);
    r := children;
    var k := children[current].Current().key;
    for i := 0 to |r|
      invariant SameEntries(r, children) && r[current] == children[current]
      invariant forall j :: 0 <= j < i && j != current ==> r[j].PastCut(AfterKey(k))
      invariant forall j :: i <= j < |r| ==> r[j] == children[j]
    {
      if i != current {
        r[i].MovesCut(k);
        var child := r[i].Seek(k);
        SkippingEqual(child, k);
        if child.Valid() && child.Current().key == k {
          child := child.Next();
        }
        r := r[i := child];
      }
    }
    OthersAreOk(r, current, AfterKey(k));
  }

  /** After walking forwards, puts every child but the current one before the current key. */
  method TurnBackward(children: seq<Run>, current: nat) returns (r: seq<Run>)
    requires ChildrenOk(children) && current < |children| && children[current].Valid()
    ensures SameEntries(r, children) && r[current] == children[current] && AllOk(r)
    ensures OthersBefore(r, current, BeforeKey(children[current].Current().key))
  {
    hide Run.PastCut, Run.BeforeCut, Run.Ok, ChildrenOk;
    AreOk(children);
    r := children;
    var k := children[current].Current().key;
    for i := 0 to |r|
      invariant SameEntries(r, children) && r[current] == children[current]
      invariant forall j :: 0 <= j < i && j != current ==> r[j].BeforeCut(BeforeKey(k))
      invariant forall j :: i <= j < |r| ==> r[j] == children[j]
    {
      if i != current {
        r[i].MovesCut(k);
        var child := r[i].Seek(k);
        SteppingBackCrosses(child, k);
        if child.Valid() {
          child := child.Prev();
        } else {
          child := child.SeekToLast();
        }
        r := r[i := child];
      }
    }
    OthersAreOk(r, current, BeforeKey(k));
  }

  method StepCurrentForward(children: seq<Run>, current: nat) returns (r: seq<Run>)
    requires current < |children| && children[current].Valid() && AllOk(children)
    requires OthersPast(children, current, AfterKey(children[current].Current().key))
    ensures SameEntries(r, children) && AllOk(r) && AllPast(r, AfterKey(children[current].Current().key))
  {
    hide Run.PastCut, Run.BeforeCut, Run.Ok;
    children[current].MovesCut(LookupKey(0.0, 0));
    r := children[current := children[current].Next()];
    PastIsOk(r, AfterKey(children[current].Current().key));
  }

  method StepCurrentBackward(children: seq<Run>, current: nat) returns (r: seq<Run>)
    requires current < |children| && children[current].Valid() && AllOk(children)
    requires OthersBefore(children, current, BeforeKey(children[current].Current().key))
    ensures SameEntries(r, children) && AllOk(r) && AllBefore(r, BeforeKey(children[current].Current().key))
  {
    hide Run.PastCut, Run.BeforeCut, Run.Ok;
    children[current].MovesCut(LookupKey(0.0, 0));
    r := children[current := children[current].Prev()];
    BeforeIsOk(r, BeforeKey(children[current].Current().key));
  }

  ghost predicate AllOk(children: seq<Run>) {
    forall i :: 0 <= i < |children| ==> children[i].Ok()
  }

  lemma PastIsOk(children: seq<Run>, cut: Cut)
    requires AllPast(children, cut)
    ensures AllOk(children)
  {
  }

  lemma BeforeIsOk(children: seq<Run>, cut: Cut)
    requires AllBefore(children, cut)
    ensures AllOk(children)
  {
  }

  lemma OthersAreOk(children: seq<Run>, current: nat, cut: Cut)
    requires current < |children| && children[current].Ok()
    requires OthersPast(children, current, cut) || OthersBefore(children, current, cut)
    ensures AllOk(children)
  {
  }

  lemma AreOk(children: seq<Run>)
    requires ChildrenOk(children)
    ensures AllOk(children)
  {
  }

  ghost predicate OthersPast(children: seq<Run>, current: nat, cut: Cut) {
    forall i :: 0 <= i < |children| && i != current ==> children[i].PastCut(cut)
  }

  ghost predicate OthersBefore(children: seq<Run>, current: nat, cut: Cut) {
    forall i :: 0 <= i < |children| && i != current ==> children[i].BeforeCut(cut)
  }

  /** The current key is in no other child. */
  lemma KeyElsewhere(children: seq<Run>, r: nat, i: nat)
    requires ChildrenOk(children) && r < |children| && i < |children| && i != r && children[r].Valid()
    ensures forall e :: e in children[i].entries ==> e.key != children[r].Current().key
  {
    assert children[r].Current() in children[r].entries;
  }

  lemma SkippingEqual(c: Run, k: InternalKey)
    requires c.PastCut(BeforeKey(k))
    ensures (if c.Valid() && c.Current().key == k then c.Next() else c).PastCut(AfterKey(k))
  {
  }

  lemma SteppingBackCrosses(c: Run, k: InternalKey)
    requires c.PastCut(BeforeKey(k))
    ensures (if c.Valid() then c.Prev() else c.SeekToLast()).BeforeCut(BeforeKey(k))
  {
  }

  lemma OthersArePast(children: seq<Run>, r: nat)
    requires ChildrenOk(children) && r < |children| && children[r].Valid()
    requires OthersPast(children, r, BeforeKey(children[r].Current().key))
    ensures OthersPast(children, r, AfterKey(children[r].Current().key))
    ensures AllOk(children)
  {
    forall i | 0 <= i < |children| && i != r
      ensures children[i].PastCut(AfterKey(children[r].Current().key))
    {
      KeyElsewhere(children, r, i);
      forall j | 0 <= j < |children[i].entries|
        ensures children[i].entries[j].key != children[r].Current().key
      {
        assert children[i].entries[j] in children[i].entries;
      }
    }
  }

  lemma SameKeysStayDistinct(a: seq<Run>, b: seq<Run>)
    requires ChildrenOk(a) && SameEntries(a, b) && AllOk(b)
    ensures ChildrenOk(b) && Union(b) == Union(a)
  {
    forall e
      ensures e in Union(b) <==> e in Union(a)
    {
      if e in Union(b) {
        var c :| c in b && e in c.entries;
        var i :| 0 <= i < |b| && b[i] == c;
        assert a[i] in a;
      }
      if e in Union(a) {
        var c :| c in a && e in c.entries;
        var i :| 0 <= i < |a| && a[i] == c;
        assert b[i] in b;
      }
    }
  }
}
