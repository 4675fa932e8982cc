/** The iterator over an index of blocks and, inside the block it points to, over entries. */
module TwoLevelIterator {
  import opened Wrappers
  import opened DbFormat
  import opened Cursor

  type Blocks = seq<seq<Entry>>

  ghost function Entries(blocks: Blocks): set<Entry> {
    set b, e | b in blocks && e in b :: e
  }

  /** Every index key is at or after all entries of its block and before all entries of later blocks. */
  ghost predicate Layered(index: seq<InternalKey>, blocks: Blocks) {
    && |index| == |blocks|
    && (forall i :: 0 <= i < |blocks| ==> Sorted(blocks[i]))
    && (forall i, e :: 0 <= i < |blocks| && e in blocks[i] ==> AtOrBefore(e.key, index[i]))
    && (forall i, j, e :: 0 <= i < j < |blocks| && e in blocks[j] ==> Before(index[i], e.key))
    && (forall i, j :: 0 <= i < j < |blocks| ==> Before(index[i], index[j]))
  }

  /** All entries of blocks before `p` lie before the cut, all of blocks after `p` past it. */
  ghost predicate SplitsAt(blocks: Blocks, cut: Cut, p: nat) {
    && (forall i, e :: 0 <= i < p && i < |blocks| && e in blocks[i] ==> Below(e.key, cut))
    && (forall i, e :: p < i < |blocks| && e in blocks[i] ==> !Below(e.key, cut))
  }

  function SeekIndexKey(index: seq<InternalKey>, k: InternalKey): (i: nat)
    ensures i <= |index|
    ensures forall j :: 0 <= j < i ==> Before(index[j], k)
    ensures i < |index| ==> !Before(index[i], k)
  {
    if index == [] || !Before(index[0], k) then 0 else
      var i := 1 + SeekIndexKey(index[1..], k);
      assert forall j :: 0 < j < i ==> index[j] == index[1..][j - 1];
      i
  }

  class TwoLevelIterator {
    const index: seq<InternalKey>
    const blocks: Blocks
    var indexPos: nat
    var data: Option<Run>
    var dataBlock: nat

    constructor (index: seq<InternalKey>, blocks: Blocks)
      requires Layered(index, blocks)
      ensures this.index == index && this.blocks == blocks && Ok() && !Valid()
    {
      this.index, this.blocks := index, blocks;
      indexPos, data, dataBlock := |index|, None, 0;
    }

    predicate Valid()
      reads this
    {
      data.Some? && data.value.Valid()
    }

    function At(): Position
      reads this
    {
      if data.Some? then data.value.At() else None
    }

    ghost predicate Ok()
      reads this
    {
      && Layered(index, blocks)
      && (data.Some? ==>
            dataBlock < |blocks| && data.value.entries == blocks[dataBlock] && data.value.pos <= |data.value.entries|)
      && (Valid() ==> indexPos == dataBlock)
    }

    /** A data iterator for the block the index points to; the one at hand is kept when it is already that block's. */
    method InitDataBlock()
      requires data.Some? ==> dataBlock < |blocks| && data.value.entries == blocks[dataBlock]
      requires data.Some? ==> data.value.pos <= |data.value.entries|
      requires |index| == |blocks|
      modifies this`data, this`dataBlock
      ensures indexPos >= |index| ==> data == None
      ensures indexPos < |index| ==> data.Some? && dataBlock == indexPos && data.value.entries == blocks[indexPos]
      ensures data.Some? ==> data.value.pos <= |data.value.entries|
    {
      if indexPos >= |index| {
        data := None;
      } else if data.Some? && dataBlock == indexPos {
      } else {
        data := Some(Run(blocks[indexPos], |blocks[indexPos]|));
        dataBlock := indexPos;
      }
    }

    ghost predicate StandsPast(cut: Cut)
      reads this
    {
      && SplitsAt(blocks, cut, indexPos)
      && (if indexPos < |blocks|
          then data.Some? && dataBlock == indexPos && data.value.entries == blocks[indexPos] && data.value.PastCut(cut)
          else data == None)
    }

    ghost predicate StandsBefore(cut: Cut)
      reads this
    {
      if indexPos < |blocks|
      then
        && SplitsAt(blocks, cut, indexPos)
        && data.Some? && dataBlock == indexPos && data.value.entries == blocks[indexPos] && data.value.BeforeCut(cut)
      else data == None && forall i, e :: 0 <= i < |blocks| && e in blocks[i] ==> !Below(e.key, cut)
    }

    method SkipEmptyDataBlocksForward(ghost cut: Cut)
      requires Layered(index, blocks) && StandsPast(cut)
      modifies this
      ensures Ok() && FirstAbove(Entries(blocks), cut, At())
    {
      while data == None || !data.value.Valid()
        invariant StandsPast(cut)
        decreases |index| + 1 - indexPos
      {
        hide Layered;
        if indexPos >= |index| {
          data := None;
          NothingPast(blocks, cut, indexPos);
          return;
        }
        NextBlock(blocks, cut, indexPos, data.value);
        indexPos := indexPos + 1;
        InitDataBlock();
        if data.Some? {
          data := Some(data.value.SeekToFirst());
        }
      }
      FirstOfBlock(index, blocks, cut, indexPos, data.value);
    }

    method SkipEmptyDataBlocksBackward(ghost cut: Cut)
      requires Layered(index, blocks) && StandsBefore(cut)
      modifies this
      ensures Ok() && LastBelow(Entries(blocks), cut, At())
    {
      while data == None || !data.value.Valid()
        invariant StandsBefore(cut)
        decreases if indexPos >= |index| then 0 else indexPos + 1
      {
        hide Layered;
        if indexPos >= |index| {
          data := None;
          NothingBefore(blocks, cut);
          return;
        }
        PreviousBlock(blocks, cut, indexPos, data.value);
        indexPos := if indexPos == 0 then |index| else indexPos - 1;
        InitDataBlock();
        if data.Some? {
          data := Some(data.value.SeekToLast());
        }
      }
      LastOfBlock(index, blocks, cut, indexPos, data.value);
    }

    method Seek(target: InternalKey)
      requires Ok()
      modifies this
      ensures Ok() && FirstAbove(Entries(blocks), BeforeKey(target), At())
    {
      hide FirstAbove, Run.PastCut, SplitsAt;
      indexPos := SeekIndexKey(index, target);
      SeekSplits(index, blocks, target);
      InitDataBlock();
      if data.Some? {
        data.value.MovesCut(target);
        data := Some(data.value.Seek(target));
      }
      SkipEmptyDataBlocksForward(BeforeKey(target));
    }

    method SeekToFirst()
      requires Ok()
      modifies this
      ensures Ok() && FirstAbove(Entries(blocks), Start, At())
    {
      hide FirstAbove, Run.PastCut;
      indexPos := 0;
      InitDataBlock();
      if data.Some? {
        data.value.MovesCut(LookupKey(0.0, 0));
        data := Some(data.value.SeekToFirst());
      }
      SkipEmptyDataBlocksForward(Start);
    }

    method SeekToLast()
      requires Ok()
      modifies this
      ensures Ok() && LastBelow(Entries(blocks), End, At())
    {
      hide LastBelow, Run.BeforeCut;
      indexPos := if |index| == 0 then 0 else |index| - 1;
      InitDataBlock();
      if data.Some? {
        data.value.MovesCut(LookupKey(0.0, 0));
        data := Some(data.value.SeekToLast());
      }
      SkipEmptyDataBlocksBackward(End);
    }

    method Next()
      requires Ok() && Valid()
      modifies this
      ensures Ok() && FirstAbove(Entries(blocks), AfterKey(old(At()).value.key), At())
    {
      hide FirstAbove, Run.PastCut, SplitsAt;
      var e := data.value.Current();
      StepSplits(index, blocks, indexPos, e);
      data.value.MovesCut(e.key);
      data := Some(data.value.Next());
      SkipEmptyDataBlocksForward(AfterKey(e.key));
    }

    method Prev()
      requires Ok() && Valid()
      modifies this
      ensures Ok() && LastBelow(Entries(blocks), BeforeKey(old(At()).value.key), At())
    {
      hide LastBelow, Run.BeforeCut, SplitsAt;
      var e := data.value.Current();
      StepSplits(index, blocks, indexPos, e);
      data.value.MovesCut(e.key);
      data := Some(data.value.Prev());
      SkipEmptyDataBlocksBackward(BeforeKey(e.key));
    }
  }

  lemma NothingPast(blocks: Blocks, cut: Cut, p: nat)
    requires SplitsAt(blocks, cut, p) && p >= |blocks|
    ensures FirstAbove(Entries(blocks), cut, None)
  {
    forall e | e in Entries(blocks)
      ensures Below(e.key, cut)
    {
      var b :| b in blocks && e in b;
      var i :| 0 <= i < |blocks| && blocks[i] == b;
    }
  }

  lemma NextBlock(blocks: Blocks, cut: Cut, p: nat, data: Run)
    requires SplitsAt(blocks, cut, p) && p < |blocks| && data.entries == blocks[p] && data.PastCut(cut) && !data.Valid()
    requires forall i :: 0 <= i < |blocks| ==> Sorted(blocks[i])
    ensures SplitsAt(blocks, cut, p + 1)
    ensures p + 1 < |blocks| ==> Run(blocks[p + 1], 0).PastCut(cut)
  {
    forall e | e in blocks[p]
      ensures Below(e.key, cut)
    {
      var j :| 0 <= j < |blocks[p]| && data.entries[j] == e;
    }
  }

  lemma FirstOfBlock(index: seq<InternalKey>, blocks: Blocks, cut: Cut, p: nat, data: Run)
    requires Layered(index, blocks) && SplitsAt(blocks, cut, p) && p < |blocks| && data.entries == blocks[p] &&
             data.PastCut(cut) && data.Valid()
    ensures FirstAbove(Entries(blocks), cut, data.At())
  {
    assert data.Current() in blocks[p] && blocks[p] in blocks;
    assert !Below(data.Current().key, cut);
    forall e | e in Entries(blocks) && !Below(e.key, cut)
      ensures AtOrBefore(data.Current().key, e.key)
    {
      var b :| b in blocks && e in b;
      var i :| 0 <= i < |blocks| && blocks[i] == b;
      if i == p {
        var j :| 0 <= j < |blocks[p]| && data.entries[j] == e;
      } else {
        assert p < i && AtOrBefore(data.Current().key, index[p]);
      }
    }
  }

  lemma NothingBefore(blocks: Blocks, cut: Cut)
    requires forall i, e :: 0 <= i < |blocks| && e in blocks[i] ==> !Below(e.key, cut)
    ensures LastBelow(Entries(blocks), cut, None)
  {
    forall e | e in Entries(blocks)
      ensures !Below(e.key, cut)
    {
      var b :| b in blocks && e in b;
      var i :| 0 <= i < |blocks| && blocks[i] == b;
    }
  }

  lemma PreviousBlock(blocks: Blocks, cut: Cut, p: nat, data: Run)
    requires SplitsAt(blocks, cut, p) && p < |blocks| && data.entries == blocks[p] && data.BeforeCut(cut) &&
             !data.Valid()
    requires forall i :: 0 <= i < |blocks| ==> Sorted(blocks[i])
    ensures p > 0 ==> SplitsAt(blocks, cut, p - 1) && Run(blocks[p - 1], 0).SeekToLast().BeforeCut(cut)
    ensures p == 0 ==> forall i, e :: 0 <= i < |blocks| && e in blocks[i] ==> !Below(e.key, cut)
  {
    forall e | e in blocks[p]
      ensures !Below(e.key, cut)
    {
      var j :| 0 <= j < |blocks[p]| && data.entries[j] == e;
    }
  }

  lemma LastOfBlock(index: seq<InternalKey>, blocks: Blocks, cut: Cut, p: nat, data: Run)
    requires Layered(index, blocks) && SplitsAt(blocks, cut, p) && p < |blocks|
    requires data.entries == blocks[p] && data.BeforeCut(cut) && data.Valid()
    ensures LastBelow(Entries(blocks), cut, data.At())
  {
    assert data.Current() in blocks[p] && blocks[p] in blocks;
    assert Below(data.Current().key, cut);
    forall e | e in Entries(blocks) && Below(e.key, cut)
      ensures AtOrBefore(e.key, data.Current().key)
    {
      var b :| b in blocks && e in b;
      var i :| 0 <= i < |blocks| && blocks[i] == b;
      if i == p {
        var j :| 0 <= j < |blocks[p]| && data.entries[j] == e;
      } else {
        assert i < p && AtOrBefore(e.key, index[i]);
      }
    }
  }

  /** The block an index seek finds is the one a cut before the target splits. */
  lemma SeekSplits(index: seq<InternalKey>, blocks: Blocks, k: InternalKey)
    requires Layered(index, blocks)
    ensures SplitsAt(blocks, BeforeKey(k), SeekIndexKey(index, k))
  {
  }

  /** A step inside a block splits the blocks at that block. */
  lemma StepSplits(index: seq<InternalKey>, blocks: Blocks, p: nat, e: Entry)
    requires Layered(index, blocks) && p < |blocks| && e in blocks[p]
    ensures SplitsAt(blocks, AfterKey(e.key), p) && SplitsAt(blocks, BeforeKey(e.key), p)
  {
    forall i, x | 0 <= i < |blocks| && x in blocks[i]
      ensures i < p ==> Before(x.key, e.key)
      ensures p < i ==> Before(e.key, x.key)
    {
      assert i < p ==> AtOrBefore(x.key, index[i]) && Before(index[i], e.key);
      assert p < i ==> AtOrBefore(e.key, index[p]) && Before(index[p], x.key);
    }
  }
}
