/** The cyclic iterator over the fields of a message type: it goes round, and counts required fields and bytes as it
    goes. */
module NanopbIter {
  import opened Wrappers
  import opened Nanopb
  import opened NanopbDecode

  const PB_SIZE_MAX: nat := 0xFFFF_FFFF

  /** A member of a oneof that lies where the member before it lies. */
  predicate SharesStorage(prev: Field, f: Field) {
    prev.htype.Oneof? && f.htype.Oneof? && f.dataOffset == PB_SIZE_MAX
  }

  function Footprint(f: Field): nat {
    if f.htype.Repeated? then f.dataSize * f.arraySize else f.dataSize
  }

  /** Where the data of field `i` begins, and where its count or flag is, from the start of the struct. */
  function Spot(d: Desc, i: nat): (int, int)
    requires i <= |d.fields|
  {
    if d.fields == [] then (0, 0)
    else if i == 0 then (d.fields[0].dataOffset, d.fields[0].dataOffset + d.fields[0].sizeOffset)
    else if i == |d.fields| then Spot(d, 0)
    else
      var prev, f := d.fields[i - 1], d.fields[i];
      if SharesStorage(prev, f) then Spot(d, i - 1)
      else
        var data := Spot(d, i - 1).0 + Footprint(prev) + f.dataOffset;
        (data, data + f.sizeOffset)
  }

  /** The relative offsets of the table are those of a struct with its members at `offsets`. */
  predicate LaidOut(d: Desc, offsets: seq<int>) {
    && |offsets| == |d.fields|
    && (d.fields != [] ==> offsets[0] == d.fields[0].dataOffset)
    && (forall i :: 0 < i < |d.fields| ==> FollowsBy(d.fields[i - 1], d.fields[i], offsets[i - 1], offsets[i]))
  }

  predicate FollowsBy(prev: Field, f: Field, before: int, at: int) {
    if SharesStorage(prev, f) then at == before else f.dataOffset == at - before - Footprint(prev)
  }

  /** Adding up distances leads to the members of the struct. */
  lemma {:induction false} SpotIsOffset(d: Desc, offsets: seq<int>, i: nat)
    requires LaidOut(d, offsets) && i < |d.fields|
    ensures Spot(d, i).0 == offsets[i]
  {
    if i > 0 {
      SpotIsOffset(d, offsets, i - 1);
      assert FollowsBy(d.fields[i - 1], d.fields[i], offsets[i - 1], offsets[i]);
    }
  }

  class FieldIter {
    const d: Desc
    var pos: nat
    var requiredFieldIndex: nat
    var data: int
    var size: int

    /** Place and count depend on the position alone, not on the way there. */
    predicate Valid()
      reads this
    {
      && (pos < |d.fields| || pos == 0)
      && requiredFieldIndex == RequiredBefore(d, pos)
      && (data, size) == Spot(d, pos)
    }

    constructor (d: Desc)
      ensures Valid() && this.d == d && pos == 0
    {
      this.d := d;
      pos := 0;
      requiredFieldIndex := 0;
      data := if d.fields == [] then 0 else d.fields[0].dataOffset;
      size := if d.fields == [] then 0 else d.fields[0].dataOffset + d.fields[0].sizeOffset;
    }

    method Begin() returns (any: bool)
      modifies this
      ensures Valid() && pos == 0 && any == (d.fields != [])
    {
      pos := 0;
      requiredFieldIndex := 0;
      if d.fields == [] {
        data, size := 0, 0;
        return false;
      }
      data := d.fields[0].dataOffset;
      size := data + d.fields[0].sizeOffset;
      return true;
    }

    /** The next field, or false and the first one again. */
    method Next() returns (more: bool)
      requires Valid()
      modifies this
      ensures Valid() && more == (old(pos) + 1 < |d.fields|)
      ensures pos == if more then old(pos) + 1 else 0
    {
      if d.fields == [] {
        return false;
      }
      var prev := d.fields[pos];
      pos := pos + 1;
      if pos == |d.fields| {
        var any := Begin();
        return false;
      }
      var f := d.fields[pos];
      var prevSize := prev.dataSize;
      if SharesStorage(prev, f) {
        return true;
      } else if prev.htype.Repeated? {
        prevSize := prevSize * prev.arraySize;
      }
      if prev.htype.Required? {
        requiredFieldIndex := requiredFieldIndex + 1;
      }
      data := data + prevSize + f.dataOffset;
      size := data + f.sizeOffset;
      return true;
    }

    /** Round from where it is to the field with a tag, or back to where it was. */
    method Find(tag: nat) returns (found: bool)
      requires Valid()
      modifies this
      ensures Valid()
      ensures d.fields != [] ==> found == FieldIndex(d, tag).Some?
      ensures d.fields != [] && found ==> d.fields[pos].tag == tag
      ensures d.fields == [] ==> found == (tag == 0)
      ensures !found ==> pos == old(pos)
    {
      var start := pos;
      var started := false;
      while !started || pos != start
        invariant Valid() && (started ==> d.fields != [])
        invariant !started ==> pos == start
        invariant started ==> forall i :: 0 <= i < |d.fields| && Passed(start, pos, i) ==> d.fields[i].tag != tag
        decreases !started, if start < pos then start + |d.fields| - pos else start - pos
      {
        if (if d.fields == [] then 0 else d.fields[pos].tag) == tag {
          return true;
        }
        if d.fields == [] {
          return false;
        }
        started := true;
        var more := Next();
      }
      return false;
    }
  }

  // On the way round from `start` to `pos`; all the way if they are the same.
  predicate Passed(start: nat, pos: nat, i: int) {
    if start < pos then start <= i < pos else start <= i || i < pos
  }
}
