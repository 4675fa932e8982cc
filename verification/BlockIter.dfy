/** The iterator over a finished block: a cursor on its entries, moved by parsing forwards from restart points. */
module BlockIter {
  import opened Wrappers
  import opened Bytewise
  import opened Coding
  import opened Block

  /** The first entry whose key is not before the target; the number of entries when there is none. */
  ghost predicate IsLowerBound(less: Order, entries: seq<Pair>, target: Bytes, pos: nat) {
    && pos <= |entries|
    && (forall i :: 0 <= i < pos ==> less(entries[i].key, target))
    && (pos < |entries| ==> !less(entries[pos].key, target))
  }

  lemma {:induction false} OffsetsRiseTo(buffer: Bytes, restarts: seq<nat>, l: Layout, i: nat, j: nat)
    requires LaidOut(buffer, restarts, l) && i <= j <= |l.entries|
    ensures i < j ==> l.offs[i] < l.offs[j]
    ensures l.offs[j] <= |buffer|
    decreases j - i
  {
    if i < j {
      OffsetsRiseTo(buffer, restarts, l, i, j - 1);
      assert EntryAt(buffer, l, j - 1);
    } else if i < |l.entries| {
      assert EntryAt(buffer, l, i);
    }
  }

  /** Entries start one after the other, and none is empty. */
  lemma OffsetsRise(buffer: Bytes, restarts: seq<nat>, l: Layout)
    requires LaidOut(buffer, restarts, l)
    ensures |l.offs| == |l.entries| + 1
    ensures forall i, j :: 0 <= i < j <= |l.entries| ==> l.offs[i] < l.offs[j]
    ensures forall j :: 0 <= j <= |l.entries| ==> l.offs[j] <= |buffer|
  {
    forall i, j | 0 <= i <= j <= |l.entries|
      ensures (i < j ==> l.offs[i] < l.offs[j]) && l.offs[j] <= |buffer|
    {
      OffsetsRiseTo(buffer, restarts, l, i, j);
    }
  }

  /** What the iterator reads of a block it opens. */
  lemma SerializedParts(buffer: Bytes, restarts: seq<nat>, j: nat)
    requires |Serialized(buffer, restarts)| < BITS_32
    requires forall i :: 0 <= i < |restarts| ==> restarts[i] < BITS_32
    ensures var c := Serialized(buffer, restarts); var n := |c|;
      && n == |buffer| + 4 * |restarts| + 4
      && Unfixed(c[n - 4..]) == |restarts|
      && c[..|buffer|] == buffer
      && (j < |restarts| ==> Unfixed(c[|buffer| + 4 * j..|buffer| + 4 * j + 4]) == restarts[j])
  {
    hide Fixed, Words;
    var c := Serialized(buffer, restarts);
    FixedWidths(|restarts|);
    assert c[|c| - 4..] == Fixed(|restarts|, 4);
    if j < |restarts| {
      WordAt(restarts, j);
      FixedWidths(restarts[j]);
      assert c[|buffer| + 4 * j..|buffer| + 4 * j + 4] == Words(restarts)[4 * j..4 * j + 4];
    }
  }

  /** What is found when a block is opened: where its restart array starts and how many restart points it has. */
  function OpenBlock(contents: Bytes): Option<(nat, nat)> {
    var n := |contents|;
    if n < 4 then None
    else
      var numRestarts := Unfixed(contents[n - 4..]);
      if numRestarts > (n - 4) / 4 then None else Some((n - (1 + numRestarts) * 4, numRestarts))
  }

  /** The contents are what a builder finished: a buffer laid out so, and its restart points. */
  ghost predicate Finished(contents: Bytes, buffer: Bytes, restarts: seq<nat>, l: Layout) {
    contents == Serialized(buffer, restarts) && |contents| < BITS_32 && LaidOut(buffer, restarts, l)
  }

  lemma FinishedOpens(contents: Bytes, buffer: Bytes, restarts: seq<nat>, l: Layout)
    requires Finished(contents, buffer, restarts, l)
    ensures OpenBlock(contents) == Some((|buffer|, |restarts|)) && |restarts| == |l.points| > 0
    ensures |buffer| <= |contents| && contents[..|buffer|] == buffer
    ensures LaidOut(buffer, restarts, l) && PointsOk(l)
  {
    OffsetsRise(buffer, restarts, l);
    SerializedParts(buffer, restarts, |restarts|);
  }

  /** A restart point read from the array is where its entry starts. */
  lemma RestartPointIs(contents: Bytes, buffer: Bytes, restarts: seq<nat>, l: Layout, j: nat)
    requires Finished(contents, buffer, restarts, l) && j < |restarts|
    ensures |restarts| == |l.points| && |l.offs| == |l.entries| + 1 && l.points[j] <= |l.entries|
    ensures |buffer| + 4 * j + 4 <= |contents|
    ensures Unfixed(contents[|buffer| + 4 * j..|buffer| + 4 * j + 4]) == l.offs[l.points[j]]
  {
    OffsetsRise(buffer, restarts, l);
    SerializedParts(buffer, restarts, j);
  }

  lemma {:induction false} PointsRise(l: Layout, i: nat, j: nat)
    requires PointsOk(l) && i < j < |l.points|
    ensures l.points[i] < l.points[j] < |l.entries|
    decreases j - i
  {
    if i + 1 < j {
      PointsRise(l, i, j - 1);
    }
  }

  /** Where the pieces of entry `i` are, as its decoded lengths say. */
  lemma EntryDecoded(buffer: Bytes, restarts: seq<nat>, l: Layout, i: nat)
    requires LaidOut(buffer, restarts, l) && i < |l.entries|
    ensures |l.offs| == |l.entries| + 1 && |l.shared| == |l.entries|
    ensures l.offs[i] < l.offs[i + 1] <= |buffer|
    ensures var e, d := l.entries[i], DecodeEntry(buffer[l.offs[i]..]);
      && l.shared[i] <= |e.key|
      && var n := |e.key| - l.shared[i];
      && d.Some? && d.value.0 == l.shared[i] && d.value.1 == n && d.value.2 == |e.value|
      && var at := l.offs[i] + d.value.3;
      && at + n + |e.value| == l.offs[i + 1]
      && buffer[at..at + n] == e.key[l.shared[i]..]
      && buffer[at + n..at + n + |e.value|] == e.value
  {
    hide DecodeEntry, EntryBytes;
    assert EntryAt(buffer, l, i);
    OffsetsRiseTo(buffer, restarts, l, i, i + 1);
    var e, b := l.entries[i], EntryBytes(l.shared[i], l.entries[i]);
    var n := |e.key| - l.shared[i];
    EntryRoundTrip(l.shared[i], e, buffer[l.offs[i + 1]..]);
    assert buffer[l.offs[i]..] == b + buffer[l.offs[i + 1]..];
    var h := |b| - n - |e.value|;
    assert buffer[l.offs[i]..l.offs[i + 1]][h..h + n] == buffer[l.offs[i] + h..l.offs[i] + h + n];
    assert buffer[l.offs[i]..l.offs[i + 1]][h + n..] == buffer[l.offs[i] + h + n..l.offs[i + 1]];
  }

  class Iter {
    const less: Order
    const data: Bytes
    const restarts: nat
    const numRestarts: nat
    var current: nat
    var restartIndex: nat
    var key: Bytes
    // The value is a slice of the data.
    var valueStart: nat
    var valueSize: nat
    var corrupt: bool

    // The block as it was built, and the entry the iterator stands at.
    ghost const buffer: Bytes
    ghost const points: seq<nat>
    ghost const layout: Layout
    ghost var pos: nat

    /** The block is one that a builder made. */
    ghost predicate Opened()
    {
      Finished(data, buffer, points, layout) && restarts == |buffer| && numRestarts == |points|
    }

    /** On an entry, all fields say which; past the end or before the start, the iterator is not valid. */
    ghost predicate Ok()
      reads this
    {
      && Opened() && !corrupt
      && pos <= |layout.entries| && |layout.offs| == |layout.entries| + 1 && |layout.points| == numRestarts
      && restarts <= |data|
      && if pos < |layout.entries| then
           && current == layout.offs[pos] < restarts
           && key == layout.entries[pos].key
           && valueStart + valueSize == layout.offs[pos + 1] <= restarts
           && data[valueStart..valueStart + valueSize] == layout.entries[pos].value
           && restartIndex < numRestarts && layout.points[restartIndex] <= pos
         else current == restarts
    }

    /** The next entry to be parsed is `i`, and the key so far is right for it. */
    ghost predicate Poised(i: nat)
      reads this
    {
      && Opened() && !corrupt
      && i <= |layout.entries| && |layout.offs| == |layout.entries| + 1 && |layout.points| == numRestarts
      && |layout.shared| == |layout.entries|
      && valueStart + valueSize == layout.offs[i]
      && restartIndex < numRestarts && layout.points[restartIndex] <= i
      && (i < |layout.entries| ==>
            && layout.shared[i] <= |key| && layout.shared[i] <= |layout.entries[i].key|
            && key[..layout.shared[i]] == layout.entries[i].key[..layout.shared[i]])
    }

    constructor (less: Order, contents: Bytes, ghost buffer: Bytes, ghost points: seq<nat>, ghost layout: Layout)
      requires Finished(contents, buffer, points, layout)
      ensures Ok() && pos == |layout.entries| && this.less == less && this.data == contents && this.layout == layout
    {
      FinishedOpens(contents, buffer, points, layout);
      this.less, data, this.buffer, this.points, this.layout := less, contents, buffer, points, layout;
      var open := OpenBlock(contents);
      restarts, numRestarts := open.value.0, open.value.1;
      current, restartIndex := open.value.0, open.value.1;
      key, valueStart, valueSize, corrupt := [], 0, 0, false;
      pos := |layout.entries|;
    }

    function Valid(): bool
      reads this
    {
      current < restarts
    }

    lemma ValidMeans()
      requires Ok()
      ensures Valid() <==> pos < |layout.entries|
    {
    }

    function Value(): Bytes
      requires Ok() && Valid()
      reads this
    {
      data[valueStart..valueStart + valueSize]
    }

    method GetRestartPoint(j: nat) returns (offset: nat)
      requires Opened() && j < numRestarts
      ensures |layout.points| == numRestarts && layout.points[j] <= |layout.entries| &&
              |layout.offs| == |layout.entries| + 1
      ensures offset == layout.offs[layout.points[j]]
    {
      RestartPointIs(data, buffer, points, layout, j);
      offset := Unfixed(data[restarts + 4 * j..restarts + 4 * j + 4]);
    }

    method SeekToRestartPoint(j: nat)
      requires Opened() && !corrupt && j < numRestarts
      modifies this
      ensures |layout.points| == numRestarts && layout.points[j] <= |layout.entries| && Poised(layout.points[j])
      ensures current == old(current) && pos == old(pos) && restartIndex == j
    {
      key := [];
      restartIndex := j;
      var offset := GetRestartPoint(j);
      valueStart, valueSize := offset, 0;
    }

    /** Moves on to the entry poised at; false at the end. */
    method ParseNextKey(ghost i: nat) returns (more: bool)
      requires Poised(i)
      modifies this
      ensures Ok() && pos == i && (more <==> i < |layout.entries|)
    {
      hide Finished, LaidOut, PointsOk, DecodeEntry;
      FinishedOpens(data, buffer, points, layout);
      OffsetsRise(buffer, points, layout);
      pos := i;
      current := valueStart + valueSize;
      if current >= restarts {
        current, restartIndex := restarts, numRestarts;
        return false;
      }
      ParseEntry(i);
      AdvanceRestartIndex();
      return true;
    }

    /** Decodes the entry at `current`: the key from the bytes shared with the key before, the value as a slice. */
    method ParseEntry(ghost i: nat)
      requires Opened() && LaidOut(buffer, points, layout) && i < |layout.entries|
      requires |layout.offs| == |layout.entries| + 1 && |layout.shared| == |layout.entries|
      requires current == layout.offs[i] <= restarts <= |data| && data[..restarts] == buffer
      requires layout.shared[i] <= |key| && layout.shared[i] <= |layout.entries[i].key|
      requires key[..layout.shared[i]] == layout.entries[i].key[..layout.shared[i]]
      modifies this`key, this`valueStart, this`valueSize
      ensures key == layout.entries[i].key && current < restarts
      ensures valueStart + valueSize == layout.offs[i + 1] <= restarts
      ensures data[valueStart..valueStart + valueSize] == layout.entries[i].value
    {
      hide Finished, LaidOut, PointsOk, DecodeEntry;
      EntryDecoded(buffer, points, layout, i);
      FrontSlice(data, buffer, layout.offs[i], restarts);
      var d := DecodeEntryFast(data[current..restarts]);
      // In a block that a builder made this check for a corrupt entry never fails.
      assert d.Some? && |key| >= d.value.0;
      var p := current + d.value.3;
      FrontSlice(data, buffer, p, p + d.value.1);
      FrontSlice(data, buffer, p + d.value.1, p + d.value.1 + d.value.2);
      key := key[..d.value.0] + data[p..p + d.value.1];
      valueStart, valueSize := p + d.value.1, d.value.2;
    }

    /** Keeps the restart index at a restart point at or before the current entry. */
    method AdvanceRestartIndex()
      requires Opened() && pos <= |layout.entries| && |layout.offs| == |layout.entries| + 1 &&
               current == layout.offs[pos]
      requires restartIndex < numRestarts && |layout.points| == numRestarts && layout.points[restartIndex] <= pos
      modifies this`restartIndex
      ensures restartIndex < numRestarts && layout.points[restartIndex] <= pos
    {
      hide Finished, LaidOut, PointsOk;
      FinishedOpens(data, buffer, points, layout);
      OffsetsRise(buffer, points, layout);
      while restartIndex + 1 < numRestarts
        invariant restartIndex < numRestarts && layout.points[restartIndex] <= pos
        decreases numRestarts - restartIndex
      {
        var next := GetRestartPoint(restartIndex + 1);
        if next >= current {
          break;
        }
        restartIndex := restartIndex + 1;
      }
    }

    method Next()
      requires Ok() && Valid()
      modifies this
      ensures Ok() && pos == old(pos) + 1
    {
      hide Finished;
      ValidMeans();
      PoisedNext();
      var _ := ParseNextKey(pos + 1);
    }

    /** Having read an entry the iterator is poised at the next. */
    lemma PoisedNext()
      requires Ok() && pos < |layout.entries|
      ensures Poised(pos + 1)
    {
      EntryLaidOut(buffer, points, layout, pos);
      if pos + 1 < |layout.entries| {
        EntryLaidOut(buffer, points, layout, pos + 1);
      }
      hide Finished, LaidOut, Serialized;
    }

    method SeekToFirst()
      requires Ok()
      modifies this
      ensures Ok() && pos == 0
    {
      SeekToRestartPoint(0);
      var _ := ParseNextKey(0);
    }

    method SeekToLast()
      requires Ok()
      modifies this
      ensures Ok() && pos == if layout.entries == [] then 0 else |layout.entries| - 1
    {
      hide Finished, LaidOut, PointsOk, DecodeEntry;
      FinishedOpens(data, buffer, points, layout);
      OffsetsRise(buffer, points, layout);
      SeekToRestartPoint(numRestarts - 1);
      ghost var n := |layout.entries|;
      ghost var i := layout.points[numRestarts - 1];
      LastPoint(layout);
      var more := ParseNextKey(i);
      while more && valueStart + valueSize < restarts
        invariant Ok() && pos == i && (more <==> i < n) && (n > 0 ==> i < n)
        decreases n - i
      {
        PoisedNext();
        i := i + 1;
        more := ParseNextKey(i);
      }
    }

    /** Goes back to a restart point before the entry and parses up to it. */
    method Prev()
      requires Ok() && Valid()
      modifies this
      ensures Ok() && pos == if old(pos) == 0 then |layout.entries| else old(pos) - 1
    {
      hide Finished, LaidOut, PointsOk;
      FinishedOpens(data, buffer, points, layout);
      OffsetsRise(buffer, points, layout);
      FirstPoint(layout);
      var original := current;
      ghost var was := pos;
      var found := BackUp(original);
      if !found {
        current := restarts;
        restartIndex := numRestarts;
        pos := |layout.entries|;
        return;
      }
      ghost var i := layout.points[restartIndex];
      SeekToRestartPoint(restartIndex);
      var more := ParseNextKey(i);
      while more && valueStart + valueSize < original
        invariant Ok() && pos == i < was && more
        decreases was - i
      {
        PoisedNext();
        i := i + 1;
        more := ParseNextKey(i);
      }
    }

    /** Lowers the restart index until its restart point is before `original`; false when there is none. */
    method BackUp(original: nat) returns (found: bool)
      requires Opened() && restartIndex < numRestarts
      modifies this`restartIndex
      ensures restartIndex < numRestarts == |layout.points|
      ensures |layout.offs| == |layout.entries| + 1 && layout.points[restartIndex] <= |layout.entries|
      ensures found <==> layout.offs[layout.points[restartIndex]] < original
      ensures !found ==> restartIndex == 0
    {
      hide Finished, LaidOut, PointsOk;
      var region := GetRestartPoint(restartIndex);
      while region >= original
        invariant restartIndex < numRestarts == |layout.points| && |layout.offs| == |layout.entries| + 1
        invariant layout.points[restartIndex] <= |layout.entries| && region == layout.offs[layout.points[restartIndex]]
        decreases restartIndex
      {
        if restartIndex == 0 {
          return false;
        }
        restartIndex := restartIndex - 1;
        region := GetRestartPoint(restartIndex);
      }
      return true;
    }

    /** Lands on the first entry at or after the target: binary search among the restart points, then one by one. */
    method Seek(target: Bytes)
      requires Ok() && Transitive(less) && Ascending(less, layout.entries)
      modifies this
      ensures Ok() && IsLowerBound(less, layout.entries, target, pos)
    {
      hide Finished, Transitive, Ascending;
      var left := FindRestart(target);
      SeekToRestartPoint(left);
      ghost var i := layout.points[left];
      var more := ParseNextKey(i);
      while more && less(key, target)
        invariant Ok() && pos == i && (more <==> i < |layout.entries|)
        invariant forall j :: 0 <= j < i ==> less(layout.entries[j].key, target)
        decreases |layout.entries| - i
      {
        PoisedNext();
        i := i + 1;
        more := ParseNextKey(i);
      }
    }

    /** The last restart point with a key before the target, or the first restart point. */
    method FindRestart(target: Bytes) returns (left: nat)
      requires Opened() && Transitive(less) && Ascending(less, layout.entries)
      ensures left < numRestarts == |layout.points| && layout.points[left] <= |layout.entries|
      ensures forall i :: 0 <= i < layout.points[left] ==> less(layout.entries[i].key, target)
      ensures left > 0 ==>
                layout.points[left] < |layout.entries| && less(layout.entries[layout.points[left]].key, target)
      ensures left + 1 < numRestarts ==>
                layout.points[left + 1] < |layout.entries| &&
                !less(layout.entries[layout.points[left + 1]].key, target)
    {
      hide Finished, LaidOut, PointsOk, DecodeEntry, Transitive, Ascending;
      FinishedOpens(data, buffer, points, layout);
      left := 0;
      var right: nat := numRestarts - 1;
      while left < right
        invariant 0 <= left <= right < numRestarts
        invariant left > 0 ==>
                    layout.points[left] < |layout.entries| && less(layout.entries[layout.points[left]].key, target)
        invariant right + 1 < numRestarts ==>
                    layout.points[right + 1] < |layout.entries| &&
                    !less(layout.entries[layout.points[right + 1]].key, target)
        decreases right - left
      {
        var mid: nat := (left + right + 1) / 2;
        var midKey := RestartKey(mid);
        if less(midKey, target) {
          left := mid;
        } else {
          right := mid - 1;
        }
      }
      BeforePoint(less, layout, left, target);
    }

    /** The key at a restart point, which is there in full. */
    method RestartKey(mid: nat) returns (midKey: Bytes)
      requires Opened() && 0 < mid < numRestarts
      ensures |layout.points| == numRestarts && layout.points[mid] < |layout.entries|
      ensures midKey == layout.entries[layout.points[mid]].key
    {
      hide Finished, LaidOut, PointsOk, DecodeEntry;
      FinishedOpens(data, buffer, points, layout);
      var regionOffset := GetRestartPoint(mid);
      PointBefore(layout, mid);
      EntryDecoded(buffer, points, layout, layout.points[mid]);
      FrontSlice(data, buffer, regionOffset, restarts);
      var d := DecodeEntryFast(data[regionOffset..restarts]);
      // A restart point of a block that a builder made is sound and has its key whole.
      assert d.Some? && d.value.0 == 0;
      var keyStart := regionOffset + d.value.3;
      midKey := data[keyStart..keyStart + d.value.1];
      FrontSlice(data, buffer, keyStart, keyStart + d.value.1);
    }
  }

  lemma FrontSlice(data: Bytes, buffer: Bytes, a: nat, b: nat)
    requires a <= b <= |buffer| <= |data| && data[..|buffer|] == buffer
    ensures data[a..b] == buffer[a..b]
  {
    assert forall i :: a <= i < b ==> data[i] == data[..|buffer|][i];
  }

  lemma EntryLaidOut(buffer: Bytes, restarts: seq<nat>, l: Layout, i: nat)
    requires LaidOut(buffer, restarts, l) && i < |l.entries|
    ensures |l.offs| == |l.entries| + 1 && |l.shared| == |l.entries|
    ensures l.shared[i] <= |l.entries[i].key|
    ensures i > 0 ==>
              l.shared[i] <= |l.entries[i - 1].key| &&
              l.entries[i].key[..l.shared[i]] == l.entries[i - 1].key[..l.shared[i]]
  {
    hide EntryBytes;
    assert EntryAt(buffer, l, i);
  }

  lemma FirstPoint(l: Layout)
    requires PointsOk(l)
    ensures |l.points| > 0 && l.points[0] == 0
  {
  }

  lemma LastPoint(l: Layout)
    requires PointsOk(l)
    ensures l.entries != [] ==> l.points[|l.points| - 1] < |l.entries|
    ensures l.entries == [] ==> l.points[|l.points| - 1] == 0
  {
  }

  lemma PointBefore(l: Layout, j: nat)
    requires PointsOk(l) && 0 < j < |l.points|
    ensures l.points[j - 1] < l.points[j] < |l.entries| && |l.shared| == |l.entries| && l.shared[l.points[j]] == 0
  {
  }

  /** Entries before a restart point whose key is before the target are before the target. */
  lemma BeforePoint(less: Order, l: Layout, j: nat, target: Bytes)
    requires Transitive(less) && Ascending(less, l.entries) && PointsOk(l) && j < |l.points|
    requires j > 0 ==> l.points[j] < |l.entries| && less(l.entries[l.points[j]].key, target)
    ensures l.points[j] <= |l.entries| && forall i :: 0 <= i < l.points[j] ==> less(l.entries[i].key, target)
  {
  }
}
