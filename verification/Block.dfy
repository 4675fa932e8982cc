/** Data and index blocks: keys with their common prefixes left out, and restart points where they are whole. */
module Block {
  import opened Wrappers
  import opened Bytewise
  import opened Coding

  // The order of keys: a comparator that says when one key is before another.
  type Order = (Bytes, Bytes) -> bool

  ghost predicate Transitive(less: Order) {
    forall a: Bytes, b: Bytes, c: Bytes :: less(a, b) && less(b, c) ==> less(a, c)
  }

  datatype Pair = Pair(key: Bytes, value: Bytes)

  // ---- one entry ----

  /** Lengths of the part shared with the key before, of the rest and of the value; then the rest and the value. */
  function EntryBytes(shared: nat, e: Pair): (b: Bytes)
    requires shared <= |e.key|
    ensures |b| >= 3 + |e.key| - shared + |e.value|
  {
    Varint(shared) + Varint(|e.key| - shared) + Varint(|e.value|) + e.key[shared..] + e.value
  }

  /** The three lengths at the front and how long they are; None when the entry does not fit. */
  function DecodeEntry(b: Bytes): Option<(nat, nat, nat, nat)> {
    if |b| < 3 then None
    else
      match GetVarint32(b)
      case None => None
      case Some((shared, b1)) =>
        match GetVarint32(b1)
        case None => None
        case Some((nonShared, b2)) =>
          match GetVarint32(b2)
          case None => None
          case Some((valueLength, b3)) =>
            ParseVarintConsumes(b, 5);
            ParseVarintConsumes(b1, 5);
            ParseVarintConsumes(b2, 5);
            if |b3| < (nonShared + valueLength) % BITS_32 then None
            else Some((shared, nonShared, valueLength, |b| - |b3|))
  }

  lemma VarintConsumes(b: Bytes)
    ensures GetVarint32(b).Some? ==> |GetVarint32(b).value.1| < |b|
    ensures |b| > 0 && b[0] < 128 ==> GetVarint32(b) == Some((b[0] as nat, b[1..]))
  {
    ParseVarintConsumes(b, 5);
  }

  lemma ShortLengths(b: Bytes)
    requires |b| >= 3 && b[0] < 128 && b[1] < 128 && b[2] < 128
    ensures GetVarint32(b) == Some((b[0] as nat, b[1..])) && GetVarint32(b[1..]) == Some((b[1] as nat, b[2..]))
    ensures GetVarint32(b[2..]) == Some((b[2] as nat, b[3..]))
  {
    hide GetVarint32;
    VarintConsumes(b);
    VarintConsumes(b[1..]);
    VarintConsumes(b[2..]);
    assert b[1..][1..] == b[2..] && b[2..][1..] == b[3..];
  }

  /** The decoder with its short cut for lengths of one byte each. */
  method DecodeEntryFast(b: Bytes) returns (r: Option<(nat, nat, nat, nat)>)
    ensures r == DecodeEntry(b)
  {
    hide GetVarint32;
    if |b| < 3 {
      return None;
    }
    var shared: nat, nonShared: nat, valueLength: nat, rest: Bytes := b[0] as nat, b[1] as nat, b[2] as nat, b[3..];
    if shared < 128 && nonShared < 128 && valueLength < 128 {
      ShortLengths(b);
    } else {
      var r0 := GetVarint32Ptr(b);
      if r0 == None {
        return None;
      }
      VarintConsumes(b);
      var r1 := GetVarint32Ptr(r0.value.1);
      if r1 == None {
        return None;
      }
      VarintConsumes(r0.value.1);
      var r2 := GetVarint32Ptr(r1.value.1);
      if r2 == None {
        return None;
      }
      VarintConsumes(r1.value.1);
      shared, nonShared, valueLength, rest := r0.value.0, r1.value.0, r2.value.0, r2.value.1;
    }
    if |rest| < (nonShared + valueLength) % BITS_32 {
      return None;
    }
    var headerLength: nat := |b| - |rest|;
    r := Some((shared, nonShared, valueLength, headerLength));
  }

  lemma EntryRoundTrip(shared: nat, e: Pair, rest: Bytes)
    requires shared <= |e.key| && |e.key| + |e.value| < BITS_32
    ensures var n := |e.key| - shared; var b := EntryBytes(shared, e);
      && DecodeEntry(b + rest) == Some((shared, n, |e.value|, |b| - n - |e.value|))
      && b[|b| - n - |e.value|..|b| - |e.value|] == e.key[shared..]
      && b[|b| - |e.value|..] == e.value
  {
    hide GetVarint, Varint;
    var n := |e.key| - shared;
    var tail := e.key[shared..] + e.value;
    var b := EntryBytes(shared, e);
    assert b + rest == Varint(shared) + (Varint(n) + (Varint(|e.value|) + (tail + rest)));
    VarintsRoundTrip(shared, Varint(n) + (Varint(|e.value|) + (tail + rest)));
    VarintsRoundTrip(n, Varint(|e.value|) + (tail + rest));
    VarintsRoundTrip(|e.value|, tail + rest);
    assert b == Varint(shared) + Varint(n) + Varint(|e.value|) + tail;
  }

  // ---- the layout of a block ----

  /** The entries of a block with where they start (and where the last one ends), how much of the key each shares with
      the one before, and which entries are restart points. */
  datatype Layout = Layout(entries: seq<Pair>, offs: seq<nat>, shared: seq<nat>, points: seq<nat>)

  ghost predicate EntryAt(buffer: Bytes, l: Layout, i: nat)
    requires i < |l.entries| && |l.offs| == |l.entries| + 1 && |l.shared| == |l.entries|
  {
    && l.shared[i] <= |l.entries[i].key| && |l.entries[i].key| + |l.entries[i].value| < BITS_32
    && l.offs[i] <= l.offs[i + 1] <= |buffer|
    && buffer[l.offs[i]..l.offs[i + 1]] == EntryBytes(l.shared[i], l.entries[i])
    && (if i == 0 then l.shared[i] == 0
        else
          && l.shared[i] <= |l.entries[i - 1].key|
          && l.entries[i].key[..l.shared[i]] == l.entries[i - 1].key[..l.shared[i]])
  }

  /** A restart point is an entry whose key is whole; the first one is the first entry. */
  ghost predicate PointsOk(l: Layout) {
    && |l.points| > 0 && l.points[0] == 0
    && |l.shared| == |l.entries|
    && (forall j :: 0 < j < |l.points| ==> l.points[j - 1] < l.points[j] < |l.entries|)
    && (forall j :: 0 <= j < |l.points| && l.points[j] < |l.entries| ==> l.shared[l.points[j]] == 0)
  }

  ghost predicate LaidOut(buffer: Bytes, restarts: seq<nat>, l: Layout) {
    && |l.offs| == |l.entries| + 1 && |l.shared| == |l.entries|
    && l.offs[0] == 0 && l.offs[|l.entries|] == |buffer|
    && (forall i :: 0 <= i < |l.entries| ==> EntryAt(buffer, l, i))
    && PointsOk(l)
    && |restarts| == |l.points|
    && (forall j :: 0 <= j < |restarts| ==> l.points[j] <= |l.entries| && restarts[j] == l.offs[l.points[j]])
  }

  ghost predicate Ascending(less: Order, entries: seq<Pair>) {
    forall i, j :: 0 <= i < j < |entries| ==> less(entries[i].key, entries[j].key)
  }

  function Serialized(buffer: Bytes, restarts: seq<nat>): Bytes {
    buffer + Words(restarts) + Fixed(|restarts|, 4)
  }

  // ---- the builder ----

  /** How many leading bytes two keys have in common. */
  function Common(a: Bytes, b: Bytes): (n: nat)
    ensures n <= |a| && n <= |b| && a[..n] == b[..n]
    ensures n < |a| && n < |b| ==> a[n] != b[n]
  {
    if a == [] || b == [] || a[0] != b[0] then 0
    else
      var n := Common(a[1..], b[1..]);
      assert a[..n + 1] == [a[0]] + a[1..][..n] && b[..n + 1] == [b[0]] + b[1..][..n];
      n + 1
  }

  lemma {:induction false} CommonIs(a: Bytes, b: Bytes, n: nat)
    requires n <= |a| && n <= |b| && a[..n] == b[..n]
    requires n == |a| || n == |b| || a[n] != b[n]
    ensures n == Common(a, b)
  {
    if n > 0 {
      assert a[0] == a[..n][0] && b[0] == b[..n][0];
      assert a[1..][..n - 1] == a[..n][1..] && b[1..][..n - 1] == b[..n][1..];
      CommonIs(a[1..], b[1..], n - 1);
    }
  }

  function LastKey(entries: seq<Pair>): Bytes {
    if entries == [] then [] else entries[|entries| - 1].key
  }

  function Appended(l: Layout, e: Pair, shared: nat, end: nat, restart: bool): Layout {
    Layout(l.entries + [e], l.offs + [end], l.shared + [shared], if restart then l.points + [|l.entries|] else l.points)
  }

  lemma AppendKeepsLayout(buffer: Bytes, restarts: seq<nat>, l: Layout, e: Pair, shared: nat, restart: bool)
    requires LaidOut(buffer, restarts, l)
    requires shared <= |e.key| && |e.key| + |e.value| < BITS_32
    requires shared <= |LastKey(l.entries)| && e.key[..shared] == LastKey(l.entries)[..shared]
    requires restart ==> shared == 0 && l.entries != []
    ensures var buffer' := buffer + EntryBytes(shared, e);
      LaidOut(buffer', if restart then restarts + [|buffer|] else restarts, Appended(l, e, shared, |buffer'|, restart))
  {
    hide EntryBytes;
    var n := |l.entries|;
    var buffer' := buffer + EntryBytes(shared, e);
    var l' := Appended(l, e, shared, |buffer| + |EntryBytes(shared, e)|, restart);
    forall i | 0 <= i <= n
      ensures EntryAt(buffer', l', i)
    {
      if i < n {
        assert EntryAt(buffer, l, i);
        assert l'.offs[i] == l.offs[i] && l'.offs[i + 1] == l.offs[i + 1];
        assert buffer'[l.offs[i]..l.offs[i + 1]] == buffer[l.offs[i]..l.offs[i + 1]];
      } else {
        assert buffer'[|buffer|..] == EntryBytes(shared, e);
      }
    }
  }

  /** The size of a block without its last entry. */
  function SizeWithoutLast(l: Layout): nat
    requires |l.offs| == |l.entries| + 1 && l.entries != [] && l.points != []
  {
    var n := |l.entries| - 1;
    l.offs[n] + 4 * (if l.points[|l.points| - 1] == n then |l.points| - 1 else |l.points|) + 4
  }

  /** The block came to `size` with its last entry, and not before. */
  ghost predicate FilledBy(l: Layout, size: nat) {
    && |l.offs| == |l.entries| + 1 && l.entries != [] && l.points != []
    && (|l.entries| > 1 ==> SizeWithoutLast(l) < size)
  }

  lemma SizeBeforeEntry(buffer: Bytes, restarts: seq<nat>, l: Layout, e: Pair, shared: nat, end: nat, restart: bool)
    requires LaidOut(buffer, restarts, l) && (restart ==> l.entries != [])
    ensures forall size: nat :: l.entries == [] || |Serialized(buffer, restarts)| < size ==>
              FilledBy(Appended(l, e, shared, end, restart), size)
  {
  }

  lemma PartsOfEntry(b: Bytes, shared: nat, key: Bytes, value: Bytes)
    requires shared <= |key|
    ensures b + Varint(shared) + Varint(|key| - shared) + Varint(|value|) + key[shared..] + value ==
              b + EntryBytes(shared, Pair(key, value))
  {
    hide Varint;
  }

  lemma EntrySize(shared: nat, e: Pair)
    requires shared <= |e.key| && |e.key| + |e.value| < BITS_32
    ensures |EntryBytes(shared, e)| <= 15 + |e.key| + |e.value|
  {
    hide Varint;
    VarintSizes(shared);
    VarintSizes(|e.key| - shared);
    VarintSizes(|e.value|);
  }

  /** Every `interval`-th entry is a restart point; `counter` entries were added from the last one on. */
  ghost predicate Spaced(l: Layout, interval: nat, counter: nat) {
    && |l.points| > 0 && l.points[0] == 0
    && (forall j :: 0 < j < |l.points| ==> l.points[j] == l.points[j - 1] + interval)
    && counter <= interval && l.points[|l.points| - 1] + counter == |l.entries|
  }

  lemma SpacedGoesOn(l: Layout, e: Pair, shared: nat, end: nat, interval: nat, counter: nat)
    requires Spaced(l, interval, counter) && interval >= 1
    ensures counter < interval ==> Spaced(Appended(l, e, shared, end, false), interval, counter + 1)
    ensures counter >= interval ==> l.entries != [] && Spaced(Appended(l, e, shared, end, true), interval, 1)
  {
  }

  method SharedLength(lastKey: Bytes, key: Bytes) returns (shared: nat)
    ensures shared == Common(lastKey, key)
  {
    shared := 0;
    var minLength := if |lastKey| < |key| then |lastKey| else |key|;
    while shared < minLength && lastKey[shared] == key[shared]
      invariant 0 <= shared <= minLength && lastKey[..shared] == key[..shared]
    {
      shared := shared + 1;
    }
    CommonIs(lastKey, key, shared);
  }

  class BlockBuilder {
    const restartInterval: nat
    var buffer: Bytes
    var restarts: seq<nat>
    var counter: nat
    var finished: bool
    var lastKey: Bytes
    ghost var layout: Layout

    ghost predicate Ok()
      reads this
    {
      && restartInterval >= 1
      && (!finished ==> Spaced(layout, restartInterval, counter))
      && lastKey == LastKey(layout.entries)
      && (!finished ==> LaidOut(buffer, restarts, layout))
    }

    constructor (restartInterval: nat)
      requires restartInterval >= 1
      ensures Ok() && !finished && layout.entries == [] && this.restartInterval == restartInterval
      ensures buffer == [] && restarts == [0]
    {
      this.restartInterval := restartInterval;
      buffer, restarts, counter, finished, lastKey := [], [0], 0, false, [];
      layout := Layout([], [0], [], [0]);
    }

    method Reset()
      requires restartInterval >= 1
      modifies this
      ensures Ok() && !finished && layout.entries == []
    {
      buffer, restarts, counter, finished, lastKey := [], [0], 0, false, [];
      layout := Layout([], [0], [], [0]);
    }

    /** Appends an entry, leaving out what its key has in common with the one before unless a restart is due. */
    method Add(key: Bytes, value: Bytes)
      requires Ok() && !finished && |key| + |value| < BITS_32
      modifies this
      ensures Ok() && !finished
      ensures layout.entries == old(layout.entries) + [Pair(key, value)] && lastKey == key
      ensures layout.shared ==
                old(layout.shared) + [if old(counter) < restartInterval then Common(old(lastKey), key) else 0]
      ensures layout.points == old(layout.points) + if old(counter) < restartInterval then []
              else [|old(layout.entries)|]
      ensures |buffer| <= |old(buffer)| + 15 + |key| + |value| && |restarts| <= |old(restarts)| + 1
      ensures forall size: nat :: old(layout.entries) == [] || |Serialized(old(buffer), old(restarts))| < size ==>
                FilledBy(layout, size)
    {
      hide LaidOut, EntryBytes, Varint, Spaced, FilledBy, Serialized;
      ghost var b, r, l, c := buffer, restarts, layout, counter;
      var shared := 0;
      ghost var restart := false;
      if counter < restartInterval {
        shared := SharedLength(lastKey, key);
      } else {
        restarts := restarts + [|buffer|];
        counter := 0;
        restart := true;
      }
      var nonShared := |key| - shared;
      buffer := buffer + Varint(shared);
      buffer := buffer + Varint(nonShared);
      buffer := buffer + Varint(|value|);
      buffer := buffer + key[shared..];
      buffer := buffer + value;
      PartsOfEntry(b, shared, key, value);
      EntrySize(shared, Pair(key, value));
      SpacedGoesOn(l, Pair(key, value), shared, |buffer|, restartInterval, c);
      AppendKeepsLayout(b, r, l, Pair(key, value), shared, restart);
      SizeBeforeEntry(b, r, l, Pair(key, value), shared, |buffer|, restart);
      layout := Appended(l, Pair(key, value), shared, |buffer|, restart);
      lastKey := lastKey[..shared] + key[shared..];
      assert lastKey == key[..shared] + key[shared..] == key;
      counter := counter + 1;
    }

    lemma EmptyMeans()
      requires Ok() && !finished
      ensures buffer == [] <==> layout.entries == []
    {
      assert layout.entries != [] ==> EntryAt(buffer, layout, 0);
    }

    method CurrentSizeEstimate() returns (n: nat)
      ensures n == |Serialized(buffer, restarts)|
    {
      n := |buffer| + |restarts| * 4 + 4;
    }

    /** Appends the restart points and their number. */
    method Finish() returns (contents: Bytes)
      requires Ok() && !finished
      modifies this
      ensures Ok() && finished && layout == old(layout)
      ensures contents == buffer == Serialized(old(buffer), restarts) && restarts == old(restarts)
      ensures LaidOut(old(buffer), restarts, layout)
    {
      hide LaidOut;
      ghost var b := buffer;
      finished := true;
      for i := 0 to |restarts|
        invariant restarts == old(restarts) && layout == old(layout) && counter == old(counter) &&
                  lastKey == old(lastKey) && finished
        invariant buffer == b + Words(restarts[..i])
      {
        OneMoreWord(restarts, i);
        buffer := buffer + Fixed(restarts[i], 4);
      }
      assert restarts[..|restarts|] == restarts;
      buffer := buffer + Fixed(|restarts|, 4);
      contents := buffer;
    }
  }
}
