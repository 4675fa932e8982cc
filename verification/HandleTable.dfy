/** The chained hash table behind a cache shard. */
module HandleTable {
  import opened Wrappers
  import opened Bytewise

  // A cache entry as the table sees it: the entry's number, its key and the key's 32-bit hash.
  datatype Handle = Handle(id: nat, key: Bytes, hash: nat)

  datatype Slot = Slot(hash: nat, key: Bytes)

  function SlotOf(h: Handle): Slot {
    Slot(h.hash, h.key)
  }

  predicate PowerOfTwo(n: nat) {
    n == 1 || (n > 0 && n % 2 == 0 && PowerOfTwo(n / 2))
  }

  /** Entries of one chain have different keys or hashes, and hash into its bucket. */
  ghost predicate ChainOk(chain: seq<Handle>, b: nat, length: nat, m: map<Slot, nat>)
    requires length > 0
  {
    && (forall i :: 0 <= i < |chain| ==>
          chain[i].hash % length == b && SlotOf(chain[i]) in m && m[SlotOf(chain[i])] == chain[i].id)
    && (forall i, j :: 0 <= i < j < |chain| ==> SlotOf(chain[i]) != SlotOf(chain[j]))
  }

  /** The buckets hold the map `m`, each entry in the bucket of its hash. */
  ghost predicate Holds(list: seq<seq<Handle>>, m: map<Slot, nat>) {
    && |list| > 0
    && (forall b :: 0 <= b < |list| ==> ChainOk(list[b], b, |list|, m))
    && (forall k :: k in m ==> Handle(m[k], k.key, k.hash) in list[k.hash % |list|])
  }

  /** Where a chain has the slot; its length when it has not. */
  function Find(chain: seq<Handle>, k: Slot): (i: nat)
    ensures i <= |chain|
    ensures i < |chain| ==> SlotOf(chain[i]) == k
    ensures forall j :: 0 <= j < i ==> SlotOf(chain[j]) != k
  {
    if chain == [] then 0 else if SlotOf(chain[0]) == k then 0 else 1 + Find(chain[1..], k)
  }

  lemma FindIsLookup(list: seq<seq<Handle>>, m: map<Slot, nat>, k: Slot)
    requires Holds(list, m)
    ensures var chain := list[k.hash % |list|]; var i := Find(chain, k);
      (i < |chain| <==> k in m) && (k in m ==> chain[i] == Handle(m[k], k.key, k.hash))
  {
    var chain := list[k.hash % |list|];
    assert ChainOk(chain, k.hash % |list|, |list|, m);
  }

  /** What Insert does to a chain. */
  function Placed(chain: seq<Handle>, h: Handle): seq<Handle> {
    var i := Find(chain, SlotOf(h));
    if i < |chain| then chain[i := h] else chain + [h]
  }

  lemma OtherChains(chain: seq<Handle>, b: nat, length: nat, m: map<Slot, nat>, k: Slot, id: nat)
    requires length > 0 && ChainOk(chain, b, length, m) && k.hash % length != b
    ensures ChainOk(chain, b, length, m[k := id]) && ChainOk(chain, b, length, m - {k})
  {
  }

  lemma PlacedHolds(list: seq<seq<Handle>>, m: map<Slot, nat>, h: Handle)
    requires Holds(list, m)
    ensures var b := h.hash % |list|;
      Holds(list[b := Placed(list[b], h)], m[SlotOf(h) := h.id])
  {
    var b := h.hash % |list|;
    var chain := list[b];
    var m' := m[SlotOf(h) := h.id];
    FindIsLookup(list, m, SlotOf(h));
    forall c | 0 <= c < |list| && c != b
      ensures ChainOk(list[c], c, |list|, m')
    {
      OtherChains(list[c], c, |list|, m, SlotOf(h), h.id);
    }
    PlacedChain(chain, b, |list|, m, h);
    forall k | k in m'
      ensures Handle(m'[k], k.key, k.hash) in list[b := Placed(chain, h)][k.hash % |list|]
    {
      if k != SlotOf(h) {
        assert Handle(m[k], k.key, k.hash) in list[k.hash % |list|];
      }
    }
  }

  lemma PlacedChain(chain: seq<Handle>, b: nat, length: nat, m: map<Slot, nat>, h: Handle)
    requires length > 0 && ChainOk(chain, b, length, m) && h.hash % length == b
    ensures ChainOk(Placed(chain, h), b, length, m[SlotOf(h) := h.id])
    ensures h in Placed(chain, h)
    ensures forall o :: o in chain && SlotOf(o) != SlotOf(h) ==> o in Placed(chain, h)
  {
    var i := Find(chain, SlotOf(h));
    if i < |chain| {
      assert Placed(chain, h)[i] == h;
    } else {
      assert Placed(chain, h)[|chain|] == h;
    }
    forall o | o in chain && SlotOf(o) != SlotOf(h)
      ensures o in Placed(chain, h)
    {
      var j :| 0 <= j < |chain| && chain[j] == o;
      assert Placed(chain, h)[j] == o;
    }
  }

  /** Taking the entry at `i` out of a chain. */
  function Dropped(chain: seq<Handle>, i: nat): seq<Handle>
    requires i < |chain|
  {
    chain[..i] + chain[i + 1..]
  }

  lemma DroppedChain(chain: seq<Handle>, b: nat, length: nat, m: map<Slot, nat>, i: nat)
    requires length > 0 && ChainOk(chain, b, length, m) && i < |chain|
    ensures ChainOk(Dropped(chain, i), b, length, m - {SlotOf(chain[i])})
    ensures forall o :: o in chain && o != chain[i] ==> o in Dropped(chain, i)
  {
    var d := Dropped(chain, i);
    assert forall j :: 0 <= j < |d| ==> d[j] == chain[if j < i then j else j + 1];
    forall o | o in chain && o != chain[i]
      ensures o in d
    {
      var j :| 0 <= j < |chain| && chain[j] == o;
      assert d[if j < i then j else j - 1] == o;
    }
  }

  lemma DroppedHolds(list: seq<seq<Handle>>, m: map<Slot, nat>, k: Slot)
    requires Holds(list, m) && k in m
    ensures var b := k.hash % |list|; var i := Find(list[b], k);
      i < |list[b]| && Holds(list[b := Dropped(list[b], i)], m - {k})
  {
    hide ChainOk, Dropped;
    var b := k.hash % |list|;
    FindIsLookup(list, m, k);
    var i := Find(list[b], k);
    DroppedChain(list[b], b, |list|, m, i);
    forall c | 0 <= c < |list| && c != b
      ensures ChainOk(list[c], c, |list|, m - {k})
    {
      OtherChains(list[c], c, |list|, m, k, 0);
    }
    forall o | o in m - {k}
      ensures Handle(m[o], o.key, o.hash) in list[b := Dropped(list[b], i)][o.hash % |list|]
    {
      assert Handle(m[o], o.key, o.hash) in list[o.hash % |list|];
    }
  }

  /** Pushing an entry on the front of its bucket, as Resize does. */
  lemma PushedHolds(list: seq<seq<Handle>>, m: map<Slot, nat>, h: Handle)
    requires Holds(list, m) && SlotOf(h) !in m
    ensures var b := h.hash % |list|;
      Holds(list[b := [h] + list[b]], m[SlotOf(h) := h.id])
  {
    var b := h.hash % |list|;
    var m' := m[SlotOf(h) := h.id];
    forall c | 0 <= c < |list| && c != b
      ensures ChainOk(list[c], c, |list|, m')
    {
      OtherChains(list[c], c, |list|, m, SlotOf(h), h.id);
    }
    assert ChainOk(list[b], b, |list|, m);
    forall k | k in m'
      ensures Handle(m'[k], k.key, k.hash) in list[b := [h] + list[b]][k.hash % |list|]
    {
      if k == SlotOf(h) {
        assert ([h] + list[b])[0] == h;
      } else {
        assert Handle(m[k], k.key, k.hash) in list[k.hash % |list|];
      }
    }
  }

  class HandleTable {
    var length: nat
    var elems: nat
    var list: seq<seq<Handle>>
    ghost var m: map<Slot, nat>

    ghost predicate Ok()
      reads this
    {
      && length == |list| && PowerOfTwo(length)
      && Holds(list, m)
      && elems == |m| <= length
    }

    constructor ()
      ensures Ok() && m == map[]
    {
      length, elems, list, m := 4, 0, seq(4, _ => []), map[];
    }

    /** The bucket of a slot and the place in its chain: of the entry, or where the chain ends. */
    method FindPointer(key: Bytes, hash: nat) returns (b: nat, i: nat)
      requires Ok()
      ensures b == hash % length && b < |list| && i == Find(list[b], Slot(hash, key))
    {
      b := hash % length;
      i := 0;
      while i < |list[b]| && (list[b][i].hash != hash || list[b][i].key != key)
        invariant 0 <= i <= |list[b]|
        invariant forall j :: 0 <= j < i ==> SlotOf(list[b][j]) != Slot(hash, key)
      {
        i := i + 1;
      }
    }

    method Lookup(key: Bytes, hash: nat) returns (r: Option<nat>)
      requires Ok()
      ensures r == if Slot(hash, key) in m then Some(m[Slot(hash, key)]) else None
    {
      FindIsLookup(list, m, Slot(hash, key));
      var b, i := FindPointer(key, hash);
      r := if i < |list[b]| then Some(list[b][i].id) else None;
    }

    /** Adds an entry, in place of one with the same key if there is one, which it hands back. */
    method Insert(h: Handle) returns (old_: Option<nat>)
      requires Ok()
      modifies this
      ensures Ok() && m == old(m)[SlotOf(h) := h.id]
      ensures old_ == if SlotOf(h) in old(m) then Some(old(m)[SlotOf(h)]) else None
    {
      hide Holds, PowerOfTwo, Find, Placed;
      HoldsBuckets(list, m);
      FindIsLookup(list, m, SlotOf(h));
      PlacedHolds(list, m, h);
      MapSizes(m, SlotOf(h), h.id);
      PlacedIs(list[h.hash % |list|], h);
      var b, i := FindPointer(h.key, h.hash);
      if i < |list[b]| {
        old_ := Some(list[b][i].id);
        list := list[b := list[b][i := h]];
        m := m[SlotOf(h) := h.id];
      } else {
        old_ := None;
        list := list[b := list[b] + [h]];
        m := m[SlotOf(h) := h.id];
        elems := elems + 1;
        if elems > length {
          Resize();
        }
      }
    }

    method Remove(key: Bytes, hash: nat) returns (r: Option<nat>)
      requires Ok()
      modifies this
      ensures Ok() && m == old(m) - {Slot(hash, key)}
      ensures r == if Slot(hash, key) in old(m) then Some(old(m)[Slot(hash, key)]) else None
    {
      hide Holds, PowerOfTwo, Find;
      HoldsBuckets(list, m);
      ghost var k := Slot(hash, key);
      FindIsLookup(list, m, k);
      var b, i := FindPointer(key, hash);
      if i < |list[b]| {
        r := Some(list[b][i].id);
        DroppedHolds(list, m, k);
        list := list[b := list[b][..i] + list[b][i + 1..]];
        MapSizes(m, k, 0);
        m := m - {k};
        elems := elems - 1;
      } else {
        r := None;
        assert m - {k} == m;
      }
    }

    /** Rehashes every entry into as many buckets as there are entries, rounded up to a power of two. */
    method Resize()
      requires length == |list| && Holds(list, m) && elems == |m|
      modifies this`length, this`list
      ensures Ok() && (length == 4 || length < 2 * elems)
    {
      hide PowerOfTwo, Holds, Moving, SlotOf;
      ghost var l0 := list;
      HoldsBuckets(list, m);
      Doubles(1);
      Doubles(2);
      var newLength := 4;
      while newLength < elems
        invariant list == l0 && length == |list|
        invariant newLength >= 4 && PowerOfTwo(newLength) && (newLength == 4 || newLength < 2 * elems)
        decreases elems - newLength
      {
        Doubles(newLength);
        newLength := newLength * 2;
      }
      var newList: seq<seq<Handle>> := seq(newLength, _ => []);
      ghost var moved: map<Slot, nat> := map[];
      NoneMoved(list, m, newList);
      var count := 0;
      var i := 0;
      while i < length
        invariant list == l0 && length == |list| && 0 <= i <= |list|
        invariant Moving(list, m, newList, newLength, moved, count, i, 0)
      {
        var j := 0;
        while j < |list[i]|
          invariant list == l0 && length == |list| && 0 <= j <= |list[i]|
          invariant Moving(list, m, newList, newLength, moved, count, i, j)
        {
          var h := list[i][j];
          MovesOne(list, m, newList, newLength, moved, count, i, j);
          var b := h.hash % newLength;
          newList := newList[b := [h] + newList[b]];
          moved := moved[SlotOf(h) := h.id];
          count := count + 1;
          j := j + 1;
        }
        NextChain(list, m, newList, newLength, moved, count, i);
        i := i + 1;
      }
      AllMoved(list, m, newList, newLength, moved, count);
      // The count of entries moved is the count kept.
      assert elems == count;
      list := newList;
      length := newLength;
    }
  }

  lemma Doubles(n: nat)
    requires n == 1 || PowerOfTwo(n)
    ensures PowerOfTwo(2 * n)
  {
  }

  lemma HoldsBuckets(list: seq<seq<Handle>>, m: map<Slot, nat>)
    requires Holds(list, m)
    ensures |list| > 0
  {
  }

  lemma PlacedIs(chain: seq<Handle>, h: Handle)
    ensures var i := Find(chain, SlotOf(h));
      Placed(chain, h) == if i < |chain| then chain[i := h] else chain + [h]
  {
  }

  lemma MapSizes(m: map<Slot, nat>, k: Slot, v: nat)
    ensures |m[k := v]| == if k in m then |m| else |m| + 1
    ensures |m - {k}| == if k in m then |m| - 1 else |m|
  {
    assert m[k := v].Keys == m.Keys + {k};
    assert (m - {k}).Keys == m.Keys - {k};
  }

  /** Moved are just the entries of the first `i` buckets and the first `j` of the next. */
  ghost predicate IsMoved(list: seq<seq<Handle>>, m: map<Slot, nat>, moved: map<Slot, nat>, i: nat, j: nat) {
    && (forall k :: k in moved ==> k in m && moved[k] == m[k])
    && (forall b, c :: 0 <= b < |list| && 0 <= c < |list[b]| ==>
          (SlotOf(list[b][c]) in moved <==> b < i || (b == i && c < j)))
  }

  ghost predicate Moving(list: seq<seq<Handle>>, m: map<Slot, nat>, newList: seq<seq<Handle>>, newLength: nat,
                         moved: map<Slot, nat>, count: nat, i: nat, j: nat) {
    |newList| == newLength > 0 && Holds(newList, moved) && count == |moved| && IsMoved(list, m, moved, i, j)
  }

  lemma NoneMoved(list: seq<seq<Handle>>, m: map<Slot, nat>, newList: seq<seq<Handle>>)
    requires |newList| > 0 && forall b :: 0 <= b < |newList| ==> newList[b] == []
    ensures Moving(list, m, newList, |newList|, map[], 0, 0, 0)
  {
  }

  lemma MovesOneEntry(list: seq<seq<Handle>>, m: map<Slot, nat>, moved: map<Slot, nat>, i: nat, j: nat)
    requires Holds(list, m) && IsMoved(list, m, moved, i, j) && i < |list| && j < |list[i]|
    ensures SlotOf(list[i][j]) !in moved
    ensures IsMoved(list, m, moved[SlotOf(list[i][j]) := list[i][j].id], i, j + 1)
  {
    var h := list[i][j];
    assert ChainOk(list[i], i, |list|, m);
    forall b, c | 0 <= b < |list| && 0 <= c < |list[b]| && SlotOf(list[b][c]) == SlotOf(h)
      ensures b == i && c == j
    {
      assert ChainOk(list[b], b, |list|, m);
    }
  }

  lemma MovesOne(list: seq<seq<Handle>>, m: map<Slot, nat>, newList: seq<seq<Handle>>, newLength: nat,
                 moved: map<Slot, nat>, count: nat, i: nat, j: nat)
    requires Holds(list, m) && Moving(list, m, newList, newLength, moved, count, i, j) && i < |list| && j < |list[i]|
    ensures |newList| == newLength > 0
    ensures var h := list[i][j]; var b := h.hash % newLength;
      Moving(list, m, newList[b := [h] + newList[b]], newLength, moved[SlotOf(h) := h.id], count + 1, i, j + 1)
  {
    hide Holds, IsMoved;
    var h := list[i][j];
    MovesOneEntry(list, m, moved, i, j);
    PushedHolds(newList, moved, h);
    MapSizes(moved, SlotOf(h), h.id);
  }

  lemma NextChain(list: seq<seq<Handle>>, m: map<Slot, nat>, newList: seq<seq<Handle>>, newLength: nat,
                  moved: map<Slot, nat>, count: nat, i: nat)
    requires i < |list| && Moving(list, m, newList, newLength, moved, count, i, |list[i]|)
    ensures Moving(list, m, newList, newLength, moved, count, i + 1, 0)
  {
    hide Holds;
  }

  lemma HoldsFinds(list: seq<seq<Handle>>, m: map<Slot, nat>, k: Slot) returns (b: nat, c: nat)
    requires Holds(list, m) && k in m
    ensures b < |list| && c < |list[b]| && SlotOf(list[b][c]) == k
  {
    hide ChainOk;
    b := k.hash % |list|;
    c :| 0 <= c < |list[b]| && list[b][c] == Handle(m[k], k.key, k.hash);
  }

  lemma AllMoved(list: seq<seq<Handle>>, m: map<Slot, nat>, newList: seq<seq<Handle>>, newLength: nat,
                 moved: map<Slot, nat>, count: nat)
    requires Holds(list, m) && Moving(list, m, newList, newLength, moved, count, |list|, 0)
    ensures |newList| == newLength && Holds(newList, m) && count == |m|
  {
    hide Holds;
    forall k | k in m
      ensures k in moved
    {
      var b, c := HoldsFinds(list, m, k);
    }
    assert moved == m;
  }
}
