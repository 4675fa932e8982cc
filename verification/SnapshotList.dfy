/** The circular doubly linked list of live snapshots. */
module SnapshotList {
  class Snapshot {
    var prev: Snapshot?
    var next: Snapshot?
    const sequenceNumber: nat

    constructor (sequenceNumber: nat)
      ensures this.sequenceNumber == sequenceNumber
    {
      this.sequenceNumber := sequenceNumber;
      prev, next := null, null;
    }
  }

  function After(i: nat, n: nat): nat
    requires i < n
  {
    if i + 1 == n then 0 else i + 1
  }

  /** Each node of the ring points to the one after it, and back. */
  ghost predicate Linked(ring: seq<Snapshot>)
    reads ring
  {
    && (forall i: nat :: i < |ring| ==> ring[i].next == ring[After(i, |ring|)])
    && (forall i: nat :: i < |ring| ==> ring[After(i, |ring|)].prev == ring[i])
  }

  ghost predicate Distinct(ring: seq<Snapshot>) {
    forall i, j :: 0 <= i < j < |ring| ==> ring[i] != ring[j]
  }

  /** Oldest first. */
  predicate Rising(list: seq<Snapshot>) {
    forall i, j :: 0 <= i < j < |list| ==> list[i].sequenceNumber <= list[j].sequenceNumber
  }

  class SnapshotList {
    const head: Snapshot
    ghost var list: seq<Snapshot>

    ghost predicate Valid()
      reads this, head, list
    {
      Linked([head] + list) && Distinct([head] + list) && Rising(list)
    }

    constructor ()
      ensures Valid() && list == [] && fresh(head)
    {
      head := new Snapshot(0);
      list := [];
      new;
      head.prev, head.next := head, head;
    }

    method Empty() returns (b: bool)
      requires Valid()
      ensures b == (list == [])
    {
      b := head.next == head;
      assert ([head] + list)[0].next == ([head] + list)[After(0, |list| + 1)];
      assert list != [] ==> ([head] + list)[0] != ([head] + list)[1];
    }

    /** No live snapshot has a lower sequence number. */
    method Oldest() returns (s: Snapshot)
      requires Valid() && list != []
      ensures s in list && forall o :: o in list ==> s.sequenceNumber <= o.sequenceNumber
    {
      assert ([head] + list)[0].next == ([head] + list)[After(0, |list| + 1)] == list[0];
      s := head.next;
    }

    method Newest() returns (s: Snapshot)
      requires Valid() && list != []
      ensures s in list && forall o :: o in list ==> s.sequenceNumber >= o.sequenceNumber
    {
      var n := |list|;
      assert ([head] + list)[After(n, n + 1)].prev == ([head] + list)[n] == list[n - 1];
      s := head.prev;
    }

    method New(sequenceNumber: nat) returns (s: Snapshot)
      requires Valid()
      requires forall o :: o in list ==> o.sequenceNumber <= sequenceNumber
      modifies this, head, list
      ensures Valid() && fresh(s) && s.sequenceNumber == sequenceNumber && list == old(list) + [s]
    {
      ghost var ring, n := [head] + list, |list|;
      assert ring[After(n, n + 1)].prev == ring[n];
      s := new Snapshot(sequenceNumber);
      s.next := head;
      s.prev := head.prev;
      s.prev.next := s;
      s.next.prev := s;
      list := list + [s];
      ghost var all := [head] + list;
      assert all == ring + [s];
      forall i: nat | i < |all|
        ensures all[i].next == all[After(i, |all|)] && all[After(i, |all|)].prev == all[i]
      {
        if i < n {
          assert old(ring[i].next == ring[After(i, n + 1)] && ring[After(i, n + 1)].prev == ring[i]);
        }
      }
    }

    /** Only the snapshot released goes; the order of the others stays. */
    method Delete(s: Snapshot)
      requires Valid() && s in list
      modifies this, head, list
      ensures Valid()
      ensures exists k: nat ::
                k < |old(list)| && old(list)[k] == s && list == old(list)[..k] + old(list)[k + 1..]
    {
      hide Linked;
      ghost var k: nat :| k < |list| && list[k] == s;
      ghost var ring, was := [head] + list, list;
      Unlink(s, ring, k + 1);
      list := list[..k] + list[k + 1..];
      assert [head] + list == ring[..k + 1] + ring[k + 2..];
      assert was[k] == s;
    }
  }

  /** A node is taken out of a ring. */
  method Unlink(s: Snapshot, ghost ring: seq<Snapshot>, ghost k: nat)
    requires Linked(ring) && Distinct(ring) && 0 < k < |ring| && ring[k] == s
    modifies ring
    ensures Linked(ring[..k] + ring[k + 1..])
  {
    ghost var n := |ring|;
    assert s.next == ring[After(k, n)] && ring[After(k - 1, n)].prev == ring[k - 1];
    s.prev.next := s.next;
    s.next.prev := s.prev;
    ghost var all := ring[..k] + ring[k + 1..];
    forall i: nat | i < |all|
      ensures all[i].next == all[After(i, |all|)] && all[After(i, |all|)].prev == all[i]
    {
      ghost var j := if i < k then i else i + 1;
      assert all[i] == ring[j];
      assert old(ring[j].next == ring[After(j, n)] && ring[After(j, n)].prev == ring[j]);
    }
  }
}
