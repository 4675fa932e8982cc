/** Internal keys: a user key with the sequence number and kind of the write that produced it. */
module DbFormat {
  import opened Wrappers

  const NUM_LEVELS: nat := 7
  const MAX_MEM_COMPACT_LEVEL: nat := 2
  const MAX_SEQUENCE: nat := 0xFF_FFFF_FFFF_FFFF

  // A comparator is any total order on user keys; only its order is used.  See Bytewise.RankEmbedsOrder.
  type UserKey = real
  type Blob = seq<char>

  datatype ValueType = Deletion | Value
  datatype InternalKey = InternalKey(user: UserKey, seqno: nat, kind: ValueType)
  datatype Entry = Entry(key: InternalKey, value: Blob)

  /** Increasing user key, then decreasing sequence number, then decreasing kind. */
  predicate Before(a: InternalKey, b: InternalKey) {
    || a.user < b.user
    || (a.user == b.user && (a.seqno > b.seqno || (a.seqno == b.seqno && a.kind.Value? && b.kind.Deletion?)))
  }

  predicate AtOrBefore(a: InternalKey, b: InternalKey) {
    a == b || Before(a, b)
  }

  /** The key a read at snapshot `s` seeks to: before every entry of `user` that the snapshot may see. */
  function LookupKey(user: UserKey, s: nat): InternalKey {
    InternalKey(user, s, Value)
  }

  predicate Sorted(es: seq<Entry>) {
    forall i, j :: 0 <= i < j < |es| ==> Before(es[i].key, es[j].key)
  }

  /** No two entries of one user key carry the same sequence number. */
  ghost predicate Unique(es: set<Entry>) {
    forall a, b :: a in es && b in es && a.key.user == b.key.user && a.key.seqno == b.key.seqno ==> a == b
  }

  predicate Sees(e: Entry, u: UserKey, s: nat) {
    e.key.user == u && e.key.seqno <= s
  }

  ghost predicate IsNewest(es: set<Entry>, u: UserKey, s: nat, e: Entry) {
    && e in es
    && Sees(e, u, s)
    && forall o :: o in es && Sees(o, u, s) ==> o.key.seqno <= e.key.seqno
  }

  /** What a read of `u` at snapshot `s` returns when `es` is all there is: the specification of every read path. */
  ghost function Read(es: set<Entry>, u: UserKey, s: nat): Option<Blob> {
    if exists e :: IsNewest(es, u, s, e) && e.key.kind.Value?
    then var e :| IsNewest(es, u, s, e) && e.key.kind.Value?; Some(e.value)
    else None
  }

  lemma ReadNewest(es: set<Entry>, u: UserKey, s: nat, e: Entry)
    requires Unique(es) && IsNewest(es, u, s, e)
    ensures Read(es, u, s) == if e.key.kind.Value? then Some(e.value) else None
  {
    forall o | IsNewest(es, u, s, o)
      ensures o == e
    {
    }
  }

  lemma ReadNothing(es: set<Entry>, u: UserKey, s: nat)
    requires forall e :: e in es ==> !Sees(e, u, s)
    ensures Read(es, u, s) == None
  {
  }

  /** Some visible entry means there is a newest one. */
  lemma {:induction false} NewestExists(es: set<Entry>, u: UserKey, s: nat, e: Entry) returns (n: Entry)
    requires e in es && Sees(e, u, s)
    ensures IsNewest(es, u, s, n)
    decreases s - e.key.seqno
  {
    if o :| o in es && Sees(o, u, s) && o.key.seqno > e.key.seqno {
      n := NewestExists(es, u, s, o);
    } else {
      n := e;
    }
  }

  /** Entries that no read may see, or that are older than one it sees, do not matter. */
  lemma ReadOfLayers(newer: set<Entry>, older: set<Entry>, u: UserKey, s: nat)
    requires Unique(newer + older)
    requires forall a, b :: a in newer && b in older && a.key.user == b.key.user ==> a.key.seqno > b.key.seqno
    ensures (exists e :: e in newer && Sees(e, u, s)) ==> Read(newer + older, u, s) == Read(newer, u, s)
    ensures (forall e :: e in newer ==> !Sees(e, u, s)) ==> Read(newer + older, u, s) == Read(older, u, s)
  {
    if e :| e in newer && Sees(e, u, s) {
      var n := NewestExists(newer, u, s, e);
      assert IsNewest(newer + older, u, s, n);
      ReadNewest(newer + older, u, s, n);
      ReadNewest(newer, u, s, n);
    } else if e :| e in older && Sees(e, u, s) {
      var n := NewestExists(older, u, s, e);
      assert IsNewest(newer + older, u, s, n);
      ReadNewest(newer + older, u, s, n);
      ReadNewest(older, u, s, n);
    }
  }
}
