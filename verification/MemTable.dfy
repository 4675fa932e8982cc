/** The memtable: encoded entries in a sorted table, read at a snapshot by one seek. */
module MemTable {
  import opened Wrappers
  import opened Bytewise
  import opened Coding
  import opened InternalKeys
  import DbFormat

  datatype Entry = Entry(user: Bytes, seqno: nat, kind: nat, value: Bytes)

  predicate EntryOk(e: Entry) {
    e.seqno <= DbFormat.MAX_SEQUENCE && e.kind <= 1 && |e.user| + 8 < BITS_32 && |e.value| < BITS_32
  }

  function KeyBytes(e: Entry): Bytes {
    MakeKey(e.user, Pack(e.seqno, e.kind))
  }

  /** The length of the internal key, the internal key, the length of the value, the value. */
  function EntryBytes(e: Entry): Bytes {
    LengthPrefixed(KeyBytes(e)) + LengthPrefixed(e.value)
  }

  /** The key at the front of an entry or of a key to look up. */
  function KeyAt(buf: Bytes): Bytes {
    match GetLengthPrefixed(buf)
    case None => []
    case Some((key, rest)) => key
  }

  function ValueAt(buf: Bytes): Bytes {
    match GetLengthPrefixed(buf)
    case None => []
    case Some((key, rest)) => KeyAt(rest)
  }

  lemma NumbersFit(e: Entry)
    requires EntryOk(e)
    ensures Pack(e.seqno, e.kind) <= MAX_NUMBER && Pack(e.seqno, e.kind) % 256 == e.kind &&
            Pack(e.seqno, e.kind) / 256 == e.seqno
  {
  }

  /** An entry is read back from its bytes. */
  lemma EntryRoundTrip(e: Entry)
    requires EntryOk(e)
    ensures KeyAt(EntryBytes(e)) == KeyBytes(e) && ValueAt(EntryBytes(e)) == e.value
    ensures User(KeyBytes(e)) == e.user && Number(KeyBytes(e)) == Pack(e.seqno, e.kind)
  {
    hide User, Number, GetLengthPrefixed, LengthPrefixed;
    NumbersFit(e);
    KeyParts(e.user, Pack(e.seqno, e.kind));
    LengthPrefixedRoundTrip(KeyBytes(e), LengthPrefixed(e.value));
    assert LengthPrefixed(e.value) + [] == LengthPrefixed(e.value);
    LengthPrefixedRoundTrip(e.value, []);
  }

  predicate Sees(e: Entry, user: Bytes, s: nat) {
    e.user == user && e.seqno <= s
  }

  /** The newest entry for `user` that snapshot `s` sees. */
  ghost predicate IsNewest(es: set<Entry>, user: Bytes, s: nat, e: Entry) {
    e in es && Sees(e, user, s) && forall o :: o in es && Sees(o, user, s) ==> o.seqno <= e.seqno
  }

  ghost function Elements(entries: seq<Entry>): set<Entry> {
    set e | e in entries
  }

  datatype Lookup = Found(value: Bytes) | Deleted | Missing

  class Table {
    var buffers: seq<Bytes>
    ghost var entries: seq<Entry>

    ghost predicate Valid()
      reads this
    {
      Holds(buffers, entries)
    }

    ghost function Contents(): set<Entry>
      reads this
    {
      Elements(entries)
    }

    constructor ()
      ensures Valid() && Contents() == {}
    {
      buffers, entries := [], [];
    }

    /** Where the first entry at or after a key is. */
    method Seek(memkey: Bytes) returns (at: nat)
      requires Valid()
      ensures at <= |buffers|
      ensures forall i :: 0 <= i < at ==> KeyLess(KeyAt(buffers[i]), KeyAt(memkey))
      ensures at < |buffers| ==> !KeyLess(KeyAt(buffers[at]), KeyAt(memkey))
    {
      at := 0;
      while at < |buffers| && KeyLess(KeyAt(buffers[at]), KeyAt(memkey))
        invariant at <= |buffers|
        invariant forall i :: 0 <= i < at ==> KeyLess(KeyAt(buffers[i]), KeyAt(memkey))
      {
        at := at + 1;
      }
    }

    method Add(s: nat, kind: nat, key: Bytes, value: Bytes)
      requires Valid() && EntryOk(Entry(key, s, kind, value))
      requires forall e :: e in Contents() ==> e.user != key || e.seqno != s
      modifies this
      ensures Valid() && Contents() == old(Contents()) + {Entry(key, s, kind, value)}
    {
      hide KeyLess, KeyAt, EntryBytes, Holds, EntryOk;
      ghost var e := Entry(key, s, kind, value);
      var buf := BuildEntry(s, kind, key, value);
      var at := Seek(buf);
      ghost var before := entries;
      InsertsHold(buffers, entries, at, e);
      buffers := buffers[..at] + [buf] + buffers[at..];
      entries := entries[..at] + [e] + entries[at..];
      InsertedIn(before, at, e);
    }

    /** The newest entry that the snapshot sees decides: its value, or that the key is deleted. */
    method Get(user: Bytes, s: nat) returns (r: Lookup)
      requires Valid() && s <= DbFormat.MAX_SEQUENCE && |user| + 8 < BITS_32
      ensures (forall e :: e in Contents() ==> !Sees(e, user, s)) ==> r == Missing
      ensures forall e :: IsNewest(Contents(), user, s, e) ==> r == if e.kind == 1 then Found(e.value) else Deleted
    {
      hide KeyLess, KeyAt, ValueAt, Holds, EntryBytes, KeyBytes, User, Number, EntryOk;
      var memkey := BuildLookupKey(s, user);
      LookupParts(user, s);
      var at := Seek(memkey);
      SeekFinds(buffers, entries, at, user, s);
      if at < |buffers| {
        var entry := buffers[at];
        PartsOf(buffers, entries, at);
        var internalKey := KeyAt(entry);
        if User(internalKey) == user {
          var tag := Number(internalKey);
          if tag % 256 == 1 {
            return Found(ValueAt(entry));
          }
          return Deleted;
        }
      }
      return Missing;
    }
  }

  /** The buffers encode the entries, in the order of internal keys. */
  ghost predicate Holds(buffers: seq<Bytes>, entries: seq<Entry>) {
    && |buffers| == |entries|
    && (forall i :: 0 <= i < |entries| ==> EntryOk(entries[i]) && buffers[i] == EntryBytes(entries[i]))
    && (forall i, j :: 0 <= i < j < |entries| ==> Earlier(entries[i], entries[j]))
  }

  /** Increasing user key, then decreasing sequence number. */
  predicate Earlier(a: Entry, b: Entry) {
    Less(a.user, b.user) || (a.user == b.user && a.seqno > b.seqno)
  }

  /** Increasing user key, then decreasing sequence number and kind. */
  predicate EntryBefore(a: Entry, b: Entry) {
    Less(a.user, b.user) || (a.user == b.user && Pack(a.seqno, a.kind) > Pack(b.seqno, b.kind))
  }

  lemma KeysCompare(a: Entry, b: Entry)
    requires EntryOk(a) && EntryOk(b)
    ensures KeyLess(KeyAt(EntryBytes(a)), KeyAt(EntryBytes(b))) <==> EntryBefore(a, b)
  {
    hide KeyAt, ValueAt, EntryBytes, User, Number, Pack, EntryOk, KeyBytes;
    EntryRoundTrip(a);
    EntryRoundTrip(b);
  }

  lemma EarlierTransitive(a: Entry, b: Entry, c: Entry)
    requires Earlier(a, b) && Earlier(b, c)
    ensures Earlier(a, c)
  {
    if Less(a.user, b.user) && Less(b.user, c.user) {
      LessTransitive(a.user, b.user, c.user);
    }
  }

  lemma BeforeIsEarlier(a: Entry, b: Entry)
    requires a.user != b.user || a.seqno != b.seqno
    requires EntryOk(a) && EntryOk(b)
    ensures EntryBefore(a, b) <==> Earlier(a, b)
    ensures Earlier(a, b) || Earlier(b, a)
  {
    LessTrichotomy(a.user, b.user);
  }

  lemma InsertsHold(buffers: seq<Bytes>, entries: seq<Entry>, at: nat, e: Entry)
    requires Holds(buffers, entries) && at <= |buffers| && EntryOk(e)
    requires forall o :: o in entries ==> o.user != e.user || o.seqno != e.seqno
    requires forall i :: 0 <= i < at ==> KeyLess(KeyAt(buffers[i]), KeyAt(EntryBytes(e)))
    requires at < |buffers| ==> !KeyLess(KeyAt(buffers[at]), KeyAt(EntryBytes(e)))
    ensures |entries| == |buffers|
    ensures Holds(buffers[..at] + [EntryBytes(e)] + buffers[at..], entries[..at] + [e] + entries[at..])
  {
    hide KeyLess, KeyAt, EntryBytes, EntryOk, EntryBefore, Earlier;
    forall i | 0 <= i < at
      ensures Earlier(entries[i], e)
    {
      assert entries[i] in entries;
      KeysCompare(entries[i], e);
      BeforeIsEarlier(entries[i], e);
    }
    forall i | at <= i < |entries|
      ensures Earlier(e, entries[i])
    {
      assert entries[at] in entries;
      KeysCompare(entries[at], e);
      BeforeIsEarlier(entries[at], e);
      if i > at {
        EarlierTransitive(e, entries[at], entries[i]);
      }
    }
  }

  lemma InsertedIn(entries: seq<Entry>, at: nat, e: Entry)
    requires at <= |entries|
    ensures Elements(entries[..at] + [e] + entries[at..]) == Elements(entries) + {e}
  {
    var all := entries[..at] + [e] + entries[at..];
    forall o | o in entries
      ensures o in all
    {
      var i :| 0 <= i < |entries| && entries[i] == o;
      assert all[if i < at then i else i + 1] == o;
    }
    assert all[at] == e;
  }

  lemma LookupParts(user: Bytes, s: nat)
    requires s <= DbFormat.MAX_SEQUENCE && |user| + 8 < BITS_32
    ensures var k := KeyAt(LengthPrefixed(MakeKey(user, Pack(s, 1))));
            User(k) == user && Number(k) == Pack(s, 1)
  {
    hide User, Number, GetLengthPrefixed, LengthPrefixed;
    var key := MakeKey(user, Pack(s, 1));
    KeyParts(user, Pack(s, 1));
    assert LengthPrefixed(key) + [] == LengthPrefixed(key);
    LengthPrefixedRoundTrip(key, []);
  }

  lemma PartsOf(buffers: seq<Bytes>, entries: seq<Entry>, at: nat)
    requires Holds(buffers, entries) && at < |buffers|
    ensures |entries| == |buffers| && ValueAt(buffers[at]) == entries[at].value
    ensures User(KeyAt(buffers[at])) == entries[at].user
    ensures Number(KeyAt(buffers[at])) % 256 == entries[at].kind <= 1
  {
    hide KeyAt, ValueAt, EntryBytes, User, Number, KeyBytes;
    EntryRoundTrip(entries[at]);
    NumbersFit(entries[at]);
  }

  /** Entries the snapshot does not see come before the key sought, so that the first one at or after it, if it is of
      that user key, is the newest that the snapshot sees. */
  lemma SeekFinds(buffers: seq<Bytes>, entries: seq<Entry>, at: nat, user: Bytes, s: nat)
    requires Holds(buffers, entries) && at <= |buffers| && s <= DbFormat.MAX_SEQUENCE && |user| + 8 < BITS_32
    requires var k := KeyAt(LengthPrefixed(MakeKey(user, Pack(s, 1))));
             && (forall i :: 0 <= i < at ==> KeyLess(KeyAt(buffers[i]), k))
             && (at < |buffers| ==> !KeyLess(KeyAt(buffers[at]), k))
    ensures |entries| == |buffers|
    ensures at < |buffers| && entries[at].user == user ==> IsNewest(Elements(entries), user, s, entries[at])
    ensures at < |buffers| && entries[at].user == user ==>
              forall e :: IsNewest(Elements(entries), user, s, e) ==> e == entries[at]
    ensures at == |buffers| || entries[at].user != user ==> forall e :: e in entries ==> !Sees(e, user, s)
  {
    hide KeyAt, EntryBytes, User, Number, KeyLess, Holds, LengthPrefixed, EntryBefore, IsNewest, MakeKey, Pack, Sees,
         Elements;
    SameSize(buffers, entries);
    forall i | 0 <= i < |buffers|
      ensures KeyLess(KeyAt(buffers[i]), KeyAt(LengthPrefixed(MakeKey(user, Pack(s, 1))))) <==>
                EntryBefore(entries[i], Entry(user, s, 1, []))
    {
      SoughtCompares(buffers, entries, i, user, s);
    }
    FirstIsNewest(buffers, entries, at, user, s);
  }

  lemma SameSize(buffers: seq<Bytes>, entries: seq<Entry>)
    requires Holds(buffers, entries)
    ensures |entries| == |buffers|
  {
  }

  lemma SoughtCompares(buffers: seq<Bytes>, entries: seq<Entry>, i: nat, user: Bytes, s: nat)
    requires Holds(buffers, entries) && i < |buffers| && s <= DbFormat.MAX_SEQUENCE && |user| + 8 < BITS_32
    ensures |entries| == |buffers| && EntryOk(entries[i])
    ensures KeyLess(KeyAt(buffers[i]), KeyAt(LengthPrefixed(MakeKey(user, Pack(s, 1))))) <==>
            EntryBefore(entries[i], Entry(user, s, 1, []))
  {
    hide KeyAt, ValueAt, EntryBytes, User, Number, LengthPrefixed, KeyBytes;
    EntryRoundTrip(entries[i]);
    LookupParts(user, s);
  }

  lemma FirstIsNewest(buffers: seq<Bytes>, entries: seq<Entry>, at: nat, user: Bytes, s: nat)
    requires Holds(buffers, entries) && at <= |buffers|
    requires |entries| == |buffers|
    requires forall i :: 0 <= i < at ==> EntryBefore(entries[i], Entry(user, s, 1, []))
    requires at < |buffers| ==> !EntryBefore(entries[at], Entry(user, s, 1, []))
    ensures at < |buffers| && entries[at].user == user ==> IsNewest(Elements(entries), user, s, entries[at])
    ensures at < |buffers| && entries[at].user == user ==>
              forall e :: IsNewest(Elements(entries), user, s, e) ==> e == entries[at]
    ensures at == |buffers| || entries[at].user != user ==> forall e :: e in entries ==> !Sees(e, user, s)
  {
    hide EntryBytes, Less;
    LessIrreflexive(user);
    forall i | 0 <= i < at
      ensures !Sees(entries[i], user, s)
    {
      assert EntryOk(entries[i]);
    }
    forall i | at < i < |entries| && entries[i].user == user
      ensures entries[at].user == user ==> entries[i].seqno < entries[at].seqno
      ensures entries[at].user == user
    {
      assert Earlier(entries[at], entries[i]);
      LessTrichotomy(entries[at].user, user);
    }
    if at < |entries| {
      assert entries[at] in Elements(entries) && EntryOk(entries[at]);
    }
  }

  method BuildEntry(s: nat, kind: nat, key: Bytes, value: Bytes) returns (buf: Bytes)
    requires EntryOk(Entry(key, s, kind, value))
    ensures buf == EntryBytes(Entry(key, s, kind, value))
  {
    hide Varint, Fixed;
    var keySize := EncodeVarint32(|key| + 8);
    buf := keySize + key;
    buf := buf + Fixed(s * 256 + kind, 8);
    var valueSize := EncodeVarint32(|value|);
    buf := buf + valueSize + value;
  }

  /** The key that a read at snapshot `s` seeks to. */
  method BuildLookupKey(s: nat, user: Bytes) returns (buf: Bytes)
    requires |user| + 8 < BITS_32
    ensures buf == LengthPrefixed(MakeKey(user, Pack(s, 1)))
  {
    hide Varint, Fixed;
    var keySize := EncodeVarint32(|user| + 8);
    buf := keySize + user + Fixed(s * 256 + 1, 8);
    assert buf == keySize + (user + Fixed(s * 256 + 1, 8));
  }
}
