/** Internal keys as byte strings: the user key followed by eight bytes that pack the sequence number and the kind. */
module InternalKeys {
  import opened Bytewise
  import opened Coding
  import opened Block
  import DbFormat

  // The number of the earliest possible entry of a user key: the greatest sequence number, and the kind sought with.
  const MAX_NUMBER: nat := 0xFFFF_FFFF_FFFF_FF01

  function Pack(seqno: nat, kind: nat): nat {
    seqno * 256 + kind
  }

  function Tail(a: Bytes): nat {
    if |a| < 8 then 0 else |a| - 8
  }

  function User(a: Bytes): Bytes {
    a[..Tail(a)]
  }

  function Number(a: Bytes): nat {
    Unfixed(a[Tail(a)..])
  }

  predicate WellFormed(a: Bytes) {
    |a| >= 8 && Number(a) <= MAX_NUMBER
  }

  function MakeKey(user: Bytes, number: nat): Bytes {
    user + Fixed(number, 8)
  }

  lemma KeyParts(user: Bytes, number: nat)
    requires number <= MAX_NUMBER
    ensures var k := MakeKey(user, number); WellFormed(k) && User(k) == user && Number(k) == number
  {
    FixedWidths(number);
    var k := MakeKey(user, number);
    assert k[Tail(k)..] == Fixed(number, 8);
  }

  /** Increasing user key, then decreasing number. */
  predicate KeyLess(a: Bytes, b: Bytes) {
    Less(User(a), User(b)) || (User(a) == User(b) && Number(a) > Number(b))
  }

  lemma KeyLessTransitive(a: Bytes, b: Bytes, c: Bytes)
    requires KeyLess(a, b) && KeyLess(b, c)
    ensures KeyLess(a, c)
  {
    hide User, Number;
    if Less(User(a), User(b)) && Less(User(b), User(c)) {
      LessTransitive(User(a), User(b), User(c));
    }
  }

  lemma KeyLessIsOrder()
    ensures Transitive(KeyLess)
  {
    forall a: Bytes, b: Bytes, c: Bytes | KeyLess(a, b) && KeyLess(b, c)
      ensures KeyLess(a, c)
    {
      KeyLessTransitive(a, b, c);
    }
  }

  /** The key as the other modules have it. */
  function Decode(a: Bytes): DbFormat.InternalKey {
    DbFormat.InternalKey(Rank(User(a)), Number(a) / 256, if Number(a) % 256 == 0 then DbFormat.Deletion
        else DbFormat.Value)
  }

  /** The order of encoded keys is the order of what they encode. */
  lemma KeyLessIsBefore(a: Bytes, b: Bytes)
    requires Number(a) % 256 <= 1 && Number(b) % 256 <= 1
    ensures KeyLess(a, b) <==> DbFormat.Before(Decode(a), Decode(b))
  {
    hide User, Number, Rank;
    RankEmbedsOrder(User(a), User(b));
  }

  /** A key between the last of a block and the first of the next: the former itself, or the earliest possible entry of
      a user key strictly between the two. */
  predicate Separates(sep: Bytes, last: Bytes, next: Bytes) {
    sep == last || (Less(User(last), User(sep)) && Less(User(sep), User(next)) && Number(sep) == MAX_NUMBER)
  }

  predicate Succeeds(sep: Bytes, last: Bytes) {
    sep == last || (Less(User(last), User(sep)) && Number(sep) == MAX_NUMBER)
  }

  method FindShortestSeparator(start: Bytes, limit: Bytes) returns (r: Bytes)
    requires WellFormed(start) && KeyLess(start, limit)
    ensures WellFormed(r) && Separates(r, start, limit) && |r| <= |start|
    ensures IsShortened(r, start, limit)
  {
    var userStart, userLimit := User(start), User(limit);
    var tmp := Bytewise.FindShortestSeparator(userStart, userLimit);
    r := start;
    if |tmp| < |userStart| && Less(userStart, tmp) {
      assert Less(userStart, userLimit) by {
        SameHasNoRaise(userStart, userLimit, tmp);
      }
      KeyParts(tmp, MAX_NUMBER);
      r := MakeKey(tmp, MAX_NUMBER);
    }
  }

  /** Equal strings have nothing between them. */
  lemma SameHasNoRaise(start: Bytes, limit: Bytes, tmp: Bytes)
    requires tmp == start || exists i: nat :: CanRaise(start, limit, i) && tmp == start[..i] + [start[i] + 1]
    requires tmp != start
    ensures start != limit
  {
  }

  /** The start, unless some byte of its user key can be raised without reaching the limit and is not the last one: then
      the rest is cut off behind it, and the number that comes first is put on. */
  ghost predicate IsShortened(r: Bytes, start: Bytes, limit: Bytes) {
    var s, l := User(start), User(limit);
    if exists i: nat :: CanRaise(s, l, i) && i + 1 < |s|
    then exists i: nat :: CanRaise(s, l, i) && r == MakeKey(s[..i] + [s[i] + 1], MAX_NUMBER)
    else r == start
  }

  /** The key, unless its user key has a byte below 0xff before its last: then the first such byte is raised, the rest
      cut off, and the number that comes first put on. */
  ghost predicate IsShortSuccessor(r: Bytes, key: Bytes) {
    var u := User(key);
    if exists i: nat :: i + 1 < |u| && u[i] != 255
    then exists i: nat :: i < |u| && u[i] != 255 && (forall j :: 0 <= j < i ==> u[j] == 255) &&
                          r == MakeKey(u[..i] + [u[i] + 1], MAX_NUMBER)
    else r == key
  }

  method FindShortSuccessor(key: Bytes) returns (r: Bytes)
    requires WellFormed(key)
    ensures WellFormed(r) && Succeeds(r, key) && |r| <= |key|
    ensures IsShortSuccessor(r, key)
  {
    var userKey := User(key);
    var tmp := Bytewise.FindShortSuccessor(userKey);
    r := key;
    if |tmp| < |userKey| && Less(userKey, tmp) {
      KeyParts(tmp, MAX_NUMBER);
      r := MakeKey(tmp, MAX_NUMBER);
    }
  }
}
