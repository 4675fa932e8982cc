/** The default user comparator: byte strings in lexicographic order, and the two key-shortening edits of table index
    blocks. */
module Bytewise {
  type byte = b: int | 0 <= b < 256
  type Bytes = seq<byte>

  function Zeros(n: nat): (z: Bytes)
    ensures |z| == n
  {
    seq(n, _ => 0)
  }

  /** memcmp on the common part, then the shorter string first. */
  predicate Less(a: Bytes, b: Bytes) {
    b != [] && (a == [] || a[0] < b[0] || (a[0] == b[0] && Less(a[1..], b[1..])))
  }

  predicate AtMost(a: Bytes, b: Bytes) {
    a == b || Less(a, b)
  }

  lemma {:induction false} LessIrreflexive(a: Bytes)
    ensures !Less(a, a)
  {
    if a != [] {
      LessIrreflexive(a[1..]);
    }
  }

  lemma {:induction false} LessTransitive(a: Bytes, b: Bytes, c: Bytes)
    requires Less(a, b) && Less(b, c)
    ensures Less(a, c)
  {
    if a != [] && a[0] == b[0] == c[0] {
      LessTransitive(a[1..], b[1..], c[1..]);
    }
  }

  /** Exactly one of a < b, a == b, b < a holds. */
  lemma {:induction false} LessTrichotomy(a: Bytes, b: Bytes)
    ensures Less(a, b) || a == b || Less(b, a)
    ensures !(Less(a, b) && Less(b, a))
    ensures a == b ==> !Less(a, b)
  {
    if a != [] && b != [] && a[0] == b[0] {
      LessTrichotomy(a[1..], b[1..]);
      assert a == [a[0]] + a[1..] && b == [b[0]] + b[1..];
    }
  }

  /** A number between 0 and 1 that stands for the byte string: its digits in base 257. */
  function Rank(a: Bytes): (r: real)
    ensures 0.0 <= r < 1.0
    ensures a != [] ==> 0.0 < r
  {
    if a == [] then 0.0 else ((a[0] as int + 1) as real + Rank(a[1..])) / 257.0
  }

  /** Byte strings sit in the reals with their order unchanged.  The other modules use real numbers for user keys: they
      only ever compare them. */
  lemma {:induction false} RankEmbedsOrder(a: Bytes, b: Bytes)
    ensures Less(a, b) <==> Rank(a) < Rank(b)
    ensures a == b <==> Rank(a) == Rank(b)
  {
    if a != [] && b != [] {
      RankEmbedsOrder(a[1..], b[1..]);
      assert a == [a[0]] + a[1..] && b == [b[0]] + b[1..];
      if a[0] < b[0] {
        RankHeadDecides(a, b);
      } else if b[0] < a[0] {
        RankHeadDecides(b, a);
      }
    }
  }

  lemma RankHeadDecides(a: Bytes, b: Bytes)
    requires a != [] && b != [] && a[0] < b[0]
    ensures Rank(a) < Rank(b)
  {
    assert (a[0] as int + 1) as real + Rank(a[1..]) < (b[0] as int + 1) as real + Rank(b[1..]);
  }

  /** A string that first differs from `b` at `i`, where it is smaller, is smaller. */
  lemma {:induction false} FirstDifferenceDecides(a: Bytes, b: Bytes, i: nat)
    requires i < |b| && i <= |a| && a[..i] == b[..i]
    requires i == |a| || a[i] < b[i]
    ensures Less(a, b)
  {
    if i > 0 {
      assert a[0] == a[..i][0] == b[..i][0] == b[0];
      assert a[1..][..i - 1] == a[..i][1..] == b[..i][1..] == b[1..][..i - 1];
      FirstDifferenceDecides(a[1..], b[1..], i - 1);
    }
  }

  /** The strings first differ at `i`, and the byte of `start` there can grow by one and stay below that of `limit`. */
  predicate CanRaise(start: Bytes, limit: Bytes, i: nat) {
    && i < |start| && i < |limit|
    && (forall j :: 0 <= j < i ==> start[j] == limit[j])
    && start[i] as int + 1 < limit[i]
  }

  /** Shortens `start` to a string in [start, limit) when some byte can be raised without reaching `limit`. */
  method FindShortestSeparator(start: Bytes, limit: Bytes) returns (r: Bytes)
    ensures AtMost(start, r) && |r| <= |start|
    ensures Less(start, limit) ==> Less(r, limit)
    ensures r == start || exists i: nat :: CanRaise(start, limit, i) && r == start[..i] + [start[i] + 1]
    ensures (exists i: nat :: CanRaise(start, limit, i)) ==> r != start
  {
    var minLength := if |start| < |limit| then |start| else |limit|;
    var diff: nat := 0;
    while diff < minLength && start[diff] == limit[diff]
      invariant 0 <= diff <= minLength
      invariant forall j :: 0 <= j < diff ==> start[j] == limit[j]
    {
      diff := diff + 1;
    }
    r := start;
    if diff < minLength && start[diff] < 255 && start[diff] + 1 < limit[diff] {
      r := start[..diff] + [start[diff] + 1];
      assert CanRaise(start, limit, diff) && r[diff] != start[diff];
      assert start[..diff] == r[..diff] == limit[..diff];
      FirstDifferenceDecides(start, r, diff);
      FirstDifferenceDecides(r, limit, diff);
    }
  }

  /** Replaces `key` by a string at or after it: its first byte below 0xff raised by one, the rest cut off. */
  method FindShortSuccessor(key: Bytes) returns (r: Bytes)
    ensures AtMost(key, r) && |r| <= |key|
    ensures r == key <==> forall i :: 0 <= i < |key| ==> key[i] == 255
    ensures r != key ==> exists i :: 0 <= i < |key| && key[i] != 255 && (forall j :: 0 <= j < i ==> key[j] == 255) &&
                                     r == key[..i] + [key[i] + 1]
  {
    r := key;
    var i := 0;
    while i < |key|
      invariant 0 <= i <= |key|
      invariant forall j :: 0 <= j < i ==> key[j] == 255
    {
      if key[i] != 255 {
        r := key[..i] + [key[i] + 1];
        assert r[i] != key[i] && r[..i] == key[..i];
        FirstDifferenceDecides(key, r, i);
        return;
      }
      i := i + 1;
    }
  }
}
