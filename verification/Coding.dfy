/** Fixed-width and variable-width integers, and length-prefixed strings, as byte strings. */
module Coding {
  import opened Wrappers
  import opened Bytewise

  const BITS_32: nat := 0x1_0000_0000
  const BITS_64: nat := 0x1_0000_0000_0000_0000

  function Pow(base: nat, n: nat): (p: nat)
    ensures base > 0 ==> p > 0
  {
    if n == 0 then 1 else base * Pow(base, n - 1)
  }

  /** `n` bytes, least significant first. */
  function Fixed(v: nat, n: nat): (b: Bytes)
    ensures |b| == n
  {
    if n == 0 then [] else [v % 256] + Fixed(v / 256, n - 1)
  }

  function Unfixed(b: Bytes): nat {
    if b == [] then 0 else b[0] as int + 256 * Unfixed(b[1..])
  }

  lemma {:induction false} FixedRoundTrip(v: nat, n: nat)
    requires v < Pow(256, n)
    ensures Unfixed(Fixed(v, n)) == v
  {
    if n > 0 {
      FixedRoundTrip(v / 256, n - 1);
      assert Fixed(v, n)[1..] == Fixed(v / 256, n - 1);
    }
  }

  lemma {:induction false} UnfixedRoundTrip(b: Bytes)
    ensures Fixed(Unfixed(b), |b|) == b
    ensures Unfixed(b) < Pow(256, |b|)
  {
    if b != [] {
      UnfixedRoundTrip(b[1..]);
      assert b == [b[0]] + b[1..];
    }
  }

  lemma Pow256()
    ensures Pow(256, 4) == BITS_32 && Pow(256, 8) == BITS_64
  {
    assert Pow(256, 4) == 256 * Pow(256, 3) == 256 * (256 * Pow(256, 2)) == 256 * (256 * (256 * Pow(256, 1))) ==
          BITS_32;
    assert Pow(256, 8) == 256 * Pow(256, 7) == 256 * (256 * Pow(256, 6)) == 256 * (256 * (256 * Pow(256, 5))) ==
           256 * (256 * (256 * (256 * Pow(256, 4)))) == BITS_64;
  }

  /** The bytes of a 32-bit or 64-bit number stay below its width, whatever they are. */
  lemma UnfixedBounds(b: Bytes)
    ensures |b| == 4 ==> Unfixed(b) < BITS_32
    ensures |b| == 8 ==> Unfixed(b) < BITS_64
  {
    UnfixedRoundTrip(b);
    Pow256();
  }

  lemma FixedFour(v: nat)
    ensures Fixed(v, 4) == [v % 256, v / 0x100 % 256, v / 0x1_0000 % 256, v / 0x100_0000 % 256]
  {
    assert v / 256 / 256 == v / 0x1_0000 && v / 256 / 256 / 256 == v / 0x100_0000;
    assert Fixed(v / 256 / 256 / 256, 1) == [v / 256 / 256 / 256 % 256];
    assert Fixed(v / 256 / 256, 2) == [v / 256 / 256 % 256] + Fixed(v / 256 / 256 / 256, 1);
    assert Fixed(v / 256, 3) == [v / 256 % 256] + Fixed(v / 256 / 256, 2);
  }

  lemma FixedEight(v: nat)
    ensures Fixed(v, 8) == [v % 256, v / 0x100 % 256, v / 0x1_0000 % 256, v / 0x100_0000 % 256,
                            v / 0x1_0000_0000 % 256, v / 0x100_0000_0000 % 256, v / 0x1_0000_0000_0000 % 256,
                            v / 0x100_0000_0000_0000 % 256]
  {
    var w := v / 256 / 256 / 256 / 256;
    assert w == v / 0x1_0000_0000;
    FixedFour(v);
    FixedFour(w);
    FixedSplits(v, 4, 4);
    assert w / 0x100 == v / 0x100_0000_0000 && w / 0x1_0000 == v / 0x1_0000_0000_0000 &&
        w / 0x100_0000 == v / 0x100_0000_0000_0000;
    assert Down(v, 4) == Down(v / 256, 3) == Down(v / 256 / 256, 2) == Down(v / 256 / 256 / 256, 1) == w;
  }

  function Down(v: nat, n: nat): nat
    decreases n
  {
    if n == 0 then v else Down(v / 256, n - 1)
  }

  lemma {:induction false} FixedSplits(v: nat, n: nat, k: nat)
    ensures Fixed(v, n + k) == Fixed(v, n) + Fixed(Down(v, n), k)
    decreases n
  {
    if n > 0 {
      FixedSplits(v / 256, n - 1, k);
    }
  }

  lemma FixedWidths(v: nat)
    ensures v < BITS_32 ==> Unfixed(Fixed(v, 4)) == v
    ensures v < BITS_64 ==> Unfixed(Fixed(v, 8)) == v
  {
    Pow256();
    if v < BITS_32 {
      FixedRoundTrip(v, 4);
    }
    if v < BITS_64 {
      FixedRoundTrip(v, 8);
    }
  }

  /** Seven bits to a byte, least significant first; the top bit says that more follow. */
  function Varint(v: nat): (b: Bytes)
    ensures |b| > 0
  {
    if v < 128 then [v] else [128 + v % 128] + Varint(v / 128)
  }

  /** The number at the front, of at most `max` bytes, and what comes after it. */
  function ParseVarint(b: Bytes, max: nat): Option<(nat, Bytes)> {
    if b == [] || max == 0 then None
    else if b[0] < 128 then Some((b[0] as int, b[1..]))
    else match ParseVarint(b[1..], max - 1)
      case None => None
      case Some((v, rest)) => Some((b[0] as int - 128 + 128 * v, rest))
  }

  lemma {:induction false} VarintRoundTrip(v: nat, rest: Bytes, max: nat)
    requires max > 0 && v < Pow(128, max)
    ensures ParseVarint(Varint(v) + rest, max) == Some((v, rest))
  {
    if v >= 128 {
      VarintRoundTrip(v / 128, rest, max - 1);
      assert (Varint(v) + rest)[1..] == Varint(v / 128) + rest;
    } else {
      assert (Varint(v) + rest)[1..] == rest;
    }
  }

  lemma Pow128()
    ensures Pow(128, 5) == 0x8_0000_0000 && Pow(128, 10) == 64 * BITS_64
  {
    assert Pow(128, 5) == 128 * Pow(128, 4) == 128 * (128 * Pow(128, 3)) == 128 * (128 * (128 * Pow(128, 2))) ==
           128 * (128 * (128 * (128 * Pow(128, 1)))) == 0x8_0000_0000;
    assert Pow(128, 10) == 128 * Pow(128, 9) == 128 * (128 * Pow(128, 8)) == 128 * (128 * (128 * Pow(128, 7))) ==
           128 * (128 * (128 * (128 * Pow(128, 6)))) == 128 * (128 * (128 * (128 * (128 * Pow(128, 5))))) ==
                 64 * BITS_64;
  }

  /** What is read back from a variable-width number: bits past the width are dropped. */
  function GetVarint(b: Bytes, max: nat, limit: nat): Option<(nat, Bytes)>
    requires limit > 0
  {
    match ParseVarint(b, max)
    case None => None
    case Some((v, rest)) => Some((v % limit, rest))
  }

  function GetVarint32(b: Bytes): Option<(nat, Bytes)> {
    GetVarint(b, 5, BITS_32)
  }

  function GetVarint64(b: Bytes): Option<(nat, Bytes)> {
    GetVarint(b, 10, BITS_64)
  }

  /** Every 32-bit and 64-bit number is read back, with what follows it left over. */
  lemma VarintsRoundTrip(v: nat, rest: Bytes)
    ensures v < BITS_32 ==> GetVarint32(Varint(v) + rest) == Some((v, rest))
    ensures v < BITS_64 ==> GetVarint64(Varint(v) + rest) == Some((v, rest))
  {
    hide Varint, ParseVarint, Pow;
    Pow128();
    if v < BITS_32 {
      VarintRoundTrip(v, rest, 5);
    }
    if v < BITS_64 {
      VarintRoundTrip(v, rest, 10);
    }
  }

  lemma {:induction false} ParseVarintConsumes(b: Bytes, max: nat)
    ensures match ParseVarint(b, max)
            case None => true
            case Some((v, rest)) => |rest| < |b| && rest == b[|b| - |rest|..]
  {
    if b != [] && max > 0 {
      ParseVarintConsumes(b[1..], max - 1);
    }
  }

  lemma Varint3(v: nat)
    ensures v >= 0x80 ==> Varint(v) == [128 + v % 128] + Varint(v / 128)
    ensures v >= 0x4000 ==> Varint(v / 128) == [128 + v / 128 % 128] + Varint(v / 128 / 128)
    ensures v >= 0x20_0000 ==> Varint(v / 128 / 128) == [128 + v / 128 / 128 % 128] + Varint(v / 128 / 128 / 128)
    ensures v >= 0x1000_0000 ==>
              Varint(v / 128 / 128 / 128) == [128 + v / 128 / 128 / 128 % 128] + Varint(v / 128 / 128 / 128 / 128)
  {
  }

  lemma {:induction false} VarintSize(v: nat, max: nat)
    requires max > 0 && v < Pow(128, max)
    ensures |Varint(v)| <= max
  {
    if v >= 128 {
      VarintSize(v / 128, max - 1);
    }
  }

  /** Five bytes are enough for 32 bits, and ten for 64. */
  lemma VarintSizes(v: nat)
    ensures v < BITS_32 ==> |Varint(v)| <= 5
    ensures v < BITS_64 ==> |Varint(v)| <= 10
  {
    hide Varint, Pow;
    Pow128();
    if v < BITS_32 {
      VarintSize(v, 5);
    }
    if v < BITS_64 {
      VarintSize(v, 10);
    }
  }

  method EncodeVarint32(v: nat) returns (b: Bytes)
    requires v < BITS_32
    ensures b == Varint(v)
  {
    Varint3(v);
    if v < 0x80 {
      b := [v];
    } else if v < 0x4000 {
      b := [128 + v % 128, v / 128];
    } else if v < 0x20_0000 {
      b := [128 + v % 128, 128 + v / 128 % 128, v / 128 / 128];
    } else if v < 0x1000_0000 {
      b := [128 + v % 128, 128 + v / 128 % 128, 128 + v / 128 / 128 % 128, v / 128 / 128 / 128];
    } else {
      b := [128 + v % 128, 128 + v / 128 % 128, 128 + v / 128 / 128 % 128, 128 + v / 128 / 128 / 128 % 128,
            v / 128 / 128 / 128 / 128];
    }
  }

  method EncodeVarint64(value: nat) returns (b: Bytes)
    ensures b == Varint(value)
  {
    var v := value;
    b := [];
    while v >= 128
      invariant Varint(value) == b + Varint(v)
    {
      b := b + [128 + v % 128];
      v := v / 128;
    }
    b := b + [v];
  }

  method VarintLength(value: nat) returns (len: nat)
    ensures len == |Varint(value)|
  {
    var v := value;
    len := 1;
    while v >= 128
      invariant |Varint(value)| == len - 1 + |Varint(v)|
    {
      v := v / 128;
      len := len + 1;
    }
  }

  /** The decoding loop: byte by byte, each seven bits weighted by their place, modulo the width of the result. */
  method GetVarintPtr(p: Bytes, max: nat, limit: nat) returns (r: Option<(nat, Bytes)>)
    requires limit > 0
    ensures r == GetVarint(p, max, limit)
  {
    var result: nat, unit: nat, k: nat := 0, 1, 0;
    while k < max && k < |p|
      invariant k <= max && k <= |p| && result < limit
      invariant Gathered(p, max, limit, k, result, unit)
    {
      var b := p[k] as int;
      k := k + 1;
      WeighByte(p, max, limit, k - 1, result, unit);
      if b >= 128 {
        result := (result + (b - 128) * unit) % limit;
      } else {
        result := (result + b * unit) % limit;
        return Some((result, p[k..]));
      }
      unit := unit * 128;
    }
    return None;
  }

  /** After `k` bytes, all of which announced more. */
  ghost predicate Gathered(p: Bytes, max: nat, limit: nat, k: nat, result: nat, unit: nat)
    requires limit > 0 && k <= max && k <= |p|
  {
    match ParseVarint(p[k..], max - k)
    case None => ParseVarint(p, max) == None
    case Some((v, rest)) =>
      && ParseVarint(p, max).Some?
      && ParseVarint(p, max).value.1 == rest
      && ParseVarint(p, max).value.0 % limit == (result + v * unit) % limit
  }

  lemma WeighByte(p: Bytes, max: nat, limit: nat, k: nat, result: nat, unit: nat)
    requires limit > 0 && k < max && k < |p| && Gathered(p, max, limit, k, result, unit)
    ensures p[k] >= 128 ==> Gathered(p, max, limit, k + 1, (result + (p[k] as int - 128) * unit) % limit, unit * 128)
    ensures p[k] < 128 ==> GetVarint(p, max, limit) == Some(((result + p[k] as int * unit) % limit, p[k + 1..]))
  {
    assert p[k..][1..] == p[k + 1..];
    if p[k] >= 128 {
      match ParseVarint(p[k + 1..], max - k - 1)
      case None =>
      case Some((v, rest)) => WeightsAdd(result, p[k] as int - 128, v, unit, limit);
    }
  }

  lemma WeightsAdd(result: int, low: int, v: int, unit: int, limit: int)
    requires limit > 0
    ensures (result + (low + 128 * v) * unit) % limit == ((result + low * unit) % limit + v * (unit * 128)) % limit
  {
    var rest := v * (unit * 128);
    assert (low + 128 * v) * unit == low * unit + rest;
    ModAdd(result + low * unit, rest, limit);
  }

  lemma DivisionIsUnique(m: int, q: int, r: int)
    requires 0 <= r < m
    ensures (m * q + r) % m == r && (m * q + r) / m == q
  {
    var y := m * q + r;
    var k := q - y / m;
    assert m * k == y % m - r by {
      assert y == m * (y / m) + y % m;
      assert m * k == m * q - m * (y / m);
    }
    assert k > 0 ==> m * k >= m;
    assert k < 0 ==> m * k <= -m;
  }

  lemma ModAdd(a: int, b: int, m: int)
    requires m > 0
    ensures (a + b) % m == (a % m + b) % m
  {
    var x := a % m + b;
    assert a + b == m * (a / m + x / m) + x % m by {
      assert a == m * (a / m) + a % m && x == m * (x / m) + x % m;
      assert m * (a / m + x / m) == m * (a / m) + m * (x / m);
    }
    DivisionIsUnique(m, a / m + x / m, x % m);
  }

  method GetVarint32Ptr(p: Bytes) returns (r: Option<(nat, Bytes)>)
    ensures r == GetVarint32(p)
  {
    if p != [] && p[0] < 128 {
      return Some((p[0] as int, p[1..]));
    }
    r := GetVarintPtr(p, 5, BITS_32);
  }

  /** A length, then that many bytes. */
  function LengthPrefixed(s: Bytes): (b: Bytes)
    ensures |b| > |s|
  {
    Varint(|s|) + s
  }

  function GetLengthPrefixed(b: Bytes): Option<(Bytes, Bytes)> {
    match GetVarint32(b)
    case None => None
    case Some((len, rest)) => if |rest| >= len then Some((rest[..len], rest[len..])) else None
  }

  lemma LengthPrefixedRoundTrip(s: Bytes, rest: Bytes)
    requires |s| < BITS_32
    ensures GetLengthPrefixed(LengthPrefixed(s) + rest) == Some((s, rest))
  {
    VarintsRoundTrip(|s|, s + rest);
    assert LengthPrefixed(s) + rest == Varint(|s|) + (s + rest);
  }

  lemma GetLengthPrefixedConsumes(b: Bytes)
    ensures match GetLengthPrefixed(b)
            case None => true
            case Some((s, rest)) => |s| + |rest| < |b| && rest == b[|b| - |rest|..]
  {
    ParseVarintConsumes(b, 5);
  }

  /** 32-bit words one after the other. */
  function Words(ws: seq<nat>): (b: Bytes)
    ensures |b| == 4 * |ws|
  {
    if ws == [] then [] else Fixed(ws[0], 4) + Words(ws[1..])
  }

  lemma {:induction false} WordAt(ws: seq<nat>, i: nat)
    requires i < |ws|
    ensures Words(ws)[4 * i..4 * i + 4] == Fixed(ws[i], 4)
  {
    if i > 0 {
      WordAt(ws[1..], i - 1);
      assert Words(ws)[4 * i..4 * i + 4] == Words(ws[1..])[4 * (i - 1)..4 * (i - 1) + 4];
    }
  }

  lemma {:induction false} WordsConcat(a: seq<nat>, b: seq<nat>)
    ensures Words(a + b) == Words(a) + Words(b)
  {
    hide Fixed;
    if a == [] {
      assert a + b == b;
    } else {
      WordsConcat(a[1..], b);
      assert (a + b)[1..] == a[1..] + b;
    }
  }

  lemma OneMoreWord(ws: seq<nat>, i: nat)
    requires i < |ws|
    ensures Words(ws[..i + 1]) == Words(ws[..i]) + Fixed(ws[i], 4)
  {
    hide Fixed;
    assert ws[..i + 1] == ws[..i] + [ws[i]];
    WordsConcat(ws[..i], [ws[i]]);
    assert Words([ws[i]]) == Fixed(ws[i], 4) + Words([ws[i]][1..]);
  }
}
