/** The Bloom filter: a bit array probed at `k` places for each key. */
module Bloom {
  import opened Bytewise
  import opened Coding

  const WORD_SIZE: nat := 0x1_0000_0000
  type Word = w: nat | w < WORD_SIZE

  // The 32-bit hash of a key.
  type Hash = Bytes -> Word

  // 1 << i.
  function Bit(i: nat): bv8
    requires i < 8
  {
    if i == 0 then 1 else if i == 1 then 2 else if i == 2 then 4 else if i == 3 then 8
    else if i == 4 then 16 else if i == 5 then 32 else if i == 6 then 64 else 128
  }

  lemma BitsApart(x: bv8, i: nat, j: nat)
    requires i < 8 && j < 8
    ensures (x | Bit(i)) & Bit(j) != 0 <==> i == j || x & Bit(j) != 0
  {
  }

  function SetBit(arr: seq<bv8>, pos: nat): (a: seq<bv8>)
    requires pos < 8 * |arr|
    ensures |a| == |arr|
  {
    arr[pos / 8 := arr[pos / 8] | Bit(pos % 8)]
  }

  predicate HasBit(arr: seq<bv8>, pos: nat)
    requires pos < 8 * |arr|
  {
    arr[pos / 8] & Bit(pos % 8) != 0
  }

  /** Setting a bit sets it and no other. */
  lemma BitSet(arr: seq<bv8>, pos: nat, q: nat)
    requires pos < 8 * |arr| && q < 8 * |arr|
    ensures HasBit(SetBit(arr, pos), q) <==> pos == q || HasBit(arr, q)
  {
    hide Bit;
    if pos / 8 == q / 8 {
      BitsApart(arr[pos / 8], pos % 8, q % 8);
      assert pos == q <==> pos % 8 == q % 8;
    }
  }

  // h >> 17 | h << 15, on 32 bits.
  function Delta(h: Word): Word {
    h / 0x2_0000 + h % 0x2_0000 * 0x8000
  }

  /** The `j`-th hash value: double hashing modulo 2^32. */
  function Probe(h: Word, delta: Word, j: nat): Word {
    if j == 0 then h else (Probe(h, delta, j - 1) + delta) % WORD_SIZE
  }

  /** Bit `i` of a number, the lowest first. */
  function BitOf(x: nat, i: nat): nat {
    if i == 0 then x % 2 else BitOf(x / 2, i - 1)
  }

  /** The bits of two numbers put one above the other. */
  lemma {:induction false} JoinedBits(low: nat, high: nat, n: nat, i: nat)
    requires low < Pow(2, n)
    ensures BitOf(low + Pow(2, n) * high, i) == if i < n then BitOf(low, i) else BitOf(high, i - n)
    decreases n
  {
    var x := low + Pow(2, n) * high;
    if n > 0 {
      DoubledProduct(Pow(2, n - 1), high);
      assert x == low + 2 * (Pow(2, n - 1) * high);
      assert x % 2 == low % 2 && x / 2 == low / 2 + Pow(2, n - 1) * high;
      if i > 0 {
        JoinedBits(low / 2, high, n - 1, i - 1);
      }
    }
  }

  lemma DoubledProduct(p: nat, x: nat)
    ensures 2 * p * x == 2 * (p * x)
  {
  }

  lemma Powers()
    ensures Pow(2, 15) == 0x8000 && Pow(2, 17) == 0x2_0000 && Pow(2, 32) == WORD_SIZE
  {
    assert Pow(2, 5) == 2 * Pow(2, 4) == 2 * (2 * Pow(2, 3)) == 2 * (2 * (2 * Pow(2, 2))) == 32;
    assert Pow(2, 10) == 2 * Pow(2, 9) == 4 * Pow(2, 8) == 8 * Pow(2, 7) == 16 * Pow(2, 6) == 32 * Pow(2, 5);
    assert Pow(2, 15) == 2 * Pow(2, 14) == 4 * Pow(2, 13) == 8 * Pow(2, 12) == 16 * Pow(2, 11) == 32 * Pow(2, 10);
    assert Pow(2, 17) == 2 * Pow(2, 16) == 4 * Pow(2, 15);
    assert Pow(2, 22) == 2 * Pow(2, 21) == 4 * Pow(2, 20) == 8 * Pow(2, 19) == 16 * Pow(2, 18) == 32 * Pow(2, 17);
    assert Pow(2, 27) == 2 * Pow(2, 26) == 4 * Pow(2, 25) == 8 * Pow(2, 24) == 16 * Pow(2, 23) == 32 * Pow(2, 22);
    assert Pow(2, 32) == 2 * Pow(2, 31) == 4 * Pow(2, 30) == 8 * Pow(2, 29) == 16 * Pow(2, 28) == 32 * Pow(2, 27);
  }

  /** The distance between the probes is the hash with its 32 bits turned by 17 places. */
  lemma DeltaTurns(h: Word, i: nat)
    requires i < 32
    ensures BitOf(Delta(h), i) == BitOf(h, (i + 17) % 32)
  {
    hide BitOf, Pow;
    Powers();
    var low, high := h % 0x2_0000, h / 0x2_0000;
    JoinedBits(high, low, 15, i);
    JoinedBits(low, high, 17, (i + 17) % 32);
  }

  function Along(h: Word, delta: Word, j: nat): nat {
    h + j * delta
  }

  /** The `j`-th probe is `j` such distances on from the hash, modulo 2^32. */
  lemma {:induction false} ProbeIs(h: Word, delta: Word, j: nat)
    ensures Probe(h, delta, j) == Along(h, delta, j) % WORD_SIZE
  {
    if j == 0 {
      assert Along(h, delta, 0) == h;
    } else {
      ProbeIs(h, delta, j - 1);
      OneMore(h, delta, j - 1);
      hide Along;
      AddModulo(Along(h, delta, j - 1), delta);
    }
  }

  lemma OneMore(h: Word, delta: Word, j: nat)
    ensures Along(h, delta, j + 1) == Along(h, delta, j) + delta
  {
  }

  lemma AddModulo(a: nat, b: nat)
    ensures (a % WORD_SIZE + b) % WORD_SIZE == (a + b) % WORD_SIZE
  {
  }

  /** The probes of a key: the `j`-th is the hash and `j` times the turned hash, modulo 2^32. */
  lemma ProbesOfKey(h: Word, turned: Word, j: nat)
    requires forall i: nat :: i < 32 ==> BitOf(turned, i) == BitOf(h, (i + 17) % 32)
    ensures Probe(h, Delta(h), j) == (h + j * turned) % 0x1_0000_0000
  {
    hide Delta, BitOf;
    forall i: nat | i < 32
      ensures BitOf(turned, i) == BitOf(Delta(h), i)
    {
      DeltaTurns(h, i);
    }
    Powers();
    SameBits(turned, Delta(h), 32);
    ProbeIs(h, Delta(h), j);
  }

  lemma {:induction false} SameBits(x: nat, y: nat, n: nat)
    requires x < Pow(2, n) && y < Pow(2, n) && forall i: nat :: i < n ==> BitOf(x, i) == BitOf(y, i)
    ensures x == y
  {
    if n > 0 {
      assert BitOf(x, 0) == BitOf(y, 0);
      forall i: nat | i < n - 1
        ensures BitOf(x / 2, i) == BitOf(y / 2, i)
      {
        assert BitOf(x, i + 1) == BitOf(y, i + 1);
      }
      SameBits(x / 2, y / 2, n - 1);
    }
  }

  /** The bits of the first `k` hash values are set. */
  predicate Covered(arr: seq<bv8>, h: Word, k: nat)
    requires |arr| > 0
  {
    forall j :: 0 <= j < k ==> HasBit(arr, Probe(h, Delta(h), j) % (8 * |arr|))
  }

  /** A filter: the bit array and the number of probes. */
  datatype Filter = Filter(arr: seq<bv8>, k: nat)

  predicate Matches(hash: Hash, key: Bytes, f: Filter) {
    && |f.arr| > 0
    && (f.k > 30 || Covered(f.arr, hash(key), f.k))
  }

  /** The reader's loop. */
  method KeyMayMatch(hash: Hash, key: Bytes, f: Filter) returns (r: bool)
    ensures r <==> Matches(hash, key, f)
  {
    hide HasBit, Delta;
    if |f.arr| == 0 {
      return false;
    }
    var bits := |f.arr| * 8;
    if f.k > 30 {
      return true;
    }
    var h := hash(key);
    var delta := Delta(h);
    for j := 0 to f.k
      invariant h == Probe(hash(key), delta, j)
      invariant Covered(f.arr, hash(key), j)
    {
      var bitpos := h % bits;
      if !HasBit(f.arr, bitpos) {
        return false;
      }
      h := (h + delta) % WORD_SIZE;
    }
    return true;
  }

  /** The bits that a key sets. */
  function WithProbes(arr: seq<bv8>, h: Word, k: nat): (a: seq<bv8>)
    requires |arr| > 0
    ensures |a| == |arr|
  {
    if k == 0 then arr else SetBit(WithProbes(arr, h, k - 1), Probe(h, Delta(h), k - 1) % (8 * |arr|))
  }

  function WithKeys(hash: Hash, arr: seq<bv8>, keys: seq<Bytes>, k: nat): (a: seq<bv8>)
    requires |arr| > 0
    ensures |a| == |arr|
    decreases |keys|
  {
    if keys == [] then arr
    else WithProbes(WithKeys(hash, arr, keys[..|keys| - 1], k), hash(keys[|keys| - 1]), k)
  }

  function FilterBytes(n: nat, bitsPerKey: nat): (bytes: nat)
    ensures bytes >= 8
  {
    ((if n * bitsPerKey < 64 then 64 else n * bitsPerKey) + 7) / 8
  }

  function FilterOf(hash: Hash, bitsPerKey: nat, k: nat, keys: seq<Bytes>): Filter {
    Filter(WithKeys(hash, seq(FilterBytes(|keys|, bitsPerKey), _ => 0), keys, k), k)
  }

  /** The writer's loops. */
  method CreateFilter(hash: Hash, bitsPerKey: nat, k: nat, keys: seq<Bytes>) returns (f: Filter)
    ensures f == FilterOf(hash, bitsPerKey, k, keys)
  {
    hide SetBit, Delta;
    var bits := |keys| * bitsPerKey;
    if bits < 64 {
      bits := 64;
    }
    var bytes := (bits + 7) / 8;
    bits := bytes * 8;
    ghost var zeros: seq<bv8> := seq(bytes, _ => 0);
    var arr: seq<bv8> := seq(bytes, _ => 0);
    for i := 0 to |keys|
      invariant |arr| == bytes && arr == WithKeys(hash, zeros, keys[..i], k)
    {
      assert keys[..i + 1][..i] == keys[..i];
      ghost var before := arr;
      var h := hash(keys[i]);
      var delta := Delta(h);
      for j := 0 to k
        invariant |arr| == bytes && h == Probe(hash(keys[i]), delta, j) && arr == WithProbes(before, hash(keys[i]), j)
      {
        var bitpos := h % bits;
        arr := SetBit(arr, bitpos);
        h := (h + delta) % WORD_SIZE;
      }
    }
    assert keys[..|keys|] == keys;
    f := Filter(arr, k);
  }

  /** Probing for a key sets its bits and clears none. */
  lemma {:induction false} ProbesAdd(arr: seq<bv8>, h: Word, k: nat, q: nat)
    requires |arr| > 0 && q < 8 * |arr|
    ensures HasBit(arr, q) ==> HasBit(WithProbes(arr, h, k), q)
    ensures forall j :: 0 <= j < k && Probe(h, Delta(h), j) % (8 * |arr|) == q ==> HasBit(WithProbes(arr, h, k), q)
  {
    hide HasBit, SetBit, Delta;
    if k > 0 {
      ProbesAdd(arr, h, k - 1, q);
      BitSet(WithProbes(arr, h, k - 1), Probe(h, Delta(h), k - 1) % (8 * |arr|), q);
    }
  }

  lemma {:induction false} KeysStay(hash: Hash, arr: seq<bv8>, keys: seq<Bytes>, k: nat, i: nat)
    requires |arr| > 0 && i < |keys|
    ensures Covered(WithKeys(hash, arr, keys, k), hash(keys[i]), k)
    decreases |keys|
  {
    hide HasBit, Delta;
    var n := |keys| - 1;
    var before := WithKeys(hash, arr, keys[..n], k);
    if i < n {
      KeysStay(hash, arr, keys[..n], k, i);
    }
    forall j | 0 <= j < k
      ensures HasBit(WithKeys(hash, arr, keys, k), Probe(hash(keys[i]), Delta(hash(keys[i])), j) % (8 * |arr|))
    {
      ProbesAdd(before, hash(keys[n]), k, Probe(hash(keys[i]), Delta(hash(keys[i])), j) % (8 * |arr|));
    }
  }

  /** No key that went into a filter is turned away by it. */
  lemma NoFalseNegatives(hash: Hash, bitsPerKey: nat, k: nat, keys: seq<Bytes>, i: nat)
    requires i < |keys|
    ensures Matches(hash, keys[i], FilterOf(hash, bitsPerKey, k, keys))
  {
    KeysStay(hash, seq(FilterBytes(|keys|, bitsPerKey), _ => 0), keys, k, i);
  }

  // ---- as bytes ----

  /** The bit array, then one byte with the number of probes. */
  function Encode(f: Filter): Bytes
    requires f.k < 256
  {
    seq(|f.arr|, i requires 0 <= i < |f.arr| => f.arr[i] as byte) + [f.k]
  }

  /** What KeyMayMatch makes of the bytes; anything shorter than two matches nothing. */
  function Decode(b: Bytes): Filter {
    if |b| < 2 then Filter([], 0)
    else Filter(seq(|b| - 1, i requires 0 <= i < |b| - 1 => b[i] as bv8), b[|b| - 1])
  }

  lemma CodeRoundTrip(f: Filter)
    requires f.k < 256 && |f.arr| > 0
    ensures Decode(Encode(f)) == f
  {
    var b := Encode(f);
    forall i | 0 <= i < |f.arr|
      ensures b[i] as bv8 == f.arr[i]
    {
      ByteRoundTrip(f.arr[i]);
    }
  }

  lemma ByteRoundTrip(x: bv8)
    ensures (x as byte) as bv8 == x
  {
  }
}
