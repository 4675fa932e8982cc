/** CRC32C as the portable code computes it: four interleaved strides against one byte at a time.  The tables are
    parameters; what is needed of them is that they are linear and that a stride table advances a word by 16 bytes.
    `Crc32cTables` has the tables of CRC32C. */
module Crc32c {
  type Word = bv32
  type Table = bv8 -> Word

  const MASK_DELTA: Word := 0xa282_ead8
  const CRC_XOR: Word := 0xffff_ffff

  function Mask(crc: Word): Word {
    ((crc >> 15) | (crc << 17)) + MASK_DELTA
  }

  function Unmask(masked: Word): Word {
    var rot := masked - MASK_DELTA;
    (rot >> 17) | (rot << 15)
  }

  lemma MaskRoundTrip(crc: Word)
    ensures Unmask(Mask(crc)) == crc && Mask(Unmask(crc)) == crc
  {
  }

  function Xor(a: Word, b: Word): Word {
    a ^ b
  }

  function Xor8(a: bv8, b: bv8): bv8 {
    a ^ b
  }

  function Low(w: Word): bv8 {
    (w & 0xff) as bv8
  }

  function Shift8(w: Word): Word {
    w >> 8
  }

  lemma XorCommutes(a: Word, b: Word)
    ensures Xor(a, b) == Xor(b, a)
  {
  }

  lemma XorAssociates(a: Word, b: Word, c: Word)
    ensures Xor(Xor(a, b), c) == Xor(a, Xor(b, c))
  {
  }

  lemma XorCancels(a: Word, b: Word)
    ensures Xor(Xor(a, b), b) == a && Xor(0, a) == a && Xor(a, 0) == a
  {
  }

  lemma LowXor(a: Word, b: Word)
    ensures Low(Xor(a, b)) == Xor8(Low(a), Low(b)) && Shift8(Xor(a, b)) == Xor(Shift8(a), Shift8(b))
  {
  }

  lemma Xor4(a: Word, b: Word, c: Word, d: Word)
    ensures Xor(Xor(a, b), Xor(c, d)) == Xor(Xor(a, c), Xor(b, d))
  {
    hide Xor;
    XorAssociates(a, b, Xor(c, d));
    XorAssociates(b, c, d);
    XorCommutes(b, c);
    XorAssociates(c, b, d);
    XorAssociates(a, c, Xor(b, d));
  }

  /** Taking in one byte. */
  function Step(t: Table, l: Word, b: bv8): Word {
    Xor(t(Xor8(Low(l), b)), Shift8(l))
  }

  /** The definition: byte after byte. */
  function Fold(t: Table, l: Word, data: seq<bv8>): Word
    decreases |data|
  {
    if data == [] then l else Fold(t, Step(t, l, data[0]), data[1..])
  }

  function Value(t: Table, crc: Word, data: seq<bv8>): Word {
    Xor(Fold(t, Xor(crc, CRC_XOR), data), CRC_XOR)
  }

  lemma {:induction false} FoldConcat(t: Table, l: Word, a: seq<bv8>, b: seq<bv8>)
    ensures Fold(t, l, a + b) == Fold(t, Fold(t, l, a), b)
    decreases |a|
  {
    hide Step;
    if a == [] {
      assert a + b == b;
    } else {
      assert (a + b)[1..] == a[1..] + b;
      FoldConcat(t, Step(t, l, a[0]), a[1..], b);
    }
  }

  /** A checksum can be extended piece by piece. */
  lemma ValueConcat(t: Table, crc: Word, a: seq<bv8>, b: seq<bv8>)
    ensures Value(t, Value(t, crc, a), b) == Value(t, crc, a + b)
  {
    hide Fold, Xor;
    FoldConcat(t, Xor(crc, CRC_XOR), a, b);
    XorCancels(Fold(t, Xor(crc, CRC_XOR), a), CRC_XOR);
  }

  // ---- linearity ----

  ghost predicate Linear(t: Table) {
    forall a, b :: t(Xor8(a, b)) == Xor(t(a), t(b))
  }

  /** Taking in a zero byte. */
  function Advance(t: Table, l: Word): Word {
    Xor(t(Low(l)), Shift8(l))
  }

  function Advances(t: Table, l: Word, n: nat): Word
    decreases n
  {
    if n == 0 then l else Advances(t, Advance(t, l), n - 1)
  }

  lemma AdvanceLinear(t: Table, a: Word, b: Word)
    requires Linear(t)
    ensures Advance(t, Xor(a, b)) == Xor(Advance(t, a), Advance(t, b))
  {
    hide Low, Xor, Xor8, Shift8;
    LowXor(a, b);
    assert t(Xor8(Low(a), Low(b))) == Xor(t(Low(a)), t(Low(b)));
    Xor4(t(Low(a)), t(Low(b)), Shift8(a), Shift8(b));
  }

  lemma {:induction false} AdvancesLinear(t: Table, a: Word, b: Word, n: nat)
    requires Linear(t)
    ensures Advances(t, Xor(a, b), n) == Xor(Advances(t, a, n), Advances(t, b, n))
    decreases n
  {
    hide Advance, Linear, Xor;
    if n > 0 {
      AdvanceLinear(t, a, b);
      AdvancesLinear(t, Advance(t, a), Advance(t, b), n - 1);
    }
  }

  lemma {:induction false} AdvancesAdd(t: Table, l: Word, m: nat, n: nat)
    ensures Advances(t, Advances(t, l, m), n) == Advances(t, l, m + n)
    decreases m
  {
    hide Advance;
    if m > 0 {
      AdvancesAdd(t, Advance(t, l), m - 1, n);
    }
  }

  // ---- words ----

  function Packed(a: Word, b: Word, c: Word, d: Word): Word {
    a | (b << 8) | (c << 16) | (d << 24)
  }

  /** Four bytes, least significant first. */
  function WordOf(data: seq<bv8>): Word
    requires |data| >= 4
  {
    Packed(data[0] as Word, data[1] as Word, data[2] as Word, data[3] as Word)
  }

  function Byte(w: Word, i: nat): bv8
    requires i < 4
  {
    Low(if i == 0 then w else if i == 1 then w >> 8 else if i == 2 then w >> 16 else w >> 24)
  }

  lemma ShiftedWord(a: bv8, b: bv8, c: bv8, d: bv8, l: Word)
    ensures var w := WordOf([a, b, c, d]);
      && Low(Xor(l, w)) == Xor8(Low(l), a)
      && Shift8(Xor(l, w)) == Xor(Shift8(l), WordOf([b, c, d, 0]))
  {
  }

  lemma NoWord()
    ensures WordOf([0, 0, 0, 0]) == 0
  {
  }

  /** Taking in the first byte of a word is advancing with the word mixed in. */
  lemma StepOfWord(t: Table, l: Word, a: bv8, b: bv8, c: bv8, d: bv8)
    ensures Advance(t, Xor(l, WordOf([a, b, c, d]))) == Xor(Step(t, l, a), WordOf([b, c, d, 0]))
  {
    hide Xor, Low, Xor8, Shift8, WordOf;
    ShiftedWord(a, b, c, d, l);
    XorAssociates(t(Xor8(Low(l), a)), Shift8(l), WordOf([b, c, d, 0]));
  }

  /** Four bytes at once: mix the word in, then advance four times. */
  lemma FoldOfWord(t: Table, l: Word, data: seq<bv8>)
    requires |data| == 4
    ensures Fold(t, l, data) == Advances(t, Xor(l, WordOf(data)), 4)
  {
    hide Xor, Step, WordOf, Advance;
    var a, b, c, d := data[0], data[1], data[2], data[3];
    assert data == [a, b, c, d];
    var l1 := Step(t, l, a);
    var l2 := Step(t, l1, b);
    var l3 := Step(t, l2, c);
    var l4 := Step(t, l3, d);
    StepOfWord(t, l, a, b, c, d);
    StepOfWord(t, l1, b, c, d, 0);
    StepOfWord(t, l2, c, d, 0, 0);
    StepOfWord(t, l3, d, 0, 0, 0);
    NoWord();
    XorCancels(l4, 0);
    FoldOfFour(t, l, a, b, c, d);
    AdvancesOfFour(t, Xor(l, WordOf(data)));
  }

  lemma FoldOfFour(t: Table, l: Word, a: bv8, b: bv8, c: bv8, d: bv8)
    ensures Fold(t, l, [a, b, c, d]) == Step(t, Step(t, Step(t, Step(t, l, a), b), c), d)
  {
    hide Step;
    FoldConcat(t, l, [a], [b, c, d]);
    FoldConcat(t, Step(t, l, a), [b], [c, d]);
    FoldConcat(t, Step(t, Step(t, l, a), b), [c], [d]);
    assert [a] + [b, c, d] == [a, b, c, d] && [b] + [c, d] == [b, c, d] && [c] + [d] == [c, d];
  }

  lemma AdvancesOfFour(t: Table, w: Word)
    ensures Advances(t, w, 4) == Advance(t, Advance(t, Advance(t, Advance(t, w))))
  {
    hide Advance;
    assert Advances(t, Advance(t, Advance(t, Advance(t, w))), 1) == Advance(t, Advance(t, Advance(t, Advance(t, w))));
  }

  // ---- strides ----

  datatype Tables = Tables(byte: Table, stride0: Table, stride1: Table, stride2: Table, stride3: Table)

  function Stride(ts: Tables, w: Word): Word {
    Xor(Xor(Xor(ts.stride3(Byte(w, 0)), ts.stride2(Byte(w, 1))), ts.stride1(Byte(w, 2))), ts.stride0(Byte(w, 3)))
  }

  /** What makes the tables fit: the byte table is linear, and the stride tables together advance a word 16 bytes. */
  ghost predicate TablesOk(ts: Tables) {
    Linear(ts.byte) && forall w :: Stride(ts, w) == Advances(ts.byte, w, 16)
  }

  function Mix(t: Table, l: Word, w: Word): Word {
    Advances(t, Xor(l, w), 4)
  }

  /** What the four partial results stand for. */
  function Combine(t: Table, c0: Word, c1: Word, c2: Word, c3: Word): Word {
    Mix(t, Mix(t, Mix(t, Mix(t, 0, c0), c1), c2), c3)
  }

  lemma AdvancesZero(t: Table, n: nat)
    requires Linear(t)
    ensures Advances(t, 0, n) == 0
  {
    hide Xor, Advances;
    XorCancels(0, 0);
    AdvancesLinear(t, 0, 0, n);
    XorCancels(Advances(t, 0, n), Advances(t, 0, n));
    XorSelf(Advances(t, 0, n));
  }

  lemma XorSelf(a: Word)
    ensures Xor(a, a) == 0
  {
  }

  lemma MixLinear(t: Table, a: Word, b: Word, x: Word, y: Word)
    requires Linear(t)
    ensures Mix(t, Xor(a, b), Xor(x, y)) == Xor(Mix(t, a, x), Mix(t, b, y))
  {
    hide Xor, Advances, Linear;
    Xor4(a, b, x, y);
    AdvancesLinear(t, Xor(a, x), Xor(b, y), 4);
  }

  lemma CombineLinear(t: Table, a0: Word, a1: Word, a2: Word, a3: Word, b0: Word, b1: Word, b2: Word, b3: Word)
    requires Linear(t)
    ensures Combine(t, Xor(a0, b0), Xor(a1, b1), Xor(a2, b2), Xor(a3, b3)) ==
              Xor(Combine(t, a0, a1, a2, a3), Combine(t, b0, b1, b2, b3))
  {
    hide Xor, Mix, Linear;
    XorCancels(0, 0);
    MixLinear(t, 0, 0, a0, b0);
    MixLinear(t, Mix(t, 0, a0), Mix(t, 0, b0), a1, b1);
    MixLinear(t, Mix(t, Mix(t, 0, a0), a1), Mix(t, Mix(t, 0, b0), b1), a2, b2);
    MixLinear(t, Mix(t, Mix(t, Mix(t, 0, a0), a1), a2), Mix(t, Mix(t, Mix(t, 0, b0), b1), b2), a3, b3);
  }

  lemma MixAdvances(t: Table, l: Word, w: Word, n: nat)
    requires Linear(t)
    ensures Mix(t, Advances(t, l, n), Advances(t, w, n)) == Advances(t, Mix(t, l, w), n)
  {
    hide Xor, Advances, Linear;
    AdvancesLinear(t, l, w, n);
    AdvancesAdd(t, Xor(l, w), n, 4);
    AdvancesAdd(t, Xor(l, w), 4, n);
  }

  lemma CombineAdvances(t: Table, c0: Word, c1: Word, c2: Word, c3: Word, n: nat)
    requires Linear(t)
    ensures Combine(t, Advances(t, c0, n), Advances(t, c1, n), Advances(t, c2, n), Advances(t, c3, n)) ==
            Advances(t, Combine(t, c0, c1, c2, c3), n)
  {
    hide Mix, Linear, Advances;
    AdvancesZero(t, n);
    MixAdvances(t, 0, c0, n);
    MixAdvances(t, Mix(t, 0, c0), c1, n);
    MixAdvances(t, Mix(t, Mix(t, 0, c0), c1), c2, n);
    MixAdvances(t, Mix(t, Mix(t, Mix(t, 0, c0), c1), c2), c3, n);
  }

  lemma CombineFirst(t: Table, c: Word)
    requires Linear(t)
    ensures Combine(t, c, 0, 0, 0) == Advances(t, c, 16)
  {
    hide Xor, Advances, Linear;
    XorCancels(c, 0);
    var c1 := Advances(t, c, 4);
    var c2 := Advances(t, c1, 4);
    var c3 := Advances(t, c2, 4);
    XorCancels(c1, 0);
    XorCancels(c2, 0);
    XorCancels(c3, 0);
    AdvancesAdd(t, c, 4, 4);
    AdvancesAdd(t, c, 8, 4);
    AdvancesAdd(t, c, 12, 4);
  }

  /** Sixteen bytes are four words mixed in one after the other. */
  lemma FoldOfSwath(t: Table, l: Word, data: seq<bv8>)
    requires |data| == 16
    ensures Fold(t, l, data) ==
            Combine(t, Xor(l, WordOf(data[0..4])), WordOf(data[4..8]), WordOf(data[8..12]), WordOf(data[12..16]))
  {
    hide Xor, WordOf, Advances, Fold;
    assert data == data[0..4] + (data[4..8] + (data[8..12] + data[12..16]));
    FoldConcat(t, l, data[0..4], data[4..8] + (data[8..12] + data[12..16]));
    FoldOfWord(t, l, data[0..4]);
    var l1 := Fold(t, l, data[0..4]);
    FoldConcat(t, l1, data[4..8], data[8..12] + data[12..16]);
    FoldOfWord(t, l1, data[4..8]);
    var l2 := Fold(t, l1, data[4..8]);
    FoldConcat(t, l2, data[8..12], data[12..16]);
    FoldOfWord(t, l2, data[8..12]);
    FoldOfWord(t, Fold(t, l2, data[8..12]), data[12..16]);
    XorCancels(Xor(l, WordOf(data[0..4])), 0);
  }

  /** One swath of 16 bytes: every partial result advances by 16 bytes and takes in its word. */
  lemma SwathStep(ts: Tables, c0: Word, c1: Word, c2: Word, c3: Word, data: seq<bv8>)
    requires TablesOk(ts) && |data| == 16
    ensures Combine(ts.byte, Xor(WordOf(data[0..4]), Stride(ts, c0)), Xor(WordOf(data[4..8]), Stride(ts, c1)),
                    Xor(WordOf(data[8..12]), Stride(ts, c2)), Xor(WordOf(data[12..16]), Stride(ts, c3))) ==
            Fold(ts.byte, Combine(ts.byte, c0, c1, c2, c3), data)
  {
    hide Xor, WordOf, Advances, Fold, Combine, Linear;
    var t := ts.byte;
    var w0, w1, w2, w3 := WordOf(data[0..4]), WordOf(data[4..8]), WordOf(data[8..12]), WordOf(data[12..16]);
    StrideIs(ts, c0);
    StrideIs(ts, c1);
    StrideIs(ts, c2);
    StrideIs(ts, c3);
    CombineLinear(t, w0, w1, w2, w3, Advances(t, c0, 16), Advances(t, c1, 16), Advances(t, c2, 16),
                  Advances(t, c3, 16));
    CombineAdvances(t, c0, c1, c2, c3, 16);
    var l := Combine(t, c0, c1, c2, c3);
    FoldOfSwath(t, l, data);
    CombineLinear(t, w0, w1, w2, w3, l, 0, 0, 0);
    CombineFirst(t, l);
    XorCommutes(l, w0);
    XorCancels(w1, 0);
    XorCancels(w2, 0);
    XorCancels(w3, 0);
  }

  lemma StrideIs(ts: Tables, w: Word)
    requires TablesOk(ts)
    ensures Linear(ts.byte) && Stride(ts, w) == Advances(ts.byte, w, 16)
  {
  }

  /** One word: the partial results change places, and the one whose turn it is takes the word in. */
  lemma WordStep(ts: Tables, c0: Word, c1: Word, c2: Word, c3: Word, data: seq<bv8>)
    requires TablesOk(ts) && |data| == 4
    ensures Combine(ts.byte, c1, c2, c3, Xor(WordOf(data), Stride(ts, c0))) ==
              Fold(ts.byte, Combine(ts.byte, c0, c1, c2, c3), data)
  {
    hide Xor, WordOf, Advances, Fold, Linear, Mix, TablesOk;
    var t, w := ts.byte, WordOf(data);
    StrideIs(ts, c0);
    var c := Mix(t, Mix(t, Mix(t, 0, c1), c2), c3);
    RestOfCombine(t, c0, c1, c2, c3);
    FoldOfWord(t, Combine(t, c0, c1, c2, c3), data);
    MixIs(t, Combine(t, c0, c1, c2, c3), w);
    MixIs(t, c, Xor(w, Stride(ts, c0)));
    XorCommutes(Stride(ts, c0), c);
    XorAssociates(c, Stride(ts, c0), w);
    XorCommutes(Stride(ts, c0), w);
  }

  lemma MixIs(t: Table, l: Word, w: Word)
    ensures Mix(t, l, w) == Advances(t, Xor(l, w), 4)
  {
  }

  lemma RestOfCombine(t: Table, c0: Word, c1: Word, c2: Word, c3: Word)
    requires Linear(t)
    ensures Combine(t, c0, c1, c2, c3) == Xor(Advances(t, c0, 16), Mix(t, Mix(t, Mix(t, 0, c1), c2), c3))
  {
    hide Xor, Advances, Linear, Mix;
    XorCancels(c0, c0);
    XorCancels(c1, c1);
    XorCancels(c2, c2);
    XorCancels(c3, c3);
    CombineLinear(t, c0, 0, 0, 0, 0, c1, c2, c3);
    CombineFirst(t, c0);
    AdvancesZero(t, 4);
    MixIs(t, 0, 0);
    XorCancels(0, 0);
  }

  /** The portable Extend.  `k` is how many bytes the data starts before a 4-byte boundary. */
  method Extend(ts: Tables, crc: Word, data: seq<bv8>, k: nat) returns (r: Word)
    requires TablesOk(ts) && k < 4
    ensures r == Value(ts.byte, crc, data)
  {
    hide Xor, WordOf, Fold, Step, Combine, TablesOk, Stride;
    var t := ts.byte;
    ghost var start := Xor(crc, CRC_XOR);
    var l := Xor(crc, CRC_XOR);
    var p := 0;
    FoldNothing(t, l, data);
    if k <= |data| {
      while p != k
        invariant 0 <= p <= k && l == Fold(t, start, data[..p])
        decreases k - p
      {
        FoldOne(t, start, data, p);
        l := Step(t, l, data[p]);
        p := p + 1;
      }
    }
    if |data| - p >= 16 {
      var w := data[p..p + 16];
      FoldOfSwath(t, l, w);
      FoldPiece(t, start, data, p, 16);
      XorCommutes(WordOf(w[0..4]), l);
      var c0, c1, c2, c3 := Xor(WordOf(w[0..4]), l), WordOf(w[4..8]), WordOf(w[8..12]), WordOf(w[12..16]);
      p := p + 16;
      while |data| - p >= 16
        invariant p <= |data| && Combine(t, c0, c1, c2, c3) == Fold(t, start, data[..p])
        decreases |data| - p
      {
        w := data[p..p + 16];
        SwathStep(ts, c0, c1, c2, c3, w);
        FoldPiece(t, start, data, p, 16);
        c0 := Xor(WordOf(w[0..4]), Stride(ts, c0));
        c1 := Xor(WordOf(w[4..8]), Stride(ts, c1));
        c2 := Xor(WordOf(w[8..12]), Stride(ts, c2));
        c3 := Xor(WordOf(w[12..16]), Stride(ts, c3));
        p := p + 16;
      }
      while |data| - p >= 4
        invariant p <= |data| && Combine(t, c0, c1, c2, c3) == Fold(t, start, data[..p])
        decreases |data| - p
      {
        w := data[p..p + 4];
        WordStep(ts, c0, c1, c2, c3, w);
        FoldPiece(t, start, data, p, 4);
        c0 := Xor(WordOf(w), Stride(ts, c0));
        c0, c1, c2, c3 := c1, c2, c3, c0;
        p := p + 4;
      }
      CombineIs(t, c0, c1, c2, c3);
      l := 0;
      l := Mix(t, l, c0);
      l := Mix(t, l, c1);
      l := Mix(t, l, c2);
      l := Mix(t, l, c3);
    }
    while p != |data|
      invariant p <= |data| && l == Fold(t, start, data[..p])
      decreases |data| - p
    {
      FoldOne(t, start, data, p);
      l := Step(t, l, data[p]);
      p := p + 1;
    }
    assert data[..p] == data;
    r := Xor(l, CRC_XOR);
  }

  lemma CombineIs(t: Table, c0: Word, c1: Word, c2: Word, c3: Word)
    ensures Combine(t, c0, c1, c2, c3) == Mix(t, Mix(t, Mix(t, Mix(t, 0, c0), c1), c2), c3)
  {
  }

  lemma FoldNothing(t: Table, l: Word, data: seq<bv8>)
    ensures Fold(t, l, data[..0]) == l
  {
  }

  lemma FoldPiece(t: Table, l: Word, data: seq<bv8>, p: nat, n: nat)
    requires p + n <= |data|
    ensures Fold(t, l, data[..p + n]) == Fold(t, Fold(t, l, data[..p]), data[p..p + n])
  {
    hide Step;
    assert data[..p + n] == data[..p] + data[p..p + n];
    FoldConcat(t, l, data[..p], data[p..p + n]);
  }

  lemma FoldOne(t: Table, l: Word, data: seq<bv8>, p: nat)
    requires p < |data|
    ensures Fold(t, l, data[..p + 1]) == Step(t, Fold(t, l, data[..p]), data[p])
  {
    hide Step;
    FoldPiece(t, l, data, p, 1);
    assert data[p..p + 1] == [data[p]];
  }
}
