/** What the decoder makes of bytes, and that it gives back what was encoded. */
module NanopbDecode {
  import opened Wrappers
  import opened Bytewise
  import opened Coding
  import opened Nanopb

  // ---- numbers ----

  /** The rest of a 32-bit number: `result` so far, the next byte counting from bit `bitpos`.  Bits that do not fit are
      an error, unless they are the sign extension of a negative number. */
  function Varint32Rest(result: nat, bitpos: nat, b: Bytes): (r: Option<(nat, Bytes)>)
    requires result < BITS_32
    ensures r.Some? ==> r.value.0 < BITS_32 && |r.value.1| < |b|
    decreases |b|
  {
    if b == [] then None
    else
      var byte := b[0] as int;
      var bits := byte % 128;
      if bitpos >= 32 && bits != 0 && (result < 0x8000_0000 || byte != (if bitpos < 63 then 0xFF else 0x01)) then None
      else
        var next := if bitpos >= 32 then result else AddBits(result, bits, bitpos);
        if byte >= 128 then Varint32Rest(next, bitpos + 7, b[1..])
        else if bitpos == 28 && bits >= 16 then None
        else Some((next, b[1..]))
  }

  // 1 << bitpos, for the bit positions at which a number can go on.
  function Place(bitpos: nat): (p: nat)
    ensures p > 0
  {
    if bitpos <= 7 then 0x80 else if bitpos <= 14 then 0x4000 else if bitpos <= 21 then 0x20_0000 else 0x1000_0000
  }

  // result | bits << bitpos, on 32 bits; the bits of `result` from `bitpos` on are clear.
  function AddBits(result: nat, bits: nat, bitpos: nat): (r: nat)
    ensures r < BITS_32
  {
    (result + bits * Place(bitpos)) % BITS_32
  }

  function Varint32(b: Bytes): (r: Option<(nat, Bytes)>)
    ensures r.Some? ==> r.value.0 < BITS_32 && |r.value.1| < |b|
  {
    if b == [] then None
    else if b[0] < 128 then Some((b[0] as int, b[1..]))
    else Varint32Rest(b[0] as int - 128, 7, b[1..])
  }

  /** One more byte of a number, at the place where it counts; `place` is Place(bitpos). */
  lemma BitsAdd(v: nat, result: nat, place: nat)
    requires place == 0x80 || place == 0x4000 || place == 0x20_0000 || place == 0x1000_0000
    requires result < place && result + v * place < BITS_32
    ensures (result + v % 128 * place) % BITS_32 == result + v % 128 * place
    ensures v < 128 ==> (place == 0x1000_0000 ==> v < 16)
    ensures v >= 128 ==> place < 0x1000_0000
    ensures result + v % 128 * place < 128 * place
    ensures result + v % 128 * place + v / 128 * (128 * place) == result + v * place
  {
    assert v == v % 128 + 128 * (v / 128);
    if place == 0x80 {
    } else if place == 0x4000 {
    } else if place == 0x20_0000 {
    }
  }

  /** The number that `result` becomes with `v` at bit `bitpos`. */
  function Whole(v: nat, result: nat, bitpos: nat): nat {
    result + v * Place(bitpos)
  }

  lemma PlaceAdds(v: nat, result: nat, bitpos: nat)
    requires bitpos == 7 || bitpos == 14 || bitpos == 21 || bitpos == 28
    requires result < Place(bitpos) && Whole(v, result, bitpos) < BITS_32
    ensures v < 128 ==> AddBits(result, v, bitpos) == Whole(v, result, bitpos) && (bitpos == 28 ==> v < 16)
    ensures v >= 128 ==>
              && bitpos < 28
              && AddBits(result, v % 128, bitpos) < Place(bitpos + 7)
              && Whole(v / 128, AddBits(result, v % 128, bitpos), bitpos + 7) == Whole(v, result, bitpos)
  {
    BitsAdd(v, result, Place(bitpos));
  }

  /** The encoding of a number is read back, from any place in it. */
  lemma {:induction false} Varint32RestReads(v: nat, result: nat, bitpos: nat, rest: Bytes)
    requires bitpos == 7 || bitpos == 14 || bitpos == 21 || bitpos == 28
    requires result < BITS_32 && result < Place(bitpos) && Whole(v, result, bitpos) < BITS_32
    ensures Varint32Rest(result, bitpos, Varint(v) + rest) == Some((Whole(v, result, bitpos), rest))
    decreases v
  {
    hide AddBits, Place, Whole;
    PlaceAdds(v, result, bitpos);
    var b := Varint(v) + rest;
    if v < 128 {
      assert b[1..] == rest;
    } else {
      assert b[1..] == Varint(v / 128) + rest;
      Varint32RestReads(v / 128, AddBits(result, v % 128, bitpos), bitpos + 7, rest);
    }
  }

  lemma Varint32Reads(v: nat, rest: Bytes)
    requires v < BITS_32
    ensures Varint32(Varint(v) + rest) == Some((v, rest))
  {
    var b := Varint(v) + rest;
    if v < 128 {
      assert b[1..] == rest;
    } else {
      assert b[1..] == Varint(v / 128) + rest;
      Varint32RestReads(v / 128, v % 128, 7, rest);
    }
  }

  /** What may stand above a negative 32-bit number: bit 63, and seven by seven only zeros or only ones. */
  predicate SignBits(r: nat, bitpos: nat)
    decreases 63 - bitpos
  {
    if bitpos >= 63 then r == 1
    else r >= 128 && (r % 128 == 0 || r % 128 == 127) && SignBits(r / 128, bitpos + 7)
  }

  lemma {:induction false} SignBitsRead(result: nat, r: nat, bitpos: nat, room: nat, rest: Bytes)
    requires result < BITS_32 && 0 < r < room
    requires (bitpos == 35 && room == 0x2000_0000) || (bitpos == 42 && room == 0x40_0000) ||
             (bitpos == 49 && room == 0x8000) || (bitpos == 56 && room == 0x100) || (bitpos == 63 && room == 2)
    ensures Varint32Rest(result, bitpos, Varint(r) + rest) ==
            if result >= 0x8000_0000 && SignBits(r, bitpos) then Some((result, rest)) else None
    decreases room
  {
    var b := Varint(r) + rest;
    if r < 128 {
      assert b[1..] == rest;
    } else {
      assert b[1..] == Varint(r / 128) + rest;
      SignBitsRead(result, r / 128, bitpos + 7, room / 128, rest);
    }
  }

  lemma NoSignBits()
    ensures !SignBits(0, 35)
  {
  }

  lemma LongReads(v: nat, result: nat, bitpos: nat, rest: Bytes)
    requires bitpos == 7 || bitpos == 14 || bitpos == 21 || bitpos == 28
    requires result < Place(bitpos) && v >= 128
    ensures Varint32Rest(result, bitpos, Varint(v) + rest) ==
            Varint32Rest(AddBits(result, v % 128, bitpos), bitpos + 7, Varint(v / 128) + rest)
  {
    hide AddBits;
    assert (Varint(v) + rest)[1..] == Varint(v / 128) + rest;
  }

  lemma TooManyBits(v: nat, result: nat, rest: Bytes)
    requires 16 <= v < 128 && result < BITS_32
    ensures Varint32Rest(result, 28, Varint(v) + rest) == None
  {
  }

  /** Of the 64-bit numbers the 32-bit decoder takes exactly those below 2^32 and those that look like the sign
      extension of a negative number; of these it takes the low 32 bits. */
  lemma Varint32Exactly(v: nat, rest: Bytes)
    requires v < BITS_64
    ensures Varint32(Varint(v) + rest) ==
            if v < BITS_32 || (v % BITS_32 >= 0x8000_0000 && SignBits(v / 0x8_0000_0000, 35))
            then Some((v % BITS_32, rest)) else None
  {
    hide Varint32Rest, Varint, SignBits, AddBits, Place;
    if v < BITS_32 {
      Varint32Reads(v, rest);
    } else {
      FirstLong(v, rest);
      var r1, r2, r3, r4 := v % 128, v % 0x4000, v % 0x20_0000, v % 0x1000_0000;
      Quotients(v);
      AddFirst(v);
      AddSecond(v);
      AddThird(v);
      AddFourth(v);
      LongReads(v / 128, r1, 7, rest);
      LongReads(v / 0x4000, r2, 14, rest);
      LongReads(v / 0x20_0000, r3, 21, rest);
      if v / 0x1000_0000 < 128 {
        TooManyBits(v / 0x1000_0000, r4, rest);
        NoSignBits();
      } else {
        LongReads(v / 0x1000_0000, r4, 28, rest);
        SignBitsRead(v % BITS_32, v / 0x8_0000_0000, 35, 0x2000_0000, rest);
      }
    }
  }

  lemma FirstLong(v: nat, rest: Bytes)
    requires v >= 128
    ensures Varint32(Varint(v) + rest) == Varint32Rest(v % 128, 7, Varint(v / 128) + rest)
  {
    assert (Varint(v) + rest)[1..] == Varint(v / 128) + rest;
  }

  lemma Quotients(v: nat)
    requires BITS_32 <= v < BITS_64
    ensures v / 128 / 128 == v / 0x4000 && v / 0x4000 / 128 == v / 0x20_0000 && v / 0x20_0000 / 128 == v / 0x1000_0000
    ensures v / 0x1000_0000 / 128 == v / 0x8_0000_0000 < 0x2000_0000 && v / 0x1000_0000 >= 16
    ensures v / 128 >= 128 && v / 0x4000 >= 128 && v / 0x20_0000 >= 128
  {
  }

  lemma AddFirst(v: nat)
    ensures v % 128 < Place(7) && AddBits(v % 128, v / 128 % 128, 7) == v % 0x4000
  {
    var low, t := v % 128, v / 128;
    AddFirstBits(v, low, t % 128, t / 128);
  }

  lemma AddFirstBits(v: nat, low: nat, bits: nat, rest: nat)
    requires v == low + 128 * (bits + 128 * rest) && low < 128 && bits < 128
    ensures AddBits(low, bits, 7) == v % 0x4000
  {
    assert v == low + bits * 128 + 0x4000 * rest;
  }

  lemma AddSecond(v: nat)
    ensures v % 0x4000 < Place(14) && AddBits(v % 0x4000, v / 0x4000 % 128, 14) == v % 0x20_0000
  {
    var low, t := v % 0x4000, v / 0x4000;
    AddSecondBits(v, low, t % 128, t / 128);
  }

  lemma AddSecondBits(v: nat, low: nat, bits: nat, rest: nat)
    requires v == low + 0x4000 * (bits + 128 * rest) && low < 0x4000 && bits < 128
    ensures AddBits(low, bits, 14) == v % 0x20_0000
  {
    assert v == low + bits * 0x4000 + 0x20_0000 * rest;
  }

  lemma AddThird(v: nat)
    ensures v % 0x20_0000 < Place(21) && AddBits(v % 0x20_0000, v / 0x20_0000 % 128, 21) == v % 0x1000_0000
  {
    var low, t := v % 0x20_0000, v / 0x20_0000;
    AddThirdBits(v, low, t % 128, t / 128);
  }

  lemma AddThirdBits(v: nat, low: nat, bits: nat, rest: nat)
    requires v == low + 0x20_0000 * (bits + 128 * rest) && low < 0x20_0000 && bits < 128
    ensures AddBits(low, bits, 21) == v % 0x1000_0000
  {
    assert v == low + bits * 0x20_0000 + 0x1000_0000 * rest;
  }

  lemma AddFourth(v: nat)
    ensures v % 0x1000_0000 < Place(28) && AddBits(v % 0x1000_0000, v / 0x1000_0000 % 128, 28) == v % BITS_32
  {
    var low, t := v % 0x1000_0000, v / 0x1000_0000;
    var bits, rest := t % 128, t / 128;
    AddFourthBits(v, low, bits % 16, bits / 16, rest);
  }

  lemma AddFourthBits(v: nat, low: nat, bits: nat, over: nat, rest: nat)
    requires v == low + 0x1000_0000 * (bits + 16 * over + 128 * rest) && low < 0x1000_0000 && bits < 16
    ensures AddBits(low, bits + 16 * over, 28) == v % BITS_32
  {
    var sum := low + bits * 0x1000_0000;
    Wraps(sum, over);
    Wraps(sum, over + 8 * rest);
  }

  lemma Wraps(x: nat, k: nat)
    requires x < BITS_32
    ensures (x + k * BITS_32) % BITS_32 == x
  {
  }

  function ToSigned(v: nat, half: nat): int {
    if v >= half then v - 2 * half else v
  }

  /** The number that a variable-width field takes from 64 bits, unless it is too large for the field.  Fields narrower
      than 64 bits take the low 32 bits of a signed number, for encoders that do not extend the sign. */
  function FieldNumber(f: Field, v: nat): Option<int> {
    var half := Half(f.dataSize);
    if f.ltype.UInt? then if v < 2 * half then Some(v) else None
    else
      var i := if f.ltype.SInt? then UnZigZag(v)
               else if f.dataSize == 8 then ToSigned(v, 0x8000_0000_0000_0000)
               else ToSigned(v % BITS_32, 0x8000_0000);
      if -half <= i < half then Some(i) else None
  }

  function UnZigZag(v: nat): int {
    if v % 2 == 1 then -(v / 2) - 1 else v / 2
  }

  lemma ZigZagRoundTrip(i: int)
    ensures UnZigZag(ZigZag(i)) == i
  {
  }

  lemma SignExtends(i: int)
    ensures -0x8000_0000 <= i < 0x8000_0000 ==> ToSigned(i % BITS_64 % BITS_32, 0x8000_0000) == i
    ensures -0x8000_0000_0000_0000 <= i < 0x8000_0000_0000_0000 ==> ToSigned(i % BITS_64, 0x8000_0000_0000_0000) == i
  {
    if -0x8000_0000_0000_0000 <= i < 0 {
      assert i % BITS_64 == i + BITS_64;
      assert (i + BITS_64) % BITS_32 == i % BITS_32;
    }
  }

  lemma SmallerHalves(size: nat)
    requires IsIntSize(size)
    ensures Half(size) <= if size == 8 then 0x8000_0000_0000_0000 else 0x8000_0000
  {
  }

  /** Signed, unsigned and zig-zag numbers are taken back, whatever the width of the field. */
  lemma FieldNumberReads(f: Field, i: int)
    requires IsIntSize(f.dataSize) && (f.ltype.Int? || f.ltype.UInt? || f.ltype.SInt?)
    requires if f.ltype.UInt? then 0 <= i < 2 * Half(f.dataSize) else -Half(f.dataSize) <= i < Half(f.dataSize)
    ensures FieldNumber(f, (if f.ltype.SInt? then ZigZag(i) else i) % BITS_64) == Some(i)
  {
    hide Half, ToSigned, UnZigZag;
    ZigZagRoundTrip(i);
    SignExtends(i);
    SmallerHalves(f.dataSize);
  }

  // ---- values ----

  function DefaultValue(f: Field): Value
    decreases f, 0
  {
    match f.ltype
    case Bool => BoolV(false)
    case ByteArray => BytesV([])
    case CString => BytesV([])
    case Submessage(d) => MessageV(Default(d))
    case FixedBytes => BytesV(Zeros(f.dataSize))
    case _ => IntV(0)
  }

  function DefaultSlot(f: Field): Slot
    decreases f, 1
  {
    match f.htype
    case Required => One(DefaultValue(f))
    case Repeated => Many([])
    case _ => Maybe(None)
  }

  /** Optional fields absent, arrays empty, required fields zero. */
  function Default(d: Desc): (m: Message)
    ensures |m.slots| == |d.fields|
    ensures forall i :: 0 <= i < |d.fields| ==> m.slots[i] == DefaultSlot(d.fields[i])
    decreases d
  {
    Message(seq(|d.fields|, i requires 0 <= i < |d.fields| => DefaultSlot(d.fields[i])))
  }

  /** A text ends before its first zero byte. */
  function UpToZero(s: Bytes): (t: Bytes)
    ensures |t| <= |s| && forall k :: 0 <= k < |t| ==> t[k] != 0
  {
    if s == [] || s[0] == 0 then [] else [s[0]] + UpToZero(s[1..])
  }

  /** A value of field `f` at the front of `b`.  A message that is not an array element is read into what is there,
      `was`. */
  function DecodeValue(f: Field, was: Value, b: Bytes): (r: Option<(Value, Bytes)>)
    ensures r.Some? ==> |r.value.1| < |b|
    decreases f, |b|, 0
  {
    match f.ltype
    case Bool =>
      (match Varint32(b)
       case None => None
       case Some((v, rest)) => Some((BoolV(v != 0), rest)))
    case Fixed32 => if |b| < 4 then None else Some((IntV(Unfixed(b[..4])), b[4..]))
    case Fixed64 => if |b| < 8 then None else Some((IntV(Unfixed(b[..8])), b[8..]))
    case ByteArray =>
      (match Substring(b)
       case None => None
       case Some((s, rest)) => if |s| + BYTES_HEADER > f.dataSize then None else Some((BytesV(s), rest)))
    case CString =>
      (match Substring(b)
       case None => None
       case Some((s, rest)) =>
         if |s| + 1 == BITS_32 || |s| + 1 > f.dataSize then None else Some((BytesV(UpToZero(s)), rest)))
    case FixedBytes =>
      (match Substring(b)
       case None => None
       case Some((s, rest)) =>
         if s == [] then Some((BytesV(Zeros(f.dataSize)), rest))
         else if |s| != f.dataSize then None
         else Some((BytesV(s), rest)))
    case Submessage(d) =>
      (match Substring(b)
       case None => None
       case Some((s, rest)) =>
         var start := if f.htype.Repeated? || !was.MessageV? then Default(d) else was.m;
         match DecodeInto(d, start, s)
         case None => None
         case Some(m) => Some((MessageV(m), rest)))
    case _ =>
      (match DecodeVarint64(b)
       case None => None
       case Some((v, rest)) =>
         match FieldNumber(f, v)
         case None => None
         case Some(i) => Some((IntV(i), rest)))
  }

  function DecodeVarint64(b: Bytes): (r: Option<(nat, Bytes)>)
    ensures r.Some? ==> r.value.0 < BITS_64 && |r.value.1| < |b|
  {
    ParseVarintConsumes(b, 10);
    GetVarint64(b)
  }

  /** A length, and that many bytes. */
  function Substring(b: Bytes): (r: Option<(Bytes, Bytes)>)
    ensures r.Some? ==> |r.value.0| + |r.value.1| < |b| && |r.value.0| < BITS_32
  {
    match Varint32(b)
    case None => None
    case Some((n, rest)) => if |rest| < n then None else Some((rest[..n], rest[n..]))
  }

  /** All of `b` as elements that follow `vs`. */
  function DecodePacked(f: Field, vs: seq<Value>, b: Bytes): Option<seq<Value>>
    decreases f, |b|, 1
  {
    if b == [] then Some(vs)
    else if |vs| >= f.arraySize then None
    else match DecodeValue(f, DefaultValue(f), b)
      case None => None
      case Some((v, rest)) => DecodePacked(f, vs + [v], rest)
  }

  /** What slot `s` becomes. */
  function DecodeSlot(f: Field, s: Slot, wire: nat, b: Bytes): (r: Option<(Slot, Bytes)>)
    ensures r.Some? ==> |r.value.1| < |b|
    decreases f, |b|, 2
  {
    match (f.htype, s)
    case (Required, One(was)) =>
      (match DecodeValue(f, was, b)
       case None => None
       case Some((v, rest)) => Some((One(v), rest)))
    case (Repeated, Many(vs)) =>
      if wire == 2 && Packable(f.ltype) then
        match Substring(b)
        case None => None
        case Some((items, rest)) =>
          match DecodePacked(f, vs, items)
          case None => None
          case Some(all) => Some((Many(all), rest))
      else if |vs| >= f.arraySize then None
      else (match DecodeValue(f, DefaultValue(f), b)
            case None => None
            case Some((v, rest)) => Some((Many(vs + [v]), rest)))
    case (_, Maybe(o)) =>
      (match DecodeValue(f, if o == None then DefaultValue(f) else o.value, b)
       case None => None
       case Some((v, rest)) => Some((Maybe(Some(v)), rest)))
    case _ => None
  }

  // ---- messages ----

  /** The field with a tag. */
  function FieldIndex(d: Desc, tag: nat): (r: Option<nat>)
    ensures r.Some? ==> r.value < |d.fields| && d.fields[r.value].tag == tag
    ensures r == None ==> forall i :: 0 <= i < |d.fields| ==> d.fields[i].tag != tag
  {
    FieldIndexFrom(d, tag, 0)
  }

  function FieldIndexFrom(d: Desc, tag: nat, i: nat): (r: Option<nat>)
    ensures r.Some? ==> r.value < |d.fields| && d.fields[r.value].tag == tag
    ensures r == None ==> forall j :: i <= j < |d.fields| ==> d.fields[j].tag != tag
    decreases |d.fields| - i
  {
    if i >= |d.fields| then None
    else if d.fields[i].tag == tag then Some(i)
    else FieldIndexFrom(d, tag, i + 1)
  }

  function SkipVarint(b: Bytes): (r: Option<Bytes>)
    ensures r.Some? ==> |r.value| < |b|
  {
    if b == [] then None else if b[0] < 128 then Some(b[1..]) else SkipVarint(b[1..])
  }

  /** What comes after a field that the message does not have. */
  function Skip(wire: nat, b: Bytes): (r: Option<Bytes>)
    ensures r.Some? ==> |r.value| <= |b|
  {
    if wire == 0 then SkipVarint(b)
    else if wire == 1 then if |b| < 8 then None else Some(b[8..])
    else if wire == 2 then
      match Substring(b)
      case None => None
      case Some((s, rest)) => Some(rest)
    else if wire == 5 then if |b| < 4 then None else Some(b[4..])
    else None
  }

  /** Slot `i` set to `s`; other members of its oneof lose what they had. */
  function PutSlot(d: Desc, m: Message, i: nat, s: Slot): (r: Message)
    requires |m.slots| == |d.fields| && i < |d.fields|
    ensures |r.slots| == |d.fields|
    ensures forall j :: 0 <= j < |d.fields| ==>
              r.slots[j] ==
                    if j == i then s else if SameOneof(d.fields[i], d.fields[j]) then Maybe(None) else m.slots[j]
  {
    Message(seq(|d.fields|, j requires 0 <= j < |d.fields| =>
      if j == i then s else if SameOneof(d.fields[i], d.fields[j]) then Maybe(None) else m.slots[j]))
  }

  /** A message being read: what it is so far, the fields seen, and the bytes left. */
  datatype Partial = Partial(m: Message, seen: set<nat>, rest: Bytes)

  /** The field whose tag and wire type are `key`.  In a message without fields, the terminator of its field table
      matches tag 0, and takes a bool. */
  function DecodeField(d: Desc, p: Partial, key: nat): (r: Option<Partial>)
    requires |p.m.slots| == |d.fields|
    ensures r.Some? ==> |r.value.rest| <= |p.rest| && |r.value.m.slots| == |d.fields|
    decreases d, |p.rest|, 0
  {
    match FieldIndex(d, key / 8)
    case Some(i) =>
      (match DecodeSlot(d.fields[i], p.m.slots[i], key % 8, p.rest)
       case None => None
       case Some((s, rest)) => Some(Partial(PutSlot(d, p.m, i, s), p.seen + {i}, rest)))
    case None =>
      if d.fields == [] && key / 8 == 0 then
        match Varint32(p.rest)
        case None => None
        case Some((v, rest)) => Some(p.(rest := rest))
      else
        match Skip(key % 8, p.rest)
        case None => None
        case Some(rest) => Some(p.(rest := rest))
  }

  /** Field after field, until the bytes end or a zero takes the place of a tag. */
  function DecodeFields(d: Desc, p: Partial): (r: Option<Partial>)
    requires |p.m.slots| == |d.fields|
    ensures r.Some? ==> |r.value.m.slots| == |d.fields|
    decreases d, |p.rest|, 1
  {
    if p.rest == [] then Some(p)
    else match Varint32(p.rest)
      case None => None
      case Some((key, rest)) =>
        if key == 0 then Some(p.(rest := rest))
        else match DecodeField(d, p.(rest := rest), key)
          case None => None
          case Some(q) => DecodeFields(d, q)
  }

  /** How many required fields come before the `i`-th. */
  function RequiredBefore(d: Desc, i: nat): nat
    requires i <= |d.fields|
  {
    if i == 0 then 0 else RequiredBefore(d, i - 1) + if d.fields[i - 1].htype.Required? then 1 else 0
  }

  const MAX_REQUIRED_FIELDS: nat := 64

  /** The first 64 required fields are checked for. */
  predicate RequiredSeen(d: Desc, seen: set<nat>) {
    forall i: nat :: i < |d.fields| && d.fields[i].htype.Required? && RequiredBefore(d, i) < MAX_REQUIRED_FIELDS ==>
          i in seen
  }

  function DecodeInto(d: Desc, start: Message, b: Bytes): (r: Option<Message>)
    ensures r.Some? ==> |r.value.slots| == |d.fields|
    decreases d, |b|, 2
  {
    if |start.slots| != |d.fields| then None
    else match DecodeFields(d, Partial(start, {}, b))
      case None => None
      case Some(p) => if RequiredSeen(d, p.seen) then Some(p.m) else None
  }

  function Decode(d: Desc, b: Bytes): Option<Message> {
    DecodeInto(d, Default(d), b)
  }
}
