/** Protobuf messages described by field descriptors, and their encoding in the wire format of the Protocol Buffers
    Encoding guide, sections "Base 128 Varints" and "Message Structure". */
module Nanopb {
  import opened Wrappers
  import opened Bytewise
  import opened Coding

  // Where the bytes of a byte array begin in its struct: behind a length of 32 bits, as nanopb is built with
  // PB_FIELD_32BIT.
  const BYTES_HEADER: nat := 4

  // Int, UInt and SInt are the plain, unsigned and zig-zag numbers of variable width.
  datatype LType =
    | Bool | Int | UInt | SInt | Fixed32 | Fixed64
    | ByteArray | CString | Submessage(desc: Desc) | FixedBytes

  // The members of a oneof share storage and a tag that says which of them is set.
  datatype HType = Required | Optional | Repeated | Oneof(group: nat)

  // `dataOffset` is the distance from the end of the field before, `sizeOffset` that from the data to its count or
  // flag.
  datatype Field = Field(tag: nat, ltype: LType, htype: HType, dataSize: nat, arraySize: nat, dataOffset: nat,
                         sizeOffset: int)
  datatype Desc = Desc(fields: seq<Field>)

  datatype Value = BoolV(b: bool) | IntV(i: int) | BytesV(s: Bytes) | MessageV(m: Message)

  /** What a struct holds for a field: a value, a value that may be absent, or a counted array. */
  datatype Slot = One(v: Value) | Maybe(o: Option<Value>) | Many(vs: seq<Value>)
  datatype Message = Message(slots: seq<Slot>)

  // ---- well-formed descriptors and messages ----

  predicate IsIntSize(n: nat) {
    n == 1 || n == 2 || n == 4 || n == 8
  }

  predicate FieldOk(f: Field)
    decreases f
  {
    && 0 < f.tag < 0x2000_0000
    && ((f.ltype.Int? || f.ltype.UInt? || f.ltype.SInt?) ==> IsIntSize(f.dataSize))
    && ((f.ltype.CString? || f.ltype.FixedBytes?) ==> f.dataSize > 0)
    && (f.ltype.ByteArray? ==> f.dataSize >= BYTES_HEADER)
    && (f.ltype.Submessage? ==> DescOk(f.ltype.desc))
  }

  /** Tags are not zero, fit the wire format and differ; so it is for messages inside. */
  predicate DescOk(d: Desc)
    decreases d
  {
    && (forall i :: 0 <= i < |d.fields| ==> FieldOk(d.fields[i]))
    && (forall i, j :: 0 <= i < j < |d.fields| ==> d.fields[i].tag != d.fields[j].tag)
  }

  function Half(size: nat): int {
    if size == 1 then 0x80 else if size == 2 then 0x8000 else if size == 4 then 0x8000_0000 else 0x8000_0000_0000_0000
  }

  predicate ValueTyped(f: Field, v: Value)
    decreases f, 0
  {
    match f.ltype
    case Bool => v.BoolV?
    case Int => v.IntV? && -Half(f.dataSize) <= v.i < Half(f.dataSize)
    case UInt => v.IntV? && 0 <= v.i < 2 * Half(f.dataSize)
    case SInt => v.IntV? && -Half(f.dataSize) <= v.i < Half(f.dataSize)
    case Fixed32 => v.IntV? && 0 <= v.i < BITS_32
    case Fixed64 => v.IntV? && 0 <= v.i < BITS_64
    case ByteArray => v.BytesV?
    case CString => v.BytesV? && |v.s| <= f.dataSize && forall k :: 0 <= k < |v.s| ==> v.s[k] != 0
    case Submessage(d) => v.MessageV? && WellTyped(d, v.m)
    case FixedBytes => v.BytesV? && |v.s| == f.dataSize
  }

  predicate SlotTyped(f: Field, s: Slot)
    decreases f, 1
  {
    match f.htype
    case Required => s.One? && ValueTyped(f, s.v)
    case Repeated => s.Many? && forall k :: 0 <= k < |s.vs| ==> ValueTyped(f, s.vs[k])
    case _ => s.Maybe? && (s.o.Some? ==> ValueTyped(f, s.o.value))
  }

  /** Each slot is of its field's type, and of each oneof at most one member is set. */
  predicate WellTyped(d: Desc, m: Message)
    decreases d
  {
    && |m.slots| == |d.fields|
    && (forall i :: 0 <= i < |d.fields| ==> SlotTyped(d.fields[i], m.slots[i]))
    && (forall i, j :: 0 <= i < j < |d.fields| && SameOneof(d.fields[i], d.fields[j]) && m.slots[i].o.Some? ==>
          m.slots[j].o == None)
  }

  predicate SameOneof(f: Field, g: Field) {
    f.htype.Oneof? && f.htype == g.htype
  }

  // ---- encoding ----

  function WireType(t: LType): nat {
    match t
    case Fixed32 => 5
    case Fixed64 => 1
    case ByteArray => 2
    case CString => 2
    case Submessage(_) => 2
    case FixedBytes => 2
    case _ => 0
  }

  predicate Packable(t: LType) {
    t.Bool? || t.Int? || t.UInt? || t.SInt? || t.Fixed32? || t.Fixed64?
  }

  function TagBytes(tag: nat, wireType: nat): Bytes {
    Varint(8 * tag + wireType)
  }

  /** Small magnitudes to small numbers, whatever the sign. */
  function ZigZag(i: int): nat {
    if i < 0 then -2 * i - 1 else 2 * i
  }

  function EncodeValue(f: Field, v: Value): Bytes
    decreases f, 0
  {
    match (f.ltype, v)
    case (Bool, BoolV(b)) => Varint(if b then 1 else 0)
    case (Int, IntV(i)) => Varint(i % BITS_64)
    case (UInt, IntV(i)) => Varint(i % BITS_64)
    case (SInt, IntV(i)) => Varint(ZigZag(i) % BITS_64)
    case (Fixed32, IntV(i)) => Fixed(i % BITS_32, 4)
    case (Fixed64, IntV(i)) => Fixed(i % BITS_64, 8)
    case (ByteArray, BytesV(s)) => LengthPrefixed(s)
    case (CString, BytesV(s)) => LengthPrefixed(s)
    case (FixedBytes, BytesV(s)) => LengthPrefixed(s)
    case (Submessage(d), MessageV(m)) => LengthPrefixed(EncodeFrom(d, m, 0))
    case _ => []
  }

  /** Array elements from the `k`-th on, one after the other. */
  function EncodeItems(f: Field, vs: seq<Value>, k: nat): Bytes
    decreases f, 1, |vs| - k
  {
    if k >= |vs| then [] else EncodeValue(f, vs[k]) + EncodeItems(f, vs, k + 1)
  }

  /** The same, each with its tag. */
  function EncodeTagged(f: Field, vs: seq<Value>, k: nat): Bytes
    decreases f, 1, |vs| - k
  {
    if k >= |vs| then [] else TagBytes(f.tag, WireType(f.ltype)) + EncodeValue(f, vs[k]) + EncodeTagged(f, vs, k + 1)
  }

  function EncodeField(f: Field, s: Slot): Bytes
    decreases f, 2
  {
    match s
    case One(v) => TagBytes(f.tag, WireType(f.ltype)) + EncodeValue(f, v)
    case Maybe(o) => if o == None then [] else TagBytes(f.tag, WireType(f.ltype)) + EncodeValue(f, o.value)
    case Many(vs) =>
      if vs == [] then []
      else if Packable(f.ltype) then TagBytes(f.tag, 2) + LengthPrefixed(EncodeItems(f, vs, 0))
      else EncodeTagged(f, vs, 0)
  }

  /** The fields from the `i`-th on. */
  function EncodeFrom(d: Desc, m: Message, i: nat): Bytes
    decreases d, |d.fields| - i
  {
    if i >= |d.fields| || i >= |m.slots| then [] else EncodeField(d.fields[i], m.slots[i]) + EncodeFrom(d, m, i + 1)
  }

  function Encode(d: Desc, m: Message): Bytes {
    EncodeFrom(d, m, 0)
  }

  // ---- what fits the struct that it is decoded into ----

  predicate ValueFits(f: Field, v: Value)
    decreases f, 0
  {
    match (f.ltype, v)
    case (ByteArray, BytesV(s)) => |s| + BYTES_HEADER <= f.dataSize
    case (CString, BytesV(s)) => |s| < f.dataSize
    case (Submessage(d), MessageV(m)) => Fits(d, m)
    case _ => true
  }

  predicate SlotFits(f: Field, s: Slot)
    decreases f, 1
  {
    match s
    case One(v) => ValueFits(f, v)
    case Maybe(o) => o.Some? ==> ValueFits(f, o.value)
    case Many(vs) => |vs| <= f.arraySize && forall k :: 0 <= k < |vs| ==> ValueFits(f, vs[k])
  }

  /** Arrays, byte strings and texts (with the zero byte that ends them) fit the sizes in the descriptor. */
  predicate Fits(d: Desc, m: Message)
    decreases d
  {
    |m.slots| == |d.fields| && forall i :: 0 <= i < |d.fields| ==> SlotFits(d.fields[i], m.slots[i])
  }
}
