/** The encoder: output streams that write to a buffer or only count, and the passes over a message. */
module NanopbEncoder {
  import opened Wrappers
  import opened Bytewise
  import opened Coding
  import opened Nanopb
  import opened NanopbIter

  // ---- what can be encoded ----

  predicate ValueEncodable(f: Field, v: Value)
    decreases f, 0
  {
    match (f.ltype, v)
    case (ByteArray, BytesV(s)) => |s| + BYTES_HEADER <= f.dataSize
    case (Submessage(d), MessageV(m)) => Encodable(d, m, 0)
    case _ => true
  }

  predicate ItemsEncodable(f: Field, vs: seq<Value>, k: nat)
    decreases f, 1, |vs| - k
  {
    k >= |vs| || (ValueEncodable(f, vs[k]) && ItemsEncodable(f, vs, k + 1))
  }

  predicate SlotEncodable(f: Field, s: Slot)
    decreases f, 2
  {
    match s
    case One(v) => ValueEncodable(f, v)
    case Maybe(o) => o.Some? ==> ValueEncodable(f, o.value)
    case Many(vs) => |vs| <= f.arraySize && ItemsEncodable(f, vs, 0)
  }

  /** From the `i`-th field on, no array or byte string is larger than its descriptor says. */
  predicate Encodable(d: Desc, m: Message, i: nat)
    decreases d, |d.fields| - i
  {
    i >= |d.fields| || i >= |m.slots| || (SlotEncodable(d.fields[i], m.slots[i]) && Encodable(d, m, i + 1))
  }

  /** A byte string longer than its array in the struct. */
  predicate TooLong(f: Field, v: Value) {
    f.ltype.ByteArray? && v.BytesV? && 4 + |v.s| > f.dataSize
  }

  lemma {:induction false} TooLongInItems(f: Field, vs: seq<Value>, k: nat, j: nat)
    requires k <= j < |vs| && TooLong(f, vs[j])
    ensures !ItemsEncodable(f, vs, k)
    decreases j - k
  {
    if k < j {
      TooLongInItems(f, vs, k + 1, j);
    }
  }

  predicate Overlong(f: Field, s: Slot) {
    match s
    case One(v) => TooLong(f, v)
    case Maybe(o) => o.Some? && TooLong(f, o.value)
    case Many(vs) => |vs| > f.arraySize || exists k :: 0 <= k < |vs| && TooLong(f, vs[k])
  }

  lemma OverlongSlot(f: Field, s: Slot)
    requires Overlong(f, s)
    ensures !SlotEncodable(f, s)
  {
    if s.Many? && |s.vs| <= f.arraySize {
      var k: nat :| k < |s.vs| && TooLong(f, s.vs[k]);
      TooLongInItems(f, s.vs, 0, k);
    }
  }

  /** A message with an array or a byte string that is too long for its struct is not encoded. */
  lemma {:induction false} OverlongIsRefused(d: Desc, m: Message, i: nat, j: nat)
    requires i <= j < |d.fields| && j < |m.slots| && Overlong(d.fields[j], m.slots[j])
    ensures !Encodable(d, m, i)
    decreases j - i
  {
    hide Overlong, SlotEncodable;
    OverlongSlot(d.fields[j], m.slots[j]);
    if i < j {
      OverlongIsRefused(d, m, i + 1, j);
    }
  }

  lemma {:induction false} ItemsFit(f: Field, vs: seq<Value>, k: nat)
    requires forall j :: k <= j < |vs| ==> ValueFits(f, vs[j])
    ensures ItemsEncodable(f, vs, k)
    decreases f, 1, |vs| - k
  {
    hide ValueFits, ValueEncodable;
    if k < |vs| {
      FittingValue(f, vs[k]);
      ItemsFit(f, vs, k + 1);
    }
  }

  lemma {:induction false} FittingValue(f: Field, v: Value)
    requires ValueFits(f, v)
    ensures ValueEncodable(f, v)
    decreases f, 0
  {
    hide Fits, Encodable;
    if f.ltype.Submessage? && v.MessageV? {
      FittingMessage(f.ltype.desc, v.m, 0);
    }
  }

  lemma {:induction false} FittingMessage(d: Desc, m: Message, i: nat)
    requires Fits(d, m)
    ensures Encodable(d, m, i)
    decreases d, |d.fields| - i
  {
    if i < |d.fields| {
      hide ValueFits, ValueEncodable, ItemsEncodable;
      var f := d.fields[i];
      assert SlotFits(f, m.slots[i]);
      match m.slots[i] {
        case One(v) => FittingValue(f, v);
        case Maybe(o) =>
          if o.Some? {
            FittingValue(f, o.value);
          }
        case Many(vs) => ItemsFit(f, vs, 0);
      }
      FittingMessage(d, m, i + 1);
    }
  }

  // ---- output ----

  datatype Output = Output(sizing: bool, maxSize: nat, bytesWritten: nat, contents: Bytes)

  /** The outcome of writing `e`: it is written, or counted, exactly if there is room for it and it could be encoded at
      all. On failure a part of it may have been written. */
  predicate Emits(was: Output, now: Output, e: Bytes, possible: bool, ok: bool) {
    && now.sizing == was.sizing && now.maxSize == was.maxSize
    && ok == (possible && (was.sizing || was.bytesWritten + |e| <= was.maxSize))
    && (ok ==> now.bytesWritten == was.bytesWritten + |e|)
    && (ok ==> now.contents == was.contents + if was.sizing then [] else e)
    && (!ok ==> was.contents <= now.contents)
  }

  lemma EmitsBoth(a: Output, b: Output, c: Output, e: Bytes, p: bool, f: Bytes, q: bool, ok: bool)
    requires Emits(a, b, e, p, true) && Emits(b, c, f, q, ok)
    ensures Emits(a, c, e + f, p && q, ok)
  {
    if a.sizing {
      assert a.contents + [] + [] == a.contents + [];
    } else {
      assert a.contents + e + f == a.contents + (e + f);
    }
  }

  lemma EmitsPart(a: Output, b: Output, e: Bytes, p: bool, f: Bytes, q: bool)
    requires Emits(a, b, e, p, false)
    ensures Emits(a, b, e + f, p && q, false)
  {
  }

  lemma EmitsNothing(a: Output)
    requires a.sizing || a.bytesWritten <= a.maxSize
    ensures Emits(a, a, [], true, true)
  {
    assert a.contents + [] == a.contents;
  }

  class OStream {
    const sizing: bool
    const buf: array<byte>
    const maxSize: nat
    var state: nat
    var bytesWritten: nat

    predicate Valid()
      reads this
    {
      !sizing ==> bytesWritten <= maxSize && state + (maxSize - bytesWritten) <= buf.Length
    }

    function Out(): (o: Output)
      requires Valid()
      reads this, buf
      ensures o.sizing || o.bytesWritten <= o.maxSize
    {
      Output(sizing, maxSize, bytesWritten, if sizing then [] else buf[..state])
    }

    constructor FromBuffer(buf: array<byte>, bufSize: nat)
      requires bufSize <= buf.Length
      ensures Valid() && this.buf == buf && Out() == Output(false, bufSize, 0, [])
    {
      sizing, this.buf, maxSize, state, bytesWritten := false, buf, bufSize, 0, 0;
    }

    /** A stream that only counts. */
    constructor Sizing()
      ensures Valid() && fresh(buf) && Out() == Output(true, 0, 0, [])
    {
      sizing, maxSize, state, bytesWritten := true, 0, 0, 0;
      buf := new byte[0];
    }

    /** A stream for `size` bytes from where `stream` is. */
    constructor Substream(stream: OStream, size: nat)
      requires stream.Valid() && !stream.sizing && stream.bytesWritten + size <= stream.maxSize
      ensures Valid() && buf == stream.buf && state == stream.state
      ensures Out() == Output(false, size, 0, stream.Out().contents)
    {
      sizing, buf, maxSize, state, bytesWritten := false, stream.buf, size, stream.state, 0;
    }

    method BufWrite(b: Bytes)
      requires Valid() && !sizing && bytesWritten + |b| <= maxSize
      modifies this`state, buf
      ensures state == old(state) + |b| && state <= buf.Length && buf[..state] == old(buf[..state]) + b
    {
      var dest := state;
      state := dest + |b|;
      var i := 0;
      while i < |b|
        invariant i <= |b| && state == dest + |b|
        invariant buf[..dest] == old(buf[..state])
        invariant forall k :: 0 <= k < i ==> buf[dest + k] == b[k]
      {
        buf[dest + i] := b[i];
        i := i + 1;
      }
      assert buf[..state] == buf[..dest] + b;
    }

    method Write(b: Bytes) returns (ok: bool)
      requires Valid()
      modifies this, buf
      ensures Valid() && Emits(old(Out()), Out(), b, true, ok)
    {
      if |b| > 0 && !sizing {
        if bytesWritten + |b| > maxSize {
          return false;
        }
        BufWrite(b);
      }
      bytesWritten := bytesWritten + |b|;
      ok := true;
      assert old(Out()).contents + [] == old(Out()).contents;
    }

    /** Only the count of what was sized already; `e` is that. */
    method Count(count: nat, ghost e: Bytes) returns (ok: bool)
      requires Valid() && sizing && count == |e|
      modifies this
      ensures Valid() && Emits(old(Out()), Out(), e, true, ok)
    {
      bytesWritten := bytesWritten + count;
      ok := true;
    }

    method EncodeVarint(value: nat) returns (ok: bool)
      requires Valid() && value < BITS_64
      modifies this, buf
      ensures Valid() && Emits(old(Out()), Out(), Varint(value), true, ok)
    {
      hide *;
      var b := VarintBytes(value);
      ok := Write(b);
    }

    method EncodeTag(wireType: nat, tag: nat) returns (ok: bool)
      requires Valid() && tag < BITS_32 && wireType < 8
      modifies this, buf
      ensures Valid() && Emits(old(Out()), Out(), TagBytes(tag, wireType), true, ok)
    {
      hide Emits, Varint;
      ok := EncodeVarint(8 * tag + wireType);
    }

    method EncodeTagForField(f: Field) returns (ok: bool)
      requires Valid() && f.tag < BITS_32
      modifies this, buf
      ensures Valid() && Emits(old(Out()), Out(), TagBytes(f.tag, WireType(f.ltype)), true, ok)
    {
      hide Emits, TagBytes;
      ok := EncodeTag(WireType(f.ltype), f.tag);
    }

    method EncodeSvarint(i: int) returns (ok: bool)
      requires Valid() && -0x8000_0000_0000_0000 <= i < 0x8000_0000_0000_0000
      modifies this, buf
      ensures Valid() && Emits(old(Out()), Out(), Varint(ZigZag(i) % BITS_64), true, ok)
    {
      hide Emits, Varint;
      var shifted := i % BITS_64 * 2 % BITS_64;
      var zigzagged := if i < 0 then BITS_64 - 1 - shifted else shifted;
      ZigZagShifts(i);
      ok := EncodeVarint(zigzagged);
    }

    method EncodeFixed32(val: nat) returns (ok: bool)
      requires Valid() && val < BITS_32
      modifies this, buf
      ensures Valid() && Emits(old(Out()), Out(), Fixed(val, 4), true, ok)
    {
      hide Emits;
      var bytes := [val % 256, val / 0x100 % 256, val / 0x1_0000 % 256, val / 0x100_0000 % 256];
      FixedFour(val);
      ok := Write(bytes);
    }

    method EncodeFixed64(val: nat) returns (ok: bool)
      requires Valid() && val < BITS_64
      modifies this, buf
      ensures Valid() && Emits(old(Out()), Out(), Fixed(val, 8), true, ok)
    {
      hide Emits, Fixed;
      var bytes := [val % 256, val / 0x100 % 256, val / 0x1_0000 % 256, val / 0x100_0000 % 256,
                    val / 0x1_0000_0000 % 256, val / 0x100_0000_0000 % 256, val / 0x1_0000_0000_0000 % 256,
                    val / 0x100_0000_0000_0000 % 256];
      FixedEight(val);
      ok := Write(bytes);
    }

    method EncodeString(b: Bytes) returns (ok: bool)
      requires Valid() && |b| < BITS_64
      modifies this, buf
      ensures Valid() && Emits(old(Out()), Out(), LengthPrefixed(b), true, ok)
    {
      hide Emits, Varint;
      ghost var a := Out();
      ok := EncodeVarint(|b|);
      ghost var m := Out();
      if !ok {
        EmitsPart(a, m, Varint(|b|), true, b, true);
        return;
      }
      ok := Write(b);
      EmitsBoth(a, m, Out(), Varint(|b|), true, b, true, ok);
    }

    // ---- messages ----

    /** The encoder of the field's type. */
    method EncodeValue(f: Field, v: Value) returns (ok: bool)
      requires Valid() && FieldOk(f) && ValueTyped(f, v)
      requires |Nanopb.EncodeValue(f, v)| < BITS_64
      modifies this, buf
      ensures Valid() && Emits(old(Out()), Out(), Nanopb.EncodeValue(f, v), ValueEncodable(f, v), ok)
      decreases f, 0, 0
    {
      hide Emits, Varint, Fixed, DescOk, WellTyped, Encodable, Half, EncodeFrom;
      IntRange(f, v);
      match f.ltype
      case Bool => ok := EncodeVarint(if v.b then 1 else 0);
      case Int => ok := EncodeVarint(v.i % BITS_64);
      case UInt => ok := EncodeVarint(v.i);
      case SInt => ok := EncodeSvarint(v.i);
      case Fixed32 => ok := EncodeFixed32(v.i);
      case Fixed64 => ok := EncodeFixed64(v.i);
      case ByteArray =>
        if |v.s| + BYTES_HEADER > f.dataSize {
          EmitsNever(Out(), LengthPrefixed(v.s));
          return false;
        }
        ok := EncodeString(v.s);
      case CString => ok := EncodeString(v.s);
      case FixedBytes => ok := EncodeString(v.s);
      case Submessage(d) => ok := EncodeSubmessage(d, v.m);
    }

    /** Sizes the message on a stream that only counts, then writes size and message.  The second pass writes exactly
        what the first one counted. */
    method EncodeSubmessage(d: Desc, m: Message) returns (ok: bool)
      requires Valid() && DescOk(d) && WellTyped(d, m)
      requires |LengthPrefixed(Encode(d, m))| < BITS_64
      modifies this, buf
      ensures Valid() && Emits(old(Out()), Out(), LengthPrefixed(Encode(d, m)), Encodable(d, m, 0), ok)
      decreases d, |d.fields| + 2
    {
      hide Emits, Varint, DescOk, WellTyped, Encodable, EncodeFrom;
      ghost var e, p := Encode(d, m), Encodable(d, m, 0);
      ghost var a := Out();
      var sizer := new OStream.Sizing();
      var status := sizer.EncodeMessage(d, m);
      SizingMeans(Output(true, 0, 0, []), sizer.Out(), e, p, status);
      if !status {
        EmitsNever(a, LengthPrefixed(e));
        return false;
      }
      var size := sizer.bytesWritten;
      ok := EncodeVarint(size);
      ghost var b := Out();
      if !ok {
        EmitsPart(a, b, Varint(size), true, e, p);
        return;
      }
      EmittedWhere(a, b, Varint(size));
      if sizing {
        ok := Count(size, e);
        EmitsBoth(a, b, Out(), Varint(size), true, e, true, ok);
        return;
      }
      if bytesWritten + size > maxSize {
        EmitsNoRoom(b, e, p);
        EmitsBoth(a, b, b, Varint(size), true, e, p, false);
        return false;
      }
      ok := WriteSubmessage(d, m, size);
      EmitsBoth(a, b, Out(), Varint(size), true, e, p, ok);
    }

    /** The pass that writes. */
    method WriteSubmessage(d: Desc, m: Message, size: nat) returns (ok: bool)
      requires Valid() && !sizing && bytesWritten + size <= maxSize
      requires DescOk(d) && WellTyped(d, m) && Encodable(d, m, 0) && size == |Encode(d, m)| < BITS_64
      modifies this, buf
      ensures Valid() && ok && Emits(old(Out()), Out(), Encode(d, m), true, ok)
      decreases d, |d.fields| + 1
    {
      hide Varint, DescOk, WellTyped, Encodable, EncodeFrom;
      var sub := new OStream.Substream(this, size);
      ok := sub.EncodeMessage(d, m);
      bytesWritten := bytesWritten + sub.bytesWritten;
      state := sub.state;
      assert sub.bytesWritten == size;  // so "submsg size changed" is never reported
    }

    method EncodeArray(f: Field, vs: seq<Value>) returns (ok: bool)
      requires Valid() && FieldOk(f) && ItemsTyped(f, vs)
      requires |EncodeField(f, Many(vs))| < BITS_64
      modifies this, buf
      ensures Valid() && Emits(old(Out()), Out(), EncodeField(f, Many(vs)), SlotEncodable(f, Many(vs)), ok)
      decreases f, 3
    {
      hide Emits, Varint, FieldOk, ItemsTyped, EncodeItems, EncodeTagged, TagBytes;
      if vs == [] {
        EmitsNothing(Out());
        return true;
      }
      if |vs| > f.arraySize {
        EmitsNever(Out(), EncodeField(f, Many(vs)));
        return false;
      }
      if Packable(f.ltype) {
        ok := EncodePacked(f, vs);
      } else {
        ok := EncodeUnpacked(f, vs);
      }
    }

    method EncodePacked(f: Field, vs: seq<Value>) returns (ok: bool)
      requires Valid() && FieldOk(f) && ItemsTyped(f, vs) && Packable(f.ltype)
      requires |TagBytes(f.tag, 2) + LengthPrefixed(EncodeItems(f, vs, 0))| < BITS_64
      modifies this, buf
      ensures Valid()
      ensures Emits(old(Out()), Out(), TagBytes(f.tag, 2) + LengthPrefixed(EncodeItems(f, vs, 0)),
                    ItemsEncodable(f, vs, 0), ok)
      decreases f, 2
    {
      hide Emits, Varint, ItemsTyped, EncodeItems, ItemsEncodable, TagBytes, Packable;
      ghost var items, p := EncodeItems(f, vs, 0), ItemsEncodable(f, vs, 0);
      ghost var a := Out();
      ok := EncodeTag(2, f.tag);
      ghost var b := Out();
      if !ok {
        EmitsPart(a, b, TagBytes(f.tag, 2), true, LengthPrefixed(items), p);
        return;
      }
      var size: nat;
      if f.ltype.Fixed32? {
        size := 4 * |vs|;
        FixedItems(f, vs, 0, 4);
      } else if f.ltype.Fixed64? {
        size := 8 * |vs|;
        FixedItems(f, vs, 0, 8);
      } else {
        var sizer := new OStream.Sizing();
        var status := sizer.EncodeEach(f, vs, false);
        SizingMeans(Output(true, 0, 0, []), sizer.Out(), items, p, status);
        if !status {
          EmitsNever(b, LengthPrefixed(items));
          EmitsBoth(a, b, b, TagBytes(f.tag, 2), true, LengthPrefixed(items), p, false);
          return false;
        }
        size := sizer.bytesWritten;
      }
      PackableEncodes(f, vs, 0);
      ok := WriteItems(f, vs, size);
      EmitsBoth(a, b, Out(), TagBytes(f.tag, 2), true, LengthPrefixed(items), p, ok);
    }

    method WriteItems(f: Field, vs: seq<Value>, size: nat) returns (ok: bool)
      requires Valid() && FieldOk(f) && ItemsTyped(f, vs)
      requires size == |EncodeItems(f, vs, 0)| < BITS_64 && ItemsEncodable(f, vs, 0)
      modifies this, buf
      ensures Valid() && Emits(old(Out()), Out(), LengthPrefixed(EncodeItems(f, vs, 0)), true, ok)
      decreases f, 2, 0
    {
      hide Emits, Varint, ItemsTyped, EncodeItems, ItemsEncodable;
      ghost var items := EncodeItems(f, vs, 0);
      ghost var a := Out();
      ok := EncodeVarint(size);
      ghost var b := Out();
      if !ok {
        EmitsPart(a, b, Varint(size), true, items, true);
        return;
      }
      EmittedWhere(a, b, Varint(size));
      if sizing {
        ok := Count(size, items);
      } else {
        ok := EncodeEach(f, vs, false);
      }
      EmitsBoth(a, b, Out(), Varint(size), true, items, true, ok);
    }

    method EncodeUnpacked(f: Field, vs: seq<Value>) returns (ok: bool)
      requires Valid() && FieldOk(f) && ItemsTyped(f, vs) && |EncodeTagged(f, vs, 0)| < BITS_64
      modifies this, buf
      ensures Valid() && Emits(old(Out()), Out(), EncodeTagged(f, vs, 0), ItemsEncodable(f, vs, 0), ok)
      decreases f, 2
    {
      ok := EncodeEach(f, vs, true);
    }

    /** Element after element, each after its tag or not. */
    method EncodeEach(f: Field, vs: seq<Value>, tagged: bool) returns (ok: bool)
      requires Valid() && FieldOk(f) && ItemsTyped(f, vs) && |Each(f, vs, tagged, 0)| < BITS_64
      modifies this, buf
      ensures Valid() && Emits(old(Out()), Out(), Each(f, vs, tagged, 0), ItemsEncodable(f, vs, 0), ok)
      decreases f, 1
    {
      hide *;
      ghost var a := Out();
      ghost var done: Bytes := [];
      EachBegins(a, f, vs, tagged);
      var i := 0;
      while i < |vs|
        invariant i <= |vs| && Valid() && EachDone(a, Out(), done, f, vs, tagged, i)
      {
        ghost var b, e := Out(), Element(f, vs[i], tagged);
        ElementSize(a, b, done, f, vs, tagged, i);
        ok := EncodeElement(f, vs[i], tagged);
        EachGoesOn(a, b, Out(), done, f, vs, tagged, i, ok);
        if !ok {
          return;
        }
        done := done + e;
        i := i + 1;
      }
      EachEnds(a, Out(), done, f, vs, tagged);
      ok := true;
    }

    method EncodeElement(f: Field, v: Value, tagged: bool) returns (ok: bool)
      requires Valid() && FieldOk(f) && ValueTyped(f, v) && |Element(f, v, tagged)| < BITS_64
      modifies this, buf
      ensures Valid() && Emits(old(Out()), Out(), Element(f, v, tagged), ValueEncodable(f, v), ok)
      decreases f, 0, 1
    {
      hide Emits, ValueTyped, ValueEncodable, Nanopb.EncodeValue, TagBytes;
      ghost var a := Out();
      ghost var tag := if tagged then TagBytes(f.tag, WireType(f.ltype)) else [];
      ghost var e, p := Nanopb.EncodeValue(f, v), ValueEncodable(f, v);
      assert Element(f, v, tagged) == tag + e;
      EmitsNothing(a);
      ok := true;
      if tagged {
        ok := EncodeTagForField(f);
      }
      ghost var b := Out();
      if !ok {
        EmitsPart(a, b, tag, true, e, p);
        return;
      }
      ok := EncodeValue(f, v);
      EmitsBoth(a, b, Out(), tag, true, e, p, ok);
    }

    method EncodeBasicField(f: Field, s: Slot) returns (ok: bool)
      requires Valid() && FieldOk(f) && SlotTyped(f, s) && |EncodeField(f, s)| < BITS_64
      modifies this, buf
      ensures Valid() && Emits(old(Out()), Out(), EncodeField(f, s), SlotEncodable(f, s), ok)
      decreases f, 4
    {
      hide Emits, FieldOk, ValueTyped, ValueEncodable, Nanopb.EncodeValue, TagBytes;
      match s
      case One(v) => ok := EncodeElement(f, v, true);
      case Many(vs) => ok := EncodeArray(f, vs);
      case Maybe(o) =>
        match o {
          case Some(v) => ok := EncodeElement(f, v, true);
          case None =>
            EmitsNothing(Out());
            ok := true;
        }
    }

    /** All fields, one after the other.  The outcome is decided by the message and the room: nothing else makes it
        fail. */
    method EncodeMessage(d: Desc, m: Message) returns (ok: bool)
      requires Valid() && DescOk(d) && WellTyped(d, m) && |Encode(d, m)| < BITS_64
      modifies this, buf
      ensures Valid() && Emits(old(Out()), Out(), Encode(d, m), Encodable(d, m, 0), ok)
      decreases d, |d.fields|
    {
      hide *;
      ghost var a := Out();
      MessageBegins(a, d, m);
      var iter := new FieldIter(d);
      var more := iter.Begin();
      ghost var done: Bytes := [];
      if !more {
        MessageEnds(a, a, done, d, m);
        return true;
      }
      ghost var i := 0;
      while more
        invariant iter.Valid() && iter.d == d && fresh(iter)
        invariant Valid() && i <= |d.fields| && MessageDone(a, Out(), done, d, m, i)
        invariant if more then i == iter.pos < |d.fields| else i == |d.fields|
        decreases |d.fields| - i
      {
        ghost var b, e := Out(), EncodeFieldAt(d, m, i);
        TypedField(d, m, i);
        FieldSize(a, b, done, d, m, i);
        ok := EncodeBasicField(d.fields[iter.pos], m.slots[iter.pos]);
        MessageGoesOn(a, b, Out(), done, d, m, i, ok);
        if !ok {
          return;
        }
        done := done + e;
        i := i + 1;
        more := iter.Next();
      }
      MessageEnds(a, Out(), done, d, m);
      ok := true;
    }

    /** A message and a zero that ends it. */
    method EncodeNullterminated(d: Desc, m: Message) returns (ok: bool)
      requires Valid() && DescOk(d) && WellTyped(d, m) && |Encode(d, m)| < BITS_64
      modifies this, buf
      ensures Valid() && Emits(old(Out()), Out(), Encode(d, m) + [0], Encodable(d, m, 0), ok)
    {
      hide *;
      ghost var a, e, p := Out(), Encode(d, m), Encodable(d, m, 0);
      ok := EncodeMessage(d, m);
      ghost var b := Out();
      if !ok {
        EmitsPart(a, b, e, p, [0], true);
        return;
      }
      ok := Write([0]);
      EmitsBoth(a, b, Out(), e, p, [0], true, ok);
    }
  }

  // ---- progress of the loops ----

  predicate EachDone(a: Output, now: Output, done: Bytes, f: Field, vs: seq<Value>, tagged: bool, i: nat) {
    && Emits(a, now, done, true, true)
    && done + Each(f, vs, tagged, i) == Each(f, vs, tagged, 0)
    && ItemsEncodable(f, vs, i) == ItemsEncodable(f, vs, 0)
  }

  lemma EachBegins(a: Output, f: Field, vs: seq<Value>, tagged: bool)
    requires a.sizing || a.bytesWritten <= a.maxSize
    ensures EachDone(a, a, [], f, vs, tagged, 0)
  {
    hide Emits, Each, ItemsEncodable;
    EmitsNothing(a);
    assert [] + Each(f, vs, tagged, 0) == Each(f, vs, tagged, 0);
  }

  lemma EachGoesOn(a: Output, b: Output, c: Output, done: Bytes, f: Field, vs: seq<Value>, tagged: bool, i: nat,
          ok: bool)
    requires i < |vs| && ItemsTyped(f, vs) && EachDone(a, b, done, f, vs, tagged, i)
    requires Emits(b, c, Element(f, vs[i], tagged), ValueEncodable(f, vs[i]), ok)
    ensures ok ==> EachDone(a, c, done + Element(f, vs[i], tagged), f, vs, tagged, i + 1)
    ensures !ok ==> Emits(a, c, Each(f, vs, tagged, 0), ItemsEncodable(f, vs, 0), false)
  {
    hide Emits, Each, ItemsEncodable, Element, ValueEncodable, ItemsTyped;
    var e, p, rest := Element(f, vs[i], tagged), ValueEncodable(f, vs[i]), Each(f, vs, tagged, i + 1);
    OneOfEach(f, vs, tagged, i);
    assert done + (e + rest) == done + e + rest;
    EmitsBoth(a, b, c, done, true, e, p, ok);
    if ok {
      EmitsPossible(b, c, e, p);
    } else {
      EmitsPart(a, c, done + e, p, rest, ItemsEncodable(f, vs, i + 1));
    }
  }

  lemma ElementSize(a: Output, b: Output, done: Bytes, f: Field, vs: seq<Value>, tagged: bool, i: nat)
    requires i < |vs| && ItemsTyped(f, vs) && EachDone(a, b, done, f, vs, tagged, i)
    ensures |Element(f, vs[i], tagged)| <= |Each(f, vs, tagged, 0)| && ValueTyped(f, vs[i])
  {
    hide Emits, Each, ItemsEncodable, Element, ValueEncodable;
    OneOfEach(f, vs, tagged, i);
    assert |done + Each(f, vs, tagged, i)| == |Each(f, vs, tagged, 0)|;
  }

  lemma EachEnds(a: Output, now: Output, done: Bytes, f: Field, vs: seq<Value>, tagged: bool)
    requires EachDone(a, now, done, f, vs, tagged, |vs|)
    ensures Emits(a, now, Each(f, vs, tagged, 0), ItemsEncodable(f, vs, 0), true)
  {
    hide Emits, Each, ItemsEncodable;
    NoneOfEach(f, vs, tagged);
    assert done + [] == done;
  }

  function EncodeFieldAt(d: Desc, m: Message, i: nat): Bytes
    requires i < |d.fields|
  {
    if i < |m.slots| then EncodeField(d.fields[i], m.slots[i]) else []
  }

  predicate MessageDone(a: Output, now: Output, done: Bytes, d: Desc, m: Message, i: nat) {
    && Emits(a, now, done, true, true)
    && done + EncodeFrom(d, m, i) == Encode(d, m)
    && Encodable(d, m, i) == Encodable(d, m, 0)
  }

  lemma MessageBegins(a: Output, d: Desc, m: Message)
    requires a.sizing || a.bytesWritten <= a.maxSize
    ensures MessageDone(a, a, [], d, m, 0)
  {
    hide Emits, EncodeFrom, Encodable;
    EmitsNothing(a);
    assert [] + Encode(d, m) == Encode(d, m);
  }

  lemma MessageGoesOn(a: Output, b: Output, c: Output, done: Bytes, d: Desc, m: Message, i: nat, ok: bool)
    requires i < |d.fields| == |m.slots| && MessageDone(a, b, done, d, m, i)
    requires Emits(b, c, EncodeField(d.fields[i], m.slots[i]), SlotEncodable(d.fields[i], m.slots[i]), ok)
    ensures ok ==> MessageDone(a, c, done + EncodeFieldAt(d, m, i), d, m, i + 1)
    ensures !ok ==> Emits(a, c, Encode(d, m), Encodable(d, m, 0), false)
  {
    hide Emits, EncodeField, SlotEncodable;
    var e, p, rest := EncodeField(d.fields[i], m.slots[i]), SlotEncodable(d.fields[i], m.slots[i]),
          EncodeFrom(d, m, i + 1);
    assert done + (e + rest) == done + e + rest;
    EmitsBoth(a, b, c, done, true, e, p, ok);
    if ok {
      EmitsPossible(b, c, e, p);
    } else {
      EmitsPart(a, c, done + e, p, rest, Encodable(d, m, i + 1));
    }
  }

  lemma FieldSize(a: Output, b: Output, done: Bytes, d: Desc, m: Message, i: nat)
    requires i < |d.fields| == |m.slots| && MessageDone(a, b, done, d, m, i)
    ensures |EncodeField(d.fields[i], m.slots[i])| <= |Encode(d, m)|
  {
    hide Emits, EncodeField, Encodable;
    assert |done + EncodeFrom(d, m, i)| == |Encode(d, m)|;
  }

  lemma MessageEnds(a: Output, now: Output, done: Bytes, d: Desc, m: Message)
    requires MessageDone(a, now, done, d, m, |d.fields|)
    ensures Emits(a, now, Encode(d, m), Encodable(d, m, 0), true)
  {
    hide Emits;
    assert done + [] == done;
  }

  ghost predicate ItemsTyped(f: Field, vs: seq<Value>) {
    forall k :: 0 <= k < |vs| ==> ValueTyped(f, vs[k])
  }

  function Element(f: Field, v: Value, tagged: bool): Bytes {
    (if tagged then TagBytes(f.tag, WireType(f.ltype)) else []) + EncodeValue(f, v)
  }

  function Each(f: Field, vs: seq<Value>, tagged: bool, k: nat): Bytes {
    if tagged then EncodeTagged(f, vs, k) else EncodeItems(f, vs, k)
  }

  lemma OneOfEach(f: Field, vs: seq<Value>, tagged: bool, k: nat)
    requires ItemsTyped(f, vs) && k < |vs|
    ensures Each(f, vs, tagged, k) == Element(f, vs[k], tagged) + Each(f, vs, tagged, k + 1)
    ensures ItemsEncodable(f, vs, k) == (ValueEncodable(f, vs[k]) && ItemsEncodable(f, vs, k + 1))
    ensures ValueTyped(f, vs[k])
  {
    hide EncodeValue, ValueEncodable, ValueTyped, TagBytes;
    if !tagged {
      assert [] + EncodeValue(f, vs[k]) == EncodeValue(f, vs[k]);
    }
  }

  lemma NoneOfEach(f: Field, vs: seq<Value>, tagged: bool)
    ensures Each(f, vs, tagged, |vs|) == [] && ItemsEncodable(f, vs, |vs|)
  {
  }

  lemma IntRange(f: Field, v: Value)
    requires FieldOk(f) && ValueTyped(f, v)
    ensures f.ltype.UInt? ==> 0 <= v.i < BITS_64
    ensures f.ltype.Int? || f.ltype.SInt? ==> -0x8000_0000_0000_0000 <= v.i < 0x8000_0000_0000_0000
  {
  }

  lemma TypedField(d: Desc, m: Message, i: nat)
    requires DescOk(d) && WellTyped(d, m) && i < |d.fields|
    ensures |m.slots| == |d.fields| && FieldOk(d.fields[i]) && SlotTyped(d.fields[i], m.slots[i])
  {
  }

  lemma {:induction false} FixedItems(f: Field, vs: seq<Value>, k: nat, width: nat)
    requires ItemsTyped(f, vs) && k <= |vs|
    requires (f.ltype.Fixed32? && width == 4) || (f.ltype.Fixed64? && width == 8)
    ensures |EncodeItems(f, vs, k)| == width * (|vs| - k)
    decreases |vs| - k
  {
    hide Fixed;
    if k < |vs| {
      FixedItems(f, vs, k + 1, width);
      assert ValueTyped(f, vs[k]);
    }
  }

  lemma {:induction false} PackableEncodes(f: Field, vs: seq<Value>, k: nat)
    requires Packable(f.ltype)
    ensures ItemsEncodable(f, vs, k)
    decreases |vs| - k
  {
    if k < |vs| {
      PackableEncodes(f, vs, k + 1);
    }
  }

  lemma EmitsNever(a: Output, e: Bytes)
    ensures Emits(a, a, e, false, false)
  {
  }

  lemma EmitsNoRoom(a: Output, e: Bytes, p: bool)
    requires !a.sizing && a.bytesWritten + |e| > a.maxSize
    ensures Emits(a, a, e, p, false)
  {
  }

  lemma EmitsPossible(a: Output, b: Output, e: Bytes, p: bool)
    requires Emits(a, b, e, p, true)
    ensures p
  {
  }

  lemma EmittedWhere(a: Output, b: Output, e: Bytes)
    requires Emits(a, b, e, true, true)
    ensures b.bytesWritten == a.bytesWritten + |e|
  {
  }

  /** A counting stream fails only for what cannot be encoded, and counts what is encoded. */
  lemma SizingMeans(a: Output, b: Output, e: Bytes, p: bool, ok: bool)
    requires a.sizing && Emits(a, b, e, p, ok)
    ensures ok == p && (ok ==> b.bytesWritten == a.bytesWritten + |e|)
  {
  }

  /** The size of the encoding, for any message that can be encoded. */
  method GetEncodedSize(d: Desc, m: Message) returns (size: Option<nat>)
    requires DescOk(d) && WellTyped(d, m) && |Encode(d, m)| < BITS_64
    ensures size == if Encodable(d, m, 0) then Some(|Encode(d, m)|) else None
  {
    hide Emits, EncodeFrom, Encodable, DescOk, WellTyped;
    var stream := new OStream.Sizing();
    ghost var a := stream.Out();
    var ok := stream.EncodeMessage(d, m);
    SizingMeans(a, stream.Out(), Encode(d, m), Encodable(d, m, 0), ok);
    size := if ok then Some(stream.bytesWritten) else None;
  }

  method VarintBytes(value: nat) returns (b: Bytes)
    requires value < BITS_64
    ensures b == Varint(value)
  {
    var buffer := new byte[10];
    if value <= 0x7F {
      return [value];
    }
    var v, i := value, 0;
    VarintSizes(v);
    while v > 0
      invariant v > 0 ==> i + |Varint(v)| <= 10 && Varint(value) == buffer[..i] + Varint(v)
      invariant v == 0 ==>
                  0 < i <= 10 && buffer[i - 1] >= 128 && Varint(value) == buffer[..i - 1] + [buffer[i - 1] - 128]
    {
      ghost var before := buffer[..i];
      buffer[i] := v % 128 + 128;
      assert buffer[..i] == before;
      v := v / 128;
      i := i + 1;
      assert buffer[..i] == before + [buffer[i - 1]];
    }
    ghost var before := buffer[..i - 1];
    buffer[i - 1] := buffer[i - 1] - 128;
    assert buffer[..i] == before + [buffer[i - 1]];
    b := buffer[..i];
  }

  lemma ZigZagShifts(i: int)
    requires -0x8000_0000_0000_0000 <= i < 0x8000_0000_0000_0000
    ensures var shifted := i % BITS_64 * 2 % BITS_64;
            ZigZag(i) % BITS_64 == if i < 0 then BITS_64 - 1 - shifted else shifted
  {
    if i < 0 {
      assert i % BITS_64 == i + BITS_64;
      assert (2 * i + 2 * BITS_64) % BITS_64 == 2 * i + BITS_64;
    }
  }

}
