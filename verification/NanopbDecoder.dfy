/** The decoder: input streams, the streams over a part of them, and the loop over the fields of a message. */
module NanopbDecoder {
  import opened Wrappers
  import opened Bytewise
  import opened Coding
  import opened Nanopb
  import opened NanopbDecode
  import opened NanopbIter
  import opened NanopbSound

  /** A read gives what `spec` says of the bytes before it, and leaves what `spec` leaves. */
  predicate Reads<T(==)>(spec: Option<(T, Bytes)>, r: Option<T>, now: Bytes) {
    match spec
    case None => r == None
    case Some((v, rest)) => r == Some(v) && now == rest
  }

  class IStream {
    const data: Bytes
    var state: nat
    var bytesLeft: nat

    predicate Valid()
      reads this
    {
      state + bytesLeft <= |data|
    }

    function Rest(): (b: Bytes)
      requires Valid()
      reads this
      ensures |b| == bytesLeft
    {
      data[state..state + bytesLeft]
    }

    function End(): nat
      reads this
    {
      state + bytesLeft
    }

    constructor FromBuffer(data: Bytes)
      ensures Valid() && this.data == data && Rest() == data && state == 0
    {
      this.data, state, bytesLeft := data, 0, |data|;
    }

    constructor Part(data: Bytes, state: nat, bytesLeft: nat)
      requires state + bytesLeft <= |data|
      ensures Valid() && this.data == data && this.state == state && this.bytesLeft == bytesLeft
    {
      this.data, this.state, this.bytesLeft := data, state, bytesLeft;
    }

    method Read(count: nat) returns (r: Option<Bytes>)
      requires Valid()
      modifies this
      ensures Valid() && End() == old(End())
      ensures Reads(if |old(Rest())| < count then None
              else Some((old(Rest())[..count], old(Rest())[count..])), r, Rest())
    {
      if bytesLeft < count {
        return None;
      }
      ghost var b := Rest();
      r := Some(data[state..state + count]);
      assert r.value == b[..count] && data[state + count..End()] == b[count..];
      state := state + count;
      bytesLeft := bytesLeft - count;
    }

    method ReadByte() returns (r: Option<byte>)
      requires Valid()
      modifies this
      ensures Valid() && End() == old(End())
      ensures Reads(if old(Rest()) == [] then None else Some((old(Rest())[0], old(Rest())[1..])), r, Rest())
    {
      if bytesLeft == 0 {
        return None;
      }
      r := Some(data[state]);
      state := state + 1;
      bytesLeft := bytesLeft - 1;
    }

    /** 32-bit numbers; `eof` if there was no byte at all. */
    method DecodeVarint32Eof() returns (r: Option<nat>, eof: bool)
      requires Valid()
      modifies this
      ensures Valid() && End() == old(End()) && Reads(Varint32(old(Rest())), r, Rest())
      ensures eof == (old(bytesLeft) == 0)
    {
      hide AddBits;
      ghost var b := Rest();
      var first := ReadByte();
      if first == None {
        return None, true;
      }
      var byte := first.value;
      var result: nat := byte as int;
      if byte >= 128 {
        var bitpos: nat := 7;
        result := byte as int - 128;
        while byte >= 128
          invariant Valid() && End() == old(End()) && result < BITS_32
          invariant byte >= 128 ==> Varint32(b) == Varint32Rest(result, bitpos, Rest())
          invariant byte < 128 ==> Varint32(b) == if bitpos == 35 && byte >= 16 then None else Some((result, Rest()))
          decreases byte >= 128, bytesLeft
        {
          var next := ReadByte();
          if next == None {
            return None, false;
          }
          byte := next.value;
          if bitpos >= 32 {
            var signExtension := if bitpos < 63 then 0xFF else 0x01;
            if byte % 128 != 0 && (result < 0x8000_0000 || byte != signExtension) {
              return None, false;
            }
          } else {
            result := AddBits(result, byte % 128, bitpos);
          }
          bitpos := bitpos + 7;
        }
        if bitpos == 35 && byte >= 16 {
          return None, false;
        }
      }
      return Some(result), false;
    }

    method DecodeVarint32() returns (r: Option<nat>)
      requires Valid()
      modifies this
      ensures Valid() && End() == old(End()) && Reads(Varint32(old(Rest())), r, Rest())
    {
      var eof;
      r, eof := DecodeVarint32Eof();
    }

    /** 64-bit numbers, of ten bytes at most. */
    method DecodeVarint() returns (r: Option<nat>)
      requires Valid()
      modifies this
      ensures Valid() && End() == old(End()) && Reads(DecodeVarint64(old(Rest())), r, Rest())
    {
      hide ParseVarint, Gathered, GetVarint;
      ghost var p := Rest();
      var result: nat, unit: nat, k: nat := 0, 1, 0;
      GatheringBegins(p);
      while true
        invariant Valid() && End() == old(End()) && k <= 10 && k <= |p| && Rest() == p[k..] && result < BITS_64
        invariant Gathered(p, 10, BITS_64, k, result, unit)
        decreases 10 - k
      {
        if k >= 10 {
          GatheringFails(p, k, result, unit);
          return None;
        }
        var next := ReadByte();
        if next == None {
          GatheringFails(p, k, result, unit);
          return None;
        }
        var b := next.value as int;
        assert p[k..][1..] == p[k + 1..];
        WeighByte(p, 10, BITS_64, k, result, unit);
        result := (result + b % 128 * unit) % BITS_64;
        k := k + 1;
        if b < 128 {
          return Some(result);
        }
        unit := unit * 128;
      }
    }

    method DecodeSvarint() returns (r: Option<int>)
      requires Valid()
      modifies this
      ensures Valid() && End() == old(End()) && Reads(DecodeZigZag(old(Rest())), r, Rest())
    {
      hide GetVarint64;
      var value := DecodeVarint();
      match value
      case None => return None;
      case Some(v) => return Some(if v % 2 == 1 then -(v / 2) - 1 else v / 2);
    }

    method SkipVarint() returns (ok: bool)
      requires Valid()
      modifies this
      ensures Valid() && End() == old(End()) && Skips(NanopbDecode.SkipVarint(old(Rest())), ok, Rest())
    {
      ghost var b := Rest();
      var more := true;
      while more
        invariant Valid() && End() == old(End())
        invariant NanopbDecode.SkipVarint(b) == if more then NanopbDecode.SkipVarint(Rest()) else Some(Rest())
        decreases more, bytesLeft
      {
        var next := ReadByte();
        if next == None {
          return false;
        }
        more := next.value >= 128;
      }
      return true;
    }

    method SkipString() returns (ok: bool)
      requires Valid()
      modifies this
      ensures Valid() && End() == old(End()) && Skips(Skip(2, old(Rest())), ok, Rest())
    {
      hide Varint32;
      var length := DecodeVarint32();
      if length == None {
        return false;
      }
      var skipped := Read(length.value);
      return skipped.Some?;
    }

    /** Passes over a field of any of the wire types 0, 1, 2 and 5. */
    method SkipField(wireType: nat) returns (ok: bool)
      requires Valid()
      modifies this
      ensures Valid() && End() == old(End()) && Skips(Skip(wireType, old(Rest())), ok, Rest())
    {
      hide Varint32, NanopbDecode.SkipVarint;
      if wireType == 0 {
        ok := SkipVarint();
      } else if wireType == 1 {
        var skipped := Read(8);
        ok := skipped.Some?;
      } else if wireType == 2 {
        ok := SkipString();
      } else if wireType == 5 {
        var skipped := Read(4);
        ok := skipped.Some?;
      } else {
        ok := false;
      }
    }

    /** A tag, unless there is none: at the end of the bytes, or at a zero (`eof`). */
    method DecodeTag() returns (ok: bool, wireType: nat, tag: nat, eof: bool)
      requires Valid()
      modifies this
      ensures Valid() && End() == old(End()) && wireType < 8
      ensures match Varint32(old(Rest()))
              case None => !ok && eof == (old(bytesLeft) == 0)
              case Some((key, rest)) => Rest() == rest && ok == (key != 0) && eof == !ok && key == 8 * tag + wireType
    {
      hide Varint32;
      wireType, tag := 0, 0;
      var temp;
      temp, eof := DecodeVarint32Eof();
      if temp == None {
        return false, 0, 0, eof;
      }
      if temp.value == 0 {
        return false, 0, 0, true;
      }
      return true, temp.value % 8, temp.value / 8, false;
    }

    /** A stream over the bytes that a length announces; this one goes on behind them once that one is closed. */
    method MakeSubstream() returns (r: Option<IStream>)
      requires Valid()
      modifies this
      ensures Valid() && End() <= old(End())
      ensures match Substring(old(Rest()))
              case None => r == None
              case Some((s, rest)) =>
                && r.Some? && fresh(r.value) && r.value.Valid() && r.value.data == data && r.value.Rest() == s
                && r.value.End() + bytesLeft == old(End()) && data[r.value.End()..r.value.End() + bytesLeft] == rest
    {
      hide Varint32;
      var size := DecodeVarint32();
      if size == None {
        return None;
      }
      if bytesLeft < size.value {
        return None;
      }
      ghost var b := Rest();
      var sub := new IStream.Part(data, state, size.value);
      bytesLeft := bytesLeft - size.value;
      assert b[..size.value] == sub.Rest();
      assert b[size.value..] == data[sub.End()..sub.End() + bytesLeft];
      return Some(sub);
    }

    /** What is left of the part is passed over. */
    method CloseSubstream(sub: IStream)
      requires Valid() && sub.Valid() && sub != this && sub.data == data && sub.End() + bytesLeft <= |data|
      modifies this, sub
      ensures Valid() && state == old(sub.End()) && bytesLeft == old(bytesLeft)
    {
      if sub.bytesLeft > 0 {
        var skipped := sub.Read(sub.bytesLeft);
      }
      state := sub.state;
    }

    // ---- values ----

    method DecodeNumber(f: Field) returns (r: Option<Value>)
      requires Valid() && FieldOk(f) && (f.ltype.Int? || f.ltype.UInt? || f.ltype.SInt?)
      modifies this
      ensures Valid() && End() == old(End()) && Reads(NanopbDecode.DecodeValue(f, IntV(0), old(Rest())), r, Rest())
    {
      hide GetVarint64, FieldNumber;
      var value := DecodeVarint();
      if value == None {
        return None;
      }
      var number := Clamped(f, value.value);
      match number
      case None => return None;
      case Some(i) => return Some(IntV(i));
    }

    method DecodeFixed32() returns (r: Option<nat>)
      requires Valid()
      modifies this
      ensures Valid() && End() == old(End())
      ensures Reads(if |old(Rest())| < 4 then None else Some((Unfixed(old(Rest())[..4]), old(Rest())[4..])), r, Rest())
    {
      hide Unfixed;
      var bytes := Read(4);
      if bytes == None {
        return None;
      }
      var b := bytes.value;
      FourBytes(b);
      return Some(b[0] as nat + 0x100 * b[1] as nat + 0x1_0000 * b[2] as nat + 0x100_0000 * b[3] as nat);
    }

    method DecodeFixed64() returns (r: Option<nat>)
      requires Valid()
      modifies this
      ensures Valid() && End() == old(End())
      ensures Reads(if |old(Rest())| < 8 then None else Some((Unfixed(old(Rest())[..8]), old(Rest())[8..])), r, Rest())
    {
      hide Unfixed;
      var bytes := Read(8);
      if bytes == None {
        return None;
      }
      var b := bytes.value;
      EightBytes(b);
      return Some(b[0] as nat + 0x100 * b[1] as nat + 0x1_0000 * b[2] as nat + 0x100_0000 * b[3] as nat +
                  0x1_0000_0000 * b[4] as nat + 0x100_0000_0000 * b[5] as nat + 0x1_0000_0000_0000 * b[6] as nat +
                  0x100_0000_0000_0000 * b[7] as nat);
    }

    /** Byte strings: the size is checked before any byte is copied. */
    method DecodeBytes(f: Field) returns (r: Option<Value>)
      requires Valid() && (f.ltype.ByteArray? || f.ltype.CString? || f.ltype.FixedBytes?)
      modifies this
      ensures Valid() && End() == old(End()) && Reads(NanopbDecode.DecodeValue(f, BytesV([]), old(Rest())), r, Rest())
    {
      hide Varint32, UpToZero, Zeros;
      var length := DecodeVarint32();
      if length == None {
        return None;
      }
      var size := length.value;
      if f.ltype.FixedBytes? && size == 0 {
        return Some(BytesV(Zeros(f.dataSize)));
      }
      if f.ltype.ByteArray? && size + BYTES_HEADER > f.dataSize {
        return None;
      }
      if f.ltype.CString? && ((size + 1) % BITS_32 < size || size + 1 > f.dataSize) {
        return None;
      }
      if f.ltype.FixedBytes? && size != f.dataSize {
        return None;
      }
      var bytes := Read(size);
      match bytes
      case None => return None;
      case Some(s) => return Some(BytesV(if f.ltype.CString? then UpToZero(s) else s));
    }

    /** Array elements start from default values; other messages are read into what is there. */
    method DecodeSubmessage(f: Field, was: Value) returns (r: Option<Value>)
      requires Valid() && FieldOk(f) && f.ltype.Submessage? && ValueSound(f, was)
      modifies this
      ensures Valid() && End() <= old(End()) && (r.Some? ==> End() == old(End()))
      ensures Reads(NanopbDecode.DecodeValue(f, was, old(Rest())), r, Rest())
      decreases f, 0
    {
      hide Substring, DecodeInto, DescOk, Default;
      var d := f.ltype.desc;
      var part := MakeSubstream();
      if part == None {
        return None;
      }
      var sub := part.value;
      var message;
      if f.htype.Repeated? {
        message := sub.Decode(d);
      } else {
        message := sub.DecodeNoinit(d, was.m);
      }
      CloseSubstream(sub);
      match message
      case None => return None;
      case Some(m) => return Some(MessageV(m));
    }

    /** The decoder of the field's type. */
    method DecodeValue(f: Field, was: Value) returns (r: Option<Value>)
      requires Valid() && FieldOk(f) && ValueSound(f, was)
      modifies this
      ensures Valid() && End() <= old(End()) && (r.Some? ==> End() == old(End()))
      ensures Reads(NanopbDecode.DecodeValue(f, was, old(Rest())), r, Rest())
      decreases f, 1
    {
      hide Substring, DecodeInto, DescOk, Default, Varint32, GetVarint64, FieldNumber, Unfixed, UpToZero, Zeros, Half;
      match f.ltype
      case Bool =>
        var value := DecodeVarint32();
        r := if value == None then None else Some(BoolV(value.value != 0));
      case Fixed32 =>
        var value := DecodeFixed32();
        r := if value == None then None else Some(IntV(value.value));
      case Fixed64 =>
        var value := DecodeFixed64();
        r := if value == None then None else Some(IntV(value.value));
      case Submessage(_) => r := DecodeSubmessage(f, was);
      case ByteArray => r := DecodeBytes(f);
      case CString => r := DecodeBytes(f);
      case FixedBytes => r := DecodeBytes(f);
      case _ => r := DecodeNumber(f);
    }

    // ---- fields ----

    /** The elements of a packed array, as many as the struct has room for; it is an error if any are left. */
    method DecodePacked(f: Field, start: seq<Value>) returns (r: Option<seq<Value>>)
      requires Valid() && FieldOk(f)
      modifies this
      ensures Valid() && End() <= old(End()) && (r.Some? ==> End() == old(End()))
      ensures Reads(PackedSubstring(f, start, old(Rest())), r, Rest())
      decreases f, 2
    {
      hide Substring, FieldOk, NanopbDecode.DecodeValue, NanopbDecode.DefaultValue, ValueSound;
      var part := MakeSubstream();
      if part == None {
        return None;
      }
      var sub := part.value;
      ghost var items, left := sub.Rest(), bytesLeft;
      label Made:
      var vs, status := start, true;
      while status && sub.bytesLeft > 0 && |vs| < f.arraySize
        invariant sub.Valid() && sub.End() <= old@Made(sub.End()) && (status ==> sub.End() == old@Made(sub.End()))
        invariant unchanged@Made(this)
        invariant NanopbDecode.DecodePacked(f, start, items) ==
                  if status then NanopbDecode.DecodePacked(f, vs, sub.Rest()) else None
        decreases status, sub.bytesLeft
      {
        DefaultValueSound(f);
        var item := sub.DecodeValue(f, NanopbDecode.DefaultValue(f));
        match item {
          case None => status := false;
          case Some(v) => vs := vs + [v];
        }
      }
      if sub.bytesLeft != 0 {
        return None;
      }
      CloseSubstream(sub);
      return if status then Some(vs) else None;
    }

    /** A field with storage in the struct. */
    method DecodeStaticField(f: Field, s: Slot, wireType: nat) returns (r: Option<Slot>)
      requires Valid() && FieldOk(f) && SlotSound(f, s)
      modifies this
      ensures Valid() && End() <= old(End()) && (r.Some? ==> End() == old(End()))
      ensures Reads(NanopbDecode.DecodeSlot(f, s, wireType, old(Rest())), r, Rest())
      decreases f, 3
    {
      hide Substring, FieldOk, ValueTyped, ValueFits, NanopbDecode.DecodeValue, NanopbDecode.DecodePacked,
           NanopbDecode.DefaultValue, Packable;
      DefaultValueSound(f);
      match s
      case One(was) =>
        var value := DecodeValue(f, was);
        r := if value == None then None else Some(One(value.value));
      case Maybe(o) =>
        var value := DecodeValue(f, if o == None then NanopbDecode.DefaultValue(f) else o.value);
        r := if value == None then None else Some(Maybe(value));
      case Many(vs) =>
        if wireType == 2 && Packable(f.ltype) {
          var all := DecodePacked(f, vs);
          r := if all == None then None else Some(Many(all.value));
        } else if |vs| >= f.arraySize {
          r := None;
        } else {
          var value := DecodeValue(f, NanopbDecode.DefaultValue(f));
          r := if value == None then None else Some(Many(vs + [value.value]));
        }
    }

    // ---- messages ----

    /** The field that a tag announces, put where it belongs or skipped; `bits` has the required fields seen. */
    method DecodeOneField(d: Desc, m: Message, bits: set<nat>, iter: FieldIter, tag: nat, wireType: nat,
            ghost seen: set<nat>)
      returns (r: Option<Message>, newBits: set<nat>, ghost newSeen: set<nat>)
      requires Valid() && iter.Valid() && iter.d == d
      requires DescOk(d) && Sound(d, m) && wireType < 8 && |m.slots| == |d.fields| && Marks(d, seen, bits)
      modifies this, iter
      ensures Valid() && End() <= old(End()) && (r.Some? ==> End() == old(End())) && iter.Valid()
      ensures match NanopbDecode.DecodeField(d, Partial(m, seen, old(Rest())), 8 * tag + wireType)
              case None => r == None
              case Some(q) => r.Some? && q == Partial(r.value, newSeen, Rest()) && Marks(d, newSeen, newBits)
      decreases d, 0
    {
      hide DescOk, Sound, Marks, FieldOk, SlotSound, RequiredBefore, Spot, NanopbDecode.DecodeSlot, Skip, Varint32,
           PutSlot;
      newBits, newSeen := bits, seen;
      assert (8 * tag + wireType) / 8 == tag && (8 * tag + wireType) % 8 == wireType;
      var found := iter.Find(tag);
      if !found {
        var skipped := SkipField(wireType);
        return if skipped then Some(m) else None, bits, seen;
      }
      if d.fields == [] {
        var ignored := DecodeVarint32();
        return if ignored.Some? then Some(m) else None, bits, seen;
      }
      var i := iter.pos;
      TagIsIndex(d, tag, i);
      SoundSlots(d, m);
      var f := d.fields[i];
      if f.htype.Required? && iter.requiredFieldIndex < MAX_REQUIRED_FIELDS {
        newBits := bits + {iter.requiredFieldIndex};
      }
      MarksField(d, seen, bits, i);
      var slot := DecodeStaticField(f, m.slots[i], wireType);
      match slot
      case None => return None, bits, seen;
      case Some(s) => return Some(PutSlot(d, m, i, s)), newBits, seen + {i};
    }

    /** Into what is in `start`. */
    method DecodeNoinit(d: Desc, start: Message) returns (r: Option<Message>)
      requires Valid() && DescOk(d) && Sound(d, start)
      modifies this
      ensures Valid() && End() <= old(End()) && (r.Some? ==> End() == old(End()))
      ensures r == DecodeInto(d, start, old(Rest()))
      decreases d, 1
    {
      hide DescOk, Sound, Marks, Spot, RequiredBefore, DecodeFields, NanopbDecode.DecodeField, Varint32, RequiredSeen;
      SoundSlots(d, start);
      var m, bits: set<nat> := start, {};
      ghost var seen: set<nat> := {};
      ghost var all := DecodeFields(d, Partial(start, {}, Rest()));
      NoMarks(d);
      var iter := new FieldIter(d);
      var any := iter.Begin();
      var more := true;
      while more && bytesLeft > 0
        invariant Valid() && End() == old(End()) && iter.Valid() && iter.d == d && fresh(iter)
        invariant Sound(d, m) && |m.slots| == |d.fields| && Marks(d, seen, bits)
        invariant all == if more then DecodeFields(d, Partial(m, seen, Rest())) else Some(Partial(m, seen, Rest()))
        decreases more, bytesLeft
      {
        ghost var p := Partial(m, seen, Rest());
        DecodesOne(d, p);
        var ok, wireType, tag, eof := DecodeTag();
        if !ok {
          if !eof {
            return None;
          }
          more := false;
        } else {
          ghost var q := Partial(m, seen, Rest());
          FieldSound(d, q, 8 * tag + wireType);
          var next;
          next, bits, seen := DecodeOneField(d, m, bits, iter, tag, wireType, seen);
          if next == None {
            return None;
          }
          m := next.value;
        }
      }
      DecodesNone(d, Partial(m, seen, Rest()));
      var complete := RequiredFieldsSeen(d, bits, iter, seen);
      return if complete then Some(m) else None;
    }

    method Decode(d: Desc) returns (r: Option<Message>)
      requires Valid() && DescOk(d)
      modifies this
      ensures Valid() && End() <= old(End()) && (r.Some? ==> End() == old(End()))
      ensures r == NanopbDecode.DecodeInto(d, Default(d), old(Rest()))
      decreases d, 2
    {
      hide DescOk, Sound, DecodeInto, Default;
      DefaultSound(d);
      var start := MessageDefaults(d);
      r := DecodeNoinit(d, start);
    }
  }

  // ---- default values ----

  /** Each field in turn, messages inside included. */
  method MessageDefaults(d: Desc) returns (m: Message)
    ensures m == Default(d)
    decreases d
  {
    hide Spot, RequiredBefore, NanopbDecode.DefaultValue;
    var iter := new FieldIter(d);
    var slots: seq<Slot> := [];
    var more := iter.Begin();
    while more
      invariant iter.Valid() && iter.d == d && fresh(iter)
      invariant if more then |slots| == iter.pos < |d.fields| else |slots| == |d.fields|
      invariant slots == Default(d).slots[..|slots|]
      decreases |d.fields| - |slots|
    {
      var slot := FieldDefault(d.fields[iter.pos]);
      assert slot == Default(d).slots[|slots|];
      slots := slots + [slot];
      more := iter.Next();
    }
    m := Message(slots);
  }

  method FieldDefault(f: Field) returns (s: Slot)
    ensures s == DefaultSlot(f)
    decreases f
  {
    if f.htype.Repeated? {
      return Many([]);
    }
    if !f.htype.Required? {
      return Maybe(None);
    }
    if f.ltype.Submessage? {
      var m := MessageDefaults(f.ltype.desc);
      return One(MessageV(m));
    }
    return One(DefaultValue(f));
  }

  // ---- required fields ----

  /** `bits` has, of the first 64 required fields, the numbers of those in `seen`, and nothing else. */
  ghost predicate Marks(d: Desc, seen: set<nat>, bits: set<nat>) {
    && (forall i: nat :: i < |d.fields| && d.fields[i].htype.Required? && RequiredBefore(d, i) < MAX_REQUIRED_FIELDS ==>
          (i in seen <==> RequiredBefore(d, i) in bits))
    && (forall k :: k in bits ==> k < MAX_REQUIRED_FIELDS && k < RequiredBefore(d, |d.fields|))
  }

  lemma NoMarks(d: Desc)
    ensures Marks(d, {}, {})
  {
  }

  lemma {:induction false} RequiredRise(d: Desc, i: nat, j: nat)
    requires i < j <= |d.fields| && d.fields[i].htype.Required?
    ensures RequiredBefore(d, i) < RequiredBefore(d, j)
    decreases j
  {
    if j > i + 1 {
      RequiredRise(d, i, j - 1);
    }
  }

  lemma MarksField(d: Desc, seen: set<nat>, bits: set<nat>, i: nat)
    requires Marks(d, seen, bits) && i < |d.fields|
    ensures var k := RequiredBefore(d, i);
            Marks(d, seen + {i}, if d.fields[i].htype.Required? && k < MAX_REQUIRED_FIELDS then bits + {k} else bits)
  {
    hide RequiredBefore;
    if d.fields[i].htype.Required? {
      RequiredRise(d, i, |d.fields|);
      forall j: nat | j < |d.fields| && d.fields[j].htype.Required? && j != i
        ensures RequiredBefore(d, j) != RequiredBefore(d, i)
      {
        if i < j {
          RequiredRise(d, i, j);
        } else {
          RequiredRise(d, j, i);
        }
      }
    }
  }

  lemma {:induction false} NthRequired(d: Desc, k: nat, n: nat) returns (i: nat)
    requires n <= |d.fields| && k < RequiredBefore(d, n)
    ensures i < n && d.fields[i].htype.Required? && RequiredBefore(d, i) == k
    decreases n
  {
    if k < RequiredBefore(d, n - 1) {
      i := NthRequired(d, k, n - 1);
    } else {
      i := n - 1;
    }
  }

  /** Whether the first `count` bits are set tells whether the required fields are there. */
  lemma MarksTell(d: Desc, seen: set<nat>, bits: set<nat>, count: nat)
    requires Marks(d, seen, bits)
    requires count ==
               if RequiredBefore(d, |d.fields|) > MAX_REQUIRED_FIELDS then MAX_REQUIRED_FIELDS
               else RequiredBefore(d, |d.fields|)
    ensures RequiredSeen(d, seen) <==> forall k: nat :: k < count ==> k in bits
  {
    hide RequiredBefore;
    if RequiredSeen(d, seen) {
      forall k: nat | k < count
        ensures k in bits
      {
        var i := NthRequired(d, k, |d.fields|);
      }
    }
    if forall k: nat :: k < count ==> k in bits {
      forall i: nat | i < |d.fields| && d.fields[i].htype.Required? && RequiredBefore(d, i) < MAX_REQUIRED_FIELDS
        ensures i in seen
      {
        RequiredRise(d, i, |d.fields|);
      }
    }
  }

  /** The bits of a 32-bit word of the bit field. */
  function Word(bits: set<nat>, w: nat): set<nat> {
    set k | k in AllBits(32) && 32 * w + k in bits
  }

  function AllBits(n: nat): (s: set<nat>)
    ensures forall k: nat :: k in s <==> k < n
  {
    if n == 0 then {} else AllBits(n - 1) + {n - 1}
  }

  /** Goes on to the last field to count the required ones, then compares the bit field word by word. */
  method RequiredFieldsSeen(d: Desc, bits: set<nat>, iter: FieldIter, ghost seen: set<nat>) returns (complete: bool)
    requires iter.Valid() && iter.d == d && Marks(d, seen, bits)
    modifies iter
    ensures complete == RequiredSeen(d, seen)
  {
    hide Marks, RequiredSeen, Spot;
    var count := CountRequired(d, iter);
    if count > MAX_REQUIRED_FIELDS {
      count := MAX_REQUIRED_FIELDS;
    }
    MarksTell(d, seen, bits, count);
    BitsBelow(d, seen, bits, count);
    var i := 0;
    while i < count / 32
      invariant i <= count / 32
      invariant forall k: nat :: k < 32 * i ==> k in bits
    {
      FullWord(bits, i, count);
      if Word(bits, i) != AllBits(32) {
        return false;
      }
      WordIsFull(bits, i);
      i := i + 1;
    }
    if count % 32 != 0 {
      LastWord(bits, count);
      if Word(bits, count / 32) != AllBits(count % 32) {
        return false;
      }
    }
    return true;
  }

  method CountRequired(d: Desc, iter: FieldIter) returns (count: nat)
    requires iter.Valid() && iter.d == d
    modifies iter
    ensures count == RequiredBefore(d, |d.fields|)
  {
    hide Spot;
    var lastRequired, more := false, true;
    count := 0;
    ghost var at := iter.pos;
    while more
      invariant iter.Valid()
      invariant more ==> iter.pos == at && (at < |d.fields| || d.fields == [])
      invariant !more ==> iter.pos == 0 && (d.fields == [] ==> count == 0)
      invariant !more && d.fields != [] ==>
                  count == RequiredBefore(d, |d.fields| - 1) && lastRequired == d.fields[|d.fields| - 1].htype.Required?
      decreases more, |d.fields| - at
    {
      count := iter.requiredFieldIndex;
      lastRequired := d.fields == [] || d.fields[iter.pos].htype.Required?;
      more := iter.Next();
      at := iter.pos;
    }
    if lastRequired && d.fields != [] {
      count := count + 1;
    }
  }

  function DecodeZigZag(b: Bytes): Option<(int, Bytes)> {
    match DecodeVarint64(b)
    case None => None
    case Some((v, rest)) => Some((UnZigZag(v), rest))
  }

  predicate Skips(spec: Option<Bytes>, ok: bool, now: Bytes) {
    ok == spec.Some? && (ok ==> now == spec.value)
  }

  lemma GatheringBegins(p: Bytes)
    ensures Gathered(p, 10, BITS_64, 0, 0, 1)
  {
    assert p[0..] == p;
  }

  lemma GatheringFails(p: Bytes, k: nat, result: nat, unit: nat)
    requires k <= 10 && k <= |p| && (k == 10 || k == |p|) && Gathered(p, 10, BITS_64, k, result, unit)
    ensures GetVarint64(p) == None
  {
  }

  // ---- one step of the loop ----

  function PackedSubstring(f: Field, vs: seq<Value>, b: Bytes): Option<(seq<Value>, Bytes)> {
    match Substring(b)
    case None => None
    case Some((items, rest)) =>
      match NanopbDecode.DecodePacked(f, vs, items)
      case None => None
      case Some(all) => Some((all, rest))
  }

  lemma TagIsIndex(d: Desc, tag: nat, i: nat)
    requires DescOk(d) && i < |d.fields| && d.fields[i].tag == tag
    ensures FieldIndex(d, tag) == Some(i)
  {
    assert d.fields[FieldIndex(d, tag).value].tag == d.fields[i].tag;
  }

  function DecodesFrom(d: Desc, p: Partial, key: nat): Option<Partial>
    requires |p.m.slots| == |d.fields|
  {
    if key == 0 then Some(p)
    else
      match DecodeField(d, p, key)
      case None => None
      case Some(q) => DecodeFields(d, q)
  }

  lemma DecodesOne(d: Desc, p: Partial)
    requires |p.m.slots| == |d.fields| && p.rest != []
    ensures match Varint32(p.rest)
            case None => DecodeFields(d, p) == None
            case Some((key, left)) => DecodeFields(d, p) == DecodesFrom(d, Partial(p.m, p.seen, left), key)
  {
    hide DecodeField, Varint32;
  }

  lemma DecodesNone(d: Desc, p: Partial)
    requires |p.m.slots| == |d.fields|
    ensures p.rest == [] ==> DecodeFields(d, p) == Some(p)
  {
  }

  lemma BitsBelow(d: Desc, seen: set<nat>, bits: set<nat>, count: nat)
    requires Marks(d, seen, bits)
    requires count ==
               if RequiredBefore(d, |d.fields|) > MAX_REQUIRED_FIELDS then MAX_REQUIRED_FIELDS
               else RequiredBefore(d, |d.fields|)
    ensures forall k :: k in bits ==> k < count
  {
  }

  lemma WordIsFull(bits: set<nat>, i: nat)
    requires Word(bits, i) == AllBits(32)
    ensures forall k: nat :: 32 * i <= k < 32 * i + 32 ==> k in bits
  {
    forall k: nat | 32 * i <= k < 32 * i + 32
      ensures k in bits
    {
      assert k - 32 * i in AllBits(32);
    }
  }

  lemma FullWord(bits: set<nat>, i: nat, count: nat)
    requires 32 * i + 32 <= count
    ensures (forall k: nat :: k < count ==> k in bits) ==> Word(bits, i) == AllBits(32)
  {
  }

  lemma LastWord(bits: set<nat>, count: nat)
    requires forall k :: k in bits ==> k < count
    requires forall k: nat :: k < 32 * (count / 32) ==> k in bits
    ensures Word(bits, count / 32) == AllBits(count % 32) <==> forall k: nat :: k < count ==> k in bits
  {
    var i, n := count / 32, count % 32;
    if Word(bits, i) == AllBits(n) {
      forall k: nat | k < count
        ensures k in bits
      {
        if k >= 32 * i {
          assert k - 32 * i in AllBits(n);
        }
      }
    }
  }

  // ---- numbers ----

  function Cast(i: int, half: int): int
    requires half > 0
  {
    ToSigned(i % (2 * half), half)
  }

  lemma CastIsSame(i: int, half: int)
    requires half > 0
    ensures Cast(i, half) == i <==> -half <= i < half
  {
    if 0 <= i < half {
      assert i % (2 * half) == i;
    } else if -half <= i < 0 {
      DivisionIsUnique(2 * half, -1, i + 2 * half);
    }
  }

  /** Numbers are cast to the width of the field, and compared with what they were. */
  method Clamped(f: Field, value: nat) returns (r: Option<int>)
    requires FieldOk(f) && (f.ltype.Int? || f.ltype.UInt? || f.ltype.SInt?) && value < BITS_64
    ensures r == FieldNumber(f, value)
  {
    hide Cast, UnZigZag;
    var half := Half(f.dataSize);
    if f.ltype.UInt? {
      var clamped := value % (2 * half);
      return if clamped != value then None else Some(clamped);
    }
    var svalue;
    if f.ltype.SInt? {
      svalue := UnZigZag(value);
    } else if f.dataSize == 8 {
      svalue := ToSigned(value, 0x8000_0000_0000_0000);
    } else {
      svalue := ToSigned(value % BITS_32, 0x8000_0000);
    }
    CastIsSame(svalue, half);
    var clamped := Cast(svalue, half);
    return if clamped != svalue then None else Some(clamped);
  }

  lemma FourBytes(b: Bytes)
    requires |b| == 4
    ensures Unfixed(b) == b[0] as int + 0x100 * b[1] as int + 0x1_0000 * b[2] as int + 0x100_0000 * b[3] as int
  {
    assert Unfixed(b[1..][1..][1..]) == b[3] as int;
    assert Unfixed(b[1..][1..]) == b[2] as int + 256 * b[3] as int;
  }

  lemma EightBytes(b: Bytes)
    requires |b| == 8
    ensures Unfixed(b) == b[0] as int + 0x100 * b[1] as int + 0x1_0000 * b[2] as int + 0x100_0000 * b[3] as int +
                          0x1_0000_0000 * b[4] as int + 0x100_0000_0000 * b[5] as int +
                                0x1_0000_0000_0000 * b[6] as int +
                          0x100_0000_0000_0000 * b[7] as int
  {
    hide Unfixed;
    UnfixedStep(b);
    UnfixedStep(b[1..]);
    UnfixedStep(b[2..]);
    UnfixedStep(b[3..]);
    assert b[1..][1..] == b[2..] && b[2..][1..] == b[3..] && b[3..][1..] == b[4..];
    FourBytes(b[4..]);
  }

  lemma UnfixedStep(b: Bytes)
    requires b != []
    ensures Unfixed(b) == b[0] as int + 256 * Unfixed(b[1..])
  {
  }
}
