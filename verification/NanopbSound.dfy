/** Whatever the bytes, a message that decoding accepts is of its type and inside the sizes of its struct. */
module NanopbSound {
  import opened Wrappers
  import opened Bytewise
  import opened Coding
  import opened Nanopb
  import opened NanopbDecode
  import opened NanopbRoundTrip

  predicate ValueSound(f: Field, v: Value) {
    ValueTyped(f, v) && ValueFits(f, v)
  }

  predicate SlotSound(f: Field, s: Slot) {
    SlotTyped(f, s) && SlotFits(f, s)
  }

  predicate Sound(d: Desc, m: Message) {
    WellTyped(d, m) && Fits(d, m)
  }

  lemma {:induction false} DefaultValueSound(f: Field)
    requires FieldOk(f)
    ensures ValueSound(f, DefaultValue(f))
    decreases f, 0
  {
    hide DescOk, WellTyped, Fits, Default;
    if f.ltype.Submessage? {
      DefaultSound(f.ltype.desc);
    }
  }

  lemma {:induction false} DefaultSlotSound(f: Field)
    requires FieldOk(f)
    ensures SlotSound(f, DefaultSlot(f))
    decreases f, 1
  {
    hide FieldOk, ValueTyped, ValueFits, DefaultValue;
    DefaultValueSound(f);
  }

  lemma {:induction false} DefaultSound(d: Desc)
    requires DescOk(d)
    ensures Sound(d, Default(d))
    decreases d
  {
    hide SlotTyped, SlotFits, FieldOk;
    var m := Default(d);
    forall i | 0 <= i < |d.fields|
      ensures SlotSound(d.fields[i], m.slots[i])
    {
      DefaultSlotSound(d.fields[i]);
    }
    assert forall i, j :: 0 <= i < j < |d.fields| && SameOneof(d.fields[i], d.fields[j]) ==> m.slots[i] == Maybe(None);
  }

  lemma NumberSound(f: Field, b: Bytes)
    requires FieldOk(f) && !f.ltype.Submessage?
    ensures var r := DecodeValue(f, DefaultValue(f), b);
            r.Some? ==> ValueSound(f, r.value.0)
  {
    hide Varint32, Varint32Rest, GetVarint64, Unfixed, DescOk, UpToZero;
    if |b| >= 4 {
      UnfixedBounds(b[..4]);
    }
    if |b| >= 8 {
      UnfixedBounds(b[..8]);
    }
  }

  lemma {:induction false} DecodedValueSound(f: Field, was: Value, b: Bytes)
    requires FieldOk(f) && ValueSound(f, was)
    ensures var r := DecodeValue(f, was, b);
            r.Some? ==> ValueSound(f, r.value.0)
    decreases f, |b|, 0
  {
    if f.ltype.Submessage? {
      hide DecodeInto, DescOk, WellTyped, Fits, Default, Substring;
      var d := f.ltype.desc;
      var r := Substring(b);
      if r.Some? {
        DefaultSound(d);
        var start := if f.htype.Repeated? then Default(d) else was.m;
        DecodedIntoSound(d, start, r.value.0);
      }
    } else {
      NumberSound(f, b);
      assert DecodeValue(f, was, b) == DecodeValue(f, DefaultValue(f), b);
    }
  }

  predicate ItemsSound(f: Field, vs: seq<Value>) {
    |vs| <= f.arraySize && forall k :: 0 <= k < |vs| ==> ValueSound(f, vs[k])
  }

  lemma {:induction false} PackedSound(f: Field, vs: seq<Value>, b: Bytes)
    requires FieldOk(f) && ItemsSound(f, vs)
    ensures var r := DecodePacked(f, vs, b);
            r.Some? ==> ItemsSound(f, r.value)
    decreases f, |b|, 1
  {
    hide FieldOk, ValueSound, DecodeValue, DefaultValue;
    if b != [] && |vs| < f.arraySize {
      DefaultValueSound(f);
      DecodedValueSound(f, DefaultValue(f), b);
      var r := DecodeValue(f, DefaultValue(f), b);
      if r.Some? {
        PackedSound(f, vs + [r.value.0], r.value.1);
      }
    }
  }

  lemma {:induction false} DecodedSlotSound(f: Field, s: Slot, wire: nat, b: Bytes)
    requires FieldOk(f) && SlotSound(f, s)
    ensures var r := DecodeSlot(f, s, wire, b);
            r.Some? ==> SlotSound(f, r.value.0)
    decreases f, |b|, 2
  {
    hide FieldOk, ValueTyped, ValueFits, DecodeValue, DefaultValue, DecodePacked, Packable, Substring;
    DefaultValueSound(f);
    match s
    case One(was) => DecodedValueSound(f, was, b);
    case Maybe(o) => DecodedValueSound(f, if o == None then DefaultValue(f) else o.value, b);
    case Many(vs) =>
      assert ItemsSound(f, vs);
      DecodedValueSound(f, DefaultValue(f), b);
      var r := Substring(b);
      if r.Some? {
        PackedSound(f, vs, r.value.0);
      }
  }

  lemma PutSound(d: Desc, m: Message, i: nat, s: Slot)
    requires DescOk(d) && Sound(d, m) && i < |d.fields| && SlotSound(d.fields[i], s)
    ensures Sound(d, PutSlot(d, m, i, s))
  {
    hide ValueTyped, ValueFits, FieldOk;
    var r := PutSlot(d, m, i, s);
    forall j | 0 <= j < |d.fields|
      ensures SlotTyped(d.fields[j], r.slots[j]) && SlotFits(d.fields[j], r.slots[j])
    {
    }
    forall j, k | 0 <= j < k < |d.fields| && SameOneof(d.fields[j], d.fields[k]) && r.slots[j].o.Some?
      ensures r.slots[k].o == None
    {
    }
  }

  lemma {:induction false} FieldSound(d: Desc, p: Partial, key: nat)
    requires DescOk(d) && Sound(d, p.m)
    ensures |p.m.slots| == |d.fields|
    ensures var r := DecodeField(d, p, key);
            r.Some? ==> Sound(d, r.value.m)
    decreases d, |p.rest|, 0
  {
    hide DescOk, WellTyped, Fits, SlotSound, DecodeSlot, PutSlot, FieldIndex, Skip, Varint32;
    SoundSlots(d, p.m);
    var i := FieldIndex(d, key / 8);
    if i.Some? {
      var r := DecodeSlot(d.fields[i.value], p.m.slots[i.value], key % 8, p.rest);
      DecodedSlotSound(d.fields[i.value], p.m.slots[i.value], key % 8, p.rest);
      if r.Some? {
        PutSound(d, p.m, i.value, r.value.0);
      }
    }
  }

  lemma SoundSlots(d: Desc, m: Message)
    requires DescOk(d) && Sound(d, m)
    ensures |m.slots| == |d.fields|
    ensures forall i :: 0 <= i < |d.fields| ==> FieldOk(d.fields[i]) && SlotSound(d.fields[i], m.slots[i])
  {
    hide FieldOk, SlotTyped, SlotFits;
  }

  lemma {:induction false} FieldsSound(d: Desc, p: Partial)
    requires DescOk(d) && Sound(d, p.m)
    ensures |p.m.slots| == |d.fields|
    ensures var r := DecodeFields(d, p);
            r.Some? ==> Sound(d, r.value.m)
    decreases d, |p.rest|, 1
  {
    hide DescOk, WellTyped, Fits, DecodeField, Varint32;
    SoundSlots(d, p.m);
    var k := Varint32(p.rest);
    if p.rest != [] && k.Some? && k.value.0 != 0 {
      var q := p.(rest := k.value.1);
      FieldSound(d, q, k.value.0);
      var r := DecodeField(d, q, k.value.0);
      if r.Some? {
        FieldsSound(d, r.value);
      }
    }
  }

  lemma {:induction false} DecodedIntoSound(d: Desc, start: Message, b: Bytes)
    requires DescOk(d) && Sound(d, start)
    ensures var r := DecodeInto(d, start, b);
            r.Some? ==> Sound(d, r.value)
    decreases d, |b|, 2
  {
    hide DescOk, WellTyped, Fits, DecodeFields;
    FieldsSound(d, Partial(start, {}, b));
  }

  /** A decoded message is well typed, its arrays, byte strings and texts are inside their bounds, and of no oneof are
      two members set. */
  lemma DecodedIsSound(d: Desc, b: Bytes)
    requires DescOk(d)
    ensures Decode(d, b).Some? ==> WellTyped(d, Decode(d, b).value) && Fits(d, Decode(d, b).value)
  {
    hide DescOk, WellTyped, Fits, DecodeInto, Default;
    DefaultSound(d);
    DecodedIntoSound(d, Default(d), b);
  }

  /** So encoding it again, and decoding, changes nothing, even where the bytes were not the ones that encoding
      gives. */
  lemma DecodedIsStable(d: Desc, b: Bytes)
    requires DescOk(d) && Decode(d, b).Some?
    requires |Encode(d, Decode(d, b).value)| < BITS_32
    ensures Decode(d, Encode(d, Decode(d, b).value)) == Decode(d, b)
  {
    hide DescOk, WellTyped, Fits, Decode, Encode;
    DecodedIsSound(d, b);
    RoundTrip(d, Decode(d, b).value);
  }
}
