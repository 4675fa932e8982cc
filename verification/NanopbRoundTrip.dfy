/** Decoding undoes encoding, for every message type and every message that fits it. */
module NanopbRoundTrip {
  import opened Wrappers
  import opened Bytewise
  import opened Coding
  import opened Nanopb
  import opened NanopbDecode

  lemma SubstringReads(s: Bytes, rest: Bytes)
    requires |s| < BITS_32
    ensures Substring(LengthPrefixed(s) + rest) == Some((s, rest))
  {
    hide Varint, Varint32;
    Varint32Reads(|s|, s + rest);
    assert LengthPrefixed(s) + rest == Varint(|s|) + (s + rest);
  }

  lemma {:induction false} UpToZeroIsAll(s: Bytes)
    requires forall k :: 0 <= k < |s| ==> s[k] != 0
    ensures UpToZero(s) == s
  {
    if s != [] {
      UpToZeroIsAll(s[1..]);
    }
  }

  // ---- values ----

  predicate Plain(f: Field) {
    f.ltype.Bool? || f.ltype.Int? || f.ltype.UInt? || f.ltype.SInt?
  }

  function PlainNumber(f: Field, v: Value): nat
    requires Plain(f) && ValueTyped(f, v)
  {
    match v
    case BoolV(b) => if b then 1 else 0
    case IntV(i) => (if f.ltype.SInt? then ZigZag(i) else i) % BITS_64
  }

  lemma PlainReads(f: Field, v: Value, was: Value, rest: Bytes)
    requires FieldOk(f) && ValueTyped(f, v) && Plain(f)
    ensures DecodeValue(f, was, EncodeValue(f, v) + rest) == Some((v, rest))
  {
    hide Varint, Varint32, GetVarint64, FieldNumber, Half, ZigZag;
    var n := PlainNumber(f, v);
    assert EncodeValue(f, v) == Varint(n);
    if f.ltype.Bool? {
      Varint32Reads(n, rest);
    } else {
      VarintsRoundTrip(n, rest);
      FieldNumberReads(f, v.i);
    }
  }

  lemma FixedReads(f: Field, v: Value, was: Value, rest: Bytes)
    requires ValueTyped(f, v) && (f.ltype.Fixed32? || f.ltype.Fixed64?)
    ensures DecodeValue(f, was, EncodeValue(f, v) + rest) == Some((v, rest))
  {
    hide Fixed, Unfixed;
    FixedWidths(v.i);
    var n := if f.ltype.Fixed32? then 4 else 8;
    var e := Fixed(v.i, n);
    assert EncodeValue(f, v) == e;
    assert (e + rest)[..n] == e && (e + rest)[n..] == rest;
  }

  lemma BytesRead(f: Field, v: Value, was: Value, rest: Bytes)
    requires FieldOk(f) && ValueTyped(f, v) && ValueFits(f, v) &&
             (f.ltype.ByteArray? || f.ltype.CString? || f.ltype.FixedBytes?)
    requires |EncodeValue(f, v)| < BITS_32
    ensures DecodeValue(f, was, EncodeValue(f, v) + rest) == Some((v, rest))
  {
    hide Substring, UpToZero, Varint;
    assert EncodeValue(f, v) == LengthPrefixed(v.s) == Varint(|v.s|) + v.s;
    SubstringReads(v.s, rest);
    if f.ltype.CString? {
      UpToZeroIsAll(v.s);
    }
  }

  /** Byte strings that fit are taken, with their length before them or up to the zero byte of a text; others are
      refused.  An empty string leaves an array of fixed size zero. */
  lemma BytesTaken(f: Field, was: Value, s: Bytes, rest: Bytes)
    requires |s| < BITS_32
    ensures var r := DecodeValue(f, was, LengthPrefixed(s) + rest);
            && (f.ltype.ByteArray? ==> r == if 4 + |s| <= f.dataSize then Some((BytesV(s), rest)) else None)
            && (f.ltype.FixedBytes? ==>
                  r == if s == [] then Some((BytesV(Zeros(f.dataSize)), rest))
                       else if |s| == f.dataSize then Some((BytesV(s), rest)) else None)
            && (f.ltype.CString? && f.dataSize < BITS_32 ==>
                  if |s| + 1 <= f.dataSize then
                    && r.Some? && r.value.0.BytesV? && r.value.1 == rest
                    && r.value.0.s <= s && 0 !in r.value.0.s
                    && (|r.value.0.s| < |s| ==> s[|r.value.0.s|] == 0)
                  else r == None)
  {
    hide Substring, UpToZero, Varint;
    SubstringReads(s, rest);
    UpToZeroIs(s);
  }

  lemma {:induction false} UpToZeroIs(s: Bytes)
    ensures var t := UpToZero(s); t <= s && 0 !in t && (|t| < |s| ==> s[|t|] == 0)
  {
    if s != [] && s[0] != 0 {
      UpToZeroIs(s[1..]);
      assert s == [s[0]] + s[1..];
    }
  }

  /** A value, with anything after it, is read back.  Messages inside are read into a message of default values. */
  lemma {:induction false} ValueReads(f: Field, v: Value, was: Value, rest: Bytes)
    requires FieldOk(f) && ValueTyped(f, v) && ValueFits(f, v)
    requires |EncodeValue(f, v)| < BITS_32
    requires f.ltype.Submessage? && !f.htype.Repeated? ==> was == DefaultValue(f)
    ensures DecodeValue(f, was, EncodeValue(f, v) + rest) == Some((v, rest))
    decreases f, 0
  {
    hide Substring, DecodeInto, EncodeFrom, LengthPrefixed;
    if f.ltype.Submessage? {
      var d, e := f.ltype.desc, EncodeFrom(f.ltype.desc, v.m, 0);
      assert EncodeValue(f, v) == LengthPrefixed(e);
      SubstringReads(e, rest);
      MessageReads(d, v.m);
    } else if Plain(f) {
      PlainReads(f, v, was, rest);
    } else if f.ltype.Fixed32? || f.ltype.Fixed64? {
      FixedReads(f, v, was, rest);
    } else {
      BytesRead(f, v, was, rest);
    }
  }

  /** A packed array is read back element by element. */
  lemma {:induction false} PackedReads(f: Field, vs: seq<Value>, k: nat)
    requires FieldOk(f) && Packable(f.ltype) && k <= |vs| <= f.arraySize
    requires forall j :: 0 <= j < |vs| ==> ValueTyped(f, vs[j]) && ValueFits(f, vs[j])
    requires |EncodeItems(f, vs, k)| < BITS_32
    ensures DecodePacked(f, vs[..k], EncodeItems(f, vs, k)) == Some(vs)
    decreases f, 1, |vs| - k
  {
    hide EncodeValue, DecodeValue, FieldOk, ValueTyped, ValueFits, DefaultValue;
    if k == |vs| {
      assert vs[..k] == vs;
    } else {
      var e, rest := EncodeValue(f, vs[k]), EncodeItems(f, vs, k + 1);
      ValueReads(f, vs[k], DefaultValue(f), rest);
      assert e + rest != [];
      assert vs[..k] + [vs[k]] == vs[..k + 1];
      PackedReads(f, vs, k + 1);
    }
  }

  // ---- fields ----

  /** The fields before the `i`-th as in `m`, the `i`-th as `s`, and the rest as they were at first. */
  function With(d: Desc, m: Message, i: nat, s: Slot): (r: Message)
    requires |m.slots| == |d.fields| && i < |d.fields|
    ensures |r.slots| == |d.fields|
  {
    Message(m.slots[..i] + [s] + Default(d).slots[i + 1..])
  }

  function UpTo(d: Desc, m: Message, i: nat): (r: Message)
    requires |m.slots| == |d.fields| && i <= |d.fields|
    ensures |r.slots| == |d.fields|
  {
    Message(m.slots[..i] + Default(d).slots[i..])
  }

  predicate Present(s: Slot) {
    match s
    case One(_) => true
    case Maybe(o) => o.Some?
    case Many(vs) => vs != []
  }

  /** The fields from the `i`-th on that are there. */
  function SeenFrom(m: Message, i: nat): set<nat>
    requires i <= |m.slots|
  {
    set j: nat | i <= j < |m.slots| && Present(m.slots[j])
  }

  lemma UpToIsWith(d: Desc, m: Message, i: nat)
    requires |m.slots| == |d.fields| && i < |d.fields|
    ensures UpTo(d, m, i) == With(d, m, i, DefaultSlot(d.fields[i]))
    ensures UpTo(d, m, i + 1) == With(d, m, i, m.slots[i])
    ensures SeenFrom(m, i) == (if Present(m.slots[i]) then {i} else {}) + SeenFrom(m, i + 1)
  {
    hide DefaultSlot;
    var slots := Default(d).slots;
    assert slots[i..] == [slots[i]] + slots[i + 1..];
    assert m.slots[..i + 1] == m.slots[..i] + [m.slots[i]];
  }

  /** In a well-typed message, setting one field leaves the other members of its oneof as they were: absent. */
  lemma PutWith(d: Desc, m: Message, i: nat, s: Slot, t: Slot)
    requires WellTyped(d, m) && i < |d.fields| && Present(m.slots[i])
    ensures PutSlot(d, With(d, m, i, s), i, t) == With(d, m, i, t)
  {
    hide SlotTyped, Default;
    var f := d.fields[i];
    var a, b := PutSlot(d, With(d, m, i, s), i, t).slots, With(d, m, i, t).slots;
    forall j | 0 <= j < |a|
      ensures a[j] == b[j]
    {
      if j != i && SameOneof(f, d.fields[j]) {
        OthersAbsent(d, m, i, j);
      }
    }
    assert a == b;
  }

  lemma OthersAbsent(d: Desc, m: Message, i: nat, j: nat)
    requires WellTyped(d, m) && i < |d.fields| && j < |d.fields| && j != i
    requires Present(m.slots[i]) && SameOneof(d.fields[i], d.fields[j])
    ensures m.slots[j] == Maybe(None) && DefaultSlot(d.fields[j]) == Maybe(None)
  {
    assert SlotTyped(d.fields[i], m.slots[i]) && SlotTyped(d.fields[j], m.slots[j]);
    assert m.slots[j].o == None;
  }

  lemma TagReads(d: Desc, i: nat, wire: nat, rest: Bytes)
    requires DescOk(d) && i < |d.fields| && wire < 8
    ensures var key := 8 * d.fields[i].tag + wire;
            && Varint32(TagBytes(d.fields[i].tag, wire) + rest) == Some((key, rest))
            && key > 0 && key % 8 == wire && FieldIndex(d, key / 8) == Some(i)
  {
    hide Varint, Varint32;
    var tag := d.fields[i].tag;
    assert FieldOk(d.fields[i]);
    Varint32Reads(8 * tag + wire, rest);
    assert (8 * tag + wire) / 8 == tag;
    assert d.fields[FieldIndex(d, tag).value].tag == d.fields[i].tag;
  }

  /** One field after its tag. */
  lemma KeyReads(d: Desc, p: Partial, i: nat, wire: nat, payload: Bytes)
    requires DescOk(d) && i < |d.fields| && wire < 8 && |p.m.slots| == |d.fields|
    requires p.rest == TagBytes(d.fields[i].tag, wire) + payload
    requires DecodeSlot(d.fields[i], p.m.slots[i], wire, payload).Some?
    ensures var (s, rest) := DecodeSlot(d.fields[i], p.m.slots[i], wire, payload).value;
            DecodeFields(d, p) == DecodeFields(d, Partial(PutSlot(d, p.m, i, s), p.seen + {i}, rest))
  {
    hide DecodeSlot, PutSlot, FieldIndex, Varint32, Varint, DescOk;
    TagReads(d, i, wire, payload);
  }

  lemma FieldFacts(d: Desc, m: Message, i: nat)
    requires DescOk(d) && WellTyped(d, m) && Fits(d, m) && i < |d.fields|
    ensures |m.slots| == |d.fields|
    ensures FieldOk(d.fields[i]) && SlotTyped(d.fields[i], m.slots[i]) && SlotFits(d.fields[i], m.slots[i])
  {
  }

  /** A required, optional or oneof field that is there. */
  lemma {:induction false} SingleReads(d: Desc, m: Message, i: nat, seen: set<nat>, rest: Bytes)
    requires DescOk(d) && WellTyped(d, m) && Fits(d, m) && i < |d.fields| && !m.slots[i].Many? && Present(m.slots[i])
    requires |EncodeField(d.fields[i], m.slots[i])| < BITS_32
    ensures DecodeFields(d, Partial(UpTo(d, m, i), seen, EncodeField(d.fields[i], m.slots[i]) + rest)) ==
            DecodeFields(d, Partial(UpTo(d, m, i + 1), seen + {i}, rest))
    decreases d, 0
  {
    hide DescOk, WellTyped, Fits, EncodeValue, DecodeValue, DecodeFields, DefaultValue, PutSlot, FieldOk, ValueTyped,
         ValueFits, TagBytes, SeenFrom;
    FieldFacts(d, m, i);
    var f, s := d.fields[i], m.slots[i];
    var v := if s.One? then s.v else s.o.value;
    var e := EncodeValue(f, v);
    ValueReads(f, v, DefaultValue(f), rest);
    UpToIsWith(d, m, i);
    PutWith(d, m, i, DefaultSlot(f), s);
    var p := Partial(UpTo(d, m, i), seen, EncodeField(f, s) + rest);
    assert p.m.slots[i] == DefaultSlot(f);
    assert p.rest == TagBytes(f.tag, WireType(f.ltype)) + (e + rest);
    KeyReads(d, p, i, WireType(f.ltype), e + rest);
  }

  /** Array elements each with its tag, from the `k`-th on. */
  lemma {:induction false} TaggedRead(d: Desc, m: Message, i: nat, seen: set<nat>, k: nat, rest: Bytes)
    requires DescOk(d) && WellTyped(d, m) && Fits(d, m) && i < |d.fields| && m.slots[i].Many? && k <= |m.slots[i].vs|
    requires !Packable(d.fields[i].ltype)
    requires |EncodeTagged(d.fields[i], m.slots[i].vs, k)| < BITS_32
    ensures var vs := m.slots[i].vs;
            DecodeFields(d, Partial(With(d, m, i, Many(vs[..k])), seen, EncodeTagged(d.fields[i], vs, k) + rest)) ==
            DecodeFields(d, Partial(With(d, m, i, Many(vs)), seen + (if k < |vs| then {i} else {}), rest))
    decreases d, 0, |m.slots[i].vs| - k
  {
    hide DescOk, WellTyped, Fits, EncodeValue, DecodeValue, DecodeFields, DefaultValue, PutSlot, FieldOk,
         ValueTyped, ValueFits, TagBytes, Packable, Default;
    FieldFacts(d, m, i);
    var f, vs := d.fields[i], m.slots[i].vs;
    if k == |vs| {
      assert vs[..k] == vs;
      assert EncodeTagged(f, vs, k) + rest == rest;
      assert seen + (if k < |vs| then {i} else {}) == seen;
    } else {
      var e, next := EncodeValue(f, vs[k]), EncodeTagged(f, vs, k + 1);
      var payload := e + (next + rest);
      ValueReads(f, vs[k], DefaultValue(f), next + rest);
      PutWith(d, m, i, Many(vs[..k]), Many(vs[..k + 1]));
      assert vs[..k] + [vs[k]] == vs[..k + 1];
      var p := Partial(With(d, m, i, Many(vs[..k])), seen, EncodeTagged(f, vs, k) + rest);
      assert p.rest == TagBytes(f.tag, WireType(f.ltype)) + payload;
      KeyReads(d, p, i, WireType(f.ltype), payload);
      TaggedRead(d, m, i, seen + {i}, k + 1, rest);
      assert seen + {i} + (if k + 1 < |vs| then {i} else {}) == seen + {i};
    }
  }

  lemma {:induction false} ManyReads(d: Desc, m: Message, i: nat, seen: set<nat>, rest: Bytes)
    requires DescOk(d) && WellTyped(d, m) && Fits(d, m) && i < |d.fields| && m.slots[i].Many? && m.slots[i].vs != []
    requires |EncodeField(d.fields[i], m.slots[i])| < BITS_32
    ensures DecodeFields(d, Partial(UpTo(d, m, i), seen, EncodeField(d.fields[i], m.slots[i]) + rest)) ==
            DecodeFields(d, Partial(UpTo(d, m, i + 1), seen + {i}, rest))
    decreases d, 1
  {
    hide DescOk, WellTyped, Fits, EncodeValue, DecodeValue, DecodeFields, DefaultValue, PutSlot, SeenFrom, FieldOk,
         ValueTyped, ValueFits, TagBytes, Default, EncodeItems, EncodeTagged, DecodePacked, Substring, LengthPrefixed,
         Packable;
    FieldFacts(d, m, i);
    var f, s := d.fields[i], m.slots[i];
    UpToIsWith(d, m, i);
    PutWith(d, m, i, DefaultSlot(f), s);
    assert s.vs[..0] == [];
    if Packable(f.ltype) {
      var items := EncodeItems(f, s.vs, 0);
      var payload := LengthPrefixed(items) + rest;
      var p := Partial(UpTo(d, m, i), seen, EncodeField(f, s) + rest);
      assert p.rest == TagBytes(f.tag, 2) + payload;
      SubstringReads(items, rest);
      PackedReads(f, s.vs, 0);
      assert p.m.slots[i] == Many([]);
      KeyReads(d, p, i, 2, payload);
    } else {
      TaggedRead(d, m, i, seen, 0, rest);
    }
  }

  /** One field of a message, whether it is there or not. */
  lemma {:induction false} FieldReads(d: Desc, m: Message, i: nat, seen: set<nat>, rest: Bytes)
    requires DescOk(d) && WellTyped(d, m) && Fits(d, m) && i < |d.fields|
    requires |EncodeField(d.fields[i], m.slots[i])| < BITS_32
    ensures DecodeFields(d, Partial(UpTo(d, m, i), seen, EncodeField(d.fields[i], m.slots[i]) + rest)) ==
            DecodeFields(d, Partial(UpTo(d, m, i + 1), seen + (if Present(m.slots[i]) then {i} else {}), rest))
    decreases d, 2
  {
    hide DescOk, WellTyped, Fits, EncodeField, UpTo, DecodeFields;
    FieldFacts(d, m, i);
    if !Present(m.slots[i]) {
      AbsentFields(d, m, i);
      assert EncodeField(d.fields[i], m.slots[i]) + rest == rest && seen + {} == seen;
    } else if m.slots[i].Many? {
      ManyReads(d, m, i, seen, rest);
    } else {
      SingleReads(d, m, i, seen, rest);
    }
  }

  /** From the `i`-th field on, decoding completes the message and goes on with what follows. */
  lemma {:induction false} FieldsRead(d: Desc, m: Message, i: nat, seen: set<nat>, rest: Bytes)
    requires DescOk(d) && WellTyped(d, m) && Fits(d, m) && i <= |d.fields|
    requires |EncodeFrom(d, m, i)| < BITS_32
    ensures |m.slots| == |d.fields|
    ensures DecodeFields(d, Partial(UpTo(d, m, i), seen, EncodeFrom(d, m, i) + rest)) ==
            DecodeFields(d, Partial(m, seen + SeenFrom(m, i), rest))
    decreases d, 3, |d.fields| - i
  {
    hide DescOk, WellTyped, Fits, EncodeField, UpTo, DecodeFields;
    if i == |d.fields| {
      UpToAll(d, m);
      assert EncodeFrom(d, m, i) + rest == rest && seen + SeenFrom(m, i) == seen;
    } else {
      hide SeenFrom;
      FieldFacts(d, m, i);
      UpToIsWith(d, m, i);
      var e, next := EncodeField(d.fields[i], m.slots[i]), EncodeFrom(d, m, i + 1);
      assert EncodeFrom(d, m, i) + rest == e + (next + rest);
      FieldReads(d, m, i, seen, next + rest);
      var here := if Present(m.slots[i]) then {i} else {};
      FieldsRead(d, m, i + 1, seen + here, rest);
      assert seen + here + SeenFrom(m, i + 1) == seen + SeenFrom(m, i);
    }
  }

  lemma UpToAll(d: Desc, m: Message)
    requires WellTyped(d, m)
    ensures |m.slots| == |d.fields| && UpTo(d, m, |d.fields|) == m
  {
    hide DefaultSlot;
  }

  lemma AbsentFields(d: Desc, m: Message, i: nat)
    requires WellTyped(d, m) && i < |d.fields| && !Present(m.slots[i])
    ensures EncodeField(d.fields[i], m.slots[i]) == []
    ensures UpTo(d, m, i + 1) == UpTo(d, m, i)
  {
    hide UpTo, SeenFrom;
    UpToIsWith(d, m, i);
    assert SlotTyped(d.fields[i], m.slots[i]);
    assert DefaultSlot(d.fields[i]) == m.slots[i];
  }

  lemma AllRequiredSeen(d: Desc, m: Message)
    requires WellTyped(d, m)
    ensures |m.slots| == |d.fields| && RequiredSeen(d, SeenFrom(m, 0))
  {
    hide ValueTyped;
    forall i: nat | i < |d.fields| && d.fields[i].htype.Required?
      ensures i in SeenFrom(m, 0)
    {
      assert SlotTyped(d.fields[i], m.slots[i]);
    }
  }

  /** An encoded message and more fields: they are decoded into the message. */
  lemma {:induction false} MessageContinues(d: Desc, m: Message, rest: Bytes)
    requires DescOk(d) && WellTyped(d, m) && Fits(d, m)
    requires |EncodeFrom(d, m, 0)| < BITS_32
    ensures |m.slots| == |d.fields|
    ensures DecodeFields(d, Partial(Default(d), {}, EncodeFrom(d, m, 0) + rest)) ==
            DecodeFields(d, Partial(m, SeenFrom(m, 0), rest))
    decreases d, 4
  {
    hide DescOk, Fits, WellTyped, DecodeFields, EncodeFrom, Default;
    FieldsRead(d, m, 0, {}, rest);
    assert UpTo(d, m, 0) == Default(d);
    assert {} + SeenFrom(m, 0) == SeenFrom(m, 0);
  }

  lemma {:induction false} MessageReads(d: Desc, m: Message)
    requires DescOk(d) && WellTyped(d, m) && Fits(d, m)
    requires |EncodeFrom(d, m, 0)| < BITS_32
    ensures DecodeInto(d, Default(d), EncodeFrom(d, m, 0)) == Some(m)
    decreases d, 5
  {
    hide DescOk, Fits, WellTyped, DecodeField, EncodeFrom, Default, RequiredSeen;
    MessageContinues(d, m, []);
    assert EncodeFrom(d, m, 0) + [] == EncodeFrom(d, m, 0);
    AllRequiredSeen(d, m);
  }

  /** Whatever the message type, a message that fits it is decoded from its encoding. */
  lemma RoundTrip(d: Desc, m: Message)
    requires DescOk(d) && WellTyped(d, m) && Fits(d, m)
    requires |Encode(d, m)| < BITS_32
    ensures Decode(d, Encode(d, m)) == Some(m)
  {
    MessageReads(d, m);
  }

  /** A zero after the message ends it: what comes then is not looked at. */
  lemma NullterminatedRoundTrip(d: Desc, m: Message, rest: Bytes)
    requires DescOk(d) && WellTyped(d, m) && Fits(d, m)
    requires |Encode(d, m)| < BITS_32
    ensures Decode(d, Encode(d, m) + [0] + rest) == Some(m)
  {
    hide DescOk, Fits, WellTyped, DecodeField, EncodeFrom, Default, RequiredSeen;
    MessageContinues(d, m, [0] + rest);
    assert Encode(d, m) + [0] + rest == EncodeFrom(d, m, 0) + ([0] + rest);
    AllRequiredSeen(d, m);
    assert ([0] + rest)[0] == 0;
  }
}
