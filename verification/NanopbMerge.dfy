/** Decoding one encoding after another merges the messages, as section "Last One Wins" of the Encoding guide has it:
    later values replace earlier ones, arrays are joined, and messages inside are merged in turn. */
module NanopbMerge {
  import opened Wrappers
  import opened Bytewise
  import opened Coding
  import opened Nanopb
  import opened NanopbDecode
  import opened NanopbRoundTrip
  import opened NanopbSound

  ghost function MergeValue(f: Field, was: Value, v: Value): Option<Value>
    decreases f, 0
  {
    if f.ltype.Submessage? && !f.htype.Repeated? && was.MessageV? && v.MessageV? then
      match Merge(f.ltype.desc, was.m, v.m)
      case None => None
      case Some(m) => Some(MessageV(m))
    else Some(v)
  }

  /** What a field holds after both; nothing if an array grows too long. */
  ghost function MergeSlot(f: Field, a: Slot, b: Slot): Option<Slot>
    decreases f, 1
  {
    match (a, b)
    case (One(was), One(v)) =>
      (match MergeValue(f, was, v)
       case None => None
       case Some(w) => Some(One(w)))
    case (Maybe(o), Maybe(p)) =>
      if p == None then Some(a)
      else
        (match MergeValue(f, if o == None then DefaultValue(f) else o.value, p.value)
         case None => None
         case Some(w) => Some(Maybe(Some(w))))
    case (Many(vs), Many(ws)) => if |vs| + |ws| > f.arraySize then None else Some(Many(vs + ws))
    case _ => None
  }

  /** Another member of the oneof that the `j`-th field is in is set. */
  ghost predicate Displaced(d: Desc, b: Message, n: nat, j: nat)
    requires j < |d.fields| == |b.slots| && n <= |d.fields|
  {
    exists k :: 0 <= k < n && k != j && SameOneof(d.fields[k], d.fields[j]) && Present(b.slots[k])
  }

  ghost function MergedSlot(d: Desc, a: Message, b: Message, j: nat): Option<Slot>
    requires j < |d.fields| == |a.slots| == |b.slots|
    decreases d, 0
  {
    if Displaced(d, b, |d.fields|, j) then Some(Maybe(None)) else MergeSlot(d.fields[j], a.slots[j], b.slots[j])
  }

  ghost function Merge(d: Desc, a: Message, b: Message): (r: Option<Message>)
    decreases d, 1
  {
    if |a.slots| != |d.fields| || |b.slots| != |d.fields| then None
    else if forall j :: 0 <= j < |d.fields| ==> MergedSlot(d, a, b, j).Some?
    then Some(Message(seq(|d.fields|, j requires 0 <= j < |d.fields| =>
      if MergedSlot(d, a, b, j).Some? then MergedSlot(d, a, b, j).value else Maybe(None))))
    else None
  }

  /** How reading goes on after a field or message was merged. */
  ghost function GoesOn(d: Desc, r: Option<Message>, seen: set<nat>, rest: Bytes): Option<Partial> {
    match r
    case None => None
    case Some(m) => if |m.slots| == |d.fields| then DecodeFields(d, Partial(m, seen, rest)) else None
  }

  // ---- values ----

  lemma {:induction false} ValueMerges(f: Field, was: Value, v: Value, rest: Bytes)
    requires FieldOk(f) && ValueSound(f, was) && ValueSound(f, v) && |EncodeValue(f, v)| < BITS_32
    ensures DecodeValue(f, was, EncodeValue(f, v) + rest) ==
            match MergeValue(f, was, v)
            case None => None
            case Some(w) => Some((w, rest))
    decreases f, 0
  {
    if f.ltype.Submessage? && !f.htype.Repeated? {
      hide Substring, DecodeFields, EncodeFrom, LengthPrefixed, DescOk, WellTyped, Fits, RequiredSeen, Merge;
      var d, e := f.ltype.desc, EncodeFrom(f.ltype.desc, v.m, 0);
      assert EncodeValue(f, v) == LengthPrefixed(e);
      SubstringReads(e, rest);
      IntoMerges(d, was.m, v.m);
    } else {
      hide DecodeValue, EncodeValue, ValueTyped, ValueFits, FieldOk;
      ValueReads(f, v, was, rest);
    }
  }

  /** A message read into another. */
  lemma {:induction false} IntoMerges(d: Desc, a: Message, b: Message)
    requires DescOk(d) && Sound(d, a) && Sound(d, b) && |EncodeFrom(d, b, 0)| < BITS_32
    ensures DecodeInto(d, a, EncodeFrom(d, b, 0)) == Merge(d, a, b)
    decreases d, 4
  {
    hide DecodeFields, EncodeFrom, DescOk, Sound, RequiredSeen, Merge, SeenFrom;
    MergeReads(d, a, b, {}, []);
    assert EncodeFrom(d, b, 0) + [] == EncodeFrom(d, b, 0);
    assert {} + SeenFrom(b, 0) == SeenFrom(b, 0);
    SoundSlots(d, a);
    SoundIsTyped(d, b);
    AllRequiredSeen(d, b);
    MergeSlots(d, a, b);
    if Merge(d, a, b).Some? {
      NothingMore(d, Partial(Merge(d, a, b).value, SeenFrom(b, 0), []));
    }
  }

  lemma SoundIsTyped(d: Desc, m: Message)
    requires Sound(d, m)
    ensures WellTyped(d, m) && Fits(d, m) && |m.slots| == |d.fields|
  {
  }

  lemma MergeSlots(d: Desc, a: Message, b: Message)
    ensures Merge(d, a, b).Some? ==> |Merge(d, a, b).value.slots| == |d.fields|
  {
  }

  lemma NothingMore(d: Desc, p: Partial)
    requires |p.m.slots| == |d.fields| && p.rest == []
    ensures DecodeFields(d, p) == Some(p)
  {
  }

  // ---- arrays ----

  lemma {:induction false} PackedAppends(f: Field, was: seq<Value>, vs: seq<Value>, k: nat)
    requires FieldOk(f) && Packable(f.ltype) && k <= |vs| && |was| + k <= f.arraySize
    requires forall j :: 0 <= j < |vs| ==> ValueSound(f, vs[j])
    requires |EncodeItems(f, vs, k)| < BITS_32
    ensures DecodePacked(f, was + vs[..k], EncodeItems(f, vs, k)) ==
            if |was| + |vs| > f.arraySize then None else Some(was + vs)
    decreases |vs| - k
  {
    hide EncodeValue, DecodeValue, FieldOk, ValueTyped, ValueFits, DefaultValue;
    if k == |vs| {
      assert vs[..k] == vs;
    } else {
      var e, rest := EncodeValue(f, vs[k]), EncodeItems(f, vs, k + 1);
      ValueReads(f, vs[k], DefaultValue(f), rest);
      assert e + rest != [];
      if |was| + k < f.arraySize {
        assert was + vs[..k] + [vs[k]] == was + vs[..k + 1];
        PackedAppends(f, was, vs, k + 1);
      }
    }
  }

  /** A key whose field cannot be decoded. */
  lemma KeyFails(d: Desc, p: Partial, i: nat, wire: nat, payload: Bytes)
    requires DescOk(d) && i < |d.fields| && wire < 8 && |p.m.slots| == |d.fields|
    requires p.rest == TagBytes(d.fields[i].tag, wire) + payload
    requires DecodeSlot(d.fields[i], p.m.slots[i], wire, payload) == None
    ensures DecodeFields(d, p) == None
  {
    hide DecodeSlot, PutSlot, FieldIndex, Varint32, Varint, DescOk;
    TagReads(d, i, wire, payload);
  }

  lemma PutAgain(d: Desc, m: Message, i: nat, s: Slot, t: Slot)
    requires |m.slots| == |d.fields| && i < |d.fields|
    ensures PutSlot(d, PutSlot(d, m, i, s), i, t) == PutSlot(d, m, i, t)
    ensures d.fields[i].htype.Repeated? ==> PutSlot(d, m, i, m.slots[i]) == m
  {
    assert PutSlot(d, PutSlot(d, m, i, s), i, t).slots == PutSlot(d, m, i, t).slots;
    if d.fields[i].htype.Repeated? {
      assert PutSlot(d, m, i, m.slots[i]).slots == m.slots;
    }
  }

  /** Array elements each with its tag are appended one by one, also those that could have been packed. */
  lemma {:induction false} TaggedAppends(d: Desc, m: Message, i: nat, was: seq<Value>, vs: seq<Value>, k: nat,
          seen: set<nat>, rest: Bytes)
    requires DescOk(d) && i < |d.fields| == |m.slots| && d.fields[i].htype.Repeated? && k <= |vs|
    requires m.slots[i] == Many(was + vs[..k]) && |was| + k <= d.fields[i].arraySize
    requires forall j :: 0 <= j < |vs| ==> ValueSound(d.fields[i], vs[j])
    requires |EncodeTagged(d.fields[i], vs, k)| < BITS_32
    ensures DecodeFields(d, Partial(m, seen, EncodeTagged(d.fields[i], vs, k) + rest)) ==
            if |was| + |vs| > d.fields[i].arraySize then None
            else DecodeFields(d, Partial(PutSlot(d, m, i, Many(was + vs)), seen + (if k < |vs| then {i} else {}), rest))
    decreases |vs| - k
  {
    hide DescOk, EncodeValue, DecodeValue, DecodeFields, DefaultValue, PutSlot, FieldOk, ValueTyped, ValueFits,
         TagBytes, Packable;
    var f := d.fields[i];
    if k == |vs| {
      assert vs[..k] == vs;
      PutAgain(d, m, i, m.slots[i], m.slots[i]);
      assert EncodeTagged(f, vs, k) + rest == rest && seen + {} == seen;
    } else {
      FieldIsOk(d, i);
      PackableHasOtherWire(f);
      var e, next := EncodeValue(f, vs[k]), EncodeTagged(f, vs, k + 1);
      var p := Partial(m, seen, EncodeTagged(f, vs, k) + rest);
      assert p.rest == TagBytes(f.tag, WireType(f.ltype)) + (e + (next + rest));
      ValueReads(f, vs[k], DefaultValue(f), next + rest);
      if |was| + k >= f.arraySize {
        KeyFails(d, p, i, WireType(f.ltype), e + (next + rest));
      } else {
        assert was + vs[..k] + [vs[k]] == was + vs[..k + 1];
        KeyReads(d, p, i, WireType(f.ltype), e + (next + rest));
        var m' := PutSlot(d, m, i, Many(was + vs[..k + 1]));
        PutIs(d, m, i, Many(was + vs[..k + 1]));
        TaggedAppends(d, m', i, was, vs, k + 1, seen + {i}, rest);
        PutAgain(d, m, i, Many(was + vs[..k + 1]), Many(was + vs));
        assert seen + {i} + (if k + 1 < |vs| then {i} else {}) == seen + {i};
      }
    }
  }

  lemma FieldIsOk(d: Desc, i: nat)
    requires DescOk(d) && i < |d.fields|
    ensures FieldOk(d.fields[i])
  {
  }

  lemma PutIs(d: Desc, m: Message, i: nat, s: Slot)
    requires |m.slots| == |d.fields| && i < |d.fields|
    ensures |PutSlot(d, m, i, s).slots| == |d.fields| && PutSlot(d, m, i, s).slots[i] == s
  {
  }

  lemma PackableHasOtherWire(f: Field)
    ensures WireType(f.ltype) < 8 && (Packable(f.ltype) ==> WireType(f.ltype) != 2)
  {
  }

  // ---- fields ----

  lemma {:induction false} SingleMerges(d: Desc, m: Message, i: nat, was: Value, v: Value, seen: set<nat>, rest: Bytes)
    requires DescOk(d) && i < |d.fields| == |m.slots| && !d.fields[i].htype.Repeated?
    requires ValueSound(d.fields[i], was) && ValueSound(d.fields[i], v)
    requires match m.slots[i]
             case One(w) => d.fields[i].htype.Required? && w == was
             case Maybe(o) => !d.fields[i].htype.Required? && was == (if o == None then DefaultValue(d.fields[i])
                                                                      else o.value)
             case Many(_) => false
    requires |EncodeValue(d.fields[i], v)| < BITS_32
    ensures var f := d.fields[i];
            DecodeFields(d, Partial(m, seen, TagBytes(f.tag, WireType(f.ltype)) + EncodeValue(f, v) + rest)) ==
            match MergeValue(f, was, v)
            case None => None
            case Some(w) => DecodeFields(d, Partial(PutSlot(d, m, i, if m.slots[i].One? then One(w)
                                                                     else Maybe(Some(w))), seen + {i}, rest))
    decreases d, 0
  {
    hide DescOk, EncodeValue, DecodeValue, DecodeFields, DefaultValue, PutSlot, FieldOk, ValueTyped, ValueFits,
         TagBytes, MergeValue;
    var f, e := d.fields[i], EncodeValue(d.fields[i], v);
    FieldIsOk(d, i);
    PackableHasOtherWire(f);
    ValueMerges(f, was, v, rest);
    var p := Partial(m, seen, TagBytes(f.tag, WireType(f.ltype)) + e + rest);
    assert p.rest == TagBytes(f.tag, WireType(f.ltype)) + (e + rest);
    if MergeValue(f, was, v) == None {
      KeyFails(d, p, i, WireType(f.ltype), e + rest);
    } else {
      KeyReads(d, p, i, WireType(f.ltype), e + rest);
    }
  }

  lemma {:induction false} ManyMerges(d: Desc, m: Message, i: nat, vs: seq<Value>, seen: set<nat>, rest: Bytes)
    requires DescOk(d) && i < |d.fields| == |m.slots| && d.fields[i].htype.Repeated? && vs != []
    requires m.slots[i].Many? && |m.slots[i].vs| <= d.fields[i].arraySize
    requires forall j :: 0 <= j < |vs| ==> ValueSound(d.fields[i], vs[j])
    requires |EncodeField(d.fields[i], Many(vs))| < BITS_32
    ensures var f, was := d.fields[i], m.slots[i].vs;
            DecodeFields(d, Partial(m, seen, EncodeField(f, Many(vs)) + rest)) ==
            if |was| + |vs| > f.arraySize then None
            else DecodeFields(d, Partial(PutSlot(d, m, i, Many(was + vs)), seen + {i}, rest))
  {
    hide DescOk, DecodeFields, PutSlot, FieldOk, ValueTyped, ValueFits, TagBytes, Packable, EncodeItems, EncodeTagged,
         DecodePacked, Substring, LengthPrefixed;
    var f, was := d.fields[i], m.slots[i].vs;
    assert was + vs[..0] == was;
    if Packable(f.ltype) {
      FieldIsOk(d, i);
      var items := EncodeItems(f, vs, 0);
      var p := Partial(m, seen, EncodeField(f, Many(vs)) + rest);
      assert p.rest == TagBytes(f.tag, 2) + (LengthPrefixed(items) + rest);
      SubstringReads(items, rest);
      PackedAppends(f, was, vs, 0);
      if |was| + |vs| > f.arraySize {
        KeyFails(d, p, i, 2, LengthPrefixed(items) + rest);
      } else {
        KeyReads(d, p, i, 2, LengthPrefixed(items) + rest);
      }
    } else {
      TaggedAppends(d, m, i, was, vs, 0, seen, rest);
    }
  }

  /** An array that could be packed reads the same when each element comes with its own tag. */
  lemma UnpackedIsRead(d: Desc, m: Message, i: nat, vs: seq<Value>, seen: set<nat>, rest: Bytes)
    requires DescOk(d) && i < |d.fields| == |m.slots| && d.fields[i].htype.Repeated? && vs != []
    requires m.slots[i].Many? && |m.slots[i].vs| <= d.fields[i].arraySize
    requires forall j :: 0 <= j < |vs| ==> ValueSound(d.fields[i], vs[j])
    requires |EncodeField(d.fields[i], Many(vs))| < BITS_32 && |EncodeTagged(d.fields[i], vs, 0)| < BITS_32
    ensures DecodeFields(d, Partial(m, seen, EncodeTagged(d.fields[i], vs, 0) + rest)) ==
            DecodeFields(d, Partial(m, seen, EncodeField(d.fields[i], Many(vs)) + rest))
  {
    hide DescOk, DecodeFields, PutSlot, ValueSound, EncodeTagged, EncodeField;
    var was := m.slots[i].vs;
    assert was + vs[..0] == was;
    TaggedAppends(d, m, i, was, vs, 0, seen, rest);
    ManyMerges(d, m, i, vs, seen, rest);
  }

  /** One field that is there. */
  lemma {:induction false} FieldMerges(d: Desc, m: Message, i: nat, s: Slot, seen: set<nat>, rest: Bytes)
    requires DescOk(d) && i < |d.fields| == |m.slots| && Present(s)
    requires SlotSound(d.fields[i], m.slots[i]) && SlotSound(d.fields[i], s)
    requires |EncodeField(d.fields[i], s)| < BITS_32
    ensures DecodeFields(d, Partial(m, seen, EncodeField(d.fields[i], s) + rest)) ==
            match MergeSlot(d.fields[i], m.slots[i], s)
            case None => None
            case Some(t) => DecodeFields(d, Partial(PutSlot(d, m, i, t), seen + {i}, rest))
    decreases d, 1
  {
    hide DescOk, DecodeFields, PutSlot, ValueTyped, ValueFits, TagBytes, EncodeValue, MergeValue, FieldOk, EncodeItems,
         EncodeTagged, DefaultValue, LengthPrefixed;
    var f := d.fields[i];
    FieldIsOk(d, i);
    DefaultValueSound(f);
    match s
    case One(v) => SingleMerges(d, m, i, m.slots[i].v, v, seen, rest);
    case Maybe(o) =>
      var was := if m.slots[i].o == None then DefaultValue(f) else m.slots[i].o.value;
      SingleMerges(d, m, i, was, o.value, seen, rest);
    case Many(vs) => ManyMerges(d, m, i, vs, seen, rest);
  }

  // ---- messages ----

  ghost function SlotsMerged(d: Desc, a: Message, b: Message, j: nat): Option<Slot>
    requires j < |d.fields| == |a.slots| == |b.slots|
  {
    MergeSlot(d.fields[j], a.slots[j], b.slots[j])
  }

  /** The message after the first `i` fields of `b`. */
  ghost predicate Midway(d: Desc, a: Message, b: Message, i: nat, m: Message)
    requires |d.fields| == |a.slots| == |b.slots| && i <= |d.fields|
  {
    && |m.slots| == |d.fields|
    && (forall j :: 0 <= j < i ==> SlotsMerged(d, a, b, j).Some?)
    && (forall j :: 0 <= j < |d.fields| ==>
          m.slots[j] == if Displaced(d, b, i, j) then Maybe(None)
                        else if j < i && SlotsMerged(d, a, b, j).Some? then SlotsMerged(d, a, b, j).value
                        else a.slots[j])
  }

  lemma NotBoth(d: Desc, b: Message, i: nat)
    requires WellTyped(d, b) && i < |d.fields| == |b.slots| && Present(b.slots[i])
    ensures !Displaced(d, b, |d.fields|, i) && !Displaced(d, b, i, i)
  {
    forall k | 0 <= k < |d.fields| && k != i && SameOneof(d.fields[k], d.fields[i])
      ensures !Present(b.slots[k])
    {
      OthersAbsent(d, b, i, k);
    }
  }

  lemma AbsentSlot(f: Field, a: Slot, b: Slot)
    requires SlotSound(f, a) && SlotSound(f, b) && !Present(b)
    ensures MergeSlot(f, a, b) == Some(a) && EncodeField(f, b) == []
  {
    if b.Many? {
      assert a.vs + [] == a.vs;
    }
  }

  lemma AbsentChangesNothing(d: Desc, a: Message, b: Message, i: nat, m: Message)
    requires i < |d.fields| == |a.slots| == |b.slots| && !Present(b.slots[i])
    requires SlotSound(d.fields[i], a.slots[i]) && SlotSound(d.fields[i], b.slots[i]) && Midway(d, a, b, i, m)
    ensures Midway(d, a, b, i + 1, m) && EncodeField(d.fields[i], b.slots[i]) == []
  {
    hide SlotSound, MergeSlot, SameOneof;
    AbsentSlot(d.fields[i], a.slots[i], b.slots[i]);
    forall j: nat | j < |d.fields|
      ensures Displaced(d, b, i + 1, j) <==> Displaced(d, b, i, j)
    {
    }
  }

  lemma PresentIsPut(d: Desc, a: Message, b: Message, i: nat, m: Message, t: Slot)
    requires WellTyped(d, b) && i < |d.fields| == |a.slots| == |b.slots| && Present(b.slots[i])
    requires Midway(d, a, b, i, m) && SlotsMerged(d, a, b, i) == Some(t)
    ensures Midway(d, a, b, i + 1, PutSlot(d, m, i, t))
  {
    NotBoth(d, b, i);
    hide WellTyped, SlotsMerged, SameOneof;
    assert forall j: nat :: j < |d.fields| && j != i ==>
        (Displaced(d, b, i + 1, j) <==> Displaced(d, b, i, j) || SameOneof(d.fields[i], d.fields[j]));
    assert !Displaced(d, b, i + 1, i);
  }

  lemma MergedIs(d: Desc, a: Message, b: Message, m: Message)
    requires |d.fields| == |a.slots| == |b.slots| && Midway(d, a, b, |d.fields|, m)
    ensures Merge(d, a, b) == Some(m)
  {
    hide MergeSlot, Displaced;
    forall j: nat | j < |d.fields|
      ensures MergedSlot(d, a, b, j) == Some(m.slots[j])
    {
      assert SlotsMerged(d, a, b, j).Some?;
    }
    hide MergedSlot;
    assert Merge(d, a, b).Some? && Merge(d, a, b).value.slots == m.slots;
  }

  lemma NoMerge(d: Desc, a: Message, b: Message, i: nat)
    requires WellTyped(d, b) && i < |d.fields| == |a.slots| == |b.slots| && Present(b.slots[i])
    requires SlotsMerged(d, a, b, i) == None
    ensures Merge(d, a, b) == None
  {
    hide MergeSlot, WellTyped;
    NotBoth(d, b, i);
    assert MergedSlot(d, a, b, i) == None;
  }

  /** From the `i`-th field of `b` on. */
  lemma {:induction false} RestMerges(d: Desc, a: Message, b: Message, i: nat, m: Message, seen: set<nat>, rest: Bytes)
    requires DescOk(d) && Sound(d, a) && Sound(d, b) && i <= |d.fields| == |a.slots| == |b.slots|
    requires |EncodeFrom(d, b, i)| < BITS_32 && Midway(d, a, b, i, m)
    ensures DecodeFields(d, Partial(m, seen, EncodeFrom(d, b, i) + rest)) ==
            GoesOn(d, Merge(d, a, b), seen + SeenFrom(b, i), rest)
    decreases d, 2, |d.fields| - i
  {
    hide DescOk, Sound, EncodeField, DecodeFields, MergedSlot, Merge, PutSlot, Displaced, MergeSlot, SlotSound;
    if i == |d.fields| {
      MergedIs(d, a, b, m);
      assert EncodeFrom(d, b, i) + rest == rest && seen + SeenFrom(b, i) == seen;
    } else {
      hide SeenFrom, Midway;
      SoundSlots(d, a);
      SoundSlots(d, b);
      SoundIsTyped(d, b);
      UpToIsWith(d, b, i);
      var f, s := d.fields[i], b.slots[i];
      var next := EncodeFrom(d, b, i + 1) + rest;
      assert EncodeFrom(d, b, i) + rest == EncodeField(f, s) + next;
      if !Present(s) {
        AbsentChangesNothing(d, a, b, i, m);
        RestMerges(d, a, b, i + 1, m, seen, rest);
        assert [] + next == next && seen + ({} + SeenFrom(b, i + 1)) == seen + SeenFrom(b, i + 1);
      } else {
        MidwaySlot(d, a, b, i, m);
        FieldMerges(d, m, i, s, seen, next);
        if SlotsMerged(d, a, b, i) == None {
          NoMerge(d, a, b, i);
        } else {
          var t := SlotsMerged(d, a, b, i).value;
          PresentIsPut(d, a, b, i, m, t);
          RestMerges(d, a, b, i + 1, PutSlot(d, m, i, t), seen + {i}, rest);
          assert seen + {i} + SeenFrom(b, i + 1) == seen + SeenFrom(b, i);
        }
      }
    }
  }

  lemma MidwaySlot(d: Desc, a: Message, b: Message, i: nat, m: Message)
    requires WellTyped(d, b) && i < |d.fields| == |a.slots| == |b.slots| && Present(b.slots[i])
    requires Midway(d, a, b, i, m)
    ensures |m.slots| == |d.fields| && m.slots[i] == a.slots[i]
  {
    hide WellTyped, SlotsMerged;
    NotBoth(d, b, i);
  }

  /** Reading the encoding of `b` into `a` merges them, and fails exactly if an array grows too long. */
  lemma {:induction false} MergeReads(d: Desc, a: Message, b: Message, seen: set<nat>, rest: Bytes)
    requires DescOk(d) && Sound(d, a) && Sound(d, b) && |EncodeFrom(d, b, 0)| < BITS_32
    ensures DecodeFields(d, Partial(a, seen, EncodeFrom(d, b, 0) + rest)) ==
            GoesOn(d, Merge(d, a, b), seen + SeenFrom(b, 0), rest)
    decreases d, 3
  {
    hide DescOk, Sound, DecodeFields, Merge, EncodeFrom, MergeSlot, SlotSound;
    SoundSlots(d, a);
    SoundSlots(d, b);
    assert Midway(d, a, b, 0, a);
    RestMerges(d, a, b, 0, a, seen, rest);
  }

  /** The encodings of two messages, one after the other, decode to the two merged. */
  lemma ConcatDecodes(d: Desc, a: Message, b: Message)
    requires DescOk(d) && WellTyped(d, a) && Fits(d, a) && WellTyped(d, b) && Fits(d, b)
    requires |Encode(d, a)| < BITS_32 && |Encode(d, b)| < BITS_32
    ensures Decode(d, Encode(d, a) + Encode(d, b)) == Merge(d, a, b)
  {
    hide DescOk, WellTyped, Fits, DecodeFields, EncodeFrom, Default, RequiredSeen, Merge, SeenFrom;
    SoundIsTyped(d, a);
    MessageContinues(d, a, Encode(d, b));
    MergeReads(d, a, b, SeenFrom(a, 0), []);
    assert Encode(d, b) + [] == Encode(d, b);
    AllRequiredSeen(d, a);
    MoreSeen(d, SeenFrom(a, 0), SeenFrom(b, 0));
    MergeSlots(d, a, b);
    if Merge(d, a, b).Some? {
      NothingMore(d, Partial(Merge(d, a, b).value, SeenFrom(a, 0) + SeenFrom(b, 0), []));
    }
  }

  lemma MoreSeen(d: Desc, s: set<nat>, t: set<nat>)
    requires RequiredSeen(d, s)
    ensures RequiredSeen(d, s + t)
  {
  }
}
