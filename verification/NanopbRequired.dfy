/** When decoding checks that a message is complete: exactly then does it fail for what is missing. */
module NanopbRequired {
  import opened Wrappers
  import opened Bytewise
  import opened Coding
  import opened Nanopb
  import opened NanopbDecode
  import opened NanopbRoundTrip
  import opened NanopbSound

  /** The field is one of the first 64 required ones. */
  ghost predicate MustBeThere(d: Desc, i: nat) {
    i < |d.fields| && d.fields[i].htype.Required? &&
    |set j: nat | j < i && d.fields[j].htype.Required?| < 64
  }

  lemma {:induction false} RequiredAreCounted(d: Desc, i: nat)
    requires i <= |d.fields|
    ensures RequiredBefore(d, i) == |set j: nat | j < i && d.fields[j].htype.Required?|
  {
    var all := set j: nat | j < i && d.fields[j].htype.Required?;
    if i == 0 {
      assert all == {};
    } else {
      RequiredAreCounted(d, i - 1);
      var before := set j: nat | j < i - 1 && d.fields[j].htype.Required?;
      assert all == before + if d.fields[i - 1].htype.Required? then {i - 1} else {};
    }
  }

  lemma RequiredSeenMeans(d: Desc, seen: set<nat>)
    ensures RequiredSeen(d, seen) <==> forall i: nat :: MustBeThere(d, i) ==> i in seen
  {
    forall i: nat | i < |d.fields|
      ensures MustBeThere(d, i) <==> d.fields[i].htype.Required? && RequiredBefore(d, i) < MAX_REQUIRED_FIELDS
    {
      RequiredAreCounted(d, i);
    }
  }

  /** A key with the tag is read in decoding the rest of `p`. */
  ghost predicate KeyRead(d: Desc, p: Partial, tag: nat)
    requires |p.m.slots| == |d.fields|
    decreases |p.rest|
  {
    && p.rest != []
    && match Varint32(p.rest)
       case None => false
       case Some((key, rest)) =>
         && key != 0
         && (key / 8 == tag ||
             match DecodeField(d, p.(rest := rest), key)
             case None => false
             case Some(q) => KeyRead(d, q, tag))
  }

  /** The fields counted as seen are those whose keys were read. */
  lemma {:induction false} SeenWereRead(d: Desc, p: Partial, i: nat)
    requires DescOk(d) && |p.m.slots| == |d.fields| && DecodeFields(d, p).Some? && i < |d.fields|
    ensures i in DecodeFields(d, p).value.seen <==> i in p.seen || KeyRead(d, p, d.fields[i].tag)
    decreases |p.rest|
  {
    hide DescOk, Varint32, DecodeField;
    if p.rest != [] {
      var (key, rest) := Varint32(p.rest).value;
      if key != 0 {
        var q := DecodeField(d, p.(rest := rest), key).value;
        OneSeen(d, p.(rest := rest), key, i);
        SeenWereRead(d, q, i);
      }
    }
  }

  lemma OneSeen(d: Desc, p: Partial, key: nat, i: nat)
    requires DescOk(d) && |p.m.slots| == |d.fields| && DecodeField(d, p, key).Some? && i < |d.fields|
    ensures i in DecodeField(d, p, key).value.seen <==> i in p.seen || key / 8 == d.fields[i].tag
  {
    hide FieldOk, DecodeSlot, Skip, Varint32, PutSlot;
  }

  /** Decoding succeeds exactly if each field can be decoded and, for every one of the first 64 required fields, a key
      with its tag was read. */
  lemma DecodesIfComplete(d: Desc, b: Bytes)
    requires DescOk(d)
    ensures var p := Partial(Default(d), {}, b);
            && (Decode(d, b).Some? <==>
                  && DecodeFields(d, p).Some?
                  && forall i: nat :: MustBeThere(d, i) ==> KeyRead(d, p, d.fields[i].tag))
            && (Decode(d, b).Some? ==> Decode(d, b).value == DecodeFields(d, p).value.m)
  {
    hide DescOk, DecodeFields, Default, RequiredSeen, KeyRead;
    var p := Partial(Default(d), {}, b);
    if DecodeFields(d, p).Some? {
      RequiredSeenMeans(d, DecodeFields(d, p).value.seen);
      forall i: nat | i < |d.fields|
        ensures i in DecodeFields(d, p).value.seen <==> KeyRead(d, p, d.fields[i].tag)
      {
        SeenWereRead(d, p, i);
      }
    }
  }

  // ---- an encoding with one field left out ----

  /** The encoding from the `i`-th field on without the `k`-th. */
  function EncodeWithout(d: Desc, m: Message, k: nat, i: nat): Bytes
    requires |m.slots| == |d.fields|
    decreases |d.fields| - i
  {
    if i >= |d.fields| then []
    else (if i == k then [] else EncodeField(d.fields[i], m.slots[i])) + EncodeWithout(d, m, k, i + 1)
  }

  /** The message without its `k`-th field. */
  function Omitting(d: Desc, m: Message, k: nat): Message
    requires |m.slots| == |d.fields| && k < |d.fields|
  {
    Message(m.slots[k := DefaultSlot(d.fields[k])])
  }

  lemma OmittingIsSound(d: Desc, m: Message, k: nat)
    requires DescOk(d) && WellTyped(d, m) && Fits(d, m) && k < |d.fields|
    ensures |m.slots| == |d.fields|
    ensures DescOk(d) && WellTyped(d, Omitting(d, m, k)) && Fits(d, Omitting(d, m, k))
  {
    hide FieldOk, SlotTyped, SlotFits, DefaultSlot;
    DefaultSlotSound(d.fields[k]);
    var r := Omitting(d, m, k);
    forall i, j | 0 <= i < j < |d.fields| && SameOneof(d.fields[i], d.fields[j])
      ensures r.slots[i].Maybe? && r.slots[j].Maybe? && (r.slots[i].o.Some? ==> r.slots[j].o == None)
    {
      AbsentOneof(d.fields[i], m.slots[i]);
      AbsentOneof(d.fields[j], m.slots[j]);
    }
  }

  lemma AbsentOneof(f: Field, s: Slot)
    requires SlotTyped(f, s) && f.htype.Oneof?
    ensures s.Maybe? && DefaultSlot(f) == Maybe(None)
  {
  }

  lemma {:induction false} ReadsWithout(d: Desc, m: Message, k: nat, i: nat, seen: set<nat>)
    requires DescOk(d) && WellTyped(d, m) && Fits(d, m) && i <= |d.fields| == |m.slots| && k < |d.fields|
    requires m.slots[k] == DefaultSlot(d.fields[k])
    requires |EncodeWithout(d, m, k, i)| < BITS_32
    ensures DecodeFields(d, Partial(UpTo(d, m, i), seen, EncodeWithout(d, m, k, i))) ==
            Some(Partial(m, seen + (SeenFrom(m, i) - {k}), []))
    decreases |d.fields| - i
  {
    hide DescOk, WellTyped, Fits, EncodeField, UpTo, DecodeField, SeenFrom, DefaultSlot;
    UpToAll(d, m);
    if i == |d.fields| {
      NothingFrom(m);
      assert seen + (SeenFrom(m, i) - {k}) == seen;
    } else {
      hide DecodeFields;
      UpToIsWith(d, m, i);
      var here := if Present(m.slots[i]) && i != k then {i} else {};
      ReadsWithout(d, m, k, i + 1, seen + here);
      if i != k {
        FieldReads(d, m, i, seen, EncodeWithout(d, m, k, i + 1));
      } else {
        assert UpTo(d, m, i + 1) == UpTo(d, m, i) && seen + here == seen;
        assert [] + EncodeWithout(d, m, k, i + 1) == EncodeWithout(d, m, k, i + 1);
      }
      assert seen + here + (SeenFrom(m, i + 1) - {k}) == seen + (SeenFrom(m, i) - {k});
    }
  }

  lemma NothingFrom(m: Message)
    ensures SeenFrom(m, |m.slots|) == {}
  {
  }

  lemma {:induction false} WithoutIsShorter(d: Desc, m: Message, k: nat, i: nat)
    requires |m.slots| == |d.fields| && k < |d.fields| && i <= |d.fields|
    ensures EncodeWithout(d, Omitting(d, m, k), k, i) == EncodeWithout(d, m, k, i)
    ensures |EncodeWithout(d, m, k, i)| <= |EncodeFrom(d, m, i)|
    decreases |d.fields| - i
  {
    hide EncodeField;
    if i < |d.fields| {
      WithoutIsShorter(d, m, k, i + 1);
    }
  }

  /** An encoding without one of its fields: if that is one of the first 64 required ones, decoding fails; otherwise it
      gives the message without the field. */
  lemma OmittedField(d: Desc, m: Message, k: nat)
    requires DescOk(d) && WellTyped(d, m) && Fits(d, m) && k < |d.fields| == |m.slots|
    requires |Encode(d, m)| < BITS_32
    ensures Decode(d, EncodeWithout(d, m, k, 0)) == if MustBeThere(d, k) then None else Some(Omitting(d, m, k))
  {
    hide DescOk, WellTyped, Fits, DecodeFields, Default, RequiredSeen, EncodeWithout, EncodeFrom, MustBeThere, SeenFrom,
         Omitting;
    OmittingIsSound(d, m, k);
    WithoutIsShorter(d, m, k, 0);
    var r := Omitting(d, m, k);
    OmittedSlot(d, m, k);
    ReadsWithout(d, r, k, 0, {});
    assert UpTo(d, r, 0) == Default(d);
    var seen := SeenFrom(r, 0) - {k};
    assert {} + seen == seen;
    RequiredSeenMeans(d, seen);
    RequiredSeenMeans(d, SeenFrom(r, 0));
    AllRequiredSeen(d, r);
  }

  lemma OmittedSlot(d: Desc, m: Message, k: nat)
    requires |m.slots| == |d.fields| && k < |d.fields|
    ensures |Omitting(d, m, k).slots| == |d.fields| && Omitting(d, m, k).slots[k] == DefaultSlot(d.fields[k])
  {
  }
}
