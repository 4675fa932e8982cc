/** Fields on the wire, whatever message they belong to: what each type of field is written as, and that a decoder
    passes over fields that its descriptor does not have, so that it reads messages of newer descriptors. */
module NanopbWire {
  import opened Wrappers
  import opened Bytewise
  import opened Coding
  import opened Nanopb
  import opened NanopbDecode
  import opened NanopbRoundTrip

  // The wire types 0, 1, 2 and 5 of the Encoding guide, section "Message Structure".
  datatype WireField =
    | VarintField(tag: nat, n: nat)
    | EightBytes(tag: nat, s: Bytes)
    | Delimited(tag: nat, s: Bytes)
    | FourBytes(tag: nat, s: Bytes)

  predicate WireOk(w: WireField) {
    && 0 < w.tag < 0x2000_0000
    && (w.EightBytes? ==> |w.s| == 8) && (w.FourBytes? ==> |w.s| == 4) && (w.Delimited? ==> |w.s| < BITS_32)
  }

  function WireBytes(w: WireField): Bytes {
    match w
    case VarintField(tag, n) => Varint(8 * tag) + Varint(n)
    case EightBytes(tag, s) => Varint(8 * tag + 1) + s
    case Delimited(tag, s) => Varint(8 * tag + 2) + Varint(|s|) + s
    case FourBytes(tag, s) => Varint(8 * tag + 5) + s
  }

  function AllWireBytes(ws: seq<WireField>): Bytes {
    if ws == [] then [] else WireBytes(ws[0]) + AllWireBytes(ws[1..])
  }

  predicate Lacks(d: Desc, tag: nat) {
    forall i :: 0 <= i < |d.fields| ==> d.fields[i].tag != tag
  }

  // ---- passing over unknown fields ----

  lemma {:induction false} VarintIsSkipped(n: nat, rest: Bytes)
    ensures SkipVarint(Varint(n) + rest) == Some(rest)
  {
    var b := Varint(n) + rest;
    if n < 128 {
      assert b[1..] == rest;
    } else {
      VarintIsSkipped(n / 128, rest);
      assert b[1..] == Varint(n / 128) + rest;
    }
  }

  function WireTypeOf(w: WireField): nat {
    match w
    case VarintField(_, _) => 0
    case EightBytes(_, _) => 1
    case Delimited(_, _) => 2
    case FourBytes(_, _) => 5
  }

  function Payload(w: WireField): Bytes {
    match w
    case VarintField(_, n) => Varint(n)
    case Delimited(_, s) => LengthPrefixed(s)
    case _ => w.s
  }

  lemma PayloadIsSkipped(w: WireField, rest: Bytes)
    requires WireOk(w)
    ensures Skip(WireTypeOf(w), Payload(w) + rest) == Some(rest)
  {
    hide Varint, SkipVarint, Substring, LengthPrefixed;
    match w
    case VarintField(_, n) => VarintIsSkipped(n, rest);
    case Delimited(_, s) => SubstringReads(s, rest);
    case EightBytes(_, s) => assert (s + rest)[8..] == rest;
    case FourBytes(_, s) => assert (s + rest)[4..] == rest;
  }

  /** A field that the message does not have changes nothing, wherever a field may come. */
  lemma UnknownIsPassed(d: Desc, p: Partial, w: WireField, rest: Bytes)
    requires |p.m.slots| == |d.fields| && WireOk(w) && Lacks(d, w.tag)
    ensures DecodeFields(d, p.(rest := WireBytes(w) + rest)) == DecodeFields(d, p.(rest := rest))
  {
    hide Skip, Varint, Varint32, FieldIndex, LengthPrefixed;
    var key, q := 8 * w.tag + WireTypeOf(w), p.(rest := WireBytes(w) + rest);
    var after := Payload(w) + rest;
    WireSplits(w, rest);
    Varint32Reads(key, after);
    PayloadIsSkipped(w, rest);
    assert key / 8 == w.tag && key % 8 == WireTypeOf(w);
    assert DecodeField(d, q.(rest := after), key) == Some(p.(rest := rest));
  }

  lemma WireSplits(w: WireField, rest: Bytes)
    ensures WireBytes(w) + rest == Varint(8 * w.tag + WireTypeOf(w)) + (Payload(w) + rest) != []
  {
    hide Varint;
  }

  // ---- messages with unknown fields among their own ----

  // What comes next in a message: its own next field, or one that it does not have.
  datatype Chunk = Own | Foreign(w: WireField)

  /** The fields of a message from the `i`-th on, with unknown ones before and after any of them. */
  function Mixed(d: Desc, m: Message, i: nat, chunks: seq<Chunk>): Bytes
    requires |m.slots| == |d.fields| && i <= |d.fields|
    decreases |chunks|
  {
    if chunks == [] then EncodeFrom(d, m, i)
    else match chunks[0]
      case Foreign(w) => WireBytes(w) + Mixed(d, m, i, chunks[1..])
      case Own =>
        if i == |d.fields| then Mixed(d, m, i, chunks[1..])
        else EncodeField(d.fields[i], m.slots[i]) + Mixed(d, m, i + 1, chunks[1..])
  }

  predicate AllUnknown(d: Desc, chunks: seq<Chunk>) {
    forall c :: c in chunks && c.Foreign? ==> WireOk(c.w) && Lacks(d, c.w.tag)
  }

  lemma {:induction false} MixedReads(d: Desc, m: Message, i: nat, chunks: seq<Chunk>, seen: set<nat>)
    requires DescOk(d) && WellTyped(d, m) && Fits(d, m) && i <= |d.fields| == |m.slots|
    requires |EncodeFrom(d, m, i)| < BITS_32 && AllUnknown(d, chunks)
    ensures DecodeFields(d, Partial(UpTo(d, m, i), seen, Mixed(d, m, i, chunks))) ==
            Some(Partial(m, seen + SeenFrom(m, i), []))
    decreases |chunks|
  {
    hide DescOk, WellTyped, Fits, EncodeField, UpTo, DecodeField, SeenFrom, Lacks, WireOk;
    if chunks == [] {
      FieldsRead(d, m, i, seen, []);
      assert EncodeFrom(d, m, i) + [] == EncodeFrom(d, m, i);
    } else {
      assert chunks[0] in chunks && forall c :: c in chunks[1..] ==> c in chunks;
      if chunks[0].Foreign? {
        var p := Partial(UpTo(d, m, i), seen, Mixed(d, m, i, chunks));
        hide DecodeFields, Mixed;
        MixedForeign(d, m, i, chunks);
        UnknownIsPassed(d, p, chunks[0].w, Mixed(d, m, i, chunks[1..]));
        MixedReads(d, m, i, chunks[1..], seen);
      } else if i == |d.fields| {
        MixedReads(d, m, i, chunks[1..], seen);
      } else {
        hide DecodeFields, Mixed;
        MixedOwn(d, m, i, chunks, seen);
        MixedReads(d, m, i + 1, chunks[1..], seen + if Present(m.slots[i]) then {i} else {});
        UpToIsWith(d, m, i);
        assert seen + (if Present(m.slots[i]) then {i} else {}) + SeenFrom(m, i + 1) == seen + SeenFrom(m, i);
      }
    }
  }

  lemma MixedForeign(d: Desc, m: Message, i: nat, chunks: seq<Chunk>)
    requires i <= |d.fields| == |m.slots| && chunks != [] && chunks[0].Foreign?
    ensures Mixed(d, m, i, chunks) == WireBytes(chunks[0].w) + Mixed(d, m, i, chunks[1..])
  {
  }

  lemma MixedOwn(d: Desc, m: Message, i: nat, chunks: seq<Chunk>, seen: set<nat>)
    requires DescOk(d) && WellTyped(d, m) && Fits(d, m) && i < |d.fields| == |m.slots|
    requires |EncodeFrom(d, m, i)| < BITS_32 && chunks != [] && chunks[0] == Own
    ensures |EncodeFrom(d, m, i + 1)| < BITS_32
    ensures DecodeFields(d, Partial(UpTo(d, m, i), seen, Mixed(d, m, i, chunks))) ==
            DecodeFields(d, Partial(UpTo(d, m, i + 1), seen + (if Present(m.slots[i]) then {i} else {}),
                                    Mixed(d, m, i + 1, chunks[1..])))
  {
    hide DescOk, WellTyped, Fits, EncodeField, UpTo, DecodeFields;
    FieldReads(d, m, i, seen, Mixed(d, m, i + 1, chunks[1..]));
  }

  /** Unknown fields anywhere among those of an encoding leave the message that is decoded as it was. */
  lemma UnknownFieldsDecode(d: Desc, m: Message, chunks: seq<Chunk>)
    requires DescOk(d) && WellTyped(d, m) && Fits(d, m) && |m.slots| == |d.fields|
    requires |Encode(d, m)| < BITS_32 && AllUnknown(d, chunks)
    ensures Decode(d, Mixed(d, m, 0, chunks)) == Some(m)
  {
    hide DescOk, Fits, WellTyped, DecodeFields, EncodeFrom, Default, RequiredSeen, Mixed, SeenFrom, AllUnknown;
    MixedReads(d, m, 0, chunks, {});
    assert UpTo(d, m, 0) == Default(d);
    assert {} + SeenFrom(m, 0) == SeenFrom(m, 0);
    AllRequiredSeen(d, m);
  }

  // ---- what each type of field is written as ----

  /** One number or value of the field on the wire: a varint, eight bytes, four bytes, or a length and its bytes. */
  predicate IsWireOf(f: Field, w: WireField) {
    && WireOk(w) && w.tag == f.tag
    && match f.ltype
       case Bool => w.VarintField?
       case Int => w.VarintField?
       case UInt => w.VarintField?
       case SInt => w.VarintField?
       case Fixed32 => w.FourBytes?
       case Fixed64 => w.EightBytes?
       case ByteArray => w.Delimited?
       case CString => w.Delimited?
       case FixedBytes => w.Delimited?
       case Submessage(_) => w.Delimited?
  }

  function WireOfValue(f: Field, v: Value): WireField
    requires ValueTyped(f, v)
  {
    if Plain(f) then VarintField(f.tag, PlainNumber(f, v))
    else if f.ltype.Fixed32? then FourBytes(f.tag, EncodeValue(f, v))
    else if f.ltype.Fixed64? then EightBytes(f.tag, EncodeValue(f, v))
    else Delimited(f.tag, if f.ltype.Submessage? then EncodeFrom(f.ltype.desc, v.m, 0) else v.s)
  }

  lemma ValueOnTheWire(f: Field, v: Value)
    requires FieldOk(f) && ValueTyped(f, v) && |EncodeValue(f, v)| < BITS_32
    ensures IsWireOf(f, WireOfValue(f, v))
    ensures TagBytes(f.tag, WireType(f.ltype)) + EncodeValue(f, v) == WireBytes(WireOfValue(f, v))
  {
    hide Varint, EncodeFrom, DescOk, WellTyped, Half;
    var w := WireOfValue(f, v);
    if w.Delimited? {
      assert EncodeValue(f, v) == Varint(|w.s|) + w.s;
      assert TagBytes(f.tag, 2) + (Varint(|w.s|) + w.s) == Varint(8 * f.tag + 2) + Varint(|w.s|) + w.s;
    }
  }

  function WireOfValues(f: Field, vs: seq<Value>, k: nat): seq<WireField>
    requires k <= |vs| && forall j :: 0 <= j < |vs| ==> ValueTyped(f, vs[j])
    decreases |vs| - k
  {
    if k == |vs| then [] else [WireOfValue(f, vs[k])] + WireOfValues(f, vs, k + 1)
  }

  lemma {:induction false} ValuesOnTheWire(f: Field, vs: seq<Value>, k: nat)
    requires FieldOk(f) && k <= |vs| && forall j :: 0 <= j < |vs| ==> ValueTyped(f, vs[j])
    requires |EncodeTagged(f, vs, k)| < BITS_32
    ensures AllWireBytes(WireOfValues(f, vs, k)) == EncodeTagged(f, vs, k)
    ensures |WireOfValues(f, vs, k)| == |vs| - k && forall w :: w in WireOfValues(f, vs, k) ==> IsWireOf(f, w)
    decreases |vs| - k
  {
    hide FieldOk, ValueTyped, EncodeValue, TagBytes, WireBytes, WireOfValue, IsWireOf;
    if k < |vs| {
      ValueOnTheWire(f, vs[k]);
      ValuesOnTheWire(f, vs, k + 1);
      var ws := WireOfValues(f, vs, k);
      assert ws[1..] == WireOfValues(f, vs, k + 1);
    }
  }

  /** The bytes of a field are fields of the wire format: none for a field that is absent, one for a value, and for an
      array a single packed one or one for each element.  The key of each is 8 * tag + 0 for a varint, 1 for eight
      bytes, 5 for four bytes, and 2 for a length with its bytes. */
  lemma FieldOnTheWire(f: Field, s: Slot) returns (ws: seq<WireField>)
    requires FieldOk(f) && SlotTyped(f, s) && |EncodeField(f, s)| < BITS_32
    ensures EncodeField(f, s) == AllWireBytes(ws)
    ensures forall w :: w in ws ==> WireOk(w) && w.tag == f.tag
    ensures match s
            case One(_) => |ws| == 1 && IsWireOf(f, ws[0])
            case Maybe(o) => if o == None then ws == [] else |ws| == 1 && IsWireOf(f, ws[0])
            case Many(vs) =>
              if vs == [] then ws == []
              else if Plain(f) || f.ltype.Fixed32? || f.ltype.Fixed64? then |ws| == 1 && ws[0].Delimited?
              else |ws| == |vs| && forall w :: w in ws ==> IsWireOf(f, w)
  {
    hide FieldOk, ValueTyped, EncodeValue, EncodeItems, EncodeTagged, TagBytes, WireBytes, WireOfValue, IsWireOf;
    match s
    case One(v) =>
      ValueOnTheWire(f, v);
      ws := [WireOfValue(f, v)];
      OneOnTheWire(f, ws);
    case Maybe(o) =>
      ws := [];
      if o.Some? {
        ValueOnTheWire(f, o.value);
        ws := [WireOfValue(f, o.value)];
        OneOnTheWire(f, ws);
      }
    case Many(vs) =>
      ws := [];
      if vs != [] {
        if Packable(f.ltype) {
          ws := [Delimited(f.tag, EncodeItems(f, vs, 0))];
          PackedOnTheWire(f, vs);
        } else {
          ws := WireOfValues(f, vs, 0);
          ValuesOnTheWire(f, vs, 0);
          AllOfTag(f, ws);
        }
      }
  }

  lemma OneOnTheWire(f: Field, ws: seq<WireField>)
    requires |ws| == 1 && IsWireOf(f, ws[0])
    ensures AllWireBytes(ws) == WireBytes(ws[0])
    ensures forall w :: w in ws ==> WireOk(w) && w.tag == f.tag
  {
    hide WireBytes;
    assert AllWireBytes(ws[1..]) == [];
  }

  lemma AllOfTag(f: Field, ws: seq<WireField>)
    requires forall w :: w in ws ==> IsWireOf(f, w)
    ensures forall w :: w in ws ==> WireOk(w) && w.tag == f.tag
  {
  }

  lemma PackedOnTheWire(f: Field, vs: seq<Value>)
    requires FieldOk(f) && |TagBytes(f.tag, 2) + LengthPrefixed(EncodeItems(f, vs, 0))| < BITS_32
    ensures var w := Delimited(f.tag, EncodeItems(f, vs, 0));
            && WireOk(w) && AllWireBytes([w]) == TagBytes(f.tag, 2) + LengthPrefixed(EncodeItems(f, vs, 0))
  {
    hide Varint, EncodeItems;
    var s := EncodeItems(f, vs, 0);
    assert AllWireBytes([Delimited(f.tag, s)][1..]) == [];
    assert TagBytes(f.tag, 2) + (Varint(|s|) + s) == Varint(8 * f.tag + 2) + Varint(|s|) + s;
  }

  /** A decoder whose descriptor lacks a field passes over exactly what the encoder wrote for it. */
  lemma LackedFieldIsPassed(d: Desc, p: Partial, f: Field, s: Slot, rest: Bytes)
    requires FieldOk(f) && SlotTyped(f, s) && |EncodeField(f, s)| < BITS_32
    requires |p.m.slots| == |d.fields| && Lacks(d, f.tag)
    ensures DecodeFields(d, p.(rest := EncodeField(f, s) + rest)) == DecodeFields(d, p.(rest := rest))
  {
    hide FieldOk, SlotTyped, EncodeField, DecodeFields, WireOk, IsWireOf, Lacks;
    var ws := FieldOnTheWire(f, s);
    AllPassed(d, p, ws, rest);
  }

  lemma {:induction false} AllPassed(d: Desc, p: Partial, ws: seq<WireField>, rest: Bytes)
    requires |p.m.slots| == |d.fields| && forall w :: w in ws ==> WireOk(w) && Lacks(d, w.tag)
    ensures DecodeFields(d, p.(rest := AllWireBytes(ws) + rest)) == DecodeFields(d, p.(rest := rest))
  {
    hide DecodeFields, WireOk, Lacks, WireBytes;
    if ws == [] {
      assert AllWireBytes(ws) + rest == rest;
    } else {
      var next := AllWireBytes(ws[1..]) + rest;
      assert AllWireBytes(ws) + rest == WireBytes(ws[0]) + next;
      UnknownIsPassed(d, p, ws[0], next);
      AllPassed(d, p, ws[1..], rest);
    }
  }

  // ---- older descriptors ----

  function Count(keep: seq<bool>, n: nat): (c: nat)
    requires n <= |keep|
    ensures c <= n
  {
    if n == 0 then 0 else Count(keep, n - 1) + if keep[n - 1] then 1 else 0
  }

  /** Those of the first `n` that are kept. */
  function Kept<T>(xs: seq<T>, keep: seq<bool>, n: nat): (r: seq<T>)
    requires n <= |xs| == |keep|
    ensures |r| == Count(keep, n)
  {
    if n == 0 then [] else Kept(xs, keep, n - 1) + if keep[n - 1] then [xs[n - 1]] else []
  }

  lemma {:induction false} KeptAt<T>(xs: seq<T>, keep: seq<bool>, i: nat, n: nat)
    requires i < n <= |xs| == |keep| && keep[i]
    ensures Count(keep, i) < Count(keep, n) && Kept(xs, keep, n)[Count(keep, i)] == xs[i]
    decreases n
  {
    if i < n - 1 {
      KeptAt(xs, keep, i, n - 1);
    }
  }

  lemma {:induction false} Origin(keep: seq<bool>, n: nat, j: nat) returns (i: nat)
    requires n <= |keep| && j < Count(keep, n)
    ensures i < n && keep[i] && Count(keep, i) == j
    decreases n
  {
    if keep[n - 1] && j == Count(keep, n - 1) {
      i := n - 1;
    } else {
      i := Origin(keep, n - 1, j);
    }
  }

  lemma {:induction false} CountRises(keep: seq<bool>, i: nat, n: nat)
    requires i <= n <= |keep|
    ensures Count(keep, i) <= Count(keep, n)
    decreases n
  {
    if i < n {
      CountRises(keep, i, n - 1);
    }
  }

  /** The descriptor and the message with some of the fields left out. */
  function OlderDesc(d: Desc, keep: seq<bool>): Desc
    requires |keep| == |d.fields|
  {
    Desc(Kept(d.fields, keep, |keep|))
  }

  function OlderMessage(m: Message, keep: seq<bool>): Message
    requires |keep| == |m.slots|
  {
    Message(Kept(m.slots, keep, |keep|))
  }

  lemma OlderFrom(d: Desc, m: Message, keep: seq<bool>, j: nat) returns (i: nat)
    requires |m.slots| == |d.fields| == |keep| && j < Count(keep, |keep|)
    ensures i < |keep| && keep[i] && Count(keep, i) == j
    ensures OlderDesc(d, keep).fields[j] == d.fields[i] && OlderMessage(m, keep).slots[j] == m.slots[i]
  {
    i := Origin(keep, |keep|, j);
    KeptAt(d.fields, keep, i, |keep|);
    KeptAt(m.slots, keep, i, |keep|);
  }

  lemma OlderPair(d: Desc, m: Message, keep: seq<bool>, j: nat, k: nat) returns (a: nat, b: nat)
    requires |m.slots| == |d.fields| == |keep| && j < k < Count(keep, |keep|)
    ensures a < b < |keep|
    ensures OlderDesc(d, keep).fields[j] == d.fields[a] && OlderMessage(m, keep).slots[j] == m.slots[a]
    ensures OlderDesc(d, keep).fields[k] == d.fields[b] && OlderMessage(m, keep).slots[k] == m.slots[b]
  {
    a := OlderFrom(d, m, keep, j);
    b := OlderFrom(d, m, keep, k);
    if b <= a {
      CountRises(keep, b, a);
    }
  }

  lemma OlderIsWell(d: Desc, m: Message, keep: seq<bool>)
    requires DescOk(d) && WellTyped(d, m) && Fits(d, m) && |keep| == |d.fields|
    ensures |m.slots| == |d.fields|
    ensures var o, x := OlderDesc(d, keep), OlderMessage(m, keep);
            |x.slots| == |o.fields| && DescOk(o) && WellTyped(o, x) && Fits(o, x)
  {
    hide FieldOk, SlotTyped, SlotFits, Kept;
    var o, x := OlderDesc(d, keep), OlderMessage(m, keep);
    forall j | 0 <= j < |o.fields|
      ensures FieldOk(o.fields[j]) && SlotTyped(o.fields[j], x.slots[j]) && SlotFits(o.fields[j], x.slots[j])
    {
      var i := OlderFrom(d, m, keep, j);
    }
    forall j, k | 0 <= j < k < |o.fields|
      ensures o.fields[j].tag != o.fields[k].tag
      ensures SameOneof(o.fields[j], o.fields[k]) ==> x.slots[j].Maybe? && x.slots[k].Maybe?
      ensures SameOneof(o.fields[j], o.fields[k]) && x.slots[j].o.Some? ==> x.slots[k].o == None
    {
      var a, b := OlderPair(d, m, keep, j, k);
      OneofsAreOptional(d.fields[a], m.slots[a]);
      OneofsAreOptional(d.fields[b], m.slots[b]);
    }
  }

  lemma OneofsAreOptional(f: Field, s: Slot)
    requires SlotTyped(f, s)
    ensures f.htype.Oneof? ==> s.Maybe?
  {
  }

  function AsForeign(ws: seq<WireField>): (r: seq<Chunk>)
    ensures |r| == |ws| && forall i :: 0 <= i < |r| ==> r[i] == Foreign(ws[i])
  {
    seq(|ws|, i requires 0 <= i < |ws| => Foreign(ws[i]))
  }

  lemma {:induction false} ForeignFirst(d: Desc, m: Message, i: nat, ws: seq<WireField>, chunks: seq<Chunk>)
    requires |m.slots| == |d.fields| && i <= |d.fields|
    ensures Mixed(d, m, i, AsForeign(ws) + chunks) == AllWireBytes(ws) + Mixed(d, m, i, chunks)
  {
    hide WireBytes;
    var all := AsForeign(ws) + chunks;
    if ws == [] {
      assert all == chunks;
      assert AllWireBytes(ws) + Mixed(d, m, i, chunks) == Mixed(d, m, i, chunks);
    } else {
      assert all[1..] == AsForeign(ws[1..]) + chunks;
      ForeignFirst(d, m, i, ws[1..], chunks);
    }
  }

  lemma TagsDiffer(d: Desc, keep: seq<bool>, i: nat)
    requires DescOk(d) && |keep| == |d.fields| && i < |keep| && !keep[i]
    ensures Lacks(OlderDesc(d, keep), d.fields[i].tag)
  {
    hide FieldOk;
    var o := OlderDesc(d, keep);
    forall j | 0 <= j < |o.fields|
      ensures o.fields[j].tag != d.fields[i].tag
    {
      var k := Origin(keep, |keep|, j);
      KeptAt(d.fields, keep, k, |keep|);
    }
  }

  lemma OwnFirst(d: Desc, m: Message, i: nat, chunks: seq<Chunk>)
    requires i < |d.fields| == |m.slots|
    ensures Mixed(d, m, i, [Own] + chunks) == EncodeField(d.fields[i], m.slots[i]) + Mixed(d, m, i + 1, chunks)
  {
    assert ([Own] + chunks)[1..] == chunks;
  }

  lemma MoreUnknown(d: Desc, ws: seq<WireField>, chunks: seq<Chunk>, tag: nat)
    requires AllUnknown(d, chunks) && Lacks(d, tag) && forall w :: w in ws ==> WireOk(w) && w.tag == tag
    ensures AllUnknown(d, AsForeign(ws) + chunks)
  {
    hide Lacks, WireOk;
    forall c | c in AsForeign(ws) && c.Foreign?
      ensures c.w in ws
    {
    }
  }

  /** To the older descriptor, the fields from the `i`-th on are its own with unknown ones among them. */
  lemma {:induction false} NewerIsMixed(d: Desc, m: Message, keep: seq<bool>, i: nat) returns (chunks: seq<Chunk>)
    requires DescOk(d) && WellTyped(d, m) && |m.slots| == |d.fields| == |keep| && i <= |keep|
    requires |EncodeFrom(d, m, i)| < BITS_32
    ensures Count(keep, i) <= Count(keep, |keep|) && AllUnknown(OlderDesc(d, keep), chunks)
    ensures Mixed(OlderDesc(d, keep), OlderMessage(m, keep), Count(keep, i), chunks) == EncodeFrom(d, m, i)
    decreases |keep| - i
  {
    hide WellTyped, DescOk, EncodeField, Lacks, WireOk, IsWireOf, AllWireBytes, Mixed, AllUnknown, AsForeign;
    CountRises(keep, i, |keep|);
    var o, x := OlderDesc(d, keep), OlderMessage(m, keep);
    if i == |keep| {
      chunks := [];
      NothingMixed(o, x);
    } else {
      var next := NewerIsMixed(d, m, keep, i + 1);
      if keep[i] {
        chunks := [Own] + next;
        KeptAt(d.fields, keep, i, |keep|);
        KeptAt(m.slots, keep, i, |keep|);
        OwnFirst(o, x, Count(keep, i), next);
        OwnIsKnown(o, next);
      } else {
        TypedField(d, m, i);
        var ws := FieldOnTheWire(d.fields[i], m.slots[i]);
        chunks := AsForeign(ws) + next;
        TagsDiffer(d, keep, i);
        MoreUnknown(o, ws, next, d.fields[i].tag);
        ForeignFirst(o, x, Count(keep, i), ws, next);
      }
    }
  }

  lemma NothingMixed(d: Desc, m: Message)
    requires |m.slots| == |d.fields|
    ensures Mixed(d, m, |d.fields|, []) == [] && AllUnknown(d, [])
  {
  }

  lemma OwnIsKnown(d: Desc, chunks: seq<Chunk>)
    requires AllUnknown(d, chunks)
    ensures AllUnknown(d, [Own] + chunks)
  {
  }

  lemma TypedField(d: Desc, m: Message, i: nat)
    requires DescOk(d) && WellTyped(d, m) && i < |d.fields|
    ensures |m.slots| == |d.fields| && FieldOk(d.fields[i]) && SlotTyped(d.fields[i], m.slots[i])
  {
  }

  lemma {:induction false} MixedIsLonger(d: Desc, m: Message, i: nat, chunks: seq<Chunk>)
    requires |m.slots| == |d.fields| && i <= |d.fields|
    ensures |EncodeFrom(d, m, i)| <= |Mixed(d, m, i, chunks)|
    decreases |chunks|
  {
    if chunks != [] {
      MixedIsLonger(d, m, if chunks[0] == Own && i < |d.fields| then i + 1 else i, chunks[1..]);
    }
  }

  /** A message is read by every decoder whose descriptor has only some of its fields: to those fields of it. */
  lemma OlderDescriptorDecodes(d: Desc, m: Message, keep: seq<bool>)
    requires DescOk(d) && WellTyped(d, m) && Fits(d, m) && |m.slots| == |d.fields| == |keep|
    requires |Encode(d, m)| < BITS_32
    ensures Decode(OlderDesc(d, keep), Encode(d, m)) == Some(OlderMessage(m, keep))
  {
    hide DescOk, WellTyped, Fits, Decode, EncodeFrom, AllUnknown;
    OlderIsWell(d, m, keep);
    var chunks := NewerIsMixed(d, m, keep, 0);
    assert Count(keep, 0) == 0;
    MixedIsLonger(OlderDesc(d, keep), OlderMessage(m, keep), 0, chunks);
    UnknownFieldsDecode(OlderDesc(d, keep), OlderMessage(m, keep), chunks);
  }
}
