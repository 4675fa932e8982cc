/** Version edits as bytes: tagged fields, written in one order and read in any. */
module VersionEdit {
  import opened Wrappers
  import opened Bytewise
  import opened Coding
  import opened DbFormat

  const COMPARATOR: nat := 1
  const LOG_NUMBER: nat := 2
  const NEXT_FILE_NUMBER: nat := 3
  const LAST_SEQUENCE: nat := 4
  const COMPACT_POINTER: nat := 5
  const DELETED_FILE: nat := 6
  const NEW_FILE: nat := 7
  const PREV_LOG_NUMBER: nat := 9

  datatype FileMetaData = FileMetaData(number: nat, fileSize: nat, smallest: Bytes, largest: Bytes)

  // A level and a file number.
  datatype Deleted = Deleted(level: nat, number: nat)

  /** The deleted files are an ordered set: a list in strictly increasing order. */
  datatype Edit = Edit(
    comparator: Option<Bytes>,
    logNumber: Option<nat>,
    prevLogNumber: Option<nat>,
    nextFileNumber: Option<nat>,
    lastSequence: Option<nat>,
    compactPointers: seq<(nat, Bytes)>,
    deletedFiles: seq<Deleted>,
    newFiles: seq<(nat, FileMetaData)>)

  const EMPTY: Edit := Edit(None, None, None, None, None, [], [], [])

  predicate DeletedLess(a: Deleted, b: Deleted) {
    a.level < b.level || (a.level == b.level && a.number < b.number)
  }

  predicate InOrder(ds: seq<Deleted>) {
    forall i, j :: 0 <= i < j < |ds| ==> DeletedLess(ds[i], ds[j])
  }

  /** Insertion into the ordered set. */
  function InsertDeleted(ds: seq<Deleted>, d: Deleted): seq<Deleted> {
    if ds == [] || DeletedLess(d, ds[0]) then [d] + ds
    else if d == ds[0] then ds
    else [ds[0]] + InsertDeleted(ds[1..], d)
  }

  lemma {:induction false} InsertAtEnd(ds: seq<Deleted>, d: Deleted)
    requires InOrder(ds + [d])
    ensures InsertDeleted(ds, d) == ds + [d]
  {
    if ds != [] {
      assert DeletedLess((ds + [d])[0], (ds + [d])[|ds|]);
      assert (ds + [d])[1..] == ds[1..] + [d];
      InsertAtEnd(ds[1..], d);
      assert ds == [ds[0]] + ds[1..];
    }
  }

  // ---- fields ----

  datatype Field =
    | Comparator(name: Bytes)
    | LogNumber(n: nat)
    | PrevLogNumber(n: nat)
    | NextFileNumber(n: nat)
    | LastSequence(n: nat)
    | CompactPointer(level: nat, key: Bytes)
    | DeletedFile(d: Deleted)
    | NewFile(level: nat, f: FileMetaData)

  function Tag(x: Field): nat {
    match x
    case Comparator(_) => COMPARATOR
    case LogNumber(_) => LOG_NUMBER
    case PrevLogNumber(_) => PREV_LOG_NUMBER
    case NextFileNumber(_) => NEXT_FILE_NUMBER
    case LastSequence(_) => LAST_SEQUENCE
    case CompactPointer(_, _) => COMPACT_POINTER
    case DeletedFile(_) => DELETED_FILE
    case NewFile(_, _) => NEW_FILE
  }

  function Body(x: Field): Bytes {
    match x
    case Comparator(name) => LengthPrefixed(name)
    case CompactPointer(level, key) => Varint(level) + LengthPrefixed(key)
    case DeletedFile(d) => Varint(d.level) + Varint(d.number)
    case NewFile(level, f) =>
      Varint(level) + Varint(f.number) + Varint(f.fileSize) + LengthPrefixed(f.smallest) + LengthPrefixed(f.largest)
    case _ => Varint(x.n)
  }

  function Encode(x: Field): Bytes {
    Varint(Tag(x)) + Body(x)
  }

  function GetLevel(b: Bytes): Option<(nat, Bytes)> {
    match GetVarint32(b)
    case None => None
    case Some((v, rest)) => if v < NUM_LEVELS then Some((v, rest)) else None
  }

  datatype Parsed = Field(x: Field, rest: Bytes) | Fails(message: string)

  function ParseNumber(b: Bytes, make: nat -> Field, message: string): Parsed {
    match GetVarint64(b)
    case None => Fails(message)
    case Some((n, rest)) => Parsed.Field(make(n), rest)
  }

  /** The field after a tag, or what is wrong with it. */
  function ParseField(tag: nat, b: Bytes): Parsed {
    if tag == COMPARATOR then
      match GetLengthPrefixed(b)
      case None => Fails("comparator name")
      case Some((s, rest)) => Parsed.Field(Comparator(s), rest)
    else if tag == LOG_NUMBER then ParseNumber(b, (n: nat) => LogNumber(n), "log number")
    else if tag == PREV_LOG_NUMBER then ParseNumber(b, (n: nat) => PrevLogNumber(n), "previous log number")
    else if tag == NEXT_FILE_NUMBER then ParseNumber(b, (n: nat) => NextFileNumber(n), "next file number")
    else if tag == LAST_SEQUENCE then ParseNumber(b, (n: nat) => LastSequence(n), "last sequence number")
    else if tag == COMPACT_POINTER then
      match GetLevel(b)
      case None => Fails("compaction pointer")
      case Some((level, rest)) =>
        match GetLengthPrefixed(rest)
        case None => Fails("compaction pointer")
        case Some((key, rest')) => Parsed.Field(CompactPointer(level, key), rest')
    else if tag == DELETED_FILE then
      match GetLevel(b)
      case None => Fails("deleted file")
      case Some((level, rest)) => ParseNumber(rest, (n: nat) => DeletedFile(Deleted(level, n)), "deleted file")
    else if tag == NEW_FILE then
      match GetLevel(b)
      case None => Fails("new-file entry")
      case Some((level, rest)) =>
        match ParseFile(rest)
        case None => Fails("new-file entry")
        case Some((f, rest')) => Parsed.Field(NewFile(level, f), rest')
    else Fails("unknown tag")
  }

  function ParseFile(b: Bytes): Option<(FileMetaData, Bytes)> {
    match GetVarint64(b)
    case None => None
    case Some((number, b1)) =>
      match GetVarint64(b1)
      case None => None
      case Some((fileSize, b2)) =>
        match GetLengthPrefixed(b2)
        case None => None
        case Some((smallest, b3)) =>
          match GetLengthPrefixed(b3)
          case None => None
          case Some((largest, b4)) => Some((FileMetaData(number, fileSize, smallest, largest), b4))
  }

  /** Numbers and lengths are within the widths they are written with. */
  predicate Fits(x: Field) {
    match x
    case Comparator(name) => |name| < BITS_32
    case CompactPointer(level, key) => level < NUM_LEVELS && |key| < BITS_32
    case DeletedFile(d) => d.level < NUM_LEVELS && d.number < BITS_64
    case NewFile(level, f) =>
      level < NUM_LEVELS && f.number < BITS_64 && f.fileSize < BITS_64 && |f.smallest| < BITS_32 &&
          |f.largest| < BITS_32
    case _ => x.n < BITS_64
  }

  lemma FileRoundTrip(f: FileMetaData, rest: Bytes)
    requires f.number < BITS_64 && f.fileSize < BITS_64 && |f.smallest| < BITS_32 && |f.largest| < BITS_32
    ensures ParseFile(Varint(f.number) +
                      (Varint(f.fileSize) + (LengthPrefixed(f.smallest) + (LengthPrefixed(f.largest) + rest)))) ==
            Some((f, rest))
  {
    hide Varint, GetVarint64, LengthPrefixed, GetLengthPrefixed;
    VarintsRoundTrip(f.number, Varint(f.fileSize) + (LengthPrefixed(f.smallest) + (LengthPrefixed(f.largest) + rest)));
    VarintsRoundTrip(f.fileSize, LengthPrefixed(f.smallest) + (LengthPrefixed(f.largest) + rest));
    LengthPrefixedRoundTrip(f.smallest, LengthPrefixed(f.largest) + rest);
    LengthPrefixedRoundTrip(f.largest, rest);
  }

  lemma NewFileRoundTrip(level: nat, f: FileMetaData, rest: Bytes)
    requires Fits(NewFile(level, f))
    ensures ParseField(NEW_FILE, Body(NewFile(level, f)) + rest) == Parsed.Field(NewFile(level, f), rest)
  {
    hide Varint, GetVarint64, GetVarint32, LengthPrefixed, GetLengthPrefixed, ParseFile;
    var tail := Varint(f.number) +
          (Varint(f.fileSize) + (LengthPrefixed(f.smallest) + (LengthPrefixed(f.largest) + rest)));
    VarintsRoundTrip(level, tail);
    FileRoundTrip(f, rest);
    assert Body(NewFile(level, f)) + rest == Varint(level) + tail;
  }

  /** A field that fits is read back, with what follows left over. */
  lemma FieldRoundTrip(x: Field, rest: Bytes)
    requires Fits(x)
    ensures ParseField(Tag(x), Body(x) + rest) == Parsed.Field(x, rest)
  {
    hide Varint, GetVarint64, GetVarint32, LengthPrefixed, GetLengthPrefixed, ParseFile;
    match x {
      case Comparator(name) => LengthPrefixedRoundTrip(name, rest);
      case CompactPointer(level, key) =>
        VarintsRoundTrip(level, LengthPrefixed(key) + rest);
        LengthPrefixedRoundTrip(key, rest);
        assert Body(x) + rest == Varint(level) + (LengthPrefixed(key) + rest);
      case DeletedFile(d) =>
        VarintsRoundTrip(d.level, Varint(d.number) + rest);
        VarintsRoundTrip(d.number, rest);
        assert Body(x) + rest == Varint(d.level) + (Varint(d.number) + rest);
      case NewFile(level, f) => NewFileRoundTrip(level, f, rest);
      case _ => VarintsRoundTrip(x.n, rest);
    }
  }

  // ---- edits ----

  function OptionalField(n: Option<nat>, make: nat -> Field): seq<Field> {
    if n.Some? then [make(n.value)] else []
  }

  function PointerFields(ps: seq<(nat, Bytes)>): seq<Field> {
    seq(|ps|, i requires 0 <= i < |ps| => CompactPointer(ps[i].0, ps[i].1))
  }

  function DeletedFields(ds: seq<Deleted>): seq<Field> {
    seq(|ds|, i requires 0 <= i < |ds| => DeletedFile(ds[i]))
  }

  function NewFields(fs: seq<(nat, FileMetaData)>): seq<Field> {
    seq(|fs|, i requires 0 <= i < |fs| => NewFile(fs[i].0, fs[i].1))
  }

  function Fields(e: Edit): seq<Field> {
    (if e.comparator.Some? then [Comparator(e.comparator.value)] else []) +
    OptionalField(e.logNumber, (n: nat) => LogNumber(n)) +
    OptionalField(e.prevLogNumber, (n: nat) => PrevLogNumber(n)) +
    OptionalField(e.nextFileNumber, (n: nat) => NextFileNumber(n)) +
    OptionalField(e.lastSequence, (n: nat) => LastSequence(n)) +
    PointerFields(e.compactPointers) + DeletedFields(e.deletedFiles) + NewFields(e.newFiles)
  }

  function EncodeAll(xs: seq<Field>): Bytes {
    if xs == [] then [] else EncodeAll(xs[..|xs| - 1]) + Encode(xs[|xs| - 1])
  }

  /** What reading a field does to the edit. */
  function ApplyField(e: Edit, x: Field): Edit {
    match x
    case Comparator(name) => e.(comparator := Some(name))
    case LogNumber(n) => e.(logNumber := Some(n))
    case PrevLogNumber(n) => e.(prevLogNumber := Some(n))
    case NextFileNumber(n) => e.(nextFileNumber := Some(n))
    case LastSequence(n) => e.(lastSequence := Some(n))
    case CompactPointer(level, key) => e.(compactPointers := e.compactPointers + [(level, key)])
    case DeletedFile(d) => e.(deletedFiles := InsertDeleted(e.deletedFiles, d))
    case NewFile(level, f) => e.(newFiles := e.newFiles + [(level, f)])
  }

  function ApplyFields(e: Edit, xs: seq<Field>): Edit {
    if xs == [] then e else ApplyField(ApplyFields(e, xs[..|xs| - 1]), xs[|xs| - 1])
  }

  datatype Status = OK | Corruption(message: string)

  lemma {:induction false} ParseConsumes(tag: nat, b: Bytes)
    ensures ParseField(tag, b).Field? ==> |ParseField(tag, b).rest| < |b|
  {
    VarintShrinks(b);
    LengthShrinks(b);
    if GetVarint32(b).Some? {
      var b1 := GetVarint32(b).value.1;
      VarintShrinks(b1);
      LengthShrinks(b1);
      FileShrinks(b1);
    }
  }

  lemma VarintShrinks(b: Bytes)
    ensures GetVarint32(b).Some? ==> |GetVarint32(b).value.1| < |b|
    ensures GetVarint64(b).Some? ==> |GetVarint64(b).value.1| < |b|
  {
    ParseVarintConsumes(b, 5);
    ParseVarintConsumes(b, 10);
  }

  lemma LengthShrinks(b: Bytes)
    ensures GetLengthPrefixed(b).Some? ==> |GetLengthPrefixed(b).value.1| < |b|
  {
    GetLengthPrefixedConsumes(b);
  }

  lemma FileShrinks(b: Bytes)
    ensures ParseFile(b).Some? ==> |ParseFile(b).value.1| < |b|
  {
    hide GetVarint64, GetLengthPrefixed;
    VarintShrinks(b);
    if GetVarint64(b).Some? {
      var b1 := GetVarint64(b).value.1;
      VarintShrinks(b1);
      if GetVarint64(b1).Some? {
        var b2 := GetVarint64(b1).value.1;
        LengthShrinks(b2);
        if GetLengthPrefixed(b2).Some? {
          LengthShrinks(GetLengthPrefixed(b2).value.1);
        }
      }
    }
  }

  /** Reading all fields from the bytes into an edit. */
  function DecodeAll(e: Edit, b: Bytes): (Edit, Status)
    decreases |b|
  {
    match GetVarint32(b)
    case None => (e, if b == [] then OK else Corruption("invalid tag"))
    case Some((tag, rest)) =>
      match ParseField(tag, rest)
      case Fails(message) => (e, Corruption(message))
      case Field(x, rest') =>
        VarintShrinks(b);
        ParseConsumes(tag, rest);
        DecodeAll(ApplyField(e, x), rest')
  }

  predicate AllFit(xs: seq<Field>) {
    forall i :: 0 <= i < |xs| ==> Fits(xs[i])
  }

  lemma DecodeOne(e: Edit, x: Field, rest: Bytes)
    requires Fits(x)
    ensures DecodeAll(e, Encode(x) + rest) == DecodeAll(ApplyField(e, x), rest)
  {
    hide Varint, GetVarint32, ParseField, Body, ApplyField;
    VarintsRoundTrip(Tag(x), Body(x) + rest);
    FieldRoundTrip(x, rest);
    assert Encode(x) + rest == Varint(Tag(x)) + (Body(x) + rest);
  }

  lemma {:induction false} DecodeFields(e: Edit, xs: seq<Field>, rest: Bytes)
    requires AllFit(xs)
    ensures DecodeAll(e, EncodeAll(xs) + rest) == DecodeAll(ApplyFields(e, xs), rest)
  {
    hide Encode, DecodeAll, ApplyField, Fits;
    if xs == [] {
      assert EncodeAll(xs) + rest == rest;
    } else {
      var n := |xs| - 1;
      assert EncodeAll(xs) + rest == EncodeAll(xs[..n]) + (Encode(xs[n]) + rest);
      DecodeFields(e, xs[..n], Encode(xs[n]) + rest);
      DecodeOne(ApplyFields(e, xs[..n]), xs[n], rest);
    }
  }

  lemma {:induction false} ApplyConcat(e: Edit, a: seq<Field>, b: seq<Field>)
    ensures ApplyFields(e, a + b) == ApplyFields(ApplyFields(e, a), b)
  {
    hide ApplyField;
    if b == [] {
      assert a + b == a;
    } else {
      ApplyConcat(e, a, b[..|b| - 1]);
      assert (a + b)[..|a + b| - 1] == a + b[..|b| - 1];
    }
  }

  lemma {:induction false} PointersApplied(e: Edit, ps: seq<(nat, Bytes)>)
    ensures ApplyFields(e, PointerFields(ps)) == e.(compactPointers := e.compactPointers + ps)
  {
    if ps == [] {
      assert e.compactPointers + ps == e.compactPointers;
    } else {
      var n := |ps| - 1;
      PointersApplied(e, ps[..n]);
      assert PointerFields(ps)[..n] == PointerFields(ps[..n]);
      assert e.compactPointers + ps == e.compactPointers + ps[..n] + [ps[n]];
    }
  }

  lemma {:induction false} NewFilesApplied(e: Edit, fs: seq<(nat, FileMetaData)>)
    ensures ApplyFields(e, NewFields(fs)) == e.(newFiles := e.newFiles + fs)
  {
    if fs == [] {
      assert e.newFiles + fs == e.newFiles;
    } else {
      var n := |fs| - 1;
      NewFilesApplied(e, fs[..n]);
      assert NewFields(fs)[..n] == NewFields(fs[..n]);
      assert e.newFiles + fs == e.newFiles + fs[..n] + [fs[n]];
    }
  }

  lemma {:induction false} DeletedApplied(e: Edit, ds: seq<Deleted>)
    requires e.deletedFiles == [] && InOrder(ds)
    ensures ApplyFields(e, DeletedFields(ds)) == e.(deletedFiles := ds)
  {
    if ds != [] {
      var n := |ds| - 1;
      DeletedApplied(e, ds[..n]);
      assert DeletedFields(ds)[..n] == DeletedFields(ds[..n]);
      assert ds == ds[..n] + [ds[n]];
      InsertAtEnd(ds[..n], ds[n]);
    }
  }

  lemma OneApplied(e: Edit, x: Field)
    ensures ApplyFields(e, [x]) == ApplyField(e, x) && ApplyFields(e, []) == e
  {
    hide ApplyField;
    assert [x][..0] == [];
  }

  predicate EditFits(e: Edit) {
    AllFit(Fields(e)) && InOrder(e.deletedFiles)
  }

  function HeadFields(e: Edit): seq<Field> {
    (if e.comparator.Some? then [Comparator(e.comparator.value)] else []) +
    OptionalField(e.logNumber, (n: nat) => LogNumber(n)) +
    OptionalField(e.prevLogNumber, (n: nat) => PrevLogNumber(n)) +
    OptionalField(e.nextFileNumber, (n: nat) => NextFileNumber(n)) +
    OptionalField(e.lastSequence, (n: nat) => LastSequence(n))
  }

  lemma HeadApplied(e: Edit, start: Edit)
    requires start.comparator == None && start.logNumber == None && start.prevLogNumber == None &&
             start.nextFileNumber == None
    requires start.lastSequence == None
    ensures ApplyFields(start, HeadFields(e)) ==
            start.(comparator := e.comparator, logNumber := e.logNumber, prevLogNumber := e.prevLogNumber,
                   nextFileNumber := e.nextFileNumber, lastSequence := e.lastSequence)
  {
    hide ApplyFields, OptionalField;
    var c := if e.comparator.Some? then [Comparator(e.comparator.value)] else [];
    var l := OptionalField(e.logNumber, (n: nat) => LogNumber(n));
    var p := OptionalField(e.prevLogNumber, (n: nat) => PrevLogNumber(n));
    var f := OptionalField(e.nextFileNumber, (n: nat) => NextFileNumber(n));
    var s := OptionalField(e.lastSequence, (n: nat) => LastSequence(n));
    ApplyConcat(start, c + l + p + f, s);
    ApplyConcat(start, c + l + p, f);
    ApplyConcat(start, c + l, p);
    ApplyConcat(start, c, l);
    OneApplied(start, Comparator(if e.comparator.Some? then e.comparator.value else []));
    var e1 := ApplyFields(start, c);
    OptionalApplied(e1, e.logNumber, (n: nat) => LogNumber(n));
    var e2 := ApplyFields(e1, l);
    OptionalApplied(e2, e.prevLogNumber, (n: nat) => PrevLogNumber(n));
    var e3 := ApplyFields(e2, p);
    OptionalApplied(e3, e.nextFileNumber, (n: nat) => NextFileNumber(n));
    var e4 := ApplyFields(e3, f);
    OptionalApplied(e4, e.lastSequence, (n: nat) => LastSequence(n));
  }

  lemma OptionalApplied(e: Edit, n: Option<nat>, make: nat -> Field)
    ensures ApplyFields(e, OptionalField(n, make)) == if n.Some? then ApplyField(e, make(n.value)) else e
  {
    hide ApplyField;
    if n.Some? {
      OneApplied(e, make(n.value));
    }
  }

  /** The fields of an edit applied to a cleared one give it back; only compaction pointers already there stay in front,
      because clearing leaves them. */
  lemma FieldsRestore(e: Edit, start: Edit)
    requires InOrder(e.deletedFiles) && start == EMPTY.(compactPointers := start.compactPointers)
    ensures ApplyFields(start, Fields(e)) == e.(compactPointers := start.compactPointers + e.compactPointers)
  {
    hide ApplyFields, InOrder, HeadFields;
    var h, p, d, n := HeadFields(e), PointerFields(e.compactPointers), DeletedFields(e.deletedFiles),
          NewFields(e.newFiles);
    FieldsAre(e);
    ApplyConcat(start, h + p + d, n);
    ApplyConcat(start, h + p, d);
    ApplyConcat(start, h, p);
    HeadApplied(e, start);
    var e1 := ApplyFields(start, h);
    PointersApplied(e1, e.compactPointers);
    var e2 := ApplyFields(e1, p);
    DeletedApplied(e2, e.deletedFiles);
    var e3 := ApplyFields(e2, d);
    NewFilesApplied(e3, e.newFiles);
    assert [] + e.newFiles == e.newFiles;
  }

  lemma FieldsAre(e: Edit)
    ensures Fields(e) ==
              HeadFields(e) + PointerFields(e.compactPointers) + DeletedFields(e.deletedFiles) + NewFields(e.newFiles)
  {
  }

  /** Decoding an encoded edit into a cleared one restores it, up to compaction pointers that were already there. */
  lemma EditRoundTrip(e: Edit, start: Edit)
    requires EditFits(e) && start == EMPTY.(compactPointers := start.compactPointers)
    ensures DecodeAll(start, EncodeAll(Fields(e))) ==
              (e.(compactPointers := start.compactPointers + e.compactPointers), OK)
    ensures DecodeAll(start, EncodeAll(Fields(e))).0 == e <==> start.compactPointers == []
  {
    hide EncodeAll, DecodeAll, Fields, InOrder, ApplyFields;
    DecodeFields(start, Fields(e), []);
    assert EncodeAll(Fields(e)) + [] == EncodeAll(Fields(e));
    FieldsRestore(e, start);
    NothingLeft(ApplyFields(start, Fields(e)));
    if start.compactPointers == [] {
      assert start.compactPointers + e.compactPointers == e.compactPointers;
    } else {
      assert |start.compactPointers + e.compactPointers| > |e.compactPointers|;
    }
  }

  lemma NothingLeft(e: Edit)
    ensures DecodeAll(e, []) == (e, OK)
  {
  }

  lemma NothingEncoded()
    ensures EncodeAll([]) == []
  {
  }

  class VersionEdit {
    var edit: Edit

    constructor ()
      ensures edit == EMPTY
    {
      edit := EMPTY;
    }

    /** Everything but the compaction pointers is cleared. */
    method Clear()
      modifies this
      ensures edit == EMPTY.(compactPointers := old(edit.compactPointers))
    {
      edit := edit.(comparator := None);
      edit := edit.(logNumber := None, prevLogNumber := None, lastSequence := None, nextFileNumber := None);
      edit := edit.(deletedFiles := [], newFiles := []);
    }

    method EncodeTo() returns (dst: Bytes)
      ensures dst == EncodeAll(Fields(edit))
    {
      hide Encode, EncodeAll, OptionalField;
      ghost var xs: seq<Field> := [];
      NothingEncoded();
      dst := [];
      if edit.comparator.Some? {
        dst := Put(dst, xs, Comparator(edit.comparator.value));
        xs := xs + [Comparator(edit.comparator.value)];
      }
      dst, xs := PutOptional(dst, xs, edit.logNumber, (n: nat) => LogNumber(n));
      dst, xs := PutOptional(dst, xs, edit.prevLogNumber, (n: nat) => PrevLogNumber(n));
      dst, xs := PutOptional(dst, xs, edit.nextFileNumber, (n: nat) => NextFileNumber(n));
      dst, xs := PutOptional(dst, xs, edit.lastSequence, (n: nat) => LastSequence(n));
      assert xs == HeadFields(edit);
      dst, xs := PutLists(dst, xs);
      FieldsAre(edit);
    }

    /** The three lists, one field for each element. */
    method PutLists(start: Bytes, ghost before: seq<Field>) returns (dst: Bytes, ghost xs: seq<Field>)
      requires start == EncodeAll(before)
      ensures xs ==
                before + PointerFields(edit.compactPointers) + DeletedFields(edit.deletedFiles) +
                  NewFields(edit.newFiles)
      ensures dst == EncodeAll(xs)
    {
      hide EncodeAll;
      dst, xs := start, before;
      for i := 0 to |edit.compactPointers|
        invariant xs == before + PointerFields(edit.compactPointers)[..i] && dst == EncodeAll(xs)
      {
        var x := CompactPointer(edit.compactPointers[i].0, edit.compactPointers[i].1);
        dst := Put(dst, xs, x);
        xs := xs + [x];
      }
      ghost var middle := xs;
      for i := 0 to |edit.deletedFiles|
        invariant xs == middle + DeletedFields(edit.deletedFiles)[..i] && dst == EncodeAll(xs)
      {
        var x := DeletedFile(edit.deletedFiles[i]);
        dst := Put(dst, xs, x);
        xs := xs + [x];
      }
      ghost var last := xs;
      for i := 0 to |edit.newFiles|
        invariant xs == last + NewFields(edit.newFiles)[..i] && dst == EncodeAll(xs)
      {
        var x := NewFile(edit.newFiles[i].0, edit.newFiles[i].1);
        dst := Put(dst, xs, x);
        xs := xs + [x];
      }
    }

    /** Appends a field that the edit has. */
    static method PutOptional(dst: Bytes, ghost xs: seq<Field>, n: Option<nat>, make: nat -> Field)
      returns (r: Bytes, ghost ys: seq<Field>)
      requires dst == EncodeAll(xs)
      ensures ys == xs + OptionalField(n, make) && r == EncodeAll(ys)
    {
      r, ys := dst, xs;
      if n.Some? {
        r := Put(dst, xs, make(n.value));
        ys := xs + [make(n.value)];
      }
    }

    /** Appends one field. */
    static method Put(dst: Bytes, ghost xs: seq<Field>, x: Field) returns (r: Bytes)
      requires dst == EncodeAll(xs)
      ensures r == EncodeAll(xs + [x])
    {
      r := dst + Encode(x);
      assert (xs + [x])[..|xs|] == xs;
    }

    /** Clears the edit and reads fields into it until the bytes end or something is wrong. */
    method DecodeFrom(src: Bytes) returns (status: Status)
      modifies this
      ensures (edit, status) == DecodeAll(EMPTY.(compactPointers := old(edit.compactPointers)), src)
    {
      hide ApplyField, ParseField, GetVarint32;
      Clear();
      ghost var start := edit;
      var input := src;
      while true
        invariant DecodeAll(start, src) == DecodeAll(edit, input)
        decreases |input|
      {
        var tag := GetVarint32(input);
        if tag == None {
          return if input == [] then OK else Corruption("invalid tag");
        }
        VarintShrinks(input);
        ParseConsumes(tag.value.0, tag.value.1);
        match ParseField(tag.value.0, tag.value.1) {
          case Fails(message) =>
            return Corruption(message);
          case Field(x, rest) =>
            edit := ApplyField(edit, x);
            input := rest;
        }
      }
    }
  }
}
