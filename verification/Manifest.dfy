/** The manifest: version edits as records of a log, and the replay that rebuilds the version from them, even from a log
    that a crash cut short. */
module Manifest {
  import opened Wrappers
  import opened Bytewise
  import opened Coding
  import opened DbFormat
  import opened Tree
  import Builder
  import Edits = VersionEdit
  import Log

  // The table that a file number names, with its contents; reading tables is not part of this model.
  type Files = Edits.FileMetaData -> File

  function FilesOf(e: Edits.Edit, fileOf: Files): Builder.FileEdit {
    Builder.FileEdit(set d | d in e.deletedFiles :: (d.level, d.number),
                        seq(|e.newFiles|, i requires 0 <= i < |e.newFiles| =>
                            (e.newFiles[i].0, fileOf(e.newFiles[i].1))))
  }

  predicate LevelsOk(e: Edits.Edit) {
    && (forall d :: d in e.deletedFiles ==> d.level < NUM_LEVELS)
    && (forall n :: n in e.newFiles ==> n.0 < NUM_LEVELS)
  }

  lemma LevelsFit(e: Edits.Edit, fileOf: Files)
    requires LevelsOk(e)
    ensures Builder.EditOk(FilesOf(e, fileOf))
  {
  }

  lemma {:induction false} InsertedLevels(ds: seq<Edits.Deleted>, d: Edits.Deleted)
    requires d.level < NUM_LEVELS && forall x :: x in ds ==> x.level < NUM_LEVELS
    ensures forall x :: x in Edits.InsertDeleted(ds, d) ==> x.level < NUM_LEVELS
  {
    if ds != [] && !Edits.DeletedLess(d, ds[0]) && d != ds[0] {
      InsertedLevels(ds[1..], d);
    }
  }

  /** What is decoded names no level that does not exist. */
  lemma {:induction false} DecodedLevels(e: Edits.Edit, b: Bytes)
    requires LevelsOk(e)
    ensures LevelsOk(Edits.DecodeAll(e, b).0)
    decreases |b|
  {
    hide Edits.ParseField, Edits.InsertDeleted, LevelsOk, GetVarint32;
    Edits.VarintShrinks(b);
    match GetVarint32(b)
    case None =>
    case Some((tag, rest)) =>
      Edits.ParseConsumes(tag, rest);
      match Edits.ParseField(tag, rest)
      case Fails(_) =>
      case Field(x, rest') =>
        ParsedLevel(tag, rest);
        FieldKeepsLevels(e, x);
        DecodedLevels(Edits.ApplyField(e, x), rest');
  }

  predicate FieldLevelOk(x: Edits.Field) {
    (x.DeletedFile? ==> x.d.level < NUM_LEVELS) && (x.NewFile? ==> x.level < NUM_LEVELS)
  }

  lemma ParsedLevel(tag: nat, b: Bytes)
    ensures Edits.ParseField(tag, b).Field? ==> FieldLevelOk(Edits.ParseField(tag, b).x)
  {
    hide GetVarint64, GetLengthPrefixed, Edits.ParseFile, GetVarint32;
  }

  lemma FieldKeepsLevels(e: Edits.Edit, x: Edits.Field)
    requires LevelsOk(e) && FieldLevelOk(x)
    ensures LevelsOk(Edits.ApplyField(e, x))
  {
    hide Edits.InsertDeleted;
    match x
    case DeletedFile(d) => InsertedLevels(e.deletedFiles, d);
    case _ =>
  }

  // ---- one builder for all edits, or one version after the other ----

  /** The version after all edits, one version for each. */
  function Replay(v: Version, es: seq<Builder.FileEdit>): (r: Version)
    requires |v| == NUM_LEVELS
    ensures |r| == NUM_LEVELS
  {
    if es == [] then v else Builder.NextVersion(Replay(v, es[..|es| - 1]), es[|es| - 1])
  }

  /** One level of a builder that takes in all edits. */
  function Fold(es: seq<Builder.FileEdit>, l: nat): Builder.LevelState {
    if es == [] then Builder.EMPTY_LEVEL else Builder.ApplyLevel(Fold(es[..|es| - 1], l), es[|es| - 1], l)
  }

  /** No edit adds a file number again to a level that holds or held it. */
  ghost predicate NeverReadded(v: Version, es: seq<Builder.FileEdit>, l: nat)
    requires l < |v|
  {
    forall i :: 0 <= i < |es| ==> Builder.AddsFresh(v[l], Fold(es[..i], l), Builder.NewAt(es[i].newFiles, l))
  }

  /** Folding edits through one builder gives the files that applying them one version at a time gives. */
  lemma {:induction false} FoldIsReplay(v: Version, es: seq<Builder.FileEdit>, l: nat)
    requires |v| == NUM_LEVELS && l < NUM_LEVELS && InOrder(v[l]) && NeverReadded(v, es, l)
    ensures Builder.LevelOk(v[l], Fold(es, l))
    ensures Builder.SaveLevel(v[l], Fold(es, l)) == Replay(v, es)[l]
    decreases |es|
  {
    hide Builder.SaveLevel, Builder.ApplyLevel, Builder.AddsFresh, Builder.NewAt;
    if es == [] {
      NothingSaved(v[l]);
    } else {
      var n := |es| - 1;
      assert forall i :: 0 <= i < n ==> es[..n][..i] == es[..i];
      FoldIsReplay(v, es[..n], l);
      assert Builder.AddsFresh(v[l], Fold(es[..n], l), Builder.NewAt(es[n].newFiles, l));
      Builder.FoldedEditIsOneVersion(v[l], Fold(es[..n], l), es[n], l);
    }
  }

  lemma NothingSaved(fs: seq<File>)
    requires InOrder(fs)
    ensures Builder.LevelOk(fs, Builder.EMPTY_LEVEL) && Builder.SaveLevel(fs, Builder.EMPTY_LEVEL) == fs
  {
    Builder.InSaveLevel(fs, Builder.EMPTY_LEVEL);
    Builder.OrderedListsAgree(fs, Builder.SaveLevel(fs, Builder.EMPTY_LEVEL));
  }

  // ---- recovery ----

  const NO_FILES: Version := seq(NUM_LEVELS, _ => [])

  /** The edits in a list of records; None when one cannot be decoded. */
  function Decoded(records: seq<Bytes>): Option<seq<Edits.Edit>> {
    if records == [] then Some([])
    else
      var n := |records| - 1;
      match Decoded(records[..n])
      case None => None
      case Some(es) =>
        var (e, status) := Edits.DecodeAll(Edits.EMPTY, records[n]);
        if status.OK? then Some(es + [e]) else None
  }

  function Encoded(es: seq<Edits.Edit>): seq<Bytes> {
    seq(|es|, i requires 0 <= i < |es| => Edits.EncodeAll(Edits.Fields(es[i])))
  }

  function AllFilesOf(es: seq<Edits.Edit>, fileOf: Files): seq<Builder.FileEdit> {
    seq(|es|, i requires 0 <= i < |es| => FilesOf(es[i], fileOf))
  }

  /** The last value that any edit gives to a field. */
  function LastOf(es: seq<Edits.Edit>, get: Edits.Edit -> Option<nat>): Option<nat> {
    if es == [] then None
    else if get(es[|es| - 1]).Some? then get(es[|es| - 1])
    else LastOf(es[..|es| - 1], get)
  }

  datatype Counters = Counters(logNumber: Option<nat>, prevLogNumber: Option<nat>, nextFile: Option<nat>,
                               lastSequence: Option<nat>)

  function CountersOf(es: seq<Edits.Edit>): Counters {
    Counters(LastOf(es, (e: Edits.Edit) => e.logNumber), LastOf(es, (e: Edits.Edit) => e.prevLogNumber),
             LastOf(es, (e: Edits.Edit) => e.nextFileNumber), LastOf(es, (e: Edits.Edit) => e.lastSequence))
  }

  datatype Outcome =
    | Recovered(v: Version, nextFile: nat, lastSequence: nat, logNumber: nat, prevLogNumber: nat)
    | Corruption(message: string)
    | InvalidArgument(message: string)

  predicate ComparatorsMatch(es: seq<Edits.Edit>, name: Bytes) {
    forall i :: 0 <= i < |es| && es[i].comparator.Some? ==> es[i].comparator.value == name
  }

  /** What recovery makes of the edits it read. */
  function Rebuilt(es: seq<Edits.Edit>, fileOf: Files): Outcome {
    var c := CountersOf(es);
    if c.nextFile == None then Corruption("no meta-nextfile entry in descriptor")
    else if c.logNumber == None then Corruption("no meta-lognumber entry in descriptor")
    else if c.lastSequence == None then Corruption("no last-sequence-number entry in descriptor")
    else
      Recovered(seq(NUM_LEVELS,
                    l requires 0 <= l < NUM_LEVELS => Builder.SaveLevel([], Fold(AllFilesOf(es, fileOf), l))),
                c.nextFile.value + 1, c.lastSequence.value, c.logNumber.value,
                if c.prevLogNumber.Some? then c.prevLogNumber.value else 0)
  }

  lemma {:induction false} DecodedFront(a: seq<Bytes>, b: seq<Bytes>)
    ensures Decoded(a) == None ==> Decoded(a + b) == None
    ensures Decoded(a).Some? && Decoded(a + b).Some? ==> Decoded(a).value <= Decoded(a + b).value
  {
    hide Edits.DecodeAll;
    if b == [] {
      assert a + b == a;
    } else {
      var n := |b| - 1;
      DecodedFront(a, b[..n]);
      assert (a + b)[..|a + b| - 1] == a + b[..n];
    }
  }

  lemma DecodedMore(records: seq<Bytes>, record: Bytes)
    ensures var (e, status) := Edits.DecodeAll(Edits.EMPTY, record);
      Decoded(records + [record]) ==
        if Decoded(records).Some? && status.OK? then Some(Decoded(records).value + [e]) else None
  {
    hide Edits.DecodeAll;
    assert (records + [record])[..|records|] == records;
  }

  /** These records were read without a report, and reading goes on at `p`. */
  ghost predicate ReadSoFar(crc: Log.Crc, file: Bytes, records: seq<Bytes>, p: int) {
    && 0 <= p <= |file|
    && Log.ReadAll(crc, true, file, 0) ==
          (records + Log.ReadAll(crc, true, file, p).0, Log.ReadAll(crc, true, file, p).1)
  }

  lemma ReadNothing(crc: Log.Crc, file: Bytes)
    ensures ReadSoFar(crc, file, [], 0)
  {
    hide Log.ReadAll;
    assert [] + Log.ReadAll(crc, true, file, 0).0 == Log.ReadAll(crc, true, file, 0).0;
  }

  lemma ReadOneMore(crc: Log.Crc, file: Bytes, records: seq<Bytes>, p: nat)
    requires ReadSoFar(crc, file, records, p)
    ensures var (record, at, more) := Log.RecordAt(crc, true, file, p, false, []);
      && p <= at <= |file|
      && (record == None ==> Log.ReadAll(crc, true, file, 0) == (records, more))
      && (record.Some? ==>
            && p < at
            && records + [record.value] <= Log.ReadAll(crc, true, file, 0).0
            && (more != [] ==> Log.ReadAll(crc, true, file, 0).1 != [])
            && (more == [] ==> ReadSoFar(crc, file, records + [record.value], at)))
  {
    hide Log.RecordAt;
    Log.RecordReadsAhead(crc, true, file, p, false, []);
    var (record, at, more) := Log.RecordAt(crc, true, file, p, false, []);
    assert records + [] == records;
    if record.Some? {
      var rest := Log.ReadAll(crc, true, file, at);
      assert Log.ReadAll(crc, true, file, p).0 == [record.value] + rest.0;
      assert Log.ReadAll(crc, true, file, p).1 == more + rest.1;
      assert records + ([record.value] + rest.0) == records + [record.value] + rest.0;
      assert [] + rest.1 == rest.1;
    }
  }

  lemma CountersMore(es: seq<Edits.Edit>, e: Edits.Edit)
    ensures var c := CountersOf(es);
      CountersOf(es + [e]) ==
        Counters(if e.logNumber.Some? then e.logNumber else c.logNumber,
                 if e.prevLogNumber.Some? then e.prevLogNumber else c.prevLogNumber,
                 if e.nextFileNumber.Some? then e.nextFileNumber else c.nextFile,
                 if e.lastSequence.Some? then e.lastSequence else c.lastSequence)
  {
    assert (es + [e])[..|es|] == es;
  }

  lemma FoldMore(es: seq<Edits.Edit>, e: Edits.Edit, fileOf: Files, l: nat)
    ensures Fold(AllFilesOf(es + [e], fileOf), l) ==
              Builder.ApplyLevel(Fold(AllFilesOf(es, fileOf), l), FilesOf(e, fileOf), l)
  {
    hide Builder.ApplyLevel, FilesOf;
    assert AllFilesOf(es + [e], fileOf)[..|es|] == AllFilesOf(es, fileOf);
  }

  lemma {:induction false} FoldInOrder(es: seq<Builder.FileEdit>, l: nat)
    ensures InOrder(Fold(es, l).added)
  {
    hide Builder.AddAll, Builder.DeletedAt, Builder.NewAt;
    if es != [] {
      FoldInOrder(es[..|es| - 1], l);
      var s := Fold(es[..|es| - 1], l);
      Builder.AddAllKeepsOrder(Builder.LevelState(s.deleted + Builder.DeletedAt(es[|es| - 1], l), s.added),
                               Builder.NewAt(es[|es| - 1].newFiles, l));
    }
  }

  lemma FrontDecoded(a: seq<Bytes>, all: seq<Bytes>)
    requires a <= all
    ensures Decoded(a) == None ==> Decoded(all) == None
    ensures Decoded(a).Some? && Decoded(all).Some? ==> Decoded(a).value <= Decoded(all).value
  {
    hide Decoded;
    DecodedFront(a, all[|a|..]);
    assert a + all[|a|..] == all;
  }

  lemma Mismatch(front: seq<Edits.Edit>, es: seq<Edits.Edit>, name: Bytes)
    requires front <= es && !ComparatorsMatch(front, name)
    ensures !ComparatorsMatch(es, name)
  {
    var i :| 0 <= i < |front| && front[i].comparator.Some? && front[i].comparator.value != name;
    assert es[i] == front[i];
  }

  lemma ComparatorMore(es: seq<Edits.Edit>, e: Edits.Edit, name: Bytes)
    requires ComparatorsMatch(es, name)
    ensures ComparatorsMatch(es + [e], name) <==> e.comparator == None || e.comparator.value == name
  {
    assert (es + [e])[|es|] == e;
  }

  lemma EmptyLevels()
    ensures LevelsOk(Edits.EMPTY)
  {
  }

  lemma MismatchFound(front: seq<Edits.Edit>, records: seq<Bytes>, all: seq<Bytes>, name: Bytes)
    requires records <= all && Decoded(records) == Some(front) && !ComparatorsMatch(front, name)
    ensures Decoded(all).Some? ==> !ComparatorsMatch(Decoded(all).value, name)
  {
    hide Decoded, ComparatorsMatch;
    FrontDecoded(records, all);
    if Decoded(all).Some? {
      Mismatch(front, Decoded(all).value, name);
    }
  }

  lemma NoEdits(fileOf: Files, name: Bytes)
    ensures ComparatorsMatch([], name)
    ensures Decoded([]) == Some([]) && CountersOf([]) == Counters(None, None, None, None)
    ensures forall l :: Fold(AllFilesOf([], fileOf), l) == Builder.EMPTY_LEVEL
  {
  }

  /** Checks that nothing is missing, and saves the builder into the recovered version. */
  method Install(builder: Builder.Builder, c: Counters, ghost es: seq<Edits.Edit>, fileOf: Files) returns (r: Outcome)
    requires |builder.levels| == NUM_LEVELS && builder.base == NO_FILES && c == CountersOf(es)
    requires forall l :: 0 <= l < NUM_LEVELS ==> builder.levels[l] == Fold(AllFilesOf(es, fileOf), l)
    ensures r == Rebuilt(es, fileOf)
  {
    hide Builder.SaveLevel, Fold, AllFilesOf, CountersOf;
    if c.nextFile == None {
      return Corruption("no meta-nextfile entry in descriptor");
    }
    if c.logNumber == None {
      return Corruption("no meta-lognumber entry in descriptor");
    }
    if c.lastSequence == None {
      return Corruption("no last-sequence-number entry in descriptor");
    }
    var prev := if c.prevLogNumber.Some? then c.prevLogNumber.value else 0;
    forall l | 0 <= l < NUM_LEVELS
      ensures InOrder(builder.levels[l].added)
    {
      FoldInOrder(AllFilesOf(es, fileOf), l);
    }
    var v := builder.SaveTo();
    assert v == seq(NUM_LEVELS, l requires 0 <= l < NUM_LEVELS =>
        Builder.SaveLevel([], Fold(AllFilesOf(es, fileOf), l)));
    r := Recovered(v, c.nextFile.value + 1, c.lastSequence.value, c.logNumber.value, prev);
  }

  /** Replays the manifest into one builder on an empty version. */
  method Recover(crc: Log.Crc, file: Bytes, name: Bytes, fileOf: Files) returns (r: Outcome)
    ensures var (records, reports) := Log.ReadAll(crc, true, file, 0);
      && (r.Recovered? ==> reports == [] && Decoded(records).Some? && ComparatorsMatch(Decoded(records).value, name))
      && (reports == [] && Decoded(records).Some? && ComparatorsMatch(Decoded(records).value, name) ==>
            r == Rebuilt(Decoded(records).value, fileOf))
  {
    hide Edits.DecodeAll, Builder.ApplyLevel, Builder.SaveLevel, FilesOf, Log.RecordAt, LevelsOk, ReadSoFar,
         Log.ReadAll, Decoded, AllFilesOf, CountersOf, ComparatorsMatch;
    var reader := new Log.Reader(file, crc, true);
    var builder := new Builder.Builder(NO_FILES);
    var c := Counters(None, None, None, None);
    ghost var records: seq<Bytes>, es: seq<Edits.Edit> := [], [];
    ReadNothing(crc, file);
    NoEdits(fileOf, name);
    while true
      invariant reader.Ok() && reader.file == file && reader.crc == crc && reader.checksum
      invariant reader.reports == [] && ReadSoFar(crc, file, records, reader.Position())
      invariant Decoded(records) == Some(es) && ComparatorsMatch(es, name) && c == CountersOf(es)
      invariant |builder.levels| == NUM_LEVELS && builder.base == NO_FILES
      invariant forall l :: 0 <= l < NUM_LEVELS ==> builder.levels[l] == Fold(AllFilesOf(es, fileOf), l)
      decreases |file| - reader.Position()
    {
      reader.PositionInside();
      ReadOneMore(crc, file, records, reader.Position());
      var record := reader.ReadRecord();
      if record == None {
        break;
      }
      if reader.reports != [] {
        break;
      }
      DecodedMore(records, record.value);
      FrontDecoded(records + [record.value], Log.ReadAll(crc, true, file, 0).0);
      var edit := new Edits.VersionEdit();
      var status := edit.DecodeFrom(record.value);
      if !status.OK? {
        return Corruption(status.message);
      }
      var e := edit.edit;
      ComparatorMore(es, e, name);
      if e.comparator.Some? && e.comparator.value != name {
        MismatchFound(es + [e], records + [record.value], Log.ReadAll(crc, true, file, 0).0, name);
        return InvalidArgument("comparator does not match existing comparator");
      }
      EmptyLevels();
      DecodedLevels(Edits.EMPTY, record.value);
      LevelsFit(e, fileOf);
      builder.Apply(FilesOf(e, fileOf));
      CountersMore(es, e);
      c := Counters(if e.logNumber.Some? then e.logNumber else c.logNumber,
                    if e.prevLogNumber.Some? then e.prevLogNumber else c.prevLogNumber,
                    if e.nextFileNumber.Some? then e.nextFileNumber else c.nextFile,
                    if e.lastSequence.Some? then e.lastSequence else c.lastSequence);
      forall l | 0 <= l < NUM_LEVELS
        ensures builder.levels[l] == Fold(AllFilesOf(es + [e], fileOf), l)
      {
        FoldMore(es, e, fileOf, l);
      }
      records, es := records + [record.value], es + [e];
    }
    if reader.reports != [] {
      return Corruption("log");
    }
    r := Install(builder, c, es, fileOf);
  }

  lemma {:induction false} EncodedIsDecoded(es: seq<Edits.Edit>)
    requires forall i :: 0 <= i < |es| ==> Edits.EditFits(es[i])
    ensures Decoded(Encoded(es)) == Some(es)
  {
    hide Edits.EncodeAll, Edits.Fields, Edits.DecodeAll, Edits.EditFits;
    if es != [] {
      var n := |es| - 1;
      EncodedIsDecoded(es[..n]);
      assert Encoded(es)[..n] == Encoded(es[..n]);
      Edits.EditRoundTrip(es[n], Edits.EMPTY);
      assert es[n].(compactPointers := [] + es[n].compactPointers) == es[n];
      assert es == es[..n] + [es[n]];
    }
  }

  /** After a crash at any byte of the manifest, what is read back are just the edits whose records are there in full,
      so the version rebuilt is the one that was current after the last of them. */
  lemma CrashRecovers(crc: Log.Crc, es: seq<Edits.Edit>, t: nat, fileOf: Files)
    requires forall i :: 0 <= i < |es| ==> Edits.EditFits(es[i])
    requires t <= |Log.Stream(crc, 0, Encoded(es))|
    ensures var k := Log.WholeRecords(crc, 0, Encoded(es), t);
      var (records, reports) := Log.ReadAll(crc, true, Log.Stream(crc, 0, Encoded(es))[..t], 0);
      && k <= |es| && reports == [] && Decoded(records) == Some(es[..k])
  {
    hide Log.Stream, Log.WholeRecords, Log.ReadAll, Decoded, Edits.EditFits;
    var k := Log.WholeRecords(crc, 0, Encoded(es), t);
    Log.CrashPrefixFromStart(crc, true, Encoded(es), t);
    assert Encoded(es)[..k] == Encoded(es[..k]);
    EncodedIsDecoded(es[..k]);
  }

  lemma RebuiltIsReplay(es: seq<Edits.Edit>, fileOf: Files)
    requires Rebuilt(es, fileOf).Recovered?
    requires forall l :: 0 <= l < NUM_LEVELS ==> NeverReadded(NO_FILES, AllFilesOf(es, fileOf), l)
    ensures Rebuilt(es, fileOf).v == Replay(NO_FILES, AllFilesOf(es, fileOf))
  {
    hide Builder.SaveLevel, Fold, AllFilesOf, NeverReadded, CountersOf, Replay;
    var v := NO_FILES;
    forall l | 0 <= l < NUM_LEVELS
      ensures Rebuilt(es, fileOf).v[l] == Replay(v, AllFilesOf(es, fileOf))[l]
    {
      FoldIsReplay(v, AllFilesOf(es, fileOf), l);
    }
  }
}
