/** Replaying the log of writes after a crash: what comes back into the memtable. */
module LogReplay {
  import opened Wrappers
  import opened Bytewise
  import opened Coding
  import opened WriteBatch
  import Commit = GroupCommit
  import Log

  // A batch as it is logged: the number of its first operation, and the operations.
  type Batch = (nat, seq<Op>)

  /** What replay has put into the memtable so far, and the largest sequence number it has met. */
  datatype Replay = Replay(mem: seq<(nat, Op)>, maxSequence: nat)

  const NOTHING := Replay([], 0)

  function Larger(a: nat, b: int): nat {
    if a < b then b else a
  }

  /** One record: what is too short is skipped; otherwise its operations go into the memtable, and the number of the
      last one that the header announces counts, if the batch is sound or errors are ignored. */
  function TakeIn(r: Replay, record: Bytes, paranoid: bool): (Replay, Status) {
    if |record| < HEADER then (r, if paranoid then Corruption("log record too small") else OK)
    else
      var (ops, status) := Iterated(record);
      var first, count := Unfixed(record[..8]), Unfixed(record[8..12]);
      var mem := r.mem + Numbered(ops, first);
      if paranoid && !status.OK? then (Replay(mem, r.maxSequence), status)
      else (Replay(mem, Larger(r.maxSequence, (first + count + BITS_64 - 1) % BITS_64)), OK)
  }

  /** All records, up to the first error if errors count. */
  function ReplayAll(r: Replay, records: seq<Bytes>, paranoid: bool): (Replay, Status)
    decreases |records|
  {
    if records == [] then (r, OK)
    else
      var (next, status) := TakeIn(r, records[0], paranoid);
      if status.OK? then ReplayAll(next, records[1..], paranoid) else (next, status)
  }

  /** Replay stands at `p` of the file with this much done and these reports. */
  ghost predicate Going(crc: Log.Crc, file: Bytes, start: Replay, paranoid: bool, reports: seq<string>, r: Replay,
          p: int)
  {
    && 0 <= p <= |file|
    && Log.ReadAll(crc, true, file, 0).1 == reports + Log.ReadAll(crc, true, file, p).1
    && ReplayAll(start, Log.ReadAll(crc, true, file, 0).0, paranoid) ==
          ReplayAll(r, Log.ReadAll(crc, true, file, p).0, paranoid)
  }

  lemma GoingStarts(crc: Log.Crc, file: Bytes, start: Replay, paranoid: bool)
    ensures Going(crc, file, start, paranoid, [], start, 0)
  {
    hide Log.ReadAll, ReplayAll;
    assert [] + Log.ReadAll(crc, true, file, 0).1 == Log.ReadAll(crc, true, file, 0).1;
  }

  lemma GoingOn(crc: Log.Crc, file: Bytes, start: Replay, paranoid: bool, reports: seq<string>, r: Replay, p: nat)
    requires Going(crc, file, start, paranoid, reports, r, p)
    ensures var (record, at, more) := Log.RecordAt(crc, true, file, p, false, []);
      var (records, all) := Log.ReadAll(crc, true, file, 0);
      && p <= at <= |file|
      && (reports + more != [] ==> all != [])
      && (record == None ==> all == reports + more && ReplayAll(start, records, paranoid) == (r, OK))
      && (record.Some? ==>
            var (next, status) := TakeIn(r, record.value, paranoid);
            && p < at
            && (status.OK? ==> Going(crc, file, start, paranoid, reports + more, next, at))
            && (!status.OK? ==> ReplayAll(start, records, paranoid) == (next, status)))
  {
    hide Log.RecordAt, TakeIn;
    Log.RecordReadsAhead(crc, true, file, p, false, []);
    var (record, at, more) := Log.RecordAt(crc, true, file, p, false, []);
    if record.Some? {
      var rest := Log.ReadAll(crc, true, file, at);
      assert Log.ReadAll(crc, true, file, p) == ([record.value] + rest.0, more + rest.1);
      assert ([record.value] + rest.0)[1..] == rest.0;
      assert reports + (more + rest.1) == reports + more + rest.1;
    }
  }

  /** Puts one record into the memtable. */
  method TakeRecord(r: Replay, record: Bytes, paranoid: bool) returns (next: Replay, status: Status)
    ensures (next, status) == TakeIn(r, record, paranoid)
  {
    hide Iterated;
    next, status := r, OK;
    if |record| < HEADER {
      if paranoid {
        status := Corruption("log record too small");
      }
      return;
    }
    var batch := new WriteBatch();
    batch.SetContents(record);
    var mem;
    mem, status := batch.InsertInto(r.mem);
    next := Replay(mem, r.maxSequence);
    if paranoid && !status.OK? {
      return;
    }
    status := OK;
    var first, count := Unfixed(record[..8]), Unfixed(record[8..12]);
    var last := (first + count + BITS_64 - 1) % BITS_64;
    if last > next.maxSequence {
      next := next.(maxSequence := last);
    }
  }

  /** Puts the batches of a log file into the memtable.  What the reader reports ends replay if errors count. */
  method RecoverLogFile(crc: Log.Crc, file: Bytes, start: Replay, paranoid: bool) returns (r: Replay, status: Status)
    ensures var (records, reports) := Log.ReadAll(crc, true, file, 0);
      && (!paranoid || reports == [] ==> (r, status) == ReplayAll(start, records, paranoid))
      && (paranoid && reports != [] ==> !status.OK?)
  {
    hide Log.RecordAt, Log.ReadAll, TakeIn, Going;
    var reader := new Log.Reader(file, crc, true);
    r, status := start, OK;
    GoingStarts(crc, file, start, paranoid);
    while true
      invariant reader.Ok() && reader.file == file && reader.crc == crc && reader.checksum
      invariant Going(crc, file, start, paranoid, reader.reports, r, reader.Position())
      invariant paranoid ==> reader.reports == []
      invariant status == OK
      decreases |file| - reader.Position()
    {
      reader.PositionInside();
      GoingOn(crc, file, start, paranoid, reader.reports, r, reader.Position());
      ghost var reports := reader.reports;
      var record := reader.ReadRecord();
      if paranoid && reader.reports != [] {
        return r, Corruption("log");
      }
      if record == None {
        return;
      }
      r, status := TakeRecord(r, record.value, paranoid);
      if !status.OK? {
        return;
      }
    }
  }

  // ---- what the log of a run gives back ----

  function Reps(batches: seq<Batch>): seq<Bytes> {
    seq(|batches|, i requires 0 <= i < |batches| => Rep(batches[i].0, batches[i].1))
  }

  /** Numbers and sizes fit their fields, and a number is taken by every batch that has operations. */
  predicate Loggable(b: Batch) {
    AllFit(b.1) && |b.1| < BITS_32 && 0 < b.0 && b.0 + |b.1| < BITS_64
  }

  /** The operations of batches under their numbers. */
  function Entries(batches: seq<Batch>): seq<(nat, Op)> {
    if batches == [] then [] else Numbered(batches[0].1, batches[0].0) + Entries(batches[1..])
  }

  /** The largest number that a batch announces. */
  function LastNumber(batches: seq<Batch>, least: nat): nat {
    if batches == [] then least else LastNumber(batches[1..], Larger(least, batches[0].0 + |batches[0].1| - 1))
  }

  lemma RepIsTakenIn(r: Replay, b: Batch, paranoid: bool)
    requires Loggable(b)
    ensures TakeIn(r, Rep(b.0, b.1), paranoid) ==
            (Replay(r.mem + Numbered(b.1, b.0), Larger(r.maxSequence, b.0 + |b.1| - 1)), OK)
  {
    hide Rep, Iterated;
    RepRoundTrip(b.0, b.1);
    var last := b.0 + |b.1| - 1;
    assert (last + BITS_64) % BITS_64 == last;
  }

  /** Whole batches come back as they were logged. */
  lemma {:induction false} BatchesAreReplayed(r: Replay, batches: seq<Batch>, paranoid: bool)
    requires forall b :: b in batches ==> Loggable(b)
    ensures ReplayAll(r, Reps(batches), paranoid) ==
            (Replay(r.mem + Entries(batches), LastNumber(batches, r.maxSequence)), OK)
    decreases |batches|
  {
    hide Rep, TakeIn;
    if batches == [] {
      assert r.mem + [] == r.mem;
    } else {
      var b := batches[0];
      RepIsTakenIn(r, b, paranoid);
      assert Reps(batches)[1..] == Reps(batches[1..]);
      var next := Replay(r.mem + Numbered(b.1, b.0), Larger(r.maxSequence, b.0 + |b.1| - 1));
      BatchesAreReplayed(next, batches[1..], paranoid);
      assert r.mem + Numbered(b.1, b.0) + Entries(batches[1..]) == r.mem + (Numbered(b.1, b.0) + Entries(batches[1..]));
    }
  }

  /** Of a log that a crash cut at any byte the batches that are there in full come back, in order, and nothing is
      reported. */
  lemma CutLogIsReplayed(crc: Log.Crc, batches: seq<Batch>, t: nat, r: Replay, paranoid: bool)
    requires forall b :: b in batches ==> Loggable(b)
    requires t <= |Log.Stream(crc, 0, Reps(batches))|
    ensures var k := Log.WholeRecords(crc, 0, Reps(batches), t);
      var (records, reports) := Log.ReadAll(crc, true, Log.Stream(crc, 0, Reps(batches))[..t], 0);
      && k <= |batches| && reports == []
      && ReplayAll(r, records, paranoid) ==
            (Replay(r.mem + Entries(batches[..k]), LastNumber(batches[..k], r.maxSequence)), OK)
  {
    hide Log.Stream, Log.WholeRecords, Log.ReadAll, ReplayAll, Rep, Loggable;
    var k := Log.WholeRecords(crc, 0, Reps(batches), t);
    Log.CrashPrefixFromStart(crc, true, Reps(batches), t);
    assert Reps(batches)[..k] == Reps(batches[..k]);
    forall b | b in batches[..k]
      ensures Loggable(b)
    {
      assert b in batches;
    }
    BatchesAreReplayed(r, batches[..k], paranoid);
  }

  /** Bytes enough for the first `n` records hold them in full. */
  lemma {:induction false} EnoughBytes(crc: Log.Crc, p: nat, records: seq<Bytes>, n: nat, t: nat)
    requires n <= |records| && p + |Log.Stream(crc, p, records[..n])| <= t
    ensures n <= Log.WholeRecords(crc, p, records, t)
    decreases n
  {
    hide Log.Emitted;
    if n > 0 {
      assert records[..n][0] == records[0] && records[..n][1..] == records[1..][..n - 1];
      EnoughBytes(crc, p + |Log.Emitted(crc, p, records[0], true)|, records[1..], n - 1, t);
    }
  }

  lemma {:induction false} InEntries(batches: seq<Batch>, b: Batch, e: (nat, Op))
    requires b in batches && e in Numbered(b.1, b.0)
    ensures e in Entries(batches)
    decreases |batches|
  {
    hide Numbered;
    if b != batches[0] {
      InEntries(batches[1..], b, e);
    }
  }

  lemma {:induction false} NumbersReached(batches: seq<Batch>, b: Batch, least: nat)
    requires forall x :: x in batches ==> Loggable(x)
    ensures LastNumber(batches, least) >= least
    ensures b in batches ==> LastNumber(batches, least) >= b.0 + |b.1| - 1
    decreases |batches|
  {
    if batches != [] {
      NumbersReached(batches[1..], b, Larger(least, batches[0].0 + |batches[0].1| - 1));
    }
  }

  /** However the log of a run is cut by a crash, if only the bytes synced are there: what a writer asked to be synced,
      and was told to be well, is in the memtable after replay, under its own number and up to the last number
      recovered. */
  lemma SyncedSurvives(crc: Log.Crc, run: seq<Commit.State>, i: nat, t: nat, paranoid: bool, w: nat, e: (nat, Op))
    requires Commit.Run(run) && i < |run|
    requires var s := run[i];
      && (forall b :: b in s.log ==> Loggable(b))
      && s.synced <= |s.log|
      && |Log.Stream(crc, 0, Reps(s.log[..s.synced]))| <= t <= |Log.Stream(crc, 0, Reps(s.log))|
      && w < |s.outcomes| && |s.outcomes| <= |s.arrived|
      && s.outcomes[w].ok && s.outcomes[w].numbered && s.arrived[w].sync
      && e in Numbered(Commit.OpsOf(s.arrived[w]), Commit.FirstNumber(s, w))
    ensures var (records, reports) := Log.ReadAll(crc, true, Log.Stream(crc, 0, Reps(run[i].log))[..t], 0);
      var (r, status) := ReplayAll(NOTHING, records, paranoid);
      reports == [] && status.OK? && e in r.mem && e.0 <= r.maxSequence
  {
    hide Log.Stream, Log.WholeRecords, Log.ReadAll, ReplayAll, Numbered, Rep, Commit.OneByOne, Commit.Does;
    var s := run[i];
    CutLogIsReplayed(crc, s.log, t, NOTHING, paranoid);
    var k := Log.WholeRecords(crc, 0, Reps(s.log), t);
    assert Reps(s.log)[..s.synced] == Reps(s.log[..s.synced]);
    EnoughBytes(crc, 0, Reps(s.log), s.synced, t);
    Commit.LogComesFirst(run, i);
    assert Commit.DurableAt(s, w);
    var b :| b in s.log[..s.synced] && e in Numbered(b.1, b.0);
    assert b in s.log[..k];
    InEntries(s.log[..k], b, e);
    forall x | x in s.log[..k]
      ensures Loggable(x)
    {
      assert x in s.log;
    }
    NumbersReached(s.log[..k], b, 0);
    NumberedBounds(b, e);
    assert [] + Entries(s.log[..k]) == Entries(s.log[..k]);
  }

  lemma NumberedBounds(b: Batch, e: (nat, Op))
    requires e in Numbered(b.1, b.0)
    ensures b.0 <= e.0 < b.0 + |b.1|
  {
  }
}
