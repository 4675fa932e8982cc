/** The write-ahead log: records cut into fragments that never cross a 32 KiB block, each with a checksum, and the
    reader that puts them together again and stops quietly where a crash cut the file short. */
module Log {
  import opened Wrappers
  import opened Bytewise
  import opened Coding
  import Checksum

  const BLOCK: nat := 32768
  const HEADER: nat := 7

  const ZERO_TYPE: byte := 0
  const FULL: byte := 1
  const FIRST: byte := 2
  const MIDDLE: byte := 3
  const LAST: byte := 4

  type Crc = Checksum.Crc

  // ---- the format ----

  /** Checksum of type and payload, length, type, payload. */
  function Physical(crc: Crc, kind: byte, payload: Bytes): (b: Bytes)
    ensures |b| == HEADER + |payload|
  {
    Checksum.Encode(crc([kind] + payload)) + Fixed(|payload|, 2) + [kind] + payload
  }

  /** Where the next fragment starts when the log is `p` bytes long: past a trailer too short for a header. */
  function FragmentStart(p: nat): (q: nat)
    ensures p <= q && q % BLOCK + HEADER <= BLOCK
  {
    if BLOCK - p % BLOCK < HEADER then p / BLOCK * BLOCK + BLOCK else p
  }

  function FragmentLength(p: nat, data: Bytes): nat {
    var avail := BLOCK - FragmentStart(p) % BLOCK - HEADER;
    if |data| < avail then |data| else avail
  }

  function Kind(begin: bool, end: bool): byte {
    if begin && end then FULL else if begin then FIRST else if end then LAST else MIDDLE
  }

  /** What is appended to a log of `p` bytes for the rest of a record. */
  function Emitted(crc: Crc, p: nat, data: Bytes, begin: bool): Bytes
    decreases |data|, if FragmentLength(p, data) == 0 then 1 else 0
  {
    var q, n := FragmentStart(p), FragmentLength(p, data);
    var piece := Zeros(q - p) + Physical(crc, Kind(begin, n == |data|), data[..n]);
    if n == |data| then piece
    else
      NextFragment(p, data);
      piece + Emitted(crc, q + HEADER + n, data[n..], false)
  }

  /** Progress: a fragment is not empty, or the next one starts a block. */
  lemma NextFragment(p: nat, data: Bytes)
    requires FragmentLength(p, data) < |data|
    ensures var q, n := FragmentStart(p), FragmentLength(p, data);
      n > 0 || FragmentLength(q + HEADER + n, data[n..]) > 0
  {
  }

  /** The log that a writer makes of records, from `p` bytes on. */
  function Stream(crc: Crc, p: nat, records: seq<Bytes>): Bytes
    decreases |records|
  {
    if records == [] then []
    else
      var e := Emitted(crc, p, records[0], true);
      e + Stream(crc, p + |e|, records[1..])
  }

  // ---- the writer ----

  class Writer {
    var dest: Bytes
    var blockOffset: nat

    ghost predicate Ok()
      reads this
    {
      blockOffset <= BLOCK && blockOffset % BLOCK == |dest| % BLOCK
    }

    /** On a new file, or on one that already has content. */
    constructor (dest: Bytes)
      ensures Ok() && this.dest == dest
    {
      this.dest, blockOffset := dest, |dest| % BLOCK;
    }

    /** Appends a record.  What is written depends on the length of the file alone, so a writer that is closed and
        opened again writes what it would have written. */
    method AddRecord(crc: Crc, slice: Bytes)
      requires Ok()
      modifies this
      ensures Ok() && dest == old(dest) + Emitted(crc, |old(dest)|, slice, true)
    {
      hide Physical, Emitted, FragmentStart, FragmentLength, Zeros;
      var ptr := slice;
      var begin := true;
      ghost var start := dest;
      while true
        invariant Ok() && dest + Emitted(crc, |dest|, ptr, begin) == start + Emitted(crc, |start|, slice, true)
        decreases |ptr|, if FragmentLength(|dest|, ptr) == 0 then 1 else 0
      {
        OneFragment(crc, |dest|, blockOffset, ptr, begin);
        ghost var before, rest := dest, ptr;
        var leftover := BLOCK - blockOffset;
        if leftover < HEADER {
          if leftover > 0 {
            dest := dest + Zeros(leftover);
          }
          blockOffset := 0;
        }
        var avail := BLOCK - blockOffset - HEADER;
        var fragmentLength := if |ptr| < avail then |ptr| else avail;
        var end := |ptr| == fragmentLength;
        EmitPhysicalRecord(crc, Kind(begin, end), ptr[..fragmentLength]);
        ptr := ptr[fragmentLength..];
        begin := false;
        if end {
          assert dest + [] == dest;
          break;
        }
      }
    }

    method EmitPhysicalRecord(crc: Crc, kind: byte, payload: Bytes)
      requires Ok() && blockOffset + HEADER + |payload| <= BLOCK
      modifies this
      ensures Ok() && dest == old(dest) + Physical(crc, kind, payload)
    {
      dest := dest + Physical(crc, kind, payload);
      blockOffset := blockOffset + HEADER + |payload|;
    }
  }

  /** One round of the loop, in terms of the offset in the block. */
  lemma OneFragment(crc: Crc, p: nat, offset: nat, data: Bytes, begin: bool)
    requires offset <= BLOCK && offset % BLOCK == p % BLOCK
    ensures var pad := if BLOCK - offset < HEADER then BLOCK - offset else 0;
      var at := if BLOCK - offset < HEADER then 0 else offset;
      var n := if |data| < BLOCK - at - HEADER then |data| else BLOCK - at - HEADER;
      && (p + pad) % BLOCK == at
      && (at + HEADER + n) % BLOCK == (p + pad + HEADER + n) % BLOCK
      && n == FragmentLength(p, data)
      && (n < |data| ==> n > 0 || FragmentLength(p + pad + HEADER + n, data[n..]) > 0)
      && Zeros(0) == []
      && Emitted(crc, p, data, begin) == Zeros(pad) + Physical(crc, Kind(begin, n == |data|), data[..n]) +
           (if n == |data| then [] else Emitted(crc, p + pad + HEADER + n, data[n..], false))
  {
    hide Physical, Kind, Emitted, FragmentStart;
    OffsetIs(p, offset);
    OffsetGoesOn(p, offset, data);
    EmittedIs(crc, p, data, begin);
    if FragmentLength(p, data) < |data| {
      NextFragment(p, data);
    }
  }

  lemma OffsetGoesOn(p: nat, offset: nat, data: Bytes)
    requires offset <= BLOCK && offset % BLOCK == p % BLOCK
    ensures var pad := if BLOCK - offset < HEADER then BLOCK - offset else 0;
      var at := if BLOCK - offset < HEADER then 0 else offset;
      var n := if |data| < BLOCK - at - HEADER then |data| else BLOCK - at - HEADER;
      && FragmentStart(p) == p + pad && (p + pad) % BLOCK == at
      && (at + HEADER + n) % BLOCK == (p + pad + HEADER + n) % BLOCK
      && n == FragmentLength(p, data)
  {
    OffsetIs(p, offset);
    ModAdd(p + (if BLOCK - offset < HEADER then BLOCK - offset else 0), HEADER + FragmentLength(p, data), BLOCK);
  }

  lemma OffsetIs(p: nat, offset: nat)
    requires offset <= BLOCK && offset % BLOCK == p % BLOCK
    ensures BLOCK - offset < HEADER ==> FragmentStart(p) == p + (BLOCK - offset) && FragmentStart(p) % BLOCK == 0
    ensures BLOCK - offset >= HEADER ==> FragmentStart(p) == p && p % BLOCK == offset
  {
  }

  // ---- reading ----

  /** One physical record: the end of the log, one dropped for a reason reported (or for none), or a fragment; and where
      the reader goes on. */
  datatype Result = Eof | Bad(reports: seq<string>, next: nat) | Got(kind: byte, fragment: Bytes, next: nat)

  function BlockEnd(p: nat): nat {
    p / BLOCK * BLOCK + BLOCK
  }

  /** What is read at `p`; the buffer holds the rest of the block, or of the file. */
  function NextPhysical(crc: Crc, checksum: bool, f: Bytes, p: nat): Result
    requires p <= |f|
    decreases |f| - p
  {
    var e := if BlockEnd(p) < |f| then BlockEnd(p) else |f|;
    if e - p < HEADER then
      if BlockEnd(p) < |f| then NextPhysical(crc, checksum, f, BlockEnd(p)) else Eof
    else Parsed(crc, checksum, f[p..e], e, |f| < BlockEnd(p))
  }

  /** What the header at the front of the buffer gives; the buffer ends at `e`. */
  function Parsed(crc: Crc, checksum: bool, buffer: Bytes, e: nat, eof: bool): Result
    requires HEADER <= |buffer| <= e
  {
    var length := buffer[4] as int + 256 * buffer[5] as int;
    var kind := buffer[6];
    if HEADER + length > |buffer| then
      if eof then Eof else Bad(["bad record length"], e)
    else if kind == ZERO_TYPE && length == 0 then Bad([], e)
    else if checksum && Checksum.Decode(buffer[..4]) != crc([kind] + buffer[HEADER..HEADER + length]) then
      Bad(["checksum mismatch"], e)
    else Got(kind, buffer[HEADER..HEADER + length], e - |buffer| + HEADER + length)
  }

  lemma {:induction false} ReadsAhead(crc: Crc, checksum: bool, f: Bytes, p: nat)
    requires p <= |f|
    ensures var r := NextPhysical(crc, checksum, f, p);
      !r.Eof? ==> p < r.next <= |f| && (r.Got? ==> HEADER + |r.fragment| <= r.next)
    decreases |f| - p
  {
    if BlockEnd(p) < |f| {
      ReadsAhead(crc, checksum, f, BlockEnd(p));
    }
  }

  /** The record whose fragments start at `p`, or go on there with `scratch` read so far; where the reader then stands;
      and what it reported. */
  function RecordAt(crc: Crc, checksum: bool, f: Bytes, p: nat, inFragment: bool,
          scratch: Bytes): (Option<Bytes>, nat, seq<string>)
    requires p <= |f|
    decreases |f| - p
  {
    ReadsAhead(crc, checksum, f, p);
    match NextPhysical(crc, checksum, f, p)
    case Eof => (None, |f|, [])
    case Bad(reports, next) =>
      var (r, at, more) := RecordAt(crc, checksum, f, next, false, []);
      (r, at, reports + (if inFragment then ["error in middle of record"] else []) + more)
    case Got(kind, fragment, next) =>
      if kind == FULL then
        (Some(fragment), next, if inFragment && scratch != [] then ["partial record without end(1)"] else [])
      else if kind == FIRST then
        var (r, at, more) := RecordAt(crc, checksum, f, next, true, fragment);
        (r, at, (if inFragment && scratch != [] then ["partial record without end(2)"] else []) + more)
      else if kind == MIDDLE then
        if inFragment then RecordAt(crc, checksum, f, next, true, scratch + fragment)
        else
          var (r, at, more) := RecordAt(crc, checksum, f, next, false, scratch);
          (r, at, ["missing start of fragmented record(1)"] + more)
      else if kind == LAST then
        if inFragment then (Some(scratch + fragment), next, [])
        else
          var (r, at, more) := RecordAt(crc, checksum, f, next, false, scratch);
          (r, at, ["missing start of fragmented record(2)"] + more)
      else
        var (r, at, more) := RecordAt(crc, checksum, f, next, false, []);
        (r, at, ["unknown record type"] + more)
  }

  function Reported(reports: seq<string>, rest: (Option<Bytes>, nat, seq<string>)): (Option<Bytes>, nat, seq<string>) {
    (rest.0, rest.1, reports + rest.2)
  }

  lemma ReportedNothing(rest: (Option<Bytes>, nat, seq<string>))
    ensures Reported([], rest) == rest
  {
    match rest
    case (_, _, reports) => assert [] + reports == reports;
  }

  lemma RecordStep(crc: Crc, checksum: bool, f: Bytes, p: nat, inFragment: bool, scratch: Bytes)
    requires p <= |f|
    ensures var whole := RecordAt(crc, checksum, f, p, inFragment, scratch);
      var r := NextPhysical(crc, checksum, f, p);
      && (!r.Eof? ==> r.next <= |f|)
      && match r
         case Eof => whole == (None, |f|, [])
         case Bad(reports, next) =>
           whole == Reported(reports + (if inFragment then ["error in middle of record"] else []),
                             RecordAt(crc, checksum, f, next, false, []))
         case Got(kind, fragment, next) =>
           if kind == FULL then
             whole == (Some(fragment), next,
                       if inFragment && scratch != [] then ["partial record without end(1)"] else [])
           else if kind == FIRST then
             whole == Reported(if inFragment && scratch != [] then ["partial record without end(2)"] else [],
                               RecordAt(crc, checksum, f, next, true, fragment))
           else if kind == MIDDLE then
             if inFragment then whole == RecordAt(crc, checksum, f, next, true, scratch + fragment)
             else whole ==
                   Reported(["missing start of fragmented record(1)"], RecordAt(crc, checksum, f, next, false, scratch))
           else if kind == LAST then
             if inFragment then whole == (Some(scratch + fragment), next, [])
             else whole ==
                   Reported(["missing start of fragmented record(2)"], RecordAt(crc, checksum, f, next, false, scratch))
           else whole == Reported(["unknown record type"], RecordAt(crc, checksum, f, next, false, []))
  {
    hide NextPhysical;
    ReadsAhead(crc, checksum, f, p);
  }

  lemma {:induction false} RecordReadsAhead(crc: Crc, checksum: bool, f: Bytes, p: nat, inFragment: bool,
          scratch: Bytes)
    requires p <= |f|
    ensures var (r, at, _) := RecordAt(crc, checksum, f, p, inFragment, scratch);
      p <= at <= |f| && (r.Some? ==> p < at)
    decreases |f| - p
  {
    hide NextPhysical;
    ReadsAhead(crc, checksum, f, p);
    match NextPhysical(crc, checksum, f, p)
    case Eof =>
    case Bad(_, next) => RecordReadsAhead(crc, checksum, f, next, false, []);
    case Got(kind, fragment, next) =>
      RecordReadsAhead(crc, checksum, f, next, true, fragment);
      RecordReadsAhead(crc, checksum, f, next, true, scratch + fragment);
      RecordReadsAhead(crc, checksum, f, next, false, scratch);
      RecordReadsAhead(crc, checksum, f, next, false, []);
  }

  /** All records from `p` on, and all reports. */
  function ReadAll(crc: Crc, checksum: bool, f: Bytes, p: nat): (seq<Bytes>, seq<string>)
    requires p <= |f|
    decreases |f| - p
  {
    RecordReadsAhead(crc, checksum, f, p, false, []);
    match RecordAt(crc, checksum, f, p, false, [])
    case (None, _, reports) => ([], reports)
    case (Some(record), next, reports) =>
      var (records, more) := ReadAll(crc, checksum, f, next);
      ([record] + records, reports + more)
  }

  // ---- what a crash leaves ----

  /** The file holds `e` from `p` on, or as much of it as there is room for. */
  ghost predicate Agrees(f: Bytes, p: nat, e: Bytes) {
    p <= |f| && if p + |e| <= |f| then f[p..p + |e|] == e else f[p..] == e[..|f| - p]
  }

  lemma AgreesSplit(f: Bytes, p: nat, a: Bytes, b: Bytes)
    requires Agrees(f, p, a + b)
    ensures Agrees(f, p, a) && (p + |a| <= |f| ==> Agrees(f, p + |a|, b))
  {
    var n := if p + |a + b| <= |f| then |a + b| else |f| - p;
    var g := f[p..p + n];
    assert g == (a + b)[..n] by {
      assert f[p..][..n] == g;
    }
    if p + |a| <= |f| {
      assert f[p..p + |a|] == g[..|a|] == a;
      assert f[p + |a|..p + n] == g[|a|..] == b[..n - |a|];
      assert f[p + |a|..] == f[p..][|a|..];
    } else {
      assert f[p..] == g == a[..n];
    }
  }

  /** A fragment that is there in full is read. */
  lemma WholeFragment(crc: Crc, checksum: bool, f: Bytes, p: nat, kind: byte, payload: Bytes)
    requires p % BLOCK + HEADER + |payload| <= BLOCK && kind != ZERO_TYPE
    requires Agrees(f, p, Physical(crc, kind, payload)) && p + HEADER + |payload| <= |f|
    ensures NextPhysical(crc, checksum, f, p) == Got(kind, payload, p + HEADER + |payload|)
  {
    hide Physical, Checksum.Decode;
    var e := if BlockEnd(p) < |f| then BlockEnd(p) else |f|;
    var piece := Physical(crc, kind, payload);
    var buffer := f[p..e];
    HeaderParts(crc, kind, payload);
    assert buffer[..|piece|] == f[p..p + |piece|] == piece;
    assert forall i :: 0 <= i < |piece| ==> buffer[i] == piece[i];
    assert buffer[..4] == piece[..4];
    assert buffer[HEADER..HEADER + |payload|] == piece[HEADER..];
  }

  lemma HeaderParts(crc: Crc, kind: byte, payload: Bytes)
    requires |payload| < 65536
    ensures var piece := Physical(crc, kind, payload);
      && piece[4] as int + 256 * piece[5] as int == |payload|
      && piece[6] == kind && piece[HEADER..] == payload
      && Checksum.Decode(piece[..4]) == crc([kind] + payload)
  {
    hide Checksum.Encode, Checksum.Decode;
    var piece := Physical(crc, kind, payload);
    Checksum.RoundTrip(crc([kind] + payload));
    assert piece[..4] == Checksum.Encode(crc([kind] + payload));
    assert Fixed(|payload|, 2) == [|payload| % 256] + Fixed(|payload| / 256, 1);
    assert Fixed(|payload| / 256, 1) == [|payload| / 256 % 256] + Fixed(|payload| / 256 / 256, 0);
    assert piece[4] == Fixed(|payload|, 2)[0] && piece[5] == Fixed(|payload|, 2)[1];
  }

  /** A fragment that was cut off reads as the end of the log, whatever was cut: header or payload. */
  lemma CutFragment(crc: Crc, checksum: bool, f: Bytes, p: nat, kind: byte, payload: Bytes)
    requires p % BLOCK + HEADER + |payload| <= BLOCK
    requires Agrees(f, p, Physical(crc, kind, payload)) && |f| < p + HEADER + |payload|
    ensures NextPhysical(crc, checksum, f, p) == Eof
  {
    if |f| - p >= HEADER {
      hide Physical;
      var piece := Physical(crc, kind, payload);
      HeaderParts(crc, kind, payload);
      assert f[p..|f|][4] == piece[4] && f[p..|f|][5] == piece[5];
    }
  }

  /** The trailer of a block is skipped, or is the end. */
  lemma TrailerSkipped(crc: Crc, checksum: bool, f: Bytes, p: nat)
    requires p <= |f|
    ensures FragmentStart(p) <= |f| ==>
              NextPhysical(crc, checksum, f, p) == NextPhysical(crc, checksum, f, FragmentStart(p))
    ensures FragmentStart(p) > |f| ==> NextPhysical(crc, checksum, f, p) == Eof
  {
  }

  /** A record that is there in full is read back, and one that is not reads as the end; neither is reported. */
  lemma {:induction false} EmittedIsRead(crc: Crc, checksum: bool, f: Bytes, p: nat, data: Bytes, begin: bool,
          scratch: Bytes)
    requires Agrees(f, p, Emitted(crc, p, data, begin)) && (begin ==> scratch == [])
    ensures var e := Emitted(crc, p, data, begin);
      RecordAt(crc, checksum, f, p, !begin, scratch) ==
        if p + |e| <= |f| then (Some(scratch + data), p + |e|, []) else (None, |f|, [])
    decreases |data|, if FragmentLength(p, data) == 0 then 1 else 0
  {
    hide Physical, Emitted, NextPhysical, FragmentStart, FragmentLength, Agrees, RecordAt;
    FragmentIsRead(crc, checksum, f, p, data, begin);
    FragmentBounds(crc, p, data, begin);
    RecordStep(crc, checksum, f, p, !begin, scratch);
    var q, n := FragmentStart(p), FragmentLength(p, data);
    if q + HEADER + n <= |f| {
      if n < |data| {
        NextFragment(p, data);
        var sofar := scratch + data[..n];
        EmittedIsRead(crc, checksum, f, q + HEADER + n, data[n..], false, sofar);
        assert sofar + data[n..] == scratch + data;
        assert begin ==> sofar == data[..n];
        ReportedNothing(RecordAt(crc, checksum, f, q + HEADER + n, true, sofar));
        assert RecordAt(crc, checksum, f, p, !begin, scratch) ==
              RecordAt(crc, checksum, f, q + HEADER + n, true, sofar);
      } else {
        assert data[..n] == data;
        assert begin ==> scratch + data == data;
        assert RecordAt(crc, checksum, f, p, !begin, scratch) == (Some(scratch + data), q + HEADER + n, []);
      }
    } else {
      assert RecordAt(crc, checksum, f, p, !begin, scratch) == (None, |f|, []);
    }
  }

  lemma FragmentBounds(crc: Crc, p: nat, data: Bytes, begin: bool)
    ensures var q, n := FragmentStart(p), FragmentLength(p, data);
      && p <= q && n <= |data| && q % BLOCK + HEADER + n <= BLOCK
      && |Emitted(crc, p, data, begin)| ==
           q - p + HEADER + n + (if n == |data| then 0 else |Emitted(crc, q + HEADER + n, data[n..], false)|)
  {
    hide Physical;
  }

  /** The first fragment of what is emitted, as the reader sees it. */
  lemma FragmentIsRead(crc: Crc, checksum: bool, f: Bytes, p: nat, data: Bytes, begin: bool)
    requires Agrees(f, p, Emitted(crc, p, data, begin))
    ensures var q, n := FragmentStart(p), FragmentLength(p, data);
      && p <= |f| && n <= |data|
      && NextPhysical(crc, checksum, f, p) ==
           (if q + HEADER + n <= |f| then Got(Kind(begin, n == |data|), data[..n], q + HEADER + n) else Eof)
      && (q + HEADER + n <= |f| && n < |data| ==>
            Agrees(f, q + HEADER + n, Emitted(crc, q + HEADER + n, data[n..], false)))
  {
    hide Physical, Emitted, NextPhysical, FragmentStart, FragmentLength, Agrees;
    FragmentBounds(crc, p, data, begin);
    EmittedIs(crc, p, data, begin);
    var q, n := FragmentStart(p), FragmentLength(p, data);
    var pad, piece := Zeros(q - p), Physical(crc, Kind(begin, n == |data|), data[..n]);
    var rest := if n == |data| then [] else Emitted(crc, q + HEADER + n, data[n..], false);
    assert Emitted(crc, p, data, begin) == pad + (piece + rest);
    AgreesSplit(f, p, pad, piece + rest);
    AgreesInside(f, p, pad);
    TrailerSkipped(crc, checksum, f, p);
    if q <= |f| {
      AgreesSplit(f, q, piece, rest);
      if q + HEADER + n <= |f| {
        WholeFragment(crc, checksum, f, q, Kind(begin, n == |data|), data[..n]);
      } else {
        CutFragment(crc, checksum, f, q, Kind(begin, n == |data|), data[..n]);
      }
    }
  }

  lemma AgreesInside(f: Bytes, p: nat, e: Bytes)
    requires Agrees(f, p, e)
    ensures p <= |f|
  {
  }

  lemma EmittedIs(crc: Crc, p: nat, data: Bytes, begin: bool)
    ensures var q, n := FragmentStart(p), FragmentLength(p, data);
      && p <= q && n <= |data|
      && Emitted(crc, p, data, begin) == Zeros(q - p) + Physical(crc, Kind(begin, n == |data|), data[..n]) +
           (if n == |data| then [] else Emitted(crc, q + HEADER + n, data[n..], false))
  {
    hide Physical;
  }

  /** How many of the records end within the first `t` bytes. */
  function WholeRecords(crc: Crc, p: nat, records: seq<Bytes>, t: nat): (k: nat)
    ensures k <= |records|
    decreases |records|
  {
    if records == [] then 0
    else
      var end := p + |Emitted(crc, p, records[0], true)|;
      if end <= t then 1 + WholeRecords(crc, end, records[1..], t) else 0
  }

  /** Of a log cut off at any byte the reader returns just the records that are there in full, in order, and reports
      nothing. */
  lemma {:induction false} CrashPrefix(crc: Crc, checksum: bool, f: Bytes, p: nat, records: seq<Bytes>)
    requires Agrees(f, p, Stream(crc, p, records)) && |f| <= p + |Stream(crc, p, records)|
    ensures ReadAll(crc, checksum, f, p) == (records[..WholeRecords(crc, p, records, |f|)], [])
    decreases |records|
  {
    hide Emitted, NextPhysical, RecordAt, Agrees;
    AgreesInside(f, p, Stream(crc, p, records));
    if records == [] {
      NothingThere(crc, checksum, f);
    } else {
      var e := Emitted(crc, p, records[0], true);
      AgreesSplit(f, p, e, Stream(crc, p + |e|, records[1..]));
      EmittedIsRead(crc, checksum, f, p, records[0], true, []);
      assert [] + records[0] == records[0];
      if p + |e| <= |f| {
        CrashPrefix(crc, checksum, f, p + |e|, records[1..]);
        assert RecordAt(crc, checksum, f, p, false, []) == (Some(records[0]), p + |e|, []);
        assert ReadAll(crc, checksum, f, p).0 == [records[0]] + ReadAll(crc, checksum, f, p + |e|).0;
        assert ReadAll(crc, checksum, f, p).1 == [];
        var k := WholeRecords(crc, p, records, |f|);
        assert records[..k] == [records[0]] + records[1..][..k - 1];
      } else {
        assert RecordAt(crc, checksum, f, p, false, []) == (None, |f|, []);
        assert ReadAll(crc, checksum, f, p) == ([], []);
        assert records[..0] == [];
      }
    }
  }

  lemma NothingThere(crc: Crc, checksum: bool, f: Bytes)
    ensures RecordAt(crc, checksum, f, |f|, false, []) == (None, |f|, [])
  {
  }

  /** The same for a log written from the start and cut to its first `t` bytes. */
  lemma CrashPrefixFromStart(crc: Crc, checksum: bool, records: seq<Bytes>, t: nat)
    requires t <= |Stream(crc, 0, records)|
    ensures ReadAll(crc, checksum, Stream(crc, 0, records)[..t], 0) == (records[..WholeRecords(crc, 0, records, t)], [])
    ensures ReadAll(crc, checksum, Stream(crc, 0, records), 0) == (records, [])
  {
    hide ReadAll, Stream, WholeRecords;
    var s := Stream(crc, 0, records);
    assert s[..|s|] == s && s[0..] == s && s[..t][0..] == s[..t];
    CrashPrefix(crc, checksum, s[..t], 0, records);
    CrashPrefix(crc, checksum, s, 0, records);
    AllWhole(crc, 0, records);
    assert records[..|records|] == records;
  }

  lemma {:induction false} AllWhole(crc: Crc, p: nat, records: seq<Bytes>)
    ensures WholeRecords(crc, p, records, p + |Stream(crc, p, records)|) == |records|
    decreases |records|
  {
    hide Emitted;
    if records != [] {
      AllWhole(crc, p + |Emitted(crc, p, records[0], true)|, records[1..]);
    }
  }

  // ---- the reader ----

  class Reader {
    const file: Bytes
    const crc: Crc
    const checksum: bool
    var buffer: Bytes
    var eof: bool
    var endOfBuffer: nat
    var lastRecordOffset: nat
    var reports: seq<string>

    /** Where in the file the reader stands. */
    function Position(): int
      reads this`buffer, this`endOfBuffer
    {
      endOfBuffer - |buffer|
    }

    /** The buffer is what is left of the block read last; only the last block of a file comes short. */
    ghost predicate Ok()
      reads this`buffer, this`eof, this`endOfBuffer
    {
      && 0 <= Position() && endOfBuffer <= |file|
      && buffer == file[Position()..endOfBuffer]
      && (eof ==> endOfBuffer == |file| && Position() >= |file| / BLOCK * BLOCK)
      && (!eof ==> endOfBuffer % BLOCK == 0 && |buffer| <= BLOCK)
    }

    constructor (file: Bytes, crc: Crc, checksum: bool)
      ensures Ok() && Position() == 0 && reports == []
      ensures this.file == file && this.crc == crc && this.checksum == checksum
    {
      this.file, this.crc, this.checksum := file, crc, checksum;
      buffer, eof, endOfBuffer, lastRecordOffset, reports := [], false, 0, 0, [];
    }

    lemma PositionInside()
      requires Ok()
      ensures 0 <= Position() <= |file|
    {
    }

    /** The next physical record.  On success the fragment's kind; the reports made are added to the list. */
    method ReadPhysicalRecord() returns (r: Result)
      requires Ok()
      modifies this`buffer, this`eof, this`endOfBuffer, this`reports
      ensures Ok() && r == NextPhysical(crc, checksum, file, old(Position()))
      ensures Position() == if r.Eof? then |file| else r.next
      ensures reports == old(reports) + if r.Bad? then r.reports else []
    {
      hide Parsed, NextPhysical;
      PositionInside();
      ghost var p0 := Position();
      while |buffer| < HEADER
        invariant Ok() && 0 <= p0 <= |file| && 0 <= Position() <= |file| && reports == old(reports)
        invariant NextPhysical(crc, checksum, file, Position()) == NextPhysical(crc, checksum, file, p0)
        decreases !eof, |file| - endOfBuffer
      {
        PositionInside();
        if !eof {
          ReadBlock();
        } else {
          AtEnd(crc, checksum, file, Position());
          buffer := [];
          return Eof;
        }
      }
      BufferIs(crc, checksum, file, Position(), endOfBuffer, eof);
      r := ParseHeader();
    }

    /** Drops a trailer and reads the next block, or what there is of it. */
    method ReadBlock()
      requires Ok() && !eof && |buffer| < HEADER
      modifies this`buffer, this`eof, this`endOfBuffer
      ensures Ok() && 0 <= Position() <= |file|
      ensures eof || endOfBuffer > old(endOfBuffer)
      ensures NextPhysical(crc, checksum, file, Position()) == NextPhysical(crc, checksum, file, old(Position()))
    {
      hide NextPhysical;
      BlockRead(crc, checksum, file, Position(), endOfBuffer);
      var end := if endOfBuffer + BLOCK < |file| then endOfBuffer + BLOCK else |file|;
      buffer := file[endOfBuffer..end];
      endOfBuffer := end;
      if |buffer| < BLOCK {
        eof := true;
      }
    }

    /** The decision on a buffer with room for a header. */
    method ParseHeader() returns (r: Result)
      requires Ok() && |buffer| >= HEADER
      modifies this`buffer, this`reports
      ensures Ok() && r == Parsed(crc, checksum, old(buffer), endOfBuffer, eof)
      ensures Position() == if r.Eof? then |file| else r.next
      ensures reports == old(reports) + if r.Bad? then r.reports else []
    {
      hide Checksum.Decode;
      ghost var all := buffer;
      var length := buffer[4] as int + 256 * buffer[5] as int;
      var kind := buffer[6];
      if HEADER + length > |buffer| {
        buffer := [];
        if !eof {
          reports := reports + ["bad record length"];
          return Bad(["bad record length"], endOfBuffer);
        }
        return Eof;
      }
      if kind == ZERO_TYPE && length == 0 {
        buffer := [];
        return Bad([], endOfBuffer);
      }
      if checksum {
        var expected := Checksum.Decode(buffer[..4]);
        var actual := crc([kind] + buffer[HEADER..HEADER + length]);
        if actual != expected {
          buffer := [];
          reports := reports + ["checksum mismatch"];
          return Bad(["checksum mismatch"], endOfBuffer);
        }
      }
      r := Got(kind, buffer[HEADER..HEADER + length], endOfBuffer - |buffer| + HEADER + length);
      buffer := buffer[HEADER + length..];
      assert buffer == file[endOfBuffer - |buffer|..endOfBuffer];
    }

    /** The next record, put together from its fragments. */
    method ReadRecord() returns (record: Option<Bytes>)
      requires Ok()
      modifies this
      ensures Ok()
      ensures var (r, at, more) := RecordAt(crc, checksum, file, old(Position()), false, []);
        record == r && Position() == at && reports == old(reports) + more
    {
      hide NextPhysical, RecordAt, Ok;
      PositionInside();
      var scratch: Bytes := [];
      var inFragment := false;
      var prospective: nat := 0;
      ghost var p0 := Position();
      while true
        invariant Ok() && (!inFragment ==> scratch == [])
        invariant 0 <= p0 <= |file| && 0 <= Position() <= |file|
        invariant Same(RecordAt(crc, checksum, file, p0, false, []),
                       RecordAt(crc, checksum, file, Position(), inFragment, scratch), old(reports), reports)
        decreases |file| - Position()
      {
        PositionInside();
        ReadsAhead(crc, checksum, file, Position());
        RecordStep(crc, checksum, file, Position(), inFragment, scratch);
        var r := ReadPhysicalRecord();
        match r {
          case Eof =>
            return None;
          case Bad(_, _) =>
            if inFragment {
              reports := reports + ["error in middle of record"];
              inFragment := false;
              scratch := [];
            }
          case Got(kind, fragment, next) =>
            var offset := next - HEADER - |fragment|;
            if kind == FULL {
              if inFragment && scratch != [] {
                reports := reports + ["partial record without end(1)"];
              }
              lastRecordOffset := offset;
              return Some(fragment);
            } else if kind == FIRST {
              if inFragment && scratch != [] {
                reports := reports + ["partial record without end(2)"];
              }
              prospective := offset;
              scratch := fragment;
              inFragment := true;
            } else if kind == MIDDLE {
              if !inFragment {
                reports := reports + ["missing start of fragmented record(1)"];
              } else {
                scratch := scratch + fragment;
              }
            } else if kind == LAST {
              if !inFragment {
                reports := reports + ["missing start of fragmented record(2)"];
              } else {
                lastRecordOffset := prospective;
                return Some(scratch + fragment);
              }
            } else {
              reports := reports + ["unknown record type"];
              inFragment := false;
              scratch := [];
            }
        }
      }
    }
  }

  /** Going on from here comes to the same, given what was reported on the way. */
  ghost predicate Same(whole: (Option<Bytes>, nat, seq<string>), rest: (Option<Bytes>, nat, seq<string>),
                       before: seq<string>, now: seq<string>) {
    whole.0 == rest.0 && whole.1 == rest.1 && before + whole.2 == now + rest.2
  }

  // ---- what a checked record is made of ----

  /** At `q`, inside one block, the file has a fragment: checksum of kind and payload, length, kind, payload. */
  ghost predicate FragmentAt(crc: Crc, f: Bytes, q: nat, kind: byte, payload: Bytes) {
    && q + 7 + |payload| <= |f| && q % 32768 + 7 + |payload| <= 32768
    && Checksum.Decode(f[q..q + 4]) == crc([kind] + payload)
    && f[q + 4] as int + 256 * f[q + 5] as int == |payload|
    && f[q + 6] == kind && f[q + 7..q + 7 + |payload|] == payload
  }

  lemma {:induction false} PhysicalIsChecked(crc: Crc, f: Bytes, p: nat)
    requires p <= |f|
    ensures var r := NextPhysical(crc, true, f, p);
            r.Got? ==> FragmentAt(crc, f, FragmentStart(p), r.kind, r.fragment) &&
                       r.next == FragmentStart(p) + 7 + |r.fragment|
    decreases |f| - p
  {
    var e := if BlockEnd(p) < |f| then BlockEnd(p) else |f|;
    if e - p < HEADER {
      if BlockEnd(p) < |f| {
        PhysicalIsChecked(crc, f, BlockEnd(p));
        StartIsNextBlock(p);
      }
    } else {
      ParsedIsChecked(crc, f, p, e);
    }
  }

  lemma StartIsNextBlock(p: nat)
    ensures BlockEnd(p) - p < HEADER ==> FragmentStart(p) == BlockEnd(p)
    ensures BlockEnd(p) - p >= HEADER ==> FragmentStart(p) == p
    ensures FragmentStart(BlockEnd(p)) == BlockEnd(p)
  {
  }

  lemma ParsedIsChecked(crc: Crc, f: Bytes, p: nat, e: nat)
    requires p + HEADER <= e <= |f| && e <= BlockEnd(p)
    ensures var r := Parsed(crc, true, f[p..e], e, |f| < BlockEnd(p));
            r.Got? ==> FragmentAt(crc, f, FragmentStart(p), r.kind, r.fragment) &&
                       r.next == FragmentStart(p) + 7 + |r.fragment|
  {
    hide Checksum.Decode;
    StartIsNextBlock(p);
    var buffer := f[p..e];
    assert buffer[..4] == f[p..p + 4];
    var length := buffer[4] as int + 256 * buffer[5] as int;
    if HEADER + length <= |buffer| {
      InsideSlice(f, p, e, HEADER, HEADER + length);
    }
  }

  lemma InsideSlice(f: Bytes, p: nat, e: nat, i: nat, j: nat)
    requires p <= e <= |f| && i <= j <= e - p
    ensures f[p..e][i..j] == f[p + i..p + j]
  {
    assert forall k :: 0 <= k < j - i ==> f[p..e][i..j][k] == f[p + i..p + j][k];
  }

  function Joined(parts: seq<Bytes>): Bytes {
    if parts == [] then [] else Joined(parts[..|parts| - 1]) + parts[|parts| - 1]
  }

  /** Fragments that follow each other from `q` on; the first of kind 2, the others of kind 3. */
  ghost predicate Begun(crc: Crc, f: Bytes, q: nat, parts: seq<Bytes>, end: nat)
    decreases |parts|
  {
    && parts != []
    && var n := |parts| - 1;
       if n == 0 then FragmentAt(crc, f, q, 2, parts[0]) && end == q + 7 + |parts[0]|
       else
         exists m: nat ::
           && m < end && Begun(crc, f, q, parts[..n], m) && FragmentAt(crc, f, FragmentStart(m), 3, parts[n])
           && end == FragmentStart(m) + 7 + |parts[n]|
  }

  /** The record is one fragment of kind 1, or several that follow each other: kind 2, any number of kind 3, kind 4. */
  ghost predicate IsChecked(crc: Crc, f: Bytes, record: Bytes, q: nat, parts: seq<Bytes>, end: nat) {
    && parts != [] && record == Joined(parts)
    && var n := |parts| - 1;
       if n == 0 then FragmentAt(crc, f, q, 1, record) && end == q + 7 + |record|
       else
         exists m: nat ::
           && m < end && Begun(crc, f, q, parts[..n], m) && FragmentAt(crc, f, FragmentStart(m), 4, parts[n])
           && end == FragmentStart(m) + 7 + |parts[n]|
  }

  lemma FirstBegins(crc: Crc, f: Bytes, q: nat, fragment: Bytes)
    requires FragmentAt(crc, f, q, 2, fragment)
    ensures Begun(crc, f, q, [fragment], q + 7 + |fragment|) && Joined([fragment]) == fragment
  {
    assert [fragment][..0] == [] && [] + fragment == fragment;
  }

  lemma MiddleGoesOn(crc: Crc, f: Bytes, q: nat, parts: seq<Bytes>, m: nat, fragment: Bytes)
    requires Begun(crc, f, q, parts, m) && FragmentAt(crc, f, FragmentStart(m), 3, fragment)
    ensures Begun(crc, f, q, parts + [fragment], FragmentStart(m) + 7 + |fragment|)
    ensures Joined(parts + [fragment]) == Joined(parts) + fragment
  {
    assert (parts + [fragment])[..|parts|] == parts;
  }

  lemma LastEnds(crc: Crc, f: Bytes, q: nat, parts: seq<Bytes>, m: nat, fragment: Bytes)
    requires Begun(crc, f, q, parts, m) && FragmentAt(crc, f, FragmentStart(m), 4, fragment)
    ensures IsChecked(crc, f, Joined(parts) + fragment, q, parts + [fragment], FragmentStart(m) + 7 + |fragment|)
  {
    assert (parts + [fragment])[..|parts|] == parts;
  }

  lemma FullIsChecked(crc: Crc, f: Bytes, q: nat, fragment: Bytes)
    requires FragmentAt(crc, f, q, 1, fragment)
    ensures IsChecked(crc, f, fragment, q, [fragment], q + 7 + |fragment|)
  {
    assert [fragment][..0] == [] && [] + fragment == fragment;
  }

  /** Whatever the file holds: a record that is read with checksums on is made of fragments that are in the file one
      after another, of the right kinds and each with its checksum.  `q` is where the fragments read so far began. */
  lemma {:induction false} RecordIsChecked(crc: Crc, f: Bytes, p: nat, inFragment: bool, scratch: Bytes, q: nat,
          parts: seq<Bytes>)
    returns (start: nat, pieces: seq<Bytes>)
    requires p <= |f| && RecordAt(crc, true, f, p, inFragment, scratch).0.Some?
    requires inFragment ==> Begun(crc, f, q, parts, p) && scratch == Joined(parts)
    ensures var (r, at, _) := RecordAt(crc, true, f, p, inFragment, scratch);
            IsChecked(crc, f, r.value, start, pieces, at)
    decreases |f| - p
  {
    hide NextPhysical, Begun, IsChecked, FragmentAt, Joined, FragmentStart;
    PhysicalIsChecked(crc, f, p);
    ReadsAhead(crc, true, f, p);
    start, pieces := 0, [];
    match NextPhysical(crc, true, f, p)
    case Eof =>
    case Bad(_, next) => start, pieces := RecordIsChecked(crc, f, next, false, [], 0, []);
    case Got(kind, fragment, next) =>
      var at := FragmentStart(p);
      if kind == FULL {
        FullIsChecked(crc, f, at, fragment);
        start, pieces := at, [fragment];
      } else if kind == FIRST {
        FirstBegins(crc, f, at, fragment);
        start, pieces := RecordIsChecked(crc, f, next, true, fragment, at, [fragment]);
      } else if kind == MIDDLE {
        if inFragment {
          MiddleGoesOn(crc, f, q, parts, p, fragment);
          start, pieces := RecordIsChecked(crc, f, next, true, scratch + fragment, q, parts + [fragment]);
        } else {
          start, pieces := RecordIsChecked(crc, f, next, false, scratch, 0, []);
        }
      } else if kind == LAST {
        if inFragment {
          LastEnds(crc, f, q, parts, p, fragment);
          start, pieces := q, parts + [fragment];
        } else {
          start, pieces := RecordIsChecked(crc, f, next, false, scratch, 0, []);
        }
      } else {
        start, pieces := RecordIsChecked(crc, f, next, false, [], 0, []);
      }
  }

  /** Reading the next block of a file leaves the reader where it was. */
  lemma BlockRead(crc: Crc, checksum: bool, f: Bytes, p: nat, end: nat)
    requires p <= end <= |f| && end - p < HEADER && end % BLOCK == 0
    ensures NextPhysical(crc, checksum, f, p) == NextPhysical(crc, checksum, f, end)
  {
    hide Parsed;
  }

  lemma AtEnd(crc: Crc, checksum: bool, f: Bytes, p: nat)
    requires |f| / BLOCK * BLOCK <= p <= |f| && |f| - p < HEADER
    ensures NextPhysical(crc, checksum, f, p) == Eof
  {
  }

  lemma BufferIs(crc: Crc, checksum: bool, f: Bytes, p: nat, end: nat, eof: bool)
    requires p + HEADER <= end <= |f|
    requires eof ==> end == |f| && p >= |f| / BLOCK * BLOCK
    requires !eof ==> end % BLOCK == 0 && end - p <= BLOCK
    ensures NextPhysical(crc, checksum, f, p) == Parsed(crc, checksum, f[p..end], end, eof)
  {
    hide Parsed;
  }
}
