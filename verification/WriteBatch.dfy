/** A batch of writes as one byte string: a header with the first sequence number and the count, then the records. */
module WriteBatch {
  import opened Wrappers
  import opened Bytewise
  import opened Coding

  const HEADER: nat := 12

  datatype Op = Put(key: Bytes, value: Bytes) | Delete(key: Bytes)

  datatype Status = OK | Corruption(message: string)

  /** Lengths are written as 32-bit numbers. */
  predicate Fits(op: Op) {
    |op.key| < BITS_32 && (op.Put? ==> |op.value| < BITS_32)
  }

  predicate AllFit(ops: seq<Op>) {
    forall i :: 0 <= i < |ops| ==> Fits(ops[i])
  }

  function Record(op: Op): Bytes {
    match op
    case Put(key, value) => [1] + LengthPrefixed(key) + LengthPrefixed(value)
    case Delete(key) => [0] + LengthPrefixed(key)
  }

  function Records(ops: seq<Op>): Bytes {
    if ops == [] then [] else Record(ops[0]) + Records(ops[1..])
  }

  function Rep(seqno: nat, ops: seq<Op>): (b: Bytes)
    ensures |b| >= HEADER
  {
    Fixed(seqno, 8) + Fixed(|ops|, 4) + Records(ops)
  }

  lemma {:induction false} RecordsConcat(a: seq<Op>, b: seq<Op>)
    ensures Records(a + b) == Records(a) + Records(b)
  {
    hide Record;
    if a == [] {
      assert a + b == b;
      assert [] + Records(b) == Records(b);
    } else {
      RecordsConcat(a[1..], b);
      assert (a + b)[1..] == a[1..] + b;
      assert Record(a[0]) + (Records(a[1..]) + Records(b)) == Record(a[0]) + Records(a[1..]) + Records(b);
    }
  }

  /** The operation at the front of the records and the rest, or what is wrong with it. */
  function ParseRecord(input: Bytes): (r: (Option<(Op, Bytes)>, string))
    requires input != []
    ensures r.0.Some? ==> |r.0.value.1| < |input|
  {
    GetLengthPrefixedConsumes(input[1..]);
    if input[0] == 1 then
      match GetLengthPrefixed(input[1..])
      case None => (None, "bad WriteBatch Put")
      case Some((key, rest)) =>
        GetLengthPrefixedConsumes(rest);
        match GetLengthPrefixed(rest)
        case None => (None, "bad WriteBatch Put")
        case Some((value, rest')) => (Some((Put(key, value), rest')), "")
    else if input[0] == 0 then
      match GetLengthPrefixed(input[1..])
      case None => (None, "bad WriteBatch Delete")
      case Some((key, rest)) => (Some((Delete(key), rest)), "")
    else (None, "unknown WriteBatch tag")
  }

  /** All operations up to the first bad one, and what is wrong with that. */
  function ParseRecords(input: Bytes): (seq<Op>, Status)
    decreases |input|
  {
    if input == [] then ([], OK)
    else match ParseRecord(input)
      case (None, message) => ([], Corruption(message))
      case (Some((op, rest)), _) => var (ops, status) := ParseRecords(rest); ([op] + ops, status)
  }

  lemma PutRoundTrip(key: Bytes, value: Bytes, rest: Bytes)
    requires |key| < BITS_32 && |value| < BITS_32
    ensures ParseRecord(Record(Put(key, value)) + rest) == (Some((Put(key, value), rest)), "")
  {
    hide LengthPrefixed, GetLengthPrefixed;
    var input := Record(Put(key, value)) + rest;
    assert input[1..] == LengthPrefixed(key) + (LengthPrefixed(value) + rest);
    LengthPrefixedRoundTrip(key, LengthPrefixed(value) + rest);
    LengthPrefixedRoundTrip(value, rest);
  }

  lemma DeleteRoundTrip(key: Bytes, rest: Bytes)
    requires |key| < BITS_32
    ensures ParseRecord(Record(Delete(key)) + rest) == (Some((Delete(key), rest)), "")
  {
    hide LengthPrefixed, GetLengthPrefixed;
    var input := Record(Delete(key)) + rest;
    assert input[1..] == LengthPrefixed(key) + rest;
    LengthPrefixedRoundTrip(key, rest);
  }

  lemma {:induction false} RecordsRoundTrip(ops: seq<Op>)
    requires AllFit(ops)
    ensures ParseRecords(Records(ops)) == (ops, OK)
  {
    hide ParseRecord, Record;
    if ops != [] {
      RecordsRoundTrip(ops[1..]);
      match ops[0] {
        case Put(key, value) => PutRoundTrip(key, value, Records(ops[1..]));
        case Delete(key) => DeleteRoundTrip(key, Records(ops[1..]));
      }
      RecordNotEmpty(ops[0]);
      assert ops == [ops[0]] + ops[1..];
    }
  }

  lemma RecordNotEmpty(op: Op)
    ensures |Record(op)| > 0
  {
  }

  /** What Iterate hands over and returns. */
  function Iterated(rep: Bytes): (seq<Op>, Status) {
    if |rep| < HEADER then ([], Corruption("malformed WriteBatch (too small)"))
    else
      var (ops, status) := ParseRecords(rep[HEADER..]);
      if status.OK? && |ops| != Unfixed(rep[8..12]) then (ops, Corruption("WriteBatch has wrong count"))
          else (ops, status)
  }

  /** A batch built by Put, Delete and Append is read back whole, under the sequence number set. */
  lemma RepRoundTrip(seqno: nat, ops: seq<Op>)
    requires AllFit(ops) && |ops| < BITS_32 && seqno < BITS_64
    ensures Iterated(Rep(seqno, ops)) == (ops, OK)
    ensures Unfixed(Rep(seqno, ops)[..8]) == seqno
    ensures Unfixed(Rep(seqno, ops)[8..12]) == |ops|
  {
    hide Records, Fixed, ParseRecords;
    var rep := Rep(seqno, ops);
    assert rep[..8] == Fixed(seqno, 8) && rep[8..12] == Fixed(|ops|, 4) && rep[12..] == Records(ops);
    FixedWidths(seqno);
    FixedWidths(|ops|);
    RecordsRoundTrip(ops);
  }

  /** The operations under consecutive sequence numbers. */
  function Numbered(ops: seq<Op>, seqno: nat): (r: seq<(nat, Op)>)
    ensures |r| == |ops| && forall i :: 0 <= i < |ops| ==> r[i] == (seqno + i, ops[i])
  {
    seq(|ops|, i requires 0 <= i < |ops| => (seqno + i, ops[i]))
  }

  class WriteBatch {
    var rep: Bytes
    ghost var ops: seq<Op>
    ghost var seqno: nat

    ghost predicate Ok()
      reads this
    {
      && rep == Rep(seqno, ops)
      && AllFit(ops)
      && |ops| < BITS_32
      && seqno < BITS_64
    }

    constructor ()
      ensures Ok() && ops == [] && seqno == 0
    {
      rep, ops, seqno := Zeros(HEADER), [], 0;
      new;
      ZeroHeader();
    }

    method Clear()
      modifies this
      ensures Ok() && ops == [] && seqno == 0
    {
      rep, ops, seqno := Zeros(HEADER), [], 0;
      ZeroHeader();
    }

    method Count() returns (n: nat)
      requires Ok()
      ensures n == |ops|
    {
      RepRoundTrip(seqno, ops);
      n := Unfixed(rep[8..12]);
    }

    method Sequence() returns (n: nat)
      requires Ok()
      ensures n == seqno
    {
      RepRoundTrip(seqno, ops);
      n := Unfixed(rep[..8]);
    }

    method SetSequence(n: nat)
      requires Ok() && n < BITS_64
      modifies this
      ensures Ok() && ops == old(ops) && seqno == n
    {
      rep := Fixed(n, 8) + rep[8..];
      seqno := n;
      assert rep == Rep(seqno, ops);
    }

    method Put(key: Bytes, value: Bytes)
      requires Ok() && Fits(Op.Put(key, value)) && |ops| + 1 < BITS_32
      modifies this
      ensures Ok() && ops == old(ops) + [Op.Put(key, value)] && seqno == old(seqno)
    {
      hide Rep, Fixed, LengthPrefixed;
      var n := Count();
      rep := rep[..8] + Fixed(n + 1, 4) + rep[12..];
      ghost var counted := rep;
      rep := rep + [1];
      rep := rep + LengthPrefixed(key);
      rep := rep + LengthPrefixed(value);
      assert rep == counted + Record(Op.Put(key, value));
      AddedOne(seqno, ops, Op.Put(key, value));
      ops := ops + [Op.Put(key, value)];
    }

    method Delete(key: Bytes)
      requires Ok() && Fits(Op.Delete(key)) && |ops| + 1 < BITS_32
      modifies this
      ensures Ok() && ops == old(ops) + [Op.Delete(key)] && seqno == old(seqno)
    {
      hide Rep, Fixed, LengthPrefixed;
      var n := Count();
      rep := rep[..8] + Fixed(n + 1, 4) + rep[12..];
      ghost var counted := rep;
      rep := rep + [0];
      rep := rep + LengthPrefixed(key);
      assert rep == counted + Record(Op.Delete(key));
      AddedOne(seqno, ops, Op.Delete(key));
      ops := ops + [Op.Delete(key)];
    }

    /** Adds the operations of another batch after this one's. */
    method Append(source: WriteBatch)
      requires Ok() && source.Ok() && |ops| + |source.ops| < BITS_32
      modifies this
      ensures Ok() && ops == old(ops + source.ops) && seqno == old(seqno)
    {
      hide Records, Fixed;
      var n := Count();
      var k := source.Count();
      ghost var old0, from := ops, source.ops;
      var tail := source.rep[HEADER..];
      rep := rep[..8] + Fixed(n + k, 4) + rep[12..];
      rep := rep + tail;
      RecordsConcat(old0, from);
      ops := ops + source.ops;
      assert rep == Rep(seqno, ops);
    }

    /** Hands over the operations in order; stops at a malformed record. */
    method Iterate() returns (handled: seq<Op>, status: Status)
      ensures (handled, status) == Iterated(rep)
    {
      handled := [];
      if |rep| < HEADER {
        return handled, Corruption("malformed WriteBatch (too small)");
      }
      var input := rep[HEADER..];
      hide ParseRecord;
      assert [] + ParseRecords(input).0 == ParseRecords(input).0;
      while input != []
        invariant ParseRecords(rep[HEADER..]) == (handled + ParseRecords(input).0, ParseRecords(input).1)
        decreases |input|
      {
        match ParseRecord(input)
        case (None, message) =>
          assert handled + [] == handled;
          return handled, Corruption(message);
        case (Some((op, rest)), _) =>
          assert handled + ParseRecords(input).0 == handled + [op] + ParseRecords(rest).0;
          handled := handled + [op];
          input := rest;
      }
      assert handled + [] == handled;
      if |handled| != Unfixed(rep[8..12]) {
        status := Corruption("WriteBatch has wrong count");
      } else {
        status := OK;
      }
    }

    /** Takes over bytes from elsewhere, a log record for instance. */
    method SetContents(contents: Bytes)
      requires |contents| >= HEADER
      modifies this
      ensures rep == contents
    {
      rep := contents;
    }

    /** Adds each operation to the memtable under the next sequence number; of a malformed batch those before the first
        bad record. */
    method InsertInto(mem: seq<(nat, Op)>) returns (mem': seq<(nat, Op)>, status: Status)
      requires |rep| >= HEADER
      ensures mem' == mem + Numbered(Iterated(rep).0, Unfixed(rep[..8])) && status == Iterated(rep).1
      ensures Ok() ==> status == OK && mem' == mem + Numbered(ops, seqno)
    {
      hide Rep, Iterated;
      if Ok() {
        RepRoundTrip(seqno, ops);
      }
      var sequence := Unfixed(rep[..8]);
      ghost var first := sequence;
      var handled, s := Iterate();
      mem', status := mem, s;
      for i := 0 to |handled|
        invariant sequence == first + i
        invariant mem' == mem + Numbered(handled, first)[..i]
      {
        mem' := mem' + [(sequence, handled[i])];
        sequence := sequence + 1;
      }
      assert Numbered(handled, first)[..|handled|] == Numbered(handled, first);
    }
  }

  lemma ZeroHeader()
    ensures Zeros(HEADER) == Rep(0, [])
  {
    FixedZeros(4);
    FixedZeros(8);
  }

  lemma {:induction false} FixedZeros(n: nat)
    ensures Fixed(0, n) == Zeros(n)
  {
    if n > 0 {
      FixedZeros(n - 1);
    }
  }

  lemma RecordsOfOne(op: Op)
    ensures Records([op]) == Record(op)
  {
    hide Record;
    assert Records([op]) == Record(op) + Records([op][1..]);
  }

  lemma AddedOne(seqno: nat, ops: seq<Op>, op: Op)
    ensures Rep(seqno, ops)[..8] + Fixed(|ops| + 1, 4) + Rep(seqno, ops)[12..] + Record(op) == Rep(seqno, ops + [op])
  {
    hide Fixed, Record, Records;
    RecordsConcat(ops, [op]);
    RecordsOfOne(op);
    var rep := Rep(seqno, ops);
    assert rep[..8] == Fixed(seqno, 8) && rep[12..] == Records(ops);
  }
}
