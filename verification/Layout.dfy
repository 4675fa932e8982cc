/** The formats byte by byte, as any other program reads and writes them: each is spelt out in numbers, without the
    functions that writers and readers here share. */
module Layout {
  import opened Bytewise
  import opened Coding
  import Crc32c
  import Checksum
  import Log
  import WriteBatch
  import InternalKeys
  import Block
  import FilterBlock
  import Table
  import Footer
  import VersionEdit

  // ---- numbers ----

  /** The byte of a number that counts `place`. */
  function At(v: nat, place: nat): byte
    requires place > 0
  {
    v / place % 0x100
  }

  function Bytes32(v: nat): Bytes {
    [At(v, 1), At(v, 0x100), At(v, 0x1_0000), At(v, 0x100_0000)]
  }

  function Bytes64(v: nat): Bytes {
    [At(v, 1), At(v, 0x100), At(v, 0x1_0000), At(v, 0x100_0000), At(v, 0x1_0000_0000), At(v, 0x100_0000_0000),
     At(v, 0x1_0000_0000_0000), At(v, 0x100_0000_0000_0000)]
  }

  /** Fixed-width numbers have their low bytes first. */
  lemma FixedBytes(v: nat)
    ensures Fixed(v, 2) == [v % 0x100, v / 0x100 % 0x100]
    ensures Fixed(v, 4) == Bytes32(v) && Fixed(v, 8) == Bytes64(v)
  {
    FixedFour(v);
    FixedEight(v);
    assert Fixed(v / 0x100, 1) == [v / 0x100 % 0x100];
  }

  /** Seven bits to a byte, the low ones first. */
  function Base128(b: Bytes): nat {
    if b == [] then 0 else b[0] as nat % 128 + 128 * Base128(b[1..])
  }

  /** A variable-width number: seven bits to a byte, the top bit set in all bytes but the last, and no byte too many. */
  lemma {:induction false} VarintBytes(v: nat)
    ensures var b := Varint(v); var n := |b| - 1;
            && Base128(b) == v && (forall i :: 0 <= i < n ==> b[i] >= 128) && b[n] < 128 && (n > 0 ==> b[n] > 0)
  {
    if v >= 128 {
      VarintBytes(v / 128);
      assert Varint(v)[1..] == Varint(v / 128);
    } else {
      assert Base128([v][1..]) == 0;
    }
  }

  // ---- checksums ----

  /** A stored checksum is the checksum turned right by 15 bits, plus 0xa282ead8. */
  lemma MaskedBits(c: Crc32c.Word, turned: Crc32c.Word)
    requires turned >> 17 == c & 0x7fff && turned & 0x1_ffff == c >> 15
    ensures Crc32c.Mask(c) == turned + 0xa282_ead8
  {
  }

  function StoredChecksum(c: Crc32c.Word): Bytes {
    Bytes32(Crc32c.Mask(c) as nat)
  }

  lemma ChecksumBytes(c: Crc32c.Word)
    ensures Checksum.Encode(c) == StoredChecksum(c)
  {
    hide Crc32c.Mask;
    FixedBytes(Crc32c.Mask(c) as nat);
  }

  // ---- the log ----

  /** A fragment: checksum of kind and payload, length in two bytes, kind, payload.  A record in one piece is of kind 1;
      in several the first is of kind 2, the last of kind 4, and those between of kind 3. */
  lemma LogFragment(crc: Checksum.Crc, begin: bool, end: bool, payload: Bytes)
    requires |payload| < 0x1_0000
    ensures var kind: byte := if begin then if end then 1 else 2 else if end then 4 else 3;
            Log.Physical(crc, Log.Kind(begin, end), payload) ==
            StoredChecksum(crc([kind] + payload)) + [|payload| % 0x100, |payload| / 0x100] + [kind] + payload
  {
    hide Checksum.Encode, Fixed;
    var kind: byte := if begin then if end then 1 else 2 else if end then 4 else 3;
    ChecksumBytes(crc([kind] + payload));
    FixedBytes(|payload|);
  }

  /** No fragment crosses a boundary of 32768 bytes; fewer than seven bytes before one are filled with zeros. */
  lemma LogBlocks(crc: Checksum.Crc, p: nat, data: Bytes, begin: bool)
    ensures var left := 32768 - p % 32768;
            var pad := if left < 7 then left else 0;
            var room := 32768 - (p + pad) % 32768 - 7;
            var n := if |data| < room then |data| else room;
            Log.Emitted(crc, p, data, begin) ==
            Zeros(pad) + Log.Physical(crc, Log.Kind(begin, n == |data|), data[..n]) +
                  if n == |data| then [] else Log.Emitted(crc, p + pad + 7 + n, data[n..], false)
  {
    hide Log.Physical, Log.Kind, Zeros, Log.Emitted, Log.FragmentStart;
    StartIs(p);
    Log.EmittedIs(crc, p, data, begin);
  }

  lemma StartIs(p: nat)
    ensures Log.FragmentStart(p) == p + if 32768 - p % 32768 < 7 then 32768 - p % 32768 else 0
  {
  }

  // ---- keys, batches, blocks ----

  /** An internal key: the user key, then one byte for the kind and seven for the sequence number. */
  lemma InternalKeyBytes(user: Bytes, seqno: nat, kind: nat)
    requires seqno < 0x100_0000_0000_0000 && kind < 0x100
    ensures InternalKeys.MakeKey(user, InternalKeys.Pack(seqno, kind)) == user + [kind] + Bytes64(seqno)[..7]
  {
    hide Fixed, At;
    var n := seqno * 0x100 + kind;
    FixedBytes(n);
    HigherBytes(n, seqno, kind);
    assert Bytes64(n) == [kind] + Bytes64(seqno)[..7];
  }

  lemma HigherBytes(n: nat, s: nat, kind: nat)
    requires n == s * 0x100 + kind && kind < 0x100
    ensures At(n, 1) == kind && At(n, 0x100) == At(s, 1) && At(n, 0x1_0000) == At(s, 0x100)
    ensures At(n, 0x100_0000) == At(s, 0x1_0000) && At(n, 0x1_0000_0000) == At(s, 0x100_0000)
    ensures At(n, 0x100_0000_0000) == At(s, 0x1_0000_0000) && At(n, 0x1_0000_0000_0000) == At(s, 0x100_0000_0000)
    ensures At(n, 0x100_0000_0000_0000) == At(s, 0x1_0000_0000_0000)
  {
    assert n % 0x100 == kind && n / 0x100 == s;
    hide At;
    SameAt(n, 0x100, s, 1);
    HigherPlaces(n, s);
    SameAt(n, 0x1_0000, s, 0x100);
    SameAt(n, 0x100_0000, s, 0x1_0000);
    SameAt(n, 0x1_0000_0000, s, 0x100_0000);
    SameAt(n, 0x100_0000_0000, s, 0x1_0000_0000);
    SameAt(n, 0x1_0000_0000_0000, s, 0x100_0000_0000);
    SameAt(n, 0x100_0000_0000_0000, s, 0x1_0000_0000_0000);
    LowestByte(n);
  }

  lemma LowestByte(n: nat)
    ensures At(n, 1) == n % 0x100
  {
  }

  lemma SameAt(n: nat, p: nat, s: nat, q: nat)
    requires p > 0 && q > 0 && n / p == s / q
    ensures At(n, p) == At(s, q)
  {
  }

  lemma HigherPlaces(n: nat, s: nat)
    requires n / 0x100 == s
    ensures n / 0x1_0000 == s / 0x100 && n / 0x100_0000 == s / 0x1_0000 && n / 0x1_0000_0000 == s / 0x100_0000
    ensures n / 0x100_0000_0000 == s / 0x1_0000_0000 && n / 0x1_0000_0000_0000 == s / 0x100_0000_0000
    ensures n / 0x100_0000_0000_0000 == s / 0x1_0000_0000_0000
  {
  }

  /** A batch: eight bytes of sequence number, four of count, and the records: 1, key and value for an insertion, 0 and
      key for a deletion, each string behind its length. */
  lemma BatchBytes(seqno: nat, ops: seq<WriteBatch.Op>)
    ensures WriteBatch.Rep(seqno, ops) == Bytes64(seqno) + Bytes32(|ops|) + WriteBatch.Records(ops)
    ensures WriteBatch.Records([]) == []
    ensures forall op: WriteBatch.Op, more: seq<WriteBatch.Op> :: WriteBatch.Records([op] + more) ==
              (match op
               case Put(key, value) => [1] + Varint(|key|) + key + Varint(|value|) + value
               case Delete(key) => [0] + Varint(|key|) + key) + WriteBatch.Records(more)
  {
    FixedBytes(seqno);
    FixedBytes(|ops|);
    hide Varint, Bytes64, Bytes32, Fixed;
    forall op: WriteBatch.Op, more: seq<WriteBatch.Op>
      ensures WriteBatch.Records([op] + more) ==
                (match op
                 case Put(key, value) => [1] + Varint(|key|) + key + Varint(|value|) + value
                 case Delete(key) => [0] + Varint(|key|) + key) + WriteBatch.Records(more)
    {
      assert ([op] + more)[1..] == more;
      RecordBytes(op);
    }
  }

  lemma RecordBytes(op: WriteBatch.Op)
    ensures WriteBatch.Record(op) ==
            match op
            case Put(key, value) => [1] + Varint(|key|) + key + Varint(|value|) + value
            case Delete(key) => [0] + Varint(|key|) + key
  {
    hide Varint;
  }

  /** The words of an array, four bytes each. */
  lemma WordBytes(w: nat, ws: seq<nat>)
    ensures Words([]) == [] && Words([w] + ws) == Bytes32(w) + Words(ws)
  {
    FixedBytes(w);
    assert ([w] + ws)[1..] == ws;
  }

  /** The end of a block: its restart points and their number, four bytes each. */
  lemma BlockTail(buffer: Bytes, restarts: seq<nat>)
    ensures Block.Serialized(buffer, restarts) == buffer + Words(restarts) + Bytes32(|restarts|)
  {
    FixedBytes(|restarts|);
  }

  /** A block in a file is followed by a zero, for no compression, and the checksum of both. */
  lemma BlockTrailer(crc: Checksum.Crc, contents: Bytes)
    ensures Table.RawBlock(crc, contents) == contents + [0] + StoredChecksum(crc(contents + [0]))
  {
    ChecksumBytes(crc(contents + [0]));
  }

  /** A filter block: the filters, their offsets, the offset of these, and 11 for windows of 2^11 bytes. */
  lemma FilterTail(result: Bytes, offsets: seq<nat>)
    ensures FilterBlock.Contents(result, offsets) == result + Words(offsets) + Bytes32(|result|) + [11]
  {
    FixedBytes(|result|);
  }

  lemma MagicBytes()
    ensures Fixed(Footer.MAGIC_LOW, 4) == [0x57, 0xfb, 0x80, 0x8b]
    ensures Fixed(Footer.MAGIC_HIGH, 4) == [0x24, 0x75, 0x47, 0xdb]
  {
    hide Fixed;
    FixedBytes(Footer.MAGIC_LOW);
    FixedBytes(Footer.MAGIC_HIGH);
  }

  /** The last 48 bytes of a table file: two handles, padding, and the eight bytes that mark such files. */
  lemma FooterBytes(f: Footer.Footer)
    requires Footer.Fits(f)
    ensures var handles := Varint(f.metaindex.0) + Varint(f.metaindex.1) + Varint(f.index.0) + Varint(f.index.1);
            && |handles| <= 40
            && Footer.Encode(f) ==
               handles + Zeros(40 - |handles|) + [0x57, 0xfb, 0x80, 0x8b, 0x24, 0x75, 0x47, 0xdb]
  {
    hide Varint, Zeros, Fixed;
    Footer.HandlesFit(f);
    MagicBytes();
    var handles := Varint(f.metaindex.0) + Varint(f.metaindex.1) + Varint(f.index.0) + Varint(f.index.1);
    assert Footer.Handles(f) == handles;
  }

  function Prefixed(s: Bytes): Bytes {
    Varint(|s|) + s
  }

  /** The fields of a version edit, each behind its number. */
  lemma EditBytes(x: VersionEdit.Field)
    ensures VersionEdit.Encode(x) ==
            match x
            case Comparator(name) => [1] + Prefixed(name)
            case LogNumber(n) => [2] + Varint(n)
            case NextFileNumber(n) => [3] + Varint(n)
            case LastSequence(n) => [4] + Varint(n)
            case CompactPointer(level, key) => [5] + (Varint(level) + Prefixed(key))
            case DeletedFile(d) => [6] + (Varint(d.level) + Varint(d.number))
            case NewFile(level, f) =>
              [7] + (Varint(level) + Varint(f.number) + Varint(f.fileSize) + Prefixed(f.smallest) +
                     Prefixed(f.largest))
            case PrevLogNumber(n) => [9] + Varint(n)
  {
    OneByte(VersionEdit.Tag(x));
    hide Varint;
  }

  lemma OneByte(t: nat)
    ensures t < 128 ==> Varint(t) == [t]
  {
  }
}
