/** A table: sorted blocks, an index with a key at or after each block, and a filter; and the lookup that reads one
    block. */
module Table {
  import opened Wrappers
  import opened Bytewise
  import opened Coding
  import opened Block
  import opened BlockIter
  import opened InternalKeys
  import Checksum
  import Footer
  import FilterBlock

  // ---- why one block is enough ----

  function Entries(blocks: seq<seq<Pair>>): seq<Pair> {
    if blocks == [] then [] else Entries(blocks[..|blocks| - 1]) + blocks[|blocks| - 1]
  }

  function LastOf(block: seq<Pair>): Bytes
    requires block != []
  {
    block[|block| - 1].key
  }

  /** Each block but the last is separated from the next, and the last one is followed by its index key. */
  ghost predicate Indexed(blocks: seq<seq<Pair>>, seps: seq<Bytes>) {
    && |seps| == |blocks|
    && (forall b :: 0 <= b < |blocks| ==> blocks[b] != [])
    && (forall b :: 0 <= b < |blocks| - 1 ==> Separates(seps[b], LastOf(blocks[b]), blocks[b + 1][0].key))
    && (blocks != [] ==> Succeeds(seps[|seps| - 1], LastOf(blocks[|blocks| - 1])))
  }

  function KeysAsPairs(seps: seq<Bytes>): seq<Pair> {
    seq(|seps|, i requires 0 <= i < |seps| => Pair(seps[i], []))
  }

  /** Where a block's entries are among all. */
  function StartOf(blocks: seq<seq<Pair>>, b: nat): nat
    requires b <= |blocks|
  {
    |Entries(blocks[..b])|
  }

  lemma {:induction false} EntryPlace(blocks: seq<seq<Pair>>, b: nat, i: nat)
    requires b < |blocks| && i < |blocks[b]|
    ensures StartOf(blocks, b) + i < |Entries(blocks)| && Entries(blocks)[StartOf(blocks, b) + i] == blocks[b][i]
    ensures StartOf(blocks, b + 1) == StartOf(blocks, b) + |blocks[b]|
  {
    var n := |blocks| - 1;
    assert blocks[..b + 1][..b] == blocks[..b];
    if b < n {
      EntryPlace(blocks[..n], b, i);
      assert blocks[..n][..b] == blocks[..b];
    }
  }

  lemma {:induction false} PlaceOfEntry(blocks: seq<seq<Pair>>, p: nat) returns (b: nat, i: nat)
    requires p < |Entries(blocks)|
    ensures b < |blocks| && i < |blocks[b]| && p == StartOf(blocks, b) + i
  {
    var n := |blocks| - 1;
    if p < |Entries(blocks[..n])| {
      b, i := PlaceOfEntry(blocks[..n], p);
      assert blocks[..n][..b] == blocks[..b];
    } else {
      b, i := n, p - |Entries(blocks[..n])|;
    }
  }

  lemma SeparatorAt(blocks: seq<seq<Pair>>, seps: seq<Bytes>, b: nat)
    requires Indexed(blocks, seps) && b < |blocks|
    ensures b < |seps| && blocks[b] != [] && (seps[b] == LastOf(blocks[b]) || KeyLess(LastOf(blocks[b]), seps[b]))
  {
    hide User, Number;
    if b == |blocks| - 1 {
      assert Succeeds(seps[b], LastOf(blocks[b]));
    } else {
      assert Separates(seps[b], LastOf(blocks[b]), blocks[b + 1][0].key);
    }
  }

  /** Every key of a block is at or before the block's index key. */
  lemma KeyBelowSeparator(blocks: seq<seq<Pair>>, seps: seq<Bytes>, b: nat, i: nat, k: Bytes)
    requires Indexed(blocks, seps) && Ascending(KeyLess, Entries(blocks)) && b < |blocks| && i < |blocks[b]|
    requires KeyLess(seps[b], k)
    ensures KeyLess(blocks[b][i].key, k)
  {
    var last := LastOf(blocks[b]);
    SeparatorAt(blocks, seps, b);
    EntryPlace(blocks, b, i);
    EntryPlace(blocks, b, |blocks[b]| - 1);
    if seps[b] != last {
      KeyLessTransitive(last, seps[b], k);
    }
    if i < |blocks[b]| - 1 {
      KeyLessTransitive(blocks[b][i].key, last, k);
    }
  }

  /** If the first index key not before `k` is that of block `b`, all entries of earlier blocks are before `k`. */
  lemma EarlierBlocks(blocks: seq<seq<Pair>>, seps: seq<Bytes>, k: Bytes, b: nat, p: nat)
    requires Indexed(blocks, seps) && Ascending(KeyLess, Entries(blocks))
    requires IsLowerBound(KeyLess, KeysAsPairs(seps), k, b) && p < StartOf(blocks, b)
    ensures p < |Entries(blocks)| && KeyLess(Entries(blocks)[p].key, k)
  {
    var c, i := PlaceOfEntry(blocks[..b], p);
    assert blocks[..b][..c] == blocks[..c];
    EntryPlace(blocks, c, i);
    assert KeysAsPairs(seps)[c].key == seps[c];
    KeyBelowSeparator(blocks, seps, c, i, k);
  }

  /** What is found in that block is the first entry of the table at or after `k`. */
  lemma FoundIsFirst(blocks: seq<seq<Pair>>, seps: seq<Bytes>, k: Bytes, b: nat, i: nat)
    requires Indexed(blocks, seps) && Ascending(KeyLess, Entries(blocks)) && b < |blocks|
    requires IsLowerBound(KeyLess, KeysAsPairs(seps), k, b) && IsLowerBound(KeyLess, blocks[b], k, i) && i < |blocks[b]|
    ensures IsLowerBound(KeyLess, Entries(blocks), k, StartOf(blocks, b) + i)
    ensures StartOf(blocks, b) + i < |Entries(blocks)| && Entries(blocks)[StartOf(blocks, b) + i] == blocks[b][i]
  {
    EntryPlace(blocks, b, i);
    forall p | 0 <= p < StartOf(blocks, b) + i
      ensures KeyLess(Entries(blocks)[p].key, k)
    {
      if p < StartOf(blocks, b) {
        EarlierBlocks(blocks, seps, k, b, p);
      } else {
        EntryPlace(blocks, b, p - StartOf(blocks, b));
      }
    }
  }

  /** When the first entry at or after `k` is of the same user key, it is in the block that the index leads to: a
      shortened separator cannot come between them. */
  lemma SameUserInBlock(blocks: seq<seq<Pair>>, seps: seq<Bytes>, k: Bytes, b: nat, p: nat)
    requires Indexed(blocks, seps) && Ascending(KeyLess, Entries(blocks))
    requires IsLowerBound(KeyLess, KeysAsPairs(seps), k, b)
    requires IsLowerBound(KeyLess, Entries(blocks), k, p) && p < |Entries(blocks)| &&
             User(Entries(blocks)[p].key) == User(k)
    ensures b < |blocks| && StartOf(blocks, b) <= p < StartOf(blocks, b) + |blocks[b]|
    ensures IsLowerBound(KeyLess, blocks[b], k, p - StartOf(blocks, b))
  {
    var c, i := PlaceOfEntry(blocks, p);
    EntryPlace(blocks, c, i);
    var e := blocks[c][i];
    if c < b {
      assert KeysAsPairs(seps)[c].key == seps[c];
      KeyBelowSeparator(blocks, seps, c, i, k);
    } else if c > b {
      NotBefore(blocks, seps, k, b, c, i);
    }
    assert c == b;
    forall j | 0 <= j < i
      ensures KeyLess(blocks[b][j].key, k)
    {
      EntryPlace(blocks, b, j);
    }
  }

  lemma NotBefore(blocks: seq<seq<Pair>>, seps: seq<Bytes>, k: Bytes, b: nat, c: nat, i: nat)
    requires Indexed(blocks, seps) && Ascending(KeyLess, Entries(blocks))
    requires b < c < |blocks| && i < |blocks[c]| && !KeyLess(seps[b], k)
    requires User(blocks[c][i].key) == User(k)
    ensures !KeyLess(LastOf(blocks[b]), k)
    ensures var last := StartOf(blocks, b) + |blocks[b]| - 1;
      0 <= last < StartOf(blocks, c) && last < |Entries(blocks)| && Entries(blocks)[last].key == LastOf(blocks[b])
  {
    EntryPlace(blocks, b, |blocks[b]| - 1);
    StartsRise(blocks, b, c);
    var next := blocks[b + 1][0].key;
    if seps[b] != LastOf(blocks[b]) {
      FirstAtMost(blocks, b + 1, c, i);
      assert Less(User(seps[b]), User(next));
      if User(next) != User(k) {
        LessTransitive(User(seps[b]), User(next), User(k));
      }
    }
  }

  lemma FirstAtMost(blocks: seq<seq<Pair>>, b: nat, c: nat, i: nat)
    requires Ascending(KeyLess, Entries(blocks)) && b <= c < |blocks| && i < |blocks[c]| && blocks[b] != []
    ensures User(blocks[b][0].key) == User(blocks[c][i].key) || Less(User(blocks[b][0].key), User(blocks[c][i].key))
  {
    EntryPlace(blocks, b, 0);
    EntryPlace(blocks, c, i);
    StartsRise(blocks, b, c);
  }

  lemma {:induction false} StartsRise(blocks: seq<seq<Pair>>, b: nat, c: nat)
    requires b <= c < |blocks|
    ensures StartOf(blocks, b) <= StartOf(blocks, c)
    ensures b < c ==> StartOf(blocks, b) + |blocks[b]| <= StartOf(blocks, c)
    decreases c
  {
    if b < c {
      StartsRise(blocks, b, c - 1);
      assert blocks[..c][..c - 1] == blocks[..c - 1];
    }
  }

  /** The index keys rise. */
  lemma SeparatorsRise(blocks: seq<seq<Pair>>, seps: seq<Bytes>)
    requires Indexed(blocks, seps) && Ascending(KeyLess, Entries(blocks))
    ensures forall b, c :: 0 <= b < c < |seps| ==> KeyLess(seps[b], seps[c])
  {
    forall b, c | 0 <= b < c < |seps|
      ensures KeyLess(seps[b], seps[c])
    {
      SeparatorsRiseFrom(blocks, seps, b, c);
    }
  }

  lemma {:induction false} SeparatorsRiseFrom(blocks: seq<seq<Pair>>, seps: seq<Bytes>, b: nat, c: nat)
    requires Indexed(blocks, seps) && Ascending(KeyLess, Entries(blocks)) && b < c < |seps|
    ensures KeyLess(seps[b], seps[c])
    decreases c - b
  {
    hide KeyLess, Separates;
    SeparatorStep(blocks, seps, c - 1);
    if b < c - 1 {
      SeparatorsRiseFrom(blocks, seps, b, c - 1);
      KeyLessTransitive(seps[b], seps[c - 1], seps[c]);
    }
  }

  lemma SeparatorStep(blocks: seq<seq<Pair>>, seps: seq<Bytes>, b: nat)
    requires Indexed(blocks, seps) && Ascending(KeyLess, Entries(blocks)) && b + 1 < |seps|
    ensures KeyLess(seps[b], seps[b + 1])
  {
    hide User, Number;
    SeparatorAt(blocks, seps, b + 1);
    var first, last := blocks[b + 1][0].key, LastOf(blocks[b + 1]);
    EntryPlace(blocks, b, |blocks[b]| - 1);
    EntryPlace(blocks, b + 1, 0);
    EntryPlace(blocks, b + 1, |blocks[b + 1]| - 1);
    assert KeyLess(seps[b], first) by {
      assert Separates(seps[b], LastOf(blocks[b]), first);
    }
    if |blocks[b + 1]| > 1 {
      KeyLessTransitive(seps[b], first, last);
    }
    if seps[b + 1] != last {
      KeyLessTransitive(seps[b], last, seps[b + 1]);
    }
  }

  // ---- blocks in a file ----

  // The trailer: one byte for the compression, none here, and the checksum.
  const TRAILER: nat := 5

  type Crc = Checksum.Crc

  function RawBlock(crc: Crc, contents: Bytes): Bytes {
    contents + [0] + Checksum.Encode(crc(contents + [0]))
  }

  /** The contents of a block, unless the file is too short, the checksum wrong or the compression unknown. */
  function ReadBlock(crc: Crc, checksum: bool, file: Bytes, offset: nat, size: nat): Option<Bytes> {
    if offset + size + TRAILER > |file| then None
    else
      var raw := file[offset..offset + size + TRAILER];
      if checksum && Checksum.Decode(raw[size + 1..]) != crc(raw[..size + 1]) then None
      else if raw[size] != 0 then None
      else Some(raw[..size])
  }

  lemma RawParts(crc: Crc, contents: Bytes)
    ensures var raw, n := RawBlock(crc, contents), |contents|;
      && |raw| == n + TRAILER && raw[..n] == contents && raw[n] == 0
      && Checksum.Decode(raw[n + 1..]) == crc(raw[..n + 1])
  {
    hide Checksum.Encode, Checksum.Decode;
    var raw, n := RawBlock(crc, contents), |contents|;
    assert raw[..n + 1] == contents + [0];
    assert raw[n + 1..] == Checksum.Encode(crc(contents + [0]));
    Checksum.RoundTrip(crc(contents + [0]));
  }

  lemma BlockIsRead(crc: Crc, checksum: bool, file: Bytes, offset: nat, contents: Bytes)
    requires offset + |contents| + TRAILER <= |file|
    requires file[offset..offset + |contents| + TRAILER] == RawBlock(crc, contents)
    ensures ReadBlock(crc, checksum, file, offset, |contents|) == Some(contents)
  {
    hide RawBlock, Checksum.Decode;
    RawParts(crc, contents);
  }

  /** A block as its builder left it, and where it was put. */
  datatype BlockRec = BlockRec(offset: nat, buffer: Bytes, restarts: seq<nat>, layout: Layout)

  function ContentsOf(r: BlockRec): Bytes {
    Serialized(r.buffer, r.restarts)
  }

  ghost predicate Sound(r: BlockRec) {
    Finished(ContentsOf(r), r.buffer, r.restarts, r.layout)
  }

  ghost predicate Stored(crc: Crc, file: Bytes, r: BlockRec) {
    && Sound(r)
    && r.offset + |ContentsOf(r)| + TRAILER <= |file| && r.offset + |ContentsOf(r)| < BITS_64
    && file[r.offset..r.offset + |ContentsOf(r)| + TRAILER] == RawBlock(crc, ContentsOf(r))
  }

  function BlocksOf(recs: seq<BlockRec>): seq<seq<Pair>> {
    seq(|recs|, b requires 0 <= b < |recs| => recs[b].layout.entries)
  }

  function IndexEntries(recs: seq<BlockRec>, seps: seq<Bytes>): seq<Pair>
    requires |seps| <= |recs|
  {
    seq(|seps|, b requires 0 <= b < |seps| => Pair(seps[b], Footer.EncodeHandle(recs[b].offset, |ContentsOf(recs[b])|)))
  }

  /** The filter lets through every key whose user key is that of an entry of the block. */
  ghost predicate FilterCovers(policy: FilterBlock.Policy, filter: FilterBlock.Reader, recs: seq<BlockRec>) {
    && (filter.offset + 4 * filter.num + 4 <= |filter.data| || filter.num == 0)
    && forall b, i, k: Bytes ::
         0 <= b < |recs| && 0 <= i < |recs[b].layout.entries| && User(recs[b].layout.entries[i].key) == User(k) ==>
         FilterBlock.KeyMayMatch(policy, filter, recs[b].offset, k)
  }

  lemma IndexAscends(recs: seq<BlockRec>, seps: seq<Bytes>)
    requires |seps| <= |recs| && forall b, c :: 0 <= b < c < |seps| ==> KeyLess(seps[b], seps[c])
    ensures Ascending(KeyLess, IndexEntries(recs, seps))
  {
    hide KeyLess;
  }

  lemma IndexLeads(recs: seq<BlockRec>, seps: seq<Bytes>, k: Bytes, b: nat)
    requires |seps| == |recs| && IsLowerBound(KeyLess, IndexEntries(recs, seps), k, b)
    ensures b <= |recs| && IsLowerBound(KeyLess, KeysAsPairs(seps), k, b)
    ensures b < |recs| ==>
              IndexEntries(recs, seps)[b].value == Footer.EncodeHandle(recs[b].offset, |ContentsOf(recs[b])|)
  {
    hide KeyLess;
    assert forall i :: 0 <= i < |seps| ==> IndexEntries(recs, seps)[i].key == KeysAsPairs(seps)[i].key;
  }

  lemma StoredHandle(crc: Crc, checksum: bool, file: Bytes, r: BlockRec)
    requires Stored(crc, file, r)
    ensures Sound(r)
    ensures Footer.DecodeHandle(Footer.EncodeHandle(r.offset, |ContentsOf(r)|)) == Some((r.offset, |ContentsOf(r)|))
    ensures ReadBlock(crc, checksum, file, r.offset, |ContentsOf(r)|) == Some(ContentsOf(r))
  {
    hide Sound, RawBlock, ReadBlock;
    Footer.HandleRoundTrip(r.offset, |ContentsOf(r)|);
    BlockIsRead(crc, checksum, file, r.offset, ContentsOf(r));
  }

  /** An entry that a lookup of `k` must find: the first at or after it, if of the same user key. */
  ghost predicate Wanted(entries: seq<Pair>, k: Bytes, p: nat) {
    IsLowerBound(KeyLess, entries, k, p) && p < |entries| && User(entries[p].key) == User(k)
  }

  /** What is wanted is in the block the index leads to, and the filter lets it through. */
  lemma WantedInBlock(recs: seq<BlockRec>, seps: seq<Bytes>, k: Bytes, b: nat, p: nat)
    requires Indexed(BlocksOf(recs), seps) && Ascending(KeyLess, Entries(BlocksOf(recs)))
    requires IsLowerBound(KeyLess, KeysAsPairs(seps), k, b) && Wanted(Entries(BlocksOf(recs)), k, p)
    ensures b < |recs|
    ensures var i := p - StartOf(BlocksOf(recs), b); var block := recs[b].layout.entries;
      && 0 <= i < |block| && IsLowerBound(KeyLess, block, k, i) && block[i] == Entries(BlocksOf(recs))[p]
  {
    hide KeyLess, IsLowerBound, Ascending, Indexed, User;
    SameUserInBlock(BlocksOf(recs), seps, k, b, p);
    EntryPlace(BlocksOf(recs), b, p - StartOf(BlocksOf(recs), b));
  }

  lemma FilterMiss(policy: FilterBlock.Policy, filter: FilterBlock.Reader, recs: seq<BlockRec>, seps: seq<Bytes>,
          k: Bytes, b: nat)
    requires FilterCovers(policy, filter, recs) && b < |recs|
    requires Indexed(BlocksOf(recs), seps) && Ascending(KeyLess, Entries(BlocksOf(recs)))
    requires IsLowerBound(KeyLess, KeysAsPairs(seps), k, b)
    ensures filter.offset + 4 * filter.num + 4 <= |filter.data| || filter.num == 0
    ensures forall p: nat :: Wanted(Entries(BlocksOf(recs)), k, p) ==>
              FilterBlock.KeyMayMatch(policy, filter, recs[b].offset, k)
  {
    hide KeyLess, IsLowerBound, Ascending, Indexed, User, FilterBlock.KeyMayMatch;
    forall p: nat | Wanted(Entries(BlocksOf(recs)), k, p)
      ensures FilterBlock.KeyMayMatch(policy, filter, recs[b].offset, k)
    {
      WantedInBlock(recs, seps, k, b, p);
      var i := p - StartOf(BlocksOf(recs), b);
      assert User(recs[b].layout.entries[i].key) == User(k);
    }
  }

  lemma BlockAscends(recs: seq<BlockRec>, b: nat)
    requires Ascending(KeyLess, Entries(BlocksOf(recs))) && b < |recs|
    ensures Ascending(KeyLess, recs[b].layout.entries)
  {
    hide KeyLess;
    var block := recs[b].layout.entries;
    forall i, j | 0 <= i < j < |block|
      ensures KeyLess(block[i].key, block[j].key)
    {
      EntryPlace(BlocksOf(recs), b, i);
      EntryPlace(BlocksOf(recs), b, j);
    }
  }

  lemma BoundsAreEqual(entries: seq<Pair>, k: Bytes, i: nat, j: nat)
    requires IsLowerBound(KeyLess, entries, k, i) && IsLowerBound(KeyLess, entries, k, j)
    ensures i == j
  {
    hide KeyLess;
  }

  /** What the block yields is the answer of the table. */
  lemma BlockAnswers(recs: seq<BlockRec>, seps: seq<Bytes>, k: Bytes, b: nat, i: nat)
    requires Indexed(BlocksOf(recs), seps) && Ascending(KeyLess, Entries(BlocksOf(recs))) && b < |recs|
    requires IsLowerBound(KeyLess, KeysAsPairs(seps), k, b) && IsLowerBound(KeyLess, recs[b].layout.entries, k, i)
    ensures i < |recs[b].layout.entries| ==>
              exists p: nat :: IsLowerBound(KeyLess, Entries(BlocksOf(recs)), k, p) && p < |Entries(BlocksOf(recs))| &&
                          Entries(BlocksOf(recs))[p] == recs[b].layout.entries[i]
    ensures forall p: nat :: Wanted(Entries(BlocksOf(recs)), k, p) ==>
              i < |recs[b].layout.entries| && Entries(BlocksOf(recs))[p] == recs[b].layout.entries[i]
  {
    hide KeyLess, IsLowerBound, Ascending, Indexed, User;
    if i < |recs[b].layout.entries| {
      FoundIsFirst(BlocksOf(recs), seps, k, b, i);
    }
    forall p: nat | Wanted(Entries(BlocksOf(recs)), k, p)
      ensures i < |recs[b].layout.entries| && Entries(BlocksOf(recs))[p] == recs[b].layout.entries[i]
    {
      WantedInBlock(recs, seps, k, b, p);
      BoundsAreEqual(recs[b].layout.entries, k, i, p - StartOf(BlocksOf(recs), b));
    }
  }

  lemma PastAllBlocks(recs: seq<BlockRec>, seps: seq<Bytes>, k: Bytes, b: nat)
    requires Indexed(BlocksOf(recs), seps) && Ascending(KeyLess, Entries(BlocksOf(recs))) && b >= |recs|
    requires IsLowerBound(KeyLess, KeysAsPairs(seps), k, b)
    ensures forall p: nat :: !Wanted(Entries(BlocksOf(recs)), k, p)
  {
    hide KeyLess, IsLowerBound, Ascending, Indexed, User, Wanted;
    forall p: nat | Wanted(Entries(BlocksOf(recs)), k, p)
      ensures false
    {
      WantedInBlock(recs, seps, k, b, p);
    }
  }

  class Table {
    const crc: Crc
    const checksum: bool
    const file: Bytes
    const index: Bytes
    const policy: FilterBlock.Policy
    const filter: Option<FilterBlock.Reader>

    ghost const recs: seq<BlockRec>
    ghost const seps: seq<Bytes>
    ghost const indexRec: BlockRec

    ghost predicate Ok() {
      && |seps| == |recs|
      && (forall b :: 0 <= b < |recs| ==> Stored(crc, file, recs[b]))
      && Sound(indexRec) && index == ContentsOf(indexRec) && indexRec.layout.entries == IndexEntries(recs, seps)
      && Indexed(BlocksOf(recs), seps) && Ascending(KeyLess, AllEntries())
      && (filter.Some? ==> FilterCovers(policy, filter.value, recs))
    }

    ghost function AllEntries(): seq<Pair> {
      Entries(BlocksOf(recs))
    }

    constructor (crc: Crc, checksum: bool, file: Bytes, index: Bytes, policy: FilterBlock.Policy,
            filter: Option<FilterBlock.Reader>, ghost recs: seq<BlockRec>, ghost seps: seq<Bytes>,
            ghost indexRec: BlockRec)
      requires |seps| == |recs| && forall b :: 0 <= b < |recs| ==> Stored(crc, file, recs[b])
      requires Sound(indexRec) && index == ContentsOf(indexRec) && indexRec.layout.entries == IndexEntries(recs, seps)
      requires Indexed(BlocksOf(recs), seps) && Ascending(KeyLess, Entries(BlocksOf(recs)))
      requires filter.Some? ==> FilterCovers(policy, filter.value, recs)
      ensures Ok() && AllEntries() == Entries(BlocksOf(recs))
    {
      this.crc, this.checksum, this.file, this.index, this.policy, this.filter := crc, checksum, file, index, policy,
            filter;
      this.recs, this.seps, this.indexRec := recs, seps, indexRec;
    }

    /** Looks for the first entry at or after `k` in the one block where an entry of the same user key would be. */
    method InternalGet(k: Bytes) returns (found: Option<Pair>)
      requires Ok()
      ensures found.Some? ==>
                exists p: nat ::
                  IsLowerBound(KeyLess, AllEntries(), k, p) && p < |AllEntries()| && AllEntries()[p] == found.value
      ensures forall p: nat :: Wanted(AllEntries(), k, p) ==> found == Some(AllEntries()[p])
    {
      hide Finished, Indexed, Ascending, IsLowerBound, FilterCovers, KeyLess, Stored, Wanted, Transitive;
      KeyLessIsOrder();
      SeparatorsRise(BlocksOf(recs), seps);
      IndexAscends(recs, seps);
      found := None;
      var iiter := new Iter(KeyLess, index, indexRec.buffer, indexRec.restarts, indexRec.layout);
      iiter.Seek(k);
      iiter.ValidMeans();
      ghost var b := iiter.pos;
      IndexLeads(recs, seps, k, b);
      if iiter.Valid() {
        found := Lookup(k, iiter.Value(), b);
      } else {
        PastAllBlocks(recs, seps, k, b);
      }
    }

    /** Asks the filter, then looks in the block that the handle names. */
    method Lookup(k: Bytes, handleValue: Bytes, ghost b: nat) returns (found: Option<Pair>)
      requires Ok() && b < |recs| && IsLowerBound(KeyLess, KeysAsPairs(seps), k, b)
      requires handleValue == Footer.EncodeHandle(recs[b].offset, |ContentsOf(recs[b])|)
      ensures found.Some? ==>
                exists p: nat ::
                  IsLowerBound(KeyLess, AllEntries(), k, p) && p < |AllEntries()| && AllEntries()[p] == found.value
      ensures forall p: nat :: Wanted(AllEntries(), k, p) ==> found == Some(AllEntries()[p])
    {
      hide Finished, Indexed, Ascending, IsLowerBound, FilterCovers, KeyLess, Stored, Wanted, Transitive,
           Footer.EncodeHandle, Footer.DecodeHandle, FilterBlock.KeyMayMatch, ReadBlock;
      KeyLessIsOrder();
      StoredHandle(crc, checksum, file, recs[b]);
      found := None;
      var handle := Footer.DecodeHandle(handleValue);
      if filter.Some? && handle.Some? {
        FilterMiss(policy, filter.value, recs, seps, k, b);
        if !FilterBlock.KeyMayMatch(policy, filter.value, handle.value.0, k) {
          return None;
        }
      }
      var contents := ReadBlock(crc, checksum, file, handle.value.0, handle.value.1);
      // In a file that a builder wrote no block is unreadable.
      assert contents.Some?;
      var iter := new Iter(KeyLess, contents.value, recs[b].buffer, recs[b].restarts, recs[b].layout);
      BlockAscends(recs, b);
      iter.Seek(k);
      iter.ValidMeans();
      BlockAnswers(recs, seps, k, b, iter.pos);
      if iter.Valid() {
        found := Some(Pair(iter.key, iter.Value()));
      }
    }
  }
}
