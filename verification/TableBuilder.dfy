/** Building a table: entries go into data blocks, and each block gets its index key once the next key is known. */
module TableBuilder {
  import opened Wrappers
  import opened Bytewise
  import opened Coding
  import opened Block
  import opened BlockIter
  import opened InternalKeys
  import opened Table
  import Checksum
  import FilterBlock
  import Footer

  // ---- the filter policy of internal keys ----

  function UserKeys(keys: seq<Bytes>): seq<Bytes> {
    seq(|keys|, i requires 0 <= i < |keys| => User(keys[i]))
  }

  /** Filters are made of user keys and asked about user keys. */
  function InternalPolicy(base: FilterBlock.Policy): FilterBlock.Policy {
    FilterBlock.Policy(keys => base.create(UserKeys(keys)), (key, filter) => base.mayMatch(User(key), filter))
  }

  lemma InternalPolicyIsSound(base: FilterBlock.Policy)
    requires FilterBlock.Sound(base)
    ensures FilterBlock.Sound(InternalPolicy(base))
  {
    var p := InternalPolicy(base);
    forall keys: seq<Bytes>, k | k in keys
      ensures p.mayMatch(k, p.create(keys))
    {
      var i :| 0 <= i < |keys| && keys[i] == k;
      assert UserKeys(keys)[i] == User(k);
    }
  }

  /** What the builder has done so far. */
  datatype Progress = Progress(
    file: Bytes,
    recs: seq<BlockRec>,
    seps: seq<Bytes>,
    current: seq<Pair>,
    index: seq<Pair>,
    pending: bool,
    handle: (nat, nat),
    lastKey: Bytes,
    added: seq<Pair>,
    filtered: Option<set<(nat, Bytes)>>)

  ghost predicate StoredAll(crc: Checksum.Crc, p: Progress) {
    forall b :: 0 <= b < |p.recs| ==> Stored(crc, p.file, p.recs[b])
  }

  /** The entries given so far, in order, all with well-formed keys. */
  ghost predicate EntriesOk(p: Progress) {
    && p.added == Entries(BlocksOf(p.recs)) + p.current
    && Ascending(KeyLess, p.added)
    && (forall i :: 0 <= i < |p.added| ==> WellFormed(p.added[i].key))
    && p.lastKey == LastKey(p.added)
  }

  /** Every full block has its index key, except the last while no later key is known. */
  ghost predicate IndexOk(p: Progress) {
    && |p.seps| == |p.recs| - (if p.pending then 1 else 0)
    && p.index == IndexEntries(p.recs, p.seps)
    && (forall b :: 0 <= b < |p.recs| ==> p.recs[b].layout.entries != [])
    && (forall b :: 0 <= b < |p.seps| ==> Separates(p.seps[b], LastOf(p.recs[b].layout.entries), NextKey(p, b)))
    && (p.pending ==> p.current == [] && p.handle == (p.recs[|p.recs| - 1].offset, |ContentsOf(p.recs[|p.recs| - 1])|))
    && (!p.pending && p.recs != [] ==> p.current != [])
  }

  /** The first key after block `b`. */
  function NextKey(p: Progress, b: nat): Bytes
    requires b < |p.recs|
  {
    var next := if b + 1 < |p.recs| then p.recs[b + 1].layout.entries else p.current;
    if next == [] then [] else next[0].key
  }

  /** The filter block has each key under the window its block starts in. */
  ghost predicate FilteredOk(p: Progress) {
    p.filtered.Some? ==>
      && (forall b, i :: 0 <= b < |p.recs| && 0 <= i < |p.recs[b].layout.entries| ==>
            (p.recs[b].offset / FilterBlock.BASE, p.recs[b].layout.entries[i].key) in p.filtered.value)
      && (forall i :: 0 <= i < |p.current| ==> (|p.file| / FilterBlock.BASE, p.current[i].key) in p.filtered.value)
  }

  ghost predicate Inv(crc: Checksum.Crc, p: Progress) {
    StoredAll(crc, p) && EntriesOk(p) && IndexOk(p) && FilteredOk(p)
  }

  // ---- the steps ----

  /** The index entry of the last full block, now that the key after it is known. */
  function Separated(p: Progress, sep: Bytes): Progress {
    p.(seps := p.seps + [sep], index := p.index + [Pair(sep, Footer.EncodeHandle(p.handle.0, p.handle.1))],
       pending := false)
  }

  function Entered(p: Progress, e: Pair): Progress {
    p.(current := p.current + [e], lastKey := e.key, added := p.added + [e],
       filtered := if p.filtered.Some? then Some(p.filtered.value + {(|p.file| / FilterBlock.BASE, e.key)}) else None)
  }

  function Flushed(crc: Checksum.Crc, p: Progress, r: BlockRec): Progress {
    p.(file := p.file + RawBlock(crc, ContentsOf(r)), recs := p.recs + [r], current := [], pending := true,
       handle := (r.offset, |ContentsOf(r)|))
  }

  lemma LastAdded(p: Progress)
    requires EntriesOk(p) && IndexOk(p) && p.pending
    ensures p.lastKey == LastOf(p.recs[|p.recs| - 1].layout.entries) && p.added != []
  {
    var n := |p.recs|;
    assert BlocksOf(p.recs)[n - 1] == p.recs[n - 1].layout.entries;
    EntryPlace(BlocksOf(p.recs), n - 1, |p.recs[n - 1].layout.entries| - 1);
  }

  /** Adding an entry, with the index entry that was waiting for its key. */
  lemma EnterKeeps(crc: Checksum.Crc, p: Progress, e: Pair, sep: Bytes)
    requires Inv(crc, p) && WellFormed(e.key) && (p.added != [] ==> KeyLess(p.lastKey, e.key))
    requires p.pending ==> Separates(sep, p.lastKey, e.key)
    ensures Inv(crc, Entered(if p.pending then Separated(p, sep) else p, e))
  {
    EnterKeepsEntries(p, if p.pending then Separated(p, sep) else p, e);
    EnterKeepsIndex(p, e, sep);
    hide EntriesOk, IndexOk, FilteredOk;
    FilterGrows(p, if p.pending then Separated(p, sep) else p, e);
  }

  lemma EnterKeepsEntries(p: Progress, q: Progress, e: Pair)
    requires EntriesOk(p) && WellFormed(e.key) && (p.added != [] ==> KeyLess(p.lastKey, e.key))
    requires q.added == p.added && q.recs == p.recs && q.current == p.current && q.lastKey == p.lastKey
    ensures EntriesOk(Entered(q, e))
  {
    hide WellFormed, KeyLess;
    var added := p.added + [e];
    forall i, j | 0 <= i < j < |added|
      ensures KeyLess(added[i].key, added[j].key)
    {
      if j == |p.added| && i < |p.added| - 1 {
        KeyLessTransitive(added[i].key, p.lastKey, e.key);
      }
    }
  }

  lemma EnterKeepsIndex(p: Progress, e: Pair, sep: Bytes)
    requires EntriesOk(p) && IndexOk(p) && (p.pending ==> Separates(sep, p.lastKey, e.key))
    ensures IndexOk(Entered(if p.pending then Separated(p, sep) else p, e))
  {
    hide Separates;
    if p.pending {
      LastAdded(p);
      assert IndexEntries(p.recs, p.seps + [sep]) == p.index + [Pair(sep, Footer.EncodeHandle(p.handle.0, p.handle.1))];
    }
  }

  lemma FilterGrows(p: Progress, q: Progress, e: Pair)
    requires FilteredOk(p) && q.recs == p.recs && q.current == p.current && q.file == p.file && q.filtered == p.filtered
    ensures FilteredOk(Entered(q, e))
  {
  }

  lemma {:induction false} StoredStays(crc: Checksum.Crc, file: Bytes, more: Bytes, r: BlockRec)
    requires Stored(crc, file, r)
    ensures Stored(crc, file + more, r)
  {
    hide Sound, RawBlock;
    var n := r.offset + |ContentsOf(r)| + TRAILER;
    assert (file + more)[r.offset..n] == file[r.offset..n];
  }

  lemma FlushKeepsStored(crc: Checksum.Crc, p: Progress, r: BlockRec)
    requires StoredAll(crc, p) && Sound(r) && r.offset == |p.file| && |p.file| + |ContentsOf(r)| + TRAILER < BITS_64
    ensures StoredAll(crc, Flushed(crc, p, r))
  {
    hide Sound, RawBlock, Stored;
    var q := Flushed(crc, p, r);
    RawParts(crc, ContentsOf(r));
    forall b | 0 <= b < |q.recs|
      ensures Stored(crc, q.file, q.recs[b])
    {
      if b < |p.recs| {
        StoredStays(crc, p.file, RawBlock(crc, ContentsOf(r)), p.recs[b]);
      } else {
        JustStored(crc, p.file, r);
      }
    }
  }

  lemma JustStored(crc: Checksum.Crc, file: Bytes, r: BlockRec)
    requires Sound(r) && r.offset == |file| && |file| + |ContentsOf(r)| + TRAILER < BITS_64
    ensures Stored(crc, file + RawBlock(crc, ContentsOf(r)), r)
  {
    hide Sound, RawBlock;
    RawParts(crc, ContentsOf(r));
    var f := file + RawBlock(crc, ContentsOf(r));
    assert f[r.offset..r.offset + |ContentsOf(r)| + TRAILER] == RawBlock(crc, ContentsOf(r));
  }

  lemma FlushKeepsEntries(crc: Checksum.Crc, p: Progress, r: BlockRec)
    requires EntriesOk(p) && r.layout.entries == p.current
    ensures EntriesOk(Flushed(crc, p, r))
  {
    hide RawBlock, KeyLess, WellFormed, Ascending;
    var q := Flushed(crc, p, r);
    assert BlocksOf(q.recs) == BlocksOf(p.recs) + [p.current];
    assert BlocksOf(q.recs)[..|p.recs|] == BlocksOf(p.recs);
  }

  lemma FlushKeepsIndex(crc: Checksum.Crc, p: Progress, r: BlockRec)
    requires IndexOk(p) && p.current != [] && !p.pending && r.layout.entries == p.current
    ensures IndexOk(Flushed(crc, p, r))
  {
    hide RawBlock, Separates, Footer.EncodeHandle;
    var q := Flushed(crc, p, r);
    assert IndexEntries(q.recs, p.seps) == IndexEntries(p.recs, p.seps);
    forall b | 0 <= b < |q.seps|
      ensures Separates(q.seps[b], LastOf(q.recs[b].layout.entries), NextKey(q, b))
    {
      assert q.recs[b] == p.recs[b] && NextKey(q, b) == NextKey(p, b);
    }
  }

  lemma FlushKeepsFiltered(crc: Checksum.Crc, p: Progress, r: BlockRec)
    requires FilteredOk(p) && r.layout.entries == p.current && r.offset == |p.file|
    ensures FilteredOk(Flushed(crc, p, r))
  {
    hide RawBlock;
  }

  /** Writing out the current block. */
  lemma FlushKeeps(crc: Checksum.Crc, p: Progress, r: BlockRec)
    requires Inv(crc, p) && p.current != [] && !p.pending
    requires Sound(r) && r.offset == |p.file| && r.layout.entries == p.current
    requires |p.file| + |ContentsOf(r)| + TRAILER < BITS_64
    ensures Inv(crc, Flushed(crc, p, r))
  {
    hide Sound, StoredAll, EntriesOk, IndexOk, FilteredOk;
    FlushKeepsStored(crc, p, r);
    FlushKeepsEntries(crc, p, r);
    FlushKeepsIndex(crc, p, r);
    FlushKeepsFiltered(crc, p, r);
  }

  /** With the last index key in place the table is complete. */
  lemma FinishedIsIndexed(p: Progress, sep: Bytes)
    requires EntriesOk(p) && IndexOk(p) && p.pending && Succeeds(sep, p.lastKey)
    ensures p.current == [] && p.added == Entries(BlocksOf(p.recs)) && Ascending(KeyLess, p.added)
    ensures |p.seps| + 1 == |p.recs|
    ensures Indexed(BlocksOf(p.recs), p.seps + [sep]) && Separated(p, sep).index == IndexEntries(p.recs, p.seps + [sep])
  {
    hide KeyLess, WellFormed, Ascending, Succeeds, Footer.EncodeHandle, Separates;
    LastAdded(p);
    var blocks, seps := BlocksOf(p.recs), p.seps + [sep];
    forall b | 0 <= b < |blocks| - 1
      ensures Separates(seps[b], LastOf(blocks[b]), blocks[b + 1][0].key)
    {
      assert NextKey(p, b) == blocks[b + 1][0].key;
    }
  }

  lemma NothingIsIndexed(p: Progress)
    requires EntriesOk(p) && IndexOk(p) && p.recs == [] && p.current == []
    ensures p.added == Entries(BlocksOf(p.recs)) && Ascending(KeyLess, p.added)
    ensures Indexed(BlocksOf(p.recs), p.seps) && |p.seps| == 0 && p.index == IndexEntries(p.recs, p.seps)
  {
    hide KeyLess, WellFormed, Ascending;
  }

  // ---- the sizes of blocks ----

  ghost predicate IsOpen(buffer: Bytes, restarts: seq<nat>, blockSize: nat) {
    |Serialized(buffer, restarts)| < blockSize
  }

  ghost predicate AllFull(recs: seq<BlockRec>, blockSize: nat) {
    forall b :: 0 <= b < |recs| ==> |ContentsOf(recs[b])| >= blockSize && FilledBy(recs[b].layout, blockSize)
  }

  lemma OneMoreFull(before: seq<BlockRec>, after: seq<BlockRec>, layout: Layout, blockSize: nat)
    requires AllFull(before, blockSize) && |after| == |before| + 1 && before <= after && FilledBy(layout, blockSize)
    requires after[|before|].layout == layout && |ContentsOf(after[|before|])| >= blockSize
    ensures AllFull(after, blockSize)
  {
    hide FilledBy;
  }

  /** Only the last block may be short. */
  ghost predicate AllButLastFull(recs: seq<BlockRec>, blockSize: nat) {
    recs != [] ==> AllFull(recs[..|recs| - 1], blockSize)
  }

  lemma LastMayBeShort(before: seq<BlockRec>, after: seq<BlockRec>, blockSize: nat)
    requires AllFull(before, blockSize) && (after == before || (|after| == |before| + 1 && before <= after))
    ensures AllButLastFull(after, blockSize)
  {
    hide FilledBy;
  }

  // ---- the builder ----

  class TableBuilder {
    const crc: Checksum.Crc
    const blockSize: nat
    const restartInterval: nat
    const filterKey: Bytes
    const dataBlock: BlockBuilder
    const indexBlock: BlockBuilder
    const filterBlock: FilterBlock.FilterBlockBuilder?
    var file: Bytes
    var lastKey: Bytes
    var numEntries: nat
    var closed: bool
    var pendingIndexEntry: bool
    var pendingHandle: (nat, nat)
    ghost var recs: seq<BlockRec>
    ghost var seps: seq<Bytes>
    ghost var added: seq<Pair>

    ghost function Abs(): Progress
      reads this, dataBlock, indexBlock, filterBlock
    {
      Progress(file, recs, seps, dataBlock.layout.entries, indexBlock.layout.entries, pendingIndexEntry, pendingHandle,
               lastKey, added, if filterBlock != null then Some(filterBlock.added) else None)
    }

    ghost predicate PartsOk()
      reads this, dataBlock, indexBlock, filterBlock
    {
      && dataBlock != indexBlock && restartInterval >= 1
      && dataBlock.Ok() && !dataBlock.finished && indexBlock.Ok() && !indexBlock.finished
      && (filterBlock != null ==> filterBlock.Ok() && |filterBlock.filterOffsets| == |file| / FilterBlock.BASE)
    }

    ghost predicate Ok()
      reads this, dataBlock, indexBlock, filterBlock
    {
      PartsOk() && !closed && numEntries == |added| && Inv(crc, Abs())
    }

    /** Each block written reached the block size with its last entry and not before; the open one has not. */
    ghost predicate Sized()
      reads this, dataBlock
    {
      AllFull(recs, blockSize) &&
          (dataBlock.layout.entries == [] || IsOpen(dataBlock.buffer, dataBlock.restarts, blockSize))
    }

    /** Offsets are 32 bits inside a block and 64 bits in the file. */
    ghost predicate HasRoom(key: Bytes, value: Bytes)
      reads this, dataBlock, indexBlock
    {
      && |Serialized(dataBlock.buffer, dataBlock.restarts)| + |key| + |value| + 20 < BITS_32
      && |Serialized(indexBlock.buffer, indexBlock.restarts)| + |lastKey| + 60 < BITS_32
      && |file| + 2 * BITS_32 < BITS_64
    }

    /** `filterKey` names the filter policy in the metaindex block. */
    constructor (crc: Checksum.Crc, blockSize: nat, restartInterval: nat, filterKey: Bytes,
            policy: Option<FilterBlock.Policy>)
      requires restartInterval >= 1
      ensures Ok() && added == [] && this.crc == crc && this.filterKey == filterKey && fresh(dataBlock) &&
              fresh(indexBlock)
      ensures Sized() && this.blockSize == blockSize
      ensures filterBlock != null ==> fresh(filterBlock)
      ensures policy == None <==> filterBlock == null
      ensures policy.Some? ==> filterBlock.policy == policy.value
    {
      hide Inv, dataBlock.Ok, filterBlock.Ok;
      this.crc, this.blockSize, this.restartInterval, this.filterKey := crc, blockSize, restartInterval, filterKey;
      dataBlock := new BlockBuilder(restartInterval);
      indexBlock := new BlockBuilder(1);
      if policy.Some? {
        var f := new FilterBlock.FilterBlockBuilder(policy.value);
        f.StartBlock(0);
        filterBlock := f;
      } else {
        filterBlock := null;
      }
      file, lastKey, numEntries, closed, pendingIndexEntry, pendingHandle := [], [], 0, false, false, (0, 0);
      recs, seps, added := [], [], [];
      new;
      NothingYet(crc, Abs());
    }

    /** Adds an entry after all those before it, and closes the block when it is large enough. */
    method Add(key: Bytes, value: Bytes)
      requires Ok() && HasRoom(key, value) && WellFormed(key) && (added != [] ==> KeyLess(LastKey(added), key))
      modifies this, dataBlock, indexBlock, filterBlock
      ensures Ok() && added == old(added) + [Pair(key, value)]
      ensures old(Sized()) ==> Sized()
    {
      hide Ok, KeyLess, WellFormed, Serialized, FilledBy, AllFull;
      AddEntry(key, value);
      var estimatedBlockSize := dataBlock.CurrentSizeEstimate();
      if estimatedBlockSize >= blockSize {
        ghost var before, layout := recs, dataBlock.layout;
        Flush();
        if old(Sized()) {
          OneMoreFull(before, recs, layout, blockSize);
        }
      }
    }

    method AddEntry(key: Bytes, value: Bytes)
      requires Ok() && HasRoom(key, value) && WellFormed(key) && (added != [] ==> KeyLess(LastKey(added), key))
      modifies this, dataBlock, indexBlock, filterBlock
      ensures Ok() && added == old(added) + [Pair(key, value)]
      ensures |Serialized(dataBlock.buffer, dataBlock.restarts)| < BITS_32 && |file| + 2 * BITS_32 < BITS_64
      ensures recs == old(recs) && dataBlock.layout.entries != []
      ensures old(dataBlock.layout.entries) == [] ||
              IsOpen(old(dataBlock.buffer), old(dataBlock.restarts), blockSize) ==>
                FilledBy(dataBlock.layout, blockSize)
    {
      hide Inv, Separates, IsShortened, KeyLess, WellFormed, Serialized, dataBlock.Ok, filterBlock.Ok, FilledBy;
      LastKeyOf(crc, Abs());
      SerializedSize(dataBlock.buffer, dataBlock.restarts);
      ghost var p := Abs();
      ghost var sep: Bytes := [];
      if pendingIndexEntry {
        sep := AddIndexEntry(key);
      }
      if filterBlock != null {
        filterBlock.AddKey(key);
      }
      lastKey := key;
      numEntries := numEntries + 1;
      dataBlock.Add(key, value);
      added := added + [Pair(key, value)];
      EnterKeeps(crc, p, Pair(key, value), sep);
      SerializedSize(dataBlock.buffer, dataBlock.restarts);
    }

    /** Adds the index entry of the last block, with a key as short as may be between that block and `key`. */
    method AddIndexEntry(key: Bytes) returns (sep: Bytes)
      requires PartsOk() && Inv(crc, Abs()) && pendingIndexEntry && added != [] && KeyLess(lastKey, key)
      requires |Serialized(indexBlock.buffer, indexBlock.restarts)| + |lastKey| + 60 < BITS_32
      modifies this`pendingIndexEntry, this`seps, indexBlock
      ensures PartsOk() && Abs() == Separated(old(Abs()), sep) && Separates(sep, lastKey, key)
      ensures IsShortened(sep, lastKey, key)
    {
      hide IsShortened, KeyLess, WellFormed, Separates, Inv, StoredAll, EntriesOk, IndexOk, filterBlock.Ok,
           dataBlock.Ok;
      InvParts(crc, Abs());
      PendingHandleFits(crc, Abs());
      sep := InternalKeys.FindShortestSeparator(lastKey, key);
      var handleEncoding := Footer.EncodeHandle(pendingHandle.0, pendingHandle.1);
      indexBlock.Add(sep, handleEncoding);
      pendingIndexEntry := false;
      seps := seps + [sep];
    }

    method WriteRawBlock(contents: Bytes) returns (handle: (nat, nat))
      modifies this`file
      ensures handle == (|old(file)|, |contents|) && file == old(file) + RawBlock(crc, contents)
      ensures ReadBlock(crc, true, file, handle.0, handle.1) == Some(contents)
    {
      hide RawBlock, ReadBlock;
      RawParts(crc, contents);
      handle := (|file|, |contents|);
      ghost var before := file;
      file := file + RawBlock(crc, contents);
      assert file[|before|..|before| + |contents| + TRAILER] == RawBlock(crc, contents);
      BlockIsRead(crc, true, file, |before|, contents);
    }

    /** Appends a finished block with its trailer to the file and empties the builder. */
    method WriteBlock(block: BlockBuilder) returns (handle: (nat, nat), ghost r: BlockRec)
      requires block.Ok() && !block.finished && |Serialized(block.buffer, block.restarts)| < BITS_32
      modifies this`file, block
      ensures block.Ok() && !block.finished && block.layout.entries == []
      ensures Sound(r) && r.offset == |old(file)| && r.layout == old(block.layout)
      ensures r.buffer == old(block.buffer) && r.restarts == old(block.restarts)
      ensures file == old(file) + RawBlock(crc, ContentsOf(r)) && handle == (r.offset, |ContentsOf(r)|)
      ensures ReadBlock(crc, true, file, handle.0, handle.1) == Some(ContentsOf(r))
    {
      hide RawBlock, ReadBlock;
      ghost var buffer, layout := block.buffer, block.layout;
      r := BlockRec(|file|, buffer, block.restarts, layout);
      var contents := block.Finish();
      handle := WriteRawBlock(contents);
      block.Reset();
    }

    /** Writes out the data block, if it has any entries. */
    method Flush()
      requires Ok()
      requires |Serialized(dataBlock.buffer, dataBlock.restarts)| < BITS_32 && |file| + 2 * BITS_32 < BITS_64
      modifies this, dataBlock, filterBlock
      ensures Ok() && added == old(added) && dataBlock.layout.entries == [] && lastKey == old(lastKey)
      ensures if old(dataBlock.layout.entries) == [] then recs == old(recs)
              else
                && |recs| == |old(recs)| + 1 && old(recs) <= recs
                && recs[|old(recs)|].layout == old(dataBlock.layout)
                && |ContentsOf(recs[|old(recs)|])| == |Serialized(old(dataBlock.buffer), old(dataBlock.restarts))|
    {
      hide Inv, Serialized, dataBlock.Ok, filterBlock.Ok, RawBlock, Sound, ReadBlock;
      dataBlock.EmptyMeans();
      if dataBlock.buffer == [] {
        return;
      }
      ghost var p := Abs();
      NotPending(crc, p);
      ghost var r;
      pendingHandle, r := WriteBlock(dataBlock);
      pendingIndexEntry := true;
      recs := recs + [r];
      if filterBlock != null {
        filterBlock.StartBlock(|file|);
      }
      FlushKeeps(crc, p, r);
      assert Abs() == Flushed(crc, p, r);
    }

    /** The index entry of the last block, with a key as short as may be after it; then the index block. */
    method WriteIndex() returns (handle: (nat, nat), ghost r: BlockRec)
      requires indexBlock.Ok() && !indexBlock.finished && indexBlock != dataBlock
      requires StoredAll(crc, Abs()) && EntriesOk(Abs()) && IndexOk(Abs()) && dataBlock.layout.entries == []
      requires |Serialized(indexBlock.buffer, indexBlock.restarts)| + |lastKey| + 60 < BITS_32
      modifies this`file, this`seps, this`pendingIndexEntry, indexBlock
      ensures IsTable(crc, file, recs, seps, r, added)
      ensures ReadBlock(crc, true, file, handle.0, handle.1) == Some(ContentsOf(r)) && old(file) <= file
      ensures handle == (r.offset, |ContentsOf(r)|) && r.offset + |ContentsOf(r)| <= |file| && Sound(r)
      ensures if old(pendingIndexEntry) then |seps| == |old(seps)| + 1 && IsShortSuccessor(seps[|old(seps)|], lastKey)
              else seps == old(seps)
    {
      hide IsShortSuccessor, StoredAll, EntriesOk, IndexOk, Serialized, Sound, Succeeds, ReadBlock;
      ghost var p := Abs();
      SerializedSize(indexBlock.buffer, indexBlock.restarts);
      if pendingIndexEntry {
        PendingHandleFits(crc, p);
        var sep := InternalKeys.FindShortSuccessor(lastKey);
        FinishedIsIndexed(p, sep);
        var handleEncoding := Footer.EncodeHandle(pendingHandle.0, pendingHandle.1);
        indexBlock.Add(sep, handleEncoding);
        pendingIndexEntry := false;
        seps := seps + [sep];
      } else {
        NoBlocks(p);
        NothingIsIndexed(p);
      }
      SerializedSize(indexBlock.buffer, indexBlock.restarts);
      handle, r := WriteBlock(indexBlock);
      StoredAllStays(crc, p, RawBlock(crc, ContentsOf(r)));
    }

    /** The filter block, if there is one. */
    method WriteFilter() returns (handle: (nat, nat), ghost filter: FilterPart)
      requires filterBlock != null && filterBlock.Ok()
      modifies this`file, filterBlock
      ensures handle == filter.handle && filter.filtered == old(filterBlock.added) && old(file) <= file
      ensures filter.result == filterBlock.result && filter.offsets == filterBlock.filterOffsets
      ensures filter.handle.0 + filter.handle.1 + TRAILER <= |file|
      ensures FilterStored(crc, file, filterBlock.policy, filter)
    {
      hide ReadBlock, FilterBlock.FiltersOk, FilterBlock.Contents;
      var contents := filterBlock.Finish();
      handle := WriteRawBlock(contents);
      filter := FilterPart(handle, filterBlock.result, filterBlock.filterOffsets, filterBlock.added);
    }

    /** The metaindex block: where the filter is, under the name of its policy. */
    method WriteMeta(filterHandle: Option<(nat, nat)>) returns (handle: (nat, nat), ghost r: BlockRec)
      requires restartInterval >= 1 && |filterKey| + 100 < BITS_32
      modifies this`file
      ensures handle == (r.offset, |ContentsOf(r)|) && Sound(r) && old(file) <= file
      ensures r.offset + |ContentsOf(r)| + TRAILER <= |file|
      ensures r.layout.entries == MetaEntries(filterKey, filterHandle)
      ensures ReadBlock(crc, true, file, handle.0, handle.1) == Some(ContentsOf(r))
    {
      hide Serialized, Sound, ReadBlock, Footer.EncodeHandle;
      var meta := new BlockBuilder(restartInterval);
      if filterHandle.Some? {
        var (offset, size) := filterHandle.value;
        Footer.HandleSize(offset % BITS_64, size % BITS_64);
        meta.Add(filterKey, Footer.EncodeHandle(offset % BITS_64, size % BITS_64));
      }
      SerializedSize(meta.buffer, meta.restarts);
      handle, r := WriteBlock(meta);
    }

    /** Filter and metaindex blocks. */
    method WriteMetaBlocks() returns (handle: (nat, nat), ghost r: BlockRec, ghost filter: Option<FilterPart>)
      requires restartInterval >= 1 && |filterKey| + 100 < BITS_32
      requires filterBlock != null ==> filterBlock.Ok()
      modifies this`file, filterBlock
      ensures old(file) <= file && handle == (r.offset, |ContentsOf(r)|) && Sound(r)
      ensures r.offset + |ContentsOf(r)| + TRAILER <= |file|
      ensures ReadBlock(crc, true, file, handle.0, handle.1) == Some(ContentsOf(r))
      ensures r.layout.entries == MetaEntries(filterKey, if filter.Some? then Some(filter.value.handle) else None)
      ensures filter.Some? <==> filterBlock != null
      ensures filterBlock != null ==>
                && FilterStored(crc, file, filterBlock.policy, filter.value) &&
                    filter.value.filtered == old(filterBlock.added)
                && filter.value.result == filterBlock.result && filter.value.offsets == filterBlock.filterOffsets
    {
      hide ReadBlock, FilterStored, Sound, Serialized, MetaEntries, FilterBlock.Contents;
      filter := None;
      var filterHandle: Option<(nat, nat)> := None;
      if filterBlock != null {
        var fh;
        ghost var part;
        fh, part := WriteFilter();
        filterHandle, filter := Some(fh), Some(part);
      }
      ghost var before := file;
      handle, r := WriteMeta(filterHandle);
      if filterBlock != null {
        FilterStays(crc, before, file, filterBlock.policy, filter.value);
      }
    }

    method FlushLast()
      requires Ok()
      requires |Serialized(dataBlock.buffer, dataBlock.restarts)| < BITS_32 && |file| + 2 * BITS_32 < BITS_64
      modifies this, dataBlock, filterBlock
      ensures Ok() && added == old(added) && dataBlock.layout.entries == [] && lastKey == old(lastKey)
      ensures old(Sized()) ==> AllButLastFull(recs, blockSize)
    {
      hide Ok, AllButLastFull, AllFull, Serialized;
      ghost var before := recs;
      Flush();
      if old(Sized()) {
        LastMayBeShort(before, recs, blockSize);
      }
    }

    /** Writes out what is left, then the filter, metaindex and index blocks, and the footer. */
    method Finish() returns (ghost parts: Parts)
      requires Ok() && HasRoom([], []) && |filterKey| + 100 < BITS_32
      modifies this, dataBlock, indexBlock, filterBlock
      ensures closed && added == old(added)
      ensures |file| < BITS_64 &&
              (filterBlock != null ==>
                |FilterBlock.Contents(filterBlock.result, filterBlock.filterOffsets)| < BITS_32) ==>
                IsTableFile(crc, file, filterKey, if filterBlock != null then Some(filterBlock.policy)
                    else None, added, parts)
      ensures old(Sized()) ==> AllButLastFull(parts.recs, blockSize)
    {
      hide Sized, AllButLastFull, IsShortSuccessor, Serialized, IsTable, ReadBlock, StoredAll, EntriesOk, IndexOk,
           FilteredOk, FilterStored, IsTableFile, Sound, AllFiltered, MetaEntries, FilterBlock.Contents, Footer.Encode;
      SerializedSize(dataBlock.buffer, dataBlock.restarts);
      FlushLast();
      closed := true;
      ghost var p := Abs();
      if filterBlock != null {
        FilteredAll(p);
      }
      var metaHandle;
      ghost var metaRec, filter;
      metaHandle, metaRec, filter := WriteMetaBlocks();
      ghost var f2 := file;
      FileApart(crc, p, p.(file := file));
      SameButFilter(crc, p.(file := file), Abs());
      var indexHandle;
      ghost var indexRec;
      indexHandle, indexRec := WriteIndex();
      parts := Parts(recs, seps, indexRec, metaRec, filter);
      WriteFooter(metaHandle, indexHandle, f2, parts);
    }

    /** The places of metaindex and index, at the end; `f2` is the file before the index block. */
    method WriteFooter(metaHandle: (nat, nat), indexHandle: (nat, nat), ghost f2: Bytes, ghost parts: Parts)
      requires f2 <= file
      requires IsTable(crc, file, parts.recs, parts.seps, parts.index, added)
      requires BlockAt(crc, f2, parts.meta) && parts.meta.offset + |ContentsOf(parts.meta)| + TRAILER <= |f2|
      requires BlockAt(crc, file, parts.index) && parts.index.offset + |ContentsOf(parts.index)| <= |file|
      requires metaHandle == (parts.meta.offset, |ContentsOf(parts.meta)|) &&
               indexHandle == (parts.index.offset, |ContentsOf(parts.index)|)
      requires parts.meta.layout.entries ==
                 MetaEntries(filterKey, if parts.filter.Some? then Some(parts.filter.value.handle) else None)
      requires parts.filter.Some? <==> filterBlock != null
      requires filterBlock != null ==>
                 && FilterStored(crc, f2, filterBlock.policy, parts.filter.value) &&
                     AllFiltered(parts.recs, parts.filter.value.filtered)
                 && parts.filter.value.result == filterBlock.result &&
                     parts.filter.value.offsets == filterBlock.filterOffsets
      modifies this`file
      ensures |file| < BITS_64 &&
              (filterBlock != null ==>
                |FilterBlock.Contents(filterBlock.result, filterBlock.filterOffsets)| < BITS_32) ==>
                IsTableFile(crc, file, filterKey, if filterBlock != null then Some(filterBlock.policy)
                    else None, added, parts)
    {
      hide IsTable, FilterStored, IsTableFile, Sound, AllFiltered, MetaEntries, FilterBlock.Contents, Footer.Encode,
           ReadBlock, Serialized;
      ghost var f3 := file;
      var footer := Footer.Footer((metaHandle.0 % BITS_64, metaHandle.1 % BITS_64),
                                  (indexHandle.0 % BITS_64, indexHandle.1 % BITS_64));
      file := file + Footer.Encode(footer);
      if |file| < BITS_64 &&
          (filterBlock != null ==> |FilterBlock.Contents(filterBlock.result, filterBlock.filterOffsets)| < BITS_32) {
        if filterBlock != null {
          FilterStays(crc, f2, file, filterBlock.policy, parts.filter.value);
        }
        FileIsTable(crc, f2, f3, file, filterKey, if filterBlock != null then Some(filterBlock.policy)
            else None, added, parts, footer);
      }
    }
  }

  lemma SameButFilter(crc: Checksum.Crc, p: Progress, q: Progress)
    requires q == p.(filtered := q.filtered) && StoredAll(crc, p) && EntriesOk(p) && IndexOk(p)
    ensures StoredAll(crc, q) && EntriesOk(q) && IndexOk(q)
  {
    hide Stored, KeyLess, WellFormed, Ascending, Separates;
    forall b | 0 <= b < |q.seps|
      ensures Separates(q.seps[b], LastOf(q.recs[b].layout.entries), NextKey(q, b))
    {
      assert NextKey(q, b) == NextKey(p, b);
    }
  }

  // ---- the file ----

  /** A filter block: where it is and what it was made from. */
  datatype FilterPart = FilterPart(handle: Footer.Handle, result: Bytes, offsets: seq<nat>, filtered: set<(nat, Bytes)>)

  datatype Parts = Parts(recs: seq<BlockRec>, seps: seq<Bytes>, index: BlockRec, meta: BlockRec,
                         filter: Option<FilterPart>)

  ghost predicate FilterStored(crc: Checksum.Crc, file: Bytes, policy: FilterBlock.Policy, f: FilterPart) {
    && ReadBlock(crc, true, file, f.handle.0, f.handle.1) == Some(FilterBlock.Contents(f.result, f.offsets))
    && FilterBlock.FiltersOk(policy, f.result, f.offsets, [], f.filtered)
  }

  function MetaEntries(filterKey: Bytes, handle: Option<(nat, nat)>): seq<Pair> {
    if handle == None then []
    else [Pair(filterKey, Footer.EncodeHandle(handle.value.0 % BITS_64, handle.value.1 % BITS_64))]
  }

  ghost predicate BlockAt(crc: Checksum.Crc, file: Bytes, r: BlockRec) {
    Sound(r) && ReadBlock(crc, true, file, r.offset, |ContentsOf(r)|) == Some(ContentsOf(r))
  }

  /** A whole table file: blocks with their index and metaindex, the filter of all their keys, and the footer that says
      where they are. */
  ghost predicate IsTableFile(crc: Checksum.Crc, file: Bytes, filterKey: Bytes, policy: Option<FilterBlock.Policy>,
          added: seq<Pair>, w: Parts)
  {
    && IsTable(crc, file, w.recs, w.seps, w.index, added)
    && BlockAt(crc, file, w.index) && BlockAt(crc, file, w.meta)
    && w.meta.layout.entries == MetaEntries(filterKey, if w.filter.Some? then Some(w.filter.value.handle) else None)
    && (w.filter.Some? <==> policy.Some?)
    && (policy.Some? ==>
          && FilterStored(crc, file, policy.value, w.filter.value) && AllFiltered(w.recs, w.filter.value.filtered)
          && |FilterBlock.Contents(w.filter.value.result, w.filter.value.offsets)| < BITS_32)
    && Footer.LENGTH <= |file| < BITS_64
    && Footer.Decode(file[|file| - Footer.LENGTH..]) ==
       Some(Footer.Footer((w.meta.offset, |ContentsOf(w.meta)|), (w.index.offset, |ContentsOf(w.index)|)))
  }

  lemma FilterStays(crc: Checksum.Crc, file: Bytes, more: Bytes, policy: FilterBlock.Policy, f: FilterPart)
    requires file <= more && FilterStored(crc, file, policy, f)
    ensures FilterStored(crc, more, policy, f)
  {
    hide ReadBlock, FilterBlock.FiltersOk, FilterBlock.Contents;
    ReadStays(crc, file, more, f.handle.0, f.handle.1);
  }

  /** With the footer the file is complete. */
  lemma FileIsTable(crc: Checksum.Crc, f2: Bytes, f3: Bytes, file: Bytes, filterKey: Bytes,
          policy: Option<FilterBlock.Policy>, added: seq<Pair>, w: Parts, footer: Footer.Footer)
    requires Footer.Fits(footer) && f2 <= f3 && file == f3 + Footer.Encode(footer) && |file| < BITS_64
    requires IsTable(crc, f3, w.recs, w.seps, w.index, added)
    requires Sound(w.meta) && ReadBlock(crc, true, f2, w.meta.offset, |ContentsOf(w.meta)|) == Some(ContentsOf(w.meta))
    requires w.meta.offset + |ContentsOf(w.meta)| + TRAILER <= |f2|
    requires Sound(w.index) &&
             ReadBlock(crc, true, f3, w.index.offset, |ContentsOf(w.index)|) == Some(ContentsOf(w.index))
    requires w.index.offset + |ContentsOf(w.index)| <= |f3|
    requires footer == Footer.Footer((w.meta.offset % BITS_64, |ContentsOf(w.meta)| % BITS_64),
                                     (w.index.offset % BITS_64, |ContentsOf(w.index)| % BITS_64))
    requires w.meta.layout.entries ==
               MetaEntries(filterKey, if w.filter.Some? then Some(w.filter.value.handle) else None)
    requires w.filter.Some? <==> policy.Some?
    requires policy.Some? ==>
               && FilterStored(crc, file, policy.value, w.filter.value) && AllFiltered(w.recs, w.filter.value.filtered)
               && |FilterBlock.Contents(w.filter.value.result, w.filter.value.offsets)| < BITS_32
    ensures IsTableFile(crc, file, filterKey, policy, added, w)
  {
    hide ReadBlock, Sound, IsTable, FilterStored, FilterBlock.Contents, Footer.Encode, Footer.Decode, AllFiltered,
         MetaEntries, Serialized;
    ReadStays(crc, f2, file, w.meta.offset, |ContentsOf(w.meta)|);
    ReadStays(crc, f3, file, w.index.offset, |ContentsOf(w.index)|);
    IsTableStays(crc, f3, file, w.recs, w.seps, w.index, added);
    Footer.RoundTrip(footer);
    assert file[|file| - Footer.LENGTH..] == Footer.Encode(footer);
  }

  lemma IsTableStays(crc: Checksum.Crc, file: Bytes, more: Bytes, recs: seq<BlockRec>, seps: seq<Bytes>,
          index: BlockRec, added: seq<Pair>)
    requires IsTable(crc, file, recs, seps, index, added) && file <= more
    ensures IsTable(crc, more, recs, seps, index, added)
  {
    hide Stored, Sound, Indexed, Ascending;
    assert more == file + more[|file|..];
    forall b | 0 <= b < |recs|
      ensures Stored(crc, more, recs[b])
    {
      StoredStays(crc, file, more[|file|..], recs[b]);
    }
  }

  lemma InvParts(crc: Checksum.Crc, p: Progress)
    requires Inv(crc, p)
    ensures StoredAll(crc, p) && EntriesOk(p) && IndexOk(p) && FilteredOk(p)
  {
  }

  lemma NoBlocks(p: Progress)
    requires IndexOk(p) && !p.pending && p.current == []
    ensures p.recs == []
  {
  }

  lemma StoredAllStays(crc: Checksum.Crc, p: Progress, more: Bytes)
    requires StoredAll(crc, p)
    ensures forall b :: 0 <= b < |p.recs| ==> Stored(crc, p.file + more, p.recs[b])
  {
    hide Stored;
    forall b | 0 <= b < |p.recs|
      ensures Stored(crc, p.file + more, p.recs[b])
    {
      StoredStays(crc, p.file, more, p.recs[b]);
    }
  }

  /** Appending to the file changes neither entries nor index. */
  lemma FileApart(crc: Checksum.Crc, p: Progress, q: Progress)
    requires StoredAll(crc, p) && EntriesOk(p) && IndexOk(p)
    requires p.file <= q.file && q == p.(file := q.file)
    ensures StoredAll(crc, q) && EntriesOk(q) && IndexOk(q)
  {
    hide Stored, KeyLess, WellFormed, Ascending, Separates;
    StoredAllStays(crc, p, q.file[|p.file|..]);
    assert p.file + q.file[|p.file|..] == q.file;
    forall b | 0 <= b < |q.seps|
      ensures Separates(q.seps[b], LastOf(q.recs[b].layout.entries), NextKey(q, b))
    {
      assert NextKey(q, b) == NextKey(p, b);
    }
  }

  lemma ReadStays(crc: Checksum.Crc, file: Bytes, more: Bytes, offset: nat, size: nat)
    requires file <= more && ReadBlock(crc, true, file, offset, size).Some?
    ensures ReadBlock(crc, true, more, offset, size) == ReadBlock(crc, true, file, offset, size)
  {
    hide Checksum.Decode;
    assert more[offset..offset + size + TRAILER] == file[offset..offset + size + TRAILER];
  }

  lemma FilteredAll(p: Progress)
    requires FilteredOk(p) && p.filtered.Some?
    ensures AllFiltered(p.recs, p.filtered.value)
  {
  }

  /** All that a table needs to be opened. */
  ghost predicate IsTable(crc: Checksum.Crc, file: Bytes, recs: seq<BlockRec>, seps: seq<Bytes>, indexRec: BlockRec,
          added: seq<Pair>)
  {
    && |seps| == |recs|
    && (forall b :: 0 <= b < |recs| ==> Stored(crc, file, recs[b]))
    && Sound(indexRec) && indexRec.layout.entries == IndexEntries(recs, seps)
    && Indexed(BlocksOf(recs), seps) && added == Entries(BlocksOf(recs)) && Ascending(KeyLess, added)
  }

  ghost predicate AllFiltered(recs: seq<BlockRec>, filtered: set<(nat, Bytes)>) {
    forall b, i :: 0 <= b < |recs| && 0 <= i < |recs[b].layout.entries| ==>
      (recs[b].offset / FilterBlock.BASE, recs[b].layout.entries[i].key) in filtered
  }

  lemma PendingHandleFits(crc: Checksum.Crc, p: Progress)
    requires StoredAll(crc, p) && EntriesOk(p) && IndexOk(p) && p.pending
    ensures |Footer.EncodeHandle(p.handle.0, p.handle.1)| <= 20 && p.added != [] && WellFormed(p.lastKey)
  {
    hide WellFormed;
    LastAdded(p);
    assert Stored(crc, p.file, p.recs[|p.recs| - 1]);
    VarintSizes(p.handle.0);
    VarintSizes(p.handle.1);
    assert p.lastKey == p.added[|p.added| - 1].key;
  }

  lemma LastKeyOf(crc: Checksum.Crc, p: Progress)
    requires Inv(crc, p)
    ensures p.lastKey == LastKey(p.added) && (p.pending ==> p.added != [])
  {
    if p.pending {
      LastAdded(p);
    }
  }

  lemma SerializedSize(buffer: Bytes, restarts: seq<nat>)
    ensures |Serialized(buffer, restarts)| == |buffer| + 4 * |restarts| + 4
  {
  }

  lemma NothingYet(crc: Checksum.Crc, p: Progress)
    requires p.recs == [] && p.seps == [] && p.current == [] && p.index == [] && !p.pending && p.lastKey == [] &&
             p.added == []
    ensures Inv(crc, p)
  {
  }

  lemma NotPending(crc: Checksum.Crc, p: Progress)
    requires Inv(crc, p) && p.current != []
    ensures !p.pending
  {
  }

  // ---- reading back ----

  /** A filter that has all keys of the blocks lets every one of their user keys through. */
  lemma FilteredIsCovered(base: FilterBlock.Policy, result: Bytes, offsets: seq<nat>, filtered: set<(nat, Bytes)>,
          recs: seq<BlockRec>)
    requires FilterBlock.Sound(base) && AllFiltered(recs, filtered)
    requires FilterBlock.FiltersOk(InternalPolicy(base), result, offsets, [], filtered)
    requires |FilterBlock.Contents(result, offsets)| < BITS_32
    ensures FilterCovers(InternalPolicy(base), FilterBlock.Open(FilterBlock.Contents(result, offsets)), recs)
  {
    hide FilterBlock.FiltersOk, FilterBlock.Contents, FilterBlock.Open, FilterBlock.KeyMayMatch, User;
    var policy := InternalPolicy(base);
    var r := FilterBlock.Open(FilterBlock.Contents(result, offsets));
    InternalPolicyIsSound(base);
    FilterBlock.OpenIsSafe(FilterBlock.Contents(result, offsets));
    forall b, i, k: Bytes | 0 <= b < |recs| && 0 <= i < |recs[b].layout.entries| &&
        User(recs[b].layout.entries[i].key) == User(k)
      ensures FilterBlock.KeyMayMatch(policy, r, recs[b].offset, k)
    {
      FilterBlock.NoFalseNegatives(policy, result, offsets, filtered, recs[b].offset, recs[b].layout.entries[i].key);
      SameAnswer(base, r, recs[b].offset, recs[b].layout.entries[i].key, k);
    }
  }

  lemma SameAnswer(base: FilterBlock.Policy, r: FilterBlock.Reader, offset: nat, a: Bytes, b: Bytes)
    requires User(a) == User(b)
    requires r.offset + 4 * r.num + 4 <= |r.data| || r.num == 0
    ensures FilterBlock.KeyMayMatch(InternalPolicy(base), r, offset, a) ==
              FilterBlock.KeyMayMatch(InternalPolicy(base), r, offset, b)
  {
    hide User;
  }

  lemma BytewiseIsOrder()
    ensures Transitive(Less)
  {
    forall a: Bytes, b: Bytes, c: Bytes | Less(a, b) && Less(b, c)
      ensures Less(a, c)
    {
      LessTransitive(a, b, c);
    }
  }

  /** Looks up the filter's handle in the metaindex block. */
  method FindFilter(meta: Bytes, key: Bytes, ghost r: BlockRec, ghost filterKey: Bytes, ghost handle: Option<(nat,
          nat)>)
    returns (found: Option<Bytes>)
    requires Sound(r) && meta == ContentsOf(r) && r.layout.entries == MetaEntries(filterKey, handle)
    ensures found == if handle.Some? && key == filterKey then Some(MetaEntries(filterKey, handle)[0].value) else None
  {
    hide Finished, Serialized;
    BytewiseIsOrder();
    LessIrreflexive(key);
    var iter := new Iter(Less, meta, r.buffer, r.restarts, r.layout);
    iter.Seek(key);
    iter.ValidMeans();
    found := None;
    if iter.Valid() && iter.key == key {
      found := Some(iter.Value());
    }
  }

  /** Opens a table from the bytes of its file alone: footer, index block, and the filter that the metaindex block
      names, if it is of the policy that the reader goes by. */
  method OpenTable(crc: Checksum.Crc, file: Bytes, key: Bytes, base: Option<FilterBlock.Policy>,
                   ghost filterKey: Bytes, ghost policy: Option<FilterBlock.Policy>, ghost added: seq<Pair>,
                           ghost w: Parts)
                     returns (t: Table)
    requires IsTableFile(crc, file, filterKey, policy, added, w)
    requires base.Some? ==> FilterBlock.Sound(base.value)
    requires base.Some? && policy.Some? && key == filterKey ==> policy.value == InternalPolicy(base.value)
    ensures t.Ok() && t.AllEntries() == added
  {
    hide ReadBlock, Stored, Indexed, Ascending, Sound, FilterCovers, FilterBlock.FiltersOk, FilterBlock.Contents,
         FilterBlock.Open, MetaEntries, Footer.Decode, Serialized;
    var footer := Footer.Decode(file[|file| - Footer.LENGTH..]);
    // In a file that a builder wrote neither footer nor index block is unreadable.
    assert footer.Some?;
    var index := ReadBlock(crc, true, file, footer.value.index.0, footer.value.index.1);
    assert index.Some?;
    var filter := None;
    if base.Some? {
      filter := ReadFilter(crc, file, footer.value.metaindex, key, base.value, filterKey, policy, added, w);
    }
    t := new Table(crc, true, file, index.value, InternalPolicy(if base.Some? then base.value else NO_POLICY), filter,
                   w.recs, w.seps, w.index);
  }

  const NO_POLICY := FilterBlock.Policy(keys => [], (key, filter) => true)

  /** The filter that the metaindex block names under the reader's key. */
  method ReadFilter(crc: Checksum.Crc, file: Bytes, metaHandle: Footer.Handle, key: Bytes, base: FilterBlock.Policy,
                    ghost filterKey: Bytes, ghost policy: Option<FilterBlock.Policy>, ghost added: seq<Pair>,
                            ghost w: Parts)
                      returns (filter: Option<FilterBlock.Reader>)
    requires IsTableFile(crc, file, filterKey, policy, added, w) && metaHandle == (w.meta.offset, |ContentsOf(w.meta)|)
    requires FilterBlock.Sound(base) && (policy.Some? && key == filterKey ==> policy.value == InternalPolicy(base))
    ensures filter.Some? <==> policy.Some? && key == filterKey
    ensures filter.Some? ==> FilterCovers(InternalPolicy(base), filter.value, w.recs)
  {
    hide ReadBlock, Stored, IsTable, Sound, FilterCovers, FilterBlock.FiltersOk, FilterBlock.Contents, FilterBlock.Open,
         Footer.EncodeHandle, Footer.DecodeHandle, Footer.Decode, Serialized, AllFiltered;
    var meta := ReadBlock(crc, true, file, metaHandle.0, metaHandle.1);
    assert meta.Some?;
    ghost var handle := if w.filter.Some? then Some(w.filter.value.handle) else None;
    var value := FindFilter(meta.value, key, w.meta, filterKey, handle);
    if value == None {
      return None;
    }
    ghost var f := w.filter.value;
    HandleInFile(crc, file, f.handle);
    Footer.HandleRoundTrip(f.handle.0, f.handle.1);
    var filterHandle := Footer.DecodeHandle(value.value);
    assert filterHandle == Some(f.handle);
    var contents := ReadBlock(crc, true, file, filterHandle.value.0, filterHandle.value.1);
    FilteredIsCovered(base, f.result, f.offsets, f.filtered, w.recs);
    return Some(FilterBlock.Open(contents.value));
  }

  lemma HandleInFile(crc: Checksum.Crc, file: Bytes, handle: Footer.Handle)
    requires ReadBlock(crc, true, file, handle.0, handle.1).Some? && |file| < BITS_64
    ensures handle.0 < BITS_64 && handle.1 < BITS_64 && handle.0 % BITS_64 == handle.0 && handle.1 % BITS_64 == handle.1
  {
  }
}
