/** The filter block of a table: one filter for the keys of the blocks that start in each 2 KiB window. */
module FilterBlock {
  import opened Bytewise
  import opened Coding
  import Bloom

  const BASE_LG: nat := 11
  const BASE: nat := 2048

  /** Makes a filter of keys, and asks a filter about a key. */
  datatype Policy = Policy(create: seq<Bytes> -> Bytes, mayMatch: (Bytes, Bytes) -> bool)

  ghost predicate Sound(p: Policy) {
    forall keys: seq<Bytes>, k :: k in keys ==> p.mayMatch(k, p.create(keys))
  }

  function BloomPolicy(hash: Bloom.Hash, bitsPerKey: nat, k: nat): Policy
    requires k < 256
  {
    Policy(keys => Bloom.Encode(Bloom.FilterOf(hash, bitsPerKey, k, keys)),
           (key, filter) => Bloom.Matches(hash, key, Bloom.Decode(filter)))
  }

  lemma BloomIsSound(hash: Bloom.Hash, bitsPerKey: nat, k: nat)
    requires 1 <= k <= 30
    ensures Sound(BloomPolicy(hash, bitsPerKey, k))
  {
    var p := BloomPolicy(hash, bitsPerKey, k);
    forall keys: seq<Bytes>, key | key in keys
      ensures p.mayMatch(key, p.create(keys))
    {
      var i :| 0 <= i < |keys| && keys[i] == key;
      Bloom.NoFalseNegatives(hash, bitsPerKey, k, keys, i);
      Bloom.CodeRoundTrip(Bloom.FilterOf(hash, bitsPerKey, k, keys));
    }
  }

  // ---- the builder ----

  function Limit(offsets: seq<nat>, end: nat, i: nat): nat
    requires i < |offsets|
  {
    if i + 1 < |offsets| then offsets[i + 1] else end
  }

  /** The keys laid end to end, with where each starts. */
  ghost predicate KeysAre(keys: Bytes, start: seq<nat>, pending: seq<Bytes>) {
    && |start| == |pending|
    && forall i :: 0 <= i < |start| ==>
         start[i] <= Limit(start, |keys|, i) <= |keys| && keys[start[i]..Limit(start, |keys|, i)] == pending[i]
  }

  ghost predicate IsFilterFor(policy: Policy, filter: Bytes, k: Bytes) {
    exists ks: seq<Bytes> :: k in ks && filter == policy.create(ks)
  }

  /** Every key given is in the filter of its number, or among those still pending. */
  ghost predicate FiltersOk(policy: Policy, result: Bytes, offsets: seq<nat>, pending: seq<Bytes>,
          added: set<(nat, Bytes)>)
  {
    && (forall i :: 0 <= i < |offsets| ==> offsets[i] <= Limit(offsets, |result|, i) <= |result|)
    && (forall e :: e in added ==>
          && e.0 <= |offsets|
          && (e.0 == |offsets| ==> e.1 in pending)
          && (e.0 < |offsets| ==> IsFilterFor(policy, result[offsets[e.0]..Limit(offsets, |result|, e.0)], e.1)))
  }

  lemma KeysGrow(keys: Bytes, start: seq<nat>, pending: seq<Bytes>, k: Bytes)
    requires KeysAre(keys, start, pending)
    ensures KeysAre(keys + k, start + [|keys|], pending + [k])
  {
    var keys', start' := keys + k, start + [|keys|];
    forall i | 0 <= i < |start'|
      ensures start'[i] <= Limit(start', |keys'|, i) <= |keys'|
      ensures keys'[start'[i]..Limit(start', |keys'|, i)] == (pending + [k])[i]
    {
      if i < |start| {
        assert Limit(start', |keys'|, i) == Limit(start, |keys|, i);
      }
    }
  }

  lemma KeyAt(keys: Bytes, start: seq<nat>, pending: seq<Bytes>, i: nat)
    requires KeysAre(keys, start, pending) && i < |pending|
    ensures |start| == |pending|
    ensures var all := start + [|keys|];
      all[i] <= all[i + 1] <= |keys| && keys[all[i]..all[i + 1]] == pending[i] &&
          pending[..i + 1] == pending[..i] + [pending[i]]
  {
  }

  lemma OnePending(keys: Bytes, start: seq<nat>, pending: seq<Bytes>)
    requires KeysAre(keys, start, pending)
    ensures |start| == |pending| && KeysAre([], [], [])
  {
  }

  /** Closing a filter: its keys are no longer pending. */
  lemma FilterAdded(policy: Policy, result: Bytes, offsets: seq<nat>, pending: seq<Bytes>, added: set<(nat, Bytes)>)
    requires FiltersOk(policy, result, offsets, pending, added)
    ensures pending != [] ==> FiltersOk(policy, result + policy.create(pending), offsets + [|result|], [], added)
    ensures pending == [] ==> FiltersOk(policy, result, offsets + [|result|], [], added)
  {
    var offsets' := offsets + [|result|];
    var result' := if pending == [] then result else result + policy.create(pending);
    forall i | 0 <= i < |offsets|
      ensures Limit(offsets', |result'|, i) == Limit(offsets, |result|, i)
      ensures offsets[i] <= Limit(offsets, |result|, i) <= |result|
      ensures result'[offsets[i]..Limit(offsets, |result|, i)] == result[offsets[i]..Limit(offsets, |result|, i)]
    {
    }
    forall e | e in added
      ensures e.0 < |offsets'|
      ensures offsets'[e.0] <= Limit(offsets', |result'|, e.0) <= |result'|
      ensures IsFilterFor(policy, result'[offsets'[e.0]..Limit(offsets', |result'|, e.0)], e.1)
    {
      if e.0 == |offsets| {
        assert result'[|result|..|result'|] == policy.create(pending);
      }
    }
  }

  class FilterBlockBuilder {
    const policy: Policy
    var keys: Bytes
    var start: seq<nat>
    var result: Bytes
    var filterOffsets: seq<nat>
    // The keys not yet in a filter, and all keys given with the number of the filter each belongs to.
    ghost var pending: seq<Bytes>
    ghost var added: set<(nat, Bytes)>

    ghost predicate Ok()
      reads this
    {
      && KeysAre(keys, start, pending)
      && FiltersOk(policy, result, filterOffsets, pending, added)
    }

    constructor (policy: Policy)
      ensures Ok() && this.policy == policy && added == {} && filterOffsets == [] && result == []
    {
      this.policy := policy;
      keys, start, result, filterOffsets, pending, added := [], [], [], [], [], {};
    }

    /** Data written from now on is in blocks that start at `blockOffset`; offsets do not go back a window. */
    method StartBlock(blockOffset: nat)
      requires Ok() && |filterOffsets| <= blockOffset / BASE
      modifies this
      ensures Ok() && added == old(added) && |filterOffsets| == blockOffset / BASE
    {
      var filterIndex := blockOffset / BASE;
      while filterIndex > |filterOffsets|
        invariant Ok() && added == old(added) && |filterOffsets| <= filterIndex
        decreases filterIndex - |filterOffsets|
      {
        GenerateFilter();
      }
    }

    method AddKey(k: Bytes)
      requires Ok()
      modifies this
      ensures Ok() && filterOffsets == old(filterOffsets) && added == old(added) + {(|filterOffsets|, k)}
    {
      KeysGrow(keys, start, pending, k);
      start := start + [|keys|];
      keys := keys + k;
      pending := pending + [k];
      added := added + {(|filterOffsets|, k)};
      assert pending[|pending| - 1] == k;
    }

    method GenerateFilter()
      requires Ok()
      modifies this
      ensures Ok() && added == old(added) && |filterOffsets| == |old(filterOffsets)| + 1
      ensures start == []
    {
      hide KeysAre, FiltersOk;
      OnePending(keys, start, pending);
      FilterAdded(policy, result, filterOffsets, pending, added);
      var numKeys := |start|;
      if numKeys == 0 {
        filterOffsets := filterOffsets + [|result|];
        return;
      }
      ghost var start0 := start;
      start := start + [|keys|];
      var tmpKeys: seq<Bytes> := [];
      for i := 0 to numKeys
        invariant pending == old(pending) && |pending| == numKeys && filterOffsets == old(filterOffsets)
        invariant result == old(result) && added == old(added)
        invariant start == start0 + [|keys|] && KeysAre(keys, start0, pending) && tmpKeys == pending[..i]
      {
        KeyAt(keys, start0, pending, i);
        tmpKeys := tmpKeys + [keys[start[i]..start[i + 1]]];
      }
      assert tmpKeys == pending;
      filterOffsets := filterOffsets + [|result|];
      result := result + policy.create(tmpKeys);
      keys, start := [], [];
      pending := [];
    }

    /** Closes the last filter and writes the array of offsets, its own offset and the window size after them. */
    method Finish() returns (contents: Bytes)
      requires Ok()
      modifies this
      ensures Ok() && added == old(added) && start == [] && pending == []
      ensures contents == Contents(result, filterOffsets)
    {
      hide FiltersOk, Fixed;
      if start != [] {
        GenerateFilter();
      }
      contents := result;
      var arrayOffset := |contents|;
      var offsets := filterOffsets;
      label Written:
      for i := 0 to |offsets|
        invariant unchanged@Written(this)
        invariant contents == result + Words(offsets[..i])
      {
        OneMoreWord(offsets, i);
        contents := contents + Fixed(offsets[i], 4);
      }
      assert offsets[..|offsets|] == offsets;
      contents := contents + Fixed(arrayOffset, 4);
      contents := contents + [BASE_LG];
    }
  }

  function Contents(result: Bytes, offsets: seq<nat>): Bytes {
    result + Words(offsets) + Fixed(|result|, 4) + [BASE_LG]
  }

  // ---- the reader ----

  /** The reader keeps where the offset array starts, how many filters there are and the window size. */
  datatype Reader = Reader(data: Bytes, offset: nat, num: nat, baseLg: nat)

  function Open(contents: Bytes): Reader {
    var n := |contents|;
    if n < 5 then Reader([], 0, 0, 0)
    else
      var lastWord := Unfixed(contents[n - 5..n - 1]);
      if lastWord > n - 5 then Reader([], 0, 0, contents[n - 1])
      else Reader(contents, lastWord, (n - 5 - lastWord) / 4, contents[n - 1])
  }

  predicate KeyMayMatch(policy: Policy, r: Reader, blockOffset: nat, key: Bytes)
    requires r.offset + 4 * r.num + 4 <= |r.data| || r.num == 0
  {
    var index := blockOffset / Pow(2, r.baseLg);
    index < r.num ==>
      var start := Unfixed(r.data[r.offset + 4 * index..r.offset + 4 * index + 4]);
      var limit := Unfixed(r.data[r.offset + 4 * index + 4..r.offset + 4 * index + 8]);
      if start <= limit && limit <= r.offset then policy.mayMatch(key, r.data[start..limit])
      else start != limit
  }

  lemma OpenIsSafe(contents: Bytes)
    ensures var r := Open(contents); r.offset + 4 * r.num + 4 <= |r.data| || r.num == 0
  {
  }

  /** What the reader finds in a finished block; the last filter ends where the offset array starts. */
  lemma ContentsAreRead(result: Bytes, offsets: seq<nat>, i: nat)
    requires |Contents(result, offsets)| < BITS_32 && i <= |offsets|
    requires forall j :: 0 <= j < |offsets| ==> offsets[j] <= |result|
    ensures var r := Open(Contents(result, offsets));
      && r == Reader(Contents(result, offsets), |result|, |offsets|, BASE_LG)
      && |result| + 4 * i + 4 <= |r.data|
      && Unfixed(r.data[r.offset + 4 * i..r.offset + 4 * i + 4]) == (offsets + [|result|])[i]
  {
    hide Fixed, Words;
    ContentsWords(result, offsets);
    ContentWord(result, offsets, i);
    ContentWord(result, offsets, |offsets|);
    var c := Contents(result, offsets);
    FixedWidths((offsets + [|result|])[i]);
    FixedWidths(|result|);
    assert c[|c| - 5..|c| - 1] == Fixed(|result|, 4);
    assert c[|c| - 1] == BASE_LG;
  }

  lemma ContentsWords(result: Bytes, offsets: seq<nat>)
    ensures Contents(result, offsets) == result + (Words(offsets + [|result|]) + [BASE_LG])
  {
    hide Fixed;
    OneMoreWord(offsets + [|result|], |offsets|);
    assert (offsets + [|result|])[..|offsets| + 1] == offsets + [|result|];
    assert (offsets + [|result|])[..|offsets|] == offsets;
  }

  lemma ContentWord(result: Bytes, offsets: seq<nat>, i: nat)
    requires i <= |offsets|
    ensures |Contents(result, offsets)| == |result| + 4 * |offsets| + 5
    ensures Contents(result, offsets)[|result| + 4 * i..|result| + 4 * i + 4] == Fixed((offsets + [|result|])[i], 4)
  {
    hide Fixed, Words, Contents;
    ContentsWords(result, offsets);
    var ws := offsets + [|result|];
    WordAt(ws, i);
    var c := result + (Words(ws) + [BASE_LG]);
    assert c[|result| + 4 * i..|result| + 4 * i + 4] == Words(ws)[4 * i..4 * i + 4];
  }

  /** No key is turned away: for every key given to the builder, and every offset in the window it was given for. */
  lemma NoFalseNegatives(policy: Policy, result: Bytes, offsets: seq<nat>, added: set<(nat, Bytes)>, blockOffset: nat,
          key: Bytes)
    requires Sound(policy) && FiltersOk(policy, result, offsets, [], added)
    requires |Contents(result, offsets)| < BITS_32
    requires (blockOffset / BASE, key) in added
    ensures var r := Open(Contents(result, offsets));
      (r.offset + 4 * r.num + 4 <= |r.data| || r.num == 0) && KeyMayMatch(policy, r, blockOffset, key)
  {
    hide Contents, Open;
    var i := blockOffset / BASE;
    OpenIsSafe(Contents(result, offsets));
    ContentsAreRead(result, offsets, i);
    ContentsAreRead(result, offsets, i + 1);
    ContentsStart(result, offsets);
    TwoToEleven();
    var start, limit := offsets[i], Limit(offsets, |result|, i);
    assert Contents(result, offsets)[start..limit] == result[start..limit];
    var ks: seq<Bytes> :| key in ks && result[start..limit] == policy.create(ks);
  }

  lemma ContentsStart(result: Bytes, offsets: seq<nat>)
    ensures result <= Contents(result, offsets)
  {
  }

  lemma TwoToEleven()
    ensures Pow(2, BASE_LG) == BASE
  {
    assert Pow(2, 11) == 2 * Pow(2, 10) == 4 * Pow(2, 9) == 8 * Pow(2, 8) == 16 * Pow(2, 7) == 32 * Pow(2, 6) ==
          64 * Pow(2, 5);
    assert Pow(2, 5) == 2 * Pow(2, 4) == 4 * Pow(2, 3) == 8 * Pow(2, 2) == 16 * Pow(2, 1) == 32;
  }
}
