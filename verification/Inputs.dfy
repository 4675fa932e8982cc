/** Choosing what one compaction reads: the files of its level, closed under shared boundary user keys, and the files of
    the next level that they touch. */
module Inputs {
  import opened Wrappers
  import opened DbFormat
  import opened Tree

  function Later(a: InternalKey, b: InternalKey): InternalKey {
    if Before(a, b) then b else a
  }

  function Earlier(a: InternalKey, b: InternalKey): InternalKey {
    if Before(b, a) then b else a
  }

  function LargestKey(fs: seq<File>): InternalKey
    requires fs != []
  {
    var n := |fs| - 1;
    if n == 0 then fs[0].largest else Later(LargestKey(fs[..n]), fs[n].largest)
  }

  function SmallestKey(fs: seq<File>): InternalKey
    requires fs != []
  {
    var n := |fs| - 1;
    if n == 0 then fs[0].smallest else Earlier(SmallestKey(fs[..n]), fs[n].smallest)
  }

  /** They are the extremes of the files' bounds. */
  lemma {:induction false} KeyBounds(fs: seq<File>)
    requires fs != []
    ensures forall f :: f in fs ==> AtOrBefore(SmallestKey(fs), f.smallest) && AtOrBefore(f.largest, LargestKey(fs))
    ensures exists f :: f in fs && f.smallest == SmallestKey(fs)
    ensures exists f :: f in fs && f.largest == LargestKey(fs)
  {
    var n := |fs| - 1;
    assert fs == fs[..n] + [fs[n]];
    if n > 0 {
      KeyBounds(fs[..n]);
    }
  }

  method GetRange(inputs: seq<File>) returns (smallest: InternalKey, largest: InternalKey)
    requires inputs != []
    ensures smallest == SmallestKey(inputs) && largest == LargestKey(inputs)
  {
    smallest, largest := inputs[0].smallest, inputs[0].largest;
    for i := 1 to |inputs|
      invariant smallest == SmallestKey(inputs[..i]) && largest == LargestKey(inputs[..i])
    {
      assert inputs[..i + 1][..i] == inputs[..i];
      if Before(inputs[i].smallest, smallest) {
        smallest := inputs[i].smallest;
      }
      if Before(largest, inputs[i].largest) {
        largest := inputs[i].largest;
      }
    }
    assert inputs[..|inputs|] == inputs;
  }

  /** `f` starts after `k` but with the user key of `k`. */
  predicate IsBoundary(f: File, k: InternalKey) {
    Before(k, f.smallest) && f.smallest.user == k.user
  }

  method FindSmallestBoundaryFile(files: seq<File>, k: InternalKey) returns (r: Option<File>)
    ensures r == None <==> forall f :: f in files ==> !IsBoundary(f, k)
    ensures r.Some? ==> r.value in files && IsBoundary(r.value, k)
    ensures r.Some? ==> forall f :: f in files && IsBoundary(f, k) ==> AtOrBefore(r.value.smallest, f.smallest)
  {
    r := None;
    for i := 0 to |files|
      invariant r == None <==> forall j :: 0 <= j < i ==> !IsBoundary(files[j], k)
      invariant r.Some? ==> r.value in files && IsBoundary(r.value, k)
      invariant r.Some? ==>
                  forall j :: 0 <= j < i && IsBoundary(files[j], k) ==> AtOrBefore(r.value.smallest, files[j].smallest)
    {
      if IsBoundary(files[i], k) && (r == None || Before(files[i].smallest, r.value.smallest)) {
        r := Some(files[i]);
      }
    }
  }

  /** Every file of `r` past the first `n` is the earliest boundary file of those before it. */
  ghost predicate BoundaryChain(files: seq<File>, r: seq<File>, n: nat) {
    0 < n <= |r| && forall i :: n <= i < |r| ==>
      r[i] in files && IsBoundary(r[i], LargestKey(r[..i])) &&
      forall f :: f in files && IsBoundary(f, LargestKey(r[..i])) ==> AtOrBefore(r[i].smallest, f.smallest)
  }

  predicate NoDuplicates(fs: seq<File>) {
    forall i, j :: 0 <= i < j < |fs| ==> fs[i] != fs[j]
  }

  lemma BoundaryIsNew(inputs: seq<File>, f: File)
    requires inputs != [] && Ranged(f) && IsBoundary(f, LargestKey(inputs))
    ensures f !in inputs && LargestKey(inputs + [f]) == f.largest
  {
    KeyBounds(inputs);
    assert (inputs + [f])[..|inputs|] == inputs;
  }

  /** Adds to the inputs every file of the level that continues their last user key, one after another. */
  method AddBoundaryInputs(files: seq<File>, inputs: seq<File>) returns (r: seq<File>)
    requires AllRanged(files)
    requires forall f :: f in inputs ==> f in files
    ensures inputs <= r && forall f :: f in r ==> f in files
    ensures NoDuplicates(inputs) ==> NoDuplicates(r)
    ensures inputs == [] ==> r == []
    ensures inputs != [] ==> BoundaryChain(files, r, |inputs|)
    ensures inputs != [] ==> forall f :: f in files ==> !IsBoundary(f, LargestKey(r))
  {
    r := inputs;
    if inputs == [] {
      return;
    }
    var searching := true;
    while searching
      invariant inputs <= r && forall f :: f in r ==> f in files
      invariant NoDuplicates(inputs) ==> NoDuplicates(r)
      invariant BoundaryChain(files, r, |inputs|)
      invariant !searching ==> forall f :: f in files ==> !IsBoundary(f, LargestKey(r))
      decreases StartingAfter(files, LargestKey(r)), searching
    {
      hide BoundaryChain, LargestKey, StartingAfter;
      var next := FindSmallestBoundaryFile(files, LargestKey(r));
      if next.Some? {
        BoundaryIsNew(r, next.value);
        LaterStartsAfterLess(files, LargestKey(r), next.value);
        ChainGrows(files, r, next.value, |inputs|);
        r := r + [next.value];
      } else {
        searching := false;
      }
    }
  }

  function StartingAfter(files: seq<File>, k: InternalKey): nat {
    if files == [] then 0 else (if Before(k, files[0].smallest) then 1 else 0) + StartingAfter(files[1..], k)
  }

  lemma {:induction false} LaterStartsAfterLess(files: seq<File>, k: InternalKey, f: File)
    requires Before(k, f.smallest) && Ranged(f)
    ensures StartingAfter(files, f.largest) <= StartingAfter(files, k)
    ensures f in files ==> StartingAfter(files, f.largest) < StartingAfter(files, k)
  {
    if files != [] {
      LaterStartsAfterLess(files[1..], k, f);
      assert files == [files[0]] + files[1..];
    }
  }

  lemma ChainGrows(files: seq<File>, r: seq<File>, f: File, n: nat)
    requires BoundaryChain(files, r, n)
    requires f in files && IsBoundary(f, LargestKey(r))
    requires forall g :: g in files && IsBoundary(g, LargestKey(r)) ==> AtOrBefore(f.smallest, g.smallest)
    ensures BoundaryChain(files, r + [f], n)
  {
    forall i | n <= i < |r| + 1
      ensures (r + [f])[..i] == r[..i]
    {
    }
    assert r[..|r|] == r;
  }

  /** In a sorted level the chain takes up the files right after a run of files. */
  lemma {:induction false} ChainContinuesRun(files: seq<File>, a: nat, b: nat, r: seq<File>)
    requires AllRanged(files) && Disjoint(files)
    requires a < b <= |files| && b - a <= |r| && r[..b - a] == files[a..b]
    requires BoundaryChain(files, r, b - a)
    ensures a + |r| <= |files| && r == files[a..a + |r|]
    decreases |r|
  {
    hide BoundaryChain, Disjoint, AllRanged, LargestKey, SmallestKey, IsBoundary;
    if |r| == b - a {
      assert r == r[..b - a];
    } else {
      var n := |r| - 1;
      var init := r[..n];
      ChainShrinks(files, r, b - a);
      assert init[..b - a] == r[..b - a];
      ChainContinuesRun(files, a, b, init);
      RunLargest(files, a, a + n);
      NextBoundaryIsNextFile(files, a + n, r[n]);
      assert r == init + [r[n]];
    }
  }

  lemma ChainShrinks(files: seq<File>, r: seq<File>, n: nat)
    requires BoundaryChain(files, r, n) && n < |r|
    ensures var last := |r| - 1;
            BoundaryChain(files, r[..last], n) && r[last] in files && IsBoundary(r[last], LargestKey(r[..last])) &&
            forall f :: f in files && IsBoundary(f, LargestKey(r[..last])) ==> AtOrBefore(r[last].smallest, f.smallest)
  {
    assert forall i :: n <= i < |r| - 1 ==> r[..|r| - 1][..i] == r[..i];
  }

  lemma NextBoundaryIsNextFile(files: seq<File>, n: nat, f: File)
    requires AllRanged(files) && Disjoint(files)
    requires 0 < n <= |files| && f in files && IsBoundary(f, files[n - 1].largest)
    requires forall g :: g in files && IsBoundary(g, files[n - 1].largest) ==> AtOrBefore(f.smallest, g.smallest)
    ensures n < |files| && f == files[n]
  {
    var i :| 0 <= i < |files| && files[i] == f;
    assert Ranged(files[i]) && Ranged(files[n - 1]);
    if n < i {
      assert Ranged(files[n]) && Before(files[n].largest, files[i].smallest);
      assert IsBoundary(files[n], files[n - 1].largest);
      assert false;
    }
  }

  /** Of a run in a sorted level, the first file has the smallest key and the last the largest. */
  lemma {:induction false} RunLargest(files: seq<File>, a: nat, b: nat)
    requires AllRanged(files) && Disjoint(files) && a < b <= |files|
    ensures LargestKey(files[a..b]) == files[b - 1].largest
    ensures SmallestKey(files[a..b]) == files[a].smallest
  {
    if a + 1 < b {
      RunLargest(files, a, b - 1);
      assert files[a..b][..b - a - 1] == files[a..b - 1];
      assert Ranged(files[a]) && Ranged(files[b - 1]);
    }
  }
}
