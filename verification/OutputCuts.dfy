/** Where a compaction ends its output files: at the size limit, and before an entry where the files two levels down
    that were passed since the last such stop hold too many bytes. */
module OutputCuts {
  import opened DbFormat
  import opened Tree
  import opened Compaction

  // The files two levels down, the bytes of them that an output file may overlap, and the size of a full output file.
  datatype CutRule = CutRule(grandparents: seq<File>, maxOverlap: nat, maxSize: nat, sizeOf: seq<Entry> -> nat)

  /** The bytes of the files that end at or after key `a` and before key `b`. */
  function BytesBetween(files: seq<File>, a: InternalKey, b: InternalKey): nat {
    if files == [] then 0
    else
      var n := |files| - 1;
      BytesBetween(files[..n], a, b) +
        (if !Before(files[n].largest, a) && Before(files[n].largest, b) then files[n].size else 0)
  }

  /** An output file is to end before entry `q`: too many bytes were passed since the stop before. */
  predicate IsStop(rule: CutRule, input: seq<Entry>, q: nat)
    requires q < |input|
    decreases q, 0
  {
    q > 0 &&
    BytesBetween(rule.grandparents, input[LastStop(rule, input, q - 1)].key, input[q].key) > rule.maxOverlap
  }

  /** The last stop up to entry `n`, or the first entry. */
  function LastStop(rule: CutRule, input: seq<Entry>, n: nat): (s: nat)
    requires n < |input|
    ensures s <= n
    decreases n, 1
  {
    if n == 0 || IsStop(rule, input, n) then n else LastStop(rule, input, n - 1)
  }

  /** An output file is open as long as it is smaller than the limit. */
  ghost predicate StaysBelow(entries: seq<Entry>, rule: CutRule) {
    forall n :: 0 < n < |entries| ==> rule.sizeOf(entries[..n]) < rule.maxSize
  }

  /** No stop lies after `a` and not after `b`. */
  ghost predicate Uncut(rule: CutRule, input: seq<Entry>, a: InternalKey, b: InternalKey) {
    forall q: nat :: q < |input| && IsStop(rule, input, q) ==> Before(b, input[q].key) || !Before(a, input[q].key)
  }

  /** The file is full, or there is a stop between it and `next`. */
  ghost predicate Ended(rule: CutRule, input: seq<Entry>, f: File, next: InternalKey) {
    || rule.sizeOf(f.entries) >= rule.maxSize
    || exists q: nat :: q < |input| && IsStop(rule, input, q) && Before(f.largest, input[q].key) &&
                        !Before(next, input[q].key)
  }

  /** How the output is cut into files: none grows on once it is full, none goes on past a stop, none overlaps more two
      levels down than it may; and none but the last ends short of the limit unless at a stop. */
  ghost predicate FilledUp(files: seq<File>, input: seq<Entry>, rule: CutRule) {
    && (forall i :: 0 <= i < |files| ==> StaysBelow(files[i].entries, rule))
    && (forall i :: 0 <= i < |files| ==> Uncut(rule, input, files[i].smallest, files[i].largest))
    && (forall i :: 0 <= i < |files| ==>
                      BytesBetween(rule.grandparents, files[i].smallest, files[i].largest) <= rule.maxOverlap)
    && (forall i :: 0 <= i < |files| - 1 ==> Ended(rule, input, files[i], files[i + 1].smallest))
  }

  // ---- bytes between keys ----

  lemma {:induction false} BytesAdd(files: seq<File>, a: InternalKey, b: InternalKey, c: InternalKey)
    requires AtOrBefore(a, b) && AtOrBefore(b, c)
    ensures BytesBetween(files, a, c) == BytesBetween(files, a, b) + BytesBetween(files, b, c)
  {
    if files != [] {
      BytesAdd(files[..|files| - 1], a, b, c);
    }
  }

  /** The first `i` files are those that end before the key. */
  predicate EndBefore(files: seq<File>, i: nat, key: InternalKey) {
    i <= |files| && forall k :: 0 <= k < |files| ==> (Before(files[k].largest, key) <==> k < i)
  }

  lemma {:induction false} BytesArePassed(files: seq<File>, n: nat, i: nat, j: nat, a: InternalKey, b: InternalKey)
    requires EndBefore(files, i, a) && EndBefore(files, j, b) && i <= j && n <= |files|
    ensures BytesBetween(files[..n], a, b) ==
            if n <= i then 0 else PassedBytes(files, i, if n <= j then n else j)
  {
    if n > 0 {
      BytesArePassed(files, n - 1, i, j, a, b);
      assert files[..n][..n - 1] == files[..n - 1];
    }
  }

  predicate Rising(files: seq<File>) {
    forall i, j :: 0 <= i < j < |files| ==> Before(files[i].largest, files[j].largest)
  }

  /** Passing on from key `b` to key `c`. */
  lemma PassedOn(files: seq<File>, i: nat, j: nat, a: InternalKey, b: InternalKey, c: InternalKey)
    requires Rising(files) && EndBefore(files, i, b) && i <= j <= |files| && AtOrBefore(a, b) && Before(b, c)
    requires forall k :: i <= k < j ==> Before(files[k].largest, c)
    requires j < |files| ==> !Before(files[j].largest, c)
    ensures EndBefore(files, j, c)
    ensures BytesBetween(files, a, c) == BytesBetween(files, a, b) + PassedBytes(files, i, j)
  {
    BytesAdd(files, a, b, c);
    BytesArePassed(files, |files|, i, j, b, c);
    assert files[..|files|] == files;
  }

  lemma {:induction false} NoBytes(files: seq<File>, a: InternalKey)
    ensures BytesBetween(files, a, a) == 0
  {
    if files != [] {
      NoBytes(files[..|files| - 1], a);
    }
  }

  // ---- stops ----

  lemma {:induction false} SinceLastStop(rule: CutRule, input: seq<Entry>, n: nat)
    requires n < |input|
    ensures var s := LastStop(rule, input, n);
            && (s > 0 ==> IsStop(rule, input, s))
            && BytesBetween(rule.grandparents, input[s].key, input[n].key) <= rule.maxOverlap
  {
    NoBytes(rule.grandparents, input[n].key);
    if n > 0 && !IsStop(rule, input, n) {
      SinceLastStop(rule, input, n - 1);
    }
  }

  lemma NoStopInside(rule: CutRule, input: seq<Entry>, i: nat, j: nat)
    requires Sorted(input) && i <= j < |input| && Uncut(rule, input, input[i].key, input[j].key)
    ensures forall q: nat :: i < q <= j ==> !IsStop(rule, input, q)
  {
    hide IsStop;
  }

  /** A stretch of the input without a stop overlaps no more than it may. */
  lemma UncutIsBounded(rule: CutRule, input: seq<Entry>, i: nat, j: nat)
    requires Sorted(input) && i <= j < |input| && Uncut(rule, input, input[i].key, input[j].key)
    ensures BytesBetween(rule.grandparents, input[i].key, input[j].key) <= rule.maxOverlap
  {
    hide IsStop, LastStop, BytesBetween;
    SinceLastStop(rule, input, j);
    NoStopInside(rule, input, i, j);
    BytesAdd(rule.grandparents, input[LastStop(rule, input, j)].key, input[i].key, input[j].key);
  }

  /** Entry `q` comes too many bytes after `s`, which is the stop before it or the first entry. */
  ghost predicate TooFarFrom(rule: CutRule, input: seq<Entry>, s: nat, q: nat)
    requires s < q < |input|
  {
    && BytesBetween(rule.grandparents, input[s].key, input[q].key) > rule.maxOverlap
    && forall r: nat :: s < r < q ==>
          BytesBetween(rule.grandparents, input[s].key, input[r].key) <= rule.maxOverlap
  }

  lemma {:induction false} BelowSinceStop(rule: CutRule, input: seq<Entry>, n: nat, r: nat)
    requires n < |input| && LastStop(rule, input, n) <= r <= n
    ensures LastStop(rule, input, r) == LastStop(rule, input, n)
  {
    if r < n {
      BelowSinceStop(rule, input, n - 1, r);
    }
  }

  /** No file but the last ends short of the limit unless, between it and the next, the bytes passed since the last stop
      came to exceed what may be overlapped. */
  lemma ShortFilesAreDue(files: seq<File>, input: seq<Entry>, rule: CutRule, i: nat)
    requires FilledUp(files, input, rule) && i + 1 < |files| && rule.sizeOf(files[i].entries) < rule.maxSize
    ensures exists s: nat, q: nat :: s < q < |input| && (s > 0 ==> IsStop(rule, input, s)) &&
                                     TooFarFrom(rule, input, s, q) && Before(files[i].largest, input[q].key) &&
                                     !Before(files[i + 1].smallest, input[q].key)
  {
    hide IsStop, LastStop, BytesBetween, StaysBelow, Uncut;
    assert Ended(rule, input, files[i], files[i + 1].smallest);
    var q: nat :| q < |input| && IsStop(rule, input, q) && Before(files[i].largest, input[q].key) &&
                  !Before(files[i + 1].smallest, input[q].key);
    StopIsTooFar(rule, input, q);
    SinceLastStop(rule, input, q - 1);
  }

  lemma StopIsTooFar(rule: CutRule, input: seq<Entry>, q: nat)
    requires q < |input| && IsStop(rule, input, q)
    ensures q > 0 && TooFarFrom(rule, input, LastStop(rule, input, q - 1), q)
  {
    var s := LastStop(rule, input, q - 1);
    forall r: nat | s < r < q
      ensures BytesBetween(rule.grandparents, input[s].key, input[r].key) <= rule.maxOverlap
    {
      BelowSinceStop(rule, input, q - 1, r);
      SinceLastStop(rule, input, r);
    }
  }

  /** With nothing two levels down, files end at the limit alone. */
  lemma NothingToOverlap(files: seq<File>, input: seq<Entry>, rule: CutRule)
    requires rule.grandparents == []
    requires forall i :: 0 <= i < |files| ==> StaysBelow(files[i].entries, rule)
    requires forall i :: 0 <= i < |files| - 1 ==> rule.sizeOf(files[i].entries) >= rule.maxSize
    ensures FilledUp(files, input, rule)
  {
    hide StaysBelow;
  }

  // ---- the files as they are written ----

  /** The first `n` entries are taken up, and the open file has been ended at the stops among the first `m`. */
  ghost predicate Open(rule: CutRule, input: seq<Entry>, open: seq<Entry>, n: nat, m: nat) {
    && (forall e, q: nat :: e in open && n <= q < |input| ==> Before(e.key, input[q].key))
    && (forall e, q: nat :: e in open && q < m && q < |input| && IsStop(rule, input, q) ==>
          !Before(e.key, input[q].key))
  }

  ghost predicate EndedBefore(rule: CutRule, input: seq<Entry>, f: File, m: nat) {
    || rule.sizeOf(f.entries) >= rule.maxSize
    || exists q: nat :: q < m && q < |input| && IsStop(rule, input, q) && Before(f.largest, input[q].key)
  }

  /** The files closed so far are cut as they should be, up to where the open one begins. */
  ghost predicate ClosedFiles(rule: CutRule, input: seq<Entry>, files: seq<File>, m: nat) {
    && (forall i :: 0 <= i < |files| ==> StaysBelow(files[i].entries, rule))
    && (forall i :: 0 <= i < |files| ==> Uncut(rule, input, files[i].smallest, files[i].largest))
    && (forall i :: 0 <= i < |files| - 1 ==> Ended(rule, input, files[i], files[i + 1].smallest))
    && (files != [] ==> EndedBefore(rule, input, files[|files| - 1], m))
  }

  ghost predicate Filling(rule: CutRule, input: seq<Entry>, files: seq<File>, open: seq<Entry>, n: nat, m: nat) {
    && ClosedFiles(rule, input, files, m)
    && Open(rule, input, open, n, m)
    && StaysBelow(open, rule) && (open != [] ==> rule.sizeOf(open) < rule.maxSize)
  }

  predicate HasEntries(f: File, es: seq<Entry>) {
    es != [] && f.entries == es && f.smallest == es[0].key && f.largest == es[|es| - 1].key
  }

  /** Closing a file after all that was closed before. */
  lemma Closing(rule: CutRule, input: seq<Entry>, files: seq<File>, f: File, es: seq<Entry>, n: nat, m: nat)
    requires ClosedFiles(rule, input, files, m) && Open(rule, input, es, n, m) && n <= m && HasEntries(f, es)
    requires StaysBelow(es, rule)
    ensures forall k: nat :: m <= k && EndedBefore(rule, input, f, k) ==> ClosedFiles(rule, input, files + [f], k)
    ensures Uncut(rule, input, f.smallest, f.largest)
    ensures files != [] ==> Ended(rule, input, files[|files| - 1], f.smallest)
  {
    hide IsStop, StaysBelow;
    assert es[0] in es && es[|es| - 1] in es;
    var all := files + [f];
    assert forall i :: 0 <= i < |files| ==> all[i] == files[i];
  }

  /** Before an entry that is a stop the open file is closed. */
  lemma StopCloses(rule: CutRule, input: seq<Entry>, files: seq<File>, f: File, open: seq<Entry>, n: nat)
    requires Filling(rule, input, files, open, n, n) && n < |input| && IsStop(rule, input, n)
    ensures open == [] ==> Filling(rule, input, files, open, n, n + 1)
    ensures HasEntries(f, open) ==> Filling(rule, input, files + [f], [], n, n + 1)
  {
    hide IsStop, StaysBelow, Uncut, Ended;
    if HasEntries(f, open) {
      assert open[|open| - 1] in open;
      assert EndedBefore(rule, input, f, n + 1);
      Closing(rule, input, files, f, open, n, n);
      NothingOpen(rule, input, n, n + 1);
    }
  }

  lemma NothingOpen(rule: CutRule, input: seq<Entry>, n: nat, m: nat)
    ensures Open(rule, input, [], n, m) && StaysBelow([], rule)
  {
  }

  lemma NoStopGoesOn(rule: CutRule, input: seq<Entry>, files: seq<File>, open: seq<Entry>, n: nat)
    requires Filling(rule, input, files, open, n, n) && n < |input| && !IsStop(rule, input, n)
    ensures Filling(rule, input, files, open, n, n + 1)
  {
    hide IsStop, StaysBelow, Uncut, Ended;
  }

  lemma DroppedGoesOn(rule: CutRule, input: seq<Entry>, files: seq<File>, open: seq<Entry>, n: nat)
    requires Filling(rule, input, files, open, n, n + 1)
    ensures Filling(rule, input, files, open, n + 1, n + 1)
  {
    hide IsStop, StaysBelow, Uncut, Ended, EndedBefore;
  }

  /** An entry is added to the open file, which is closed if that makes it full. */
  lemma AddedGoesOn(rule: CutRule, input: seq<Entry>, files: seq<File>, f: File, open: seq<Entry>, n: nat)
    requires Sorted(input) && n < |input| && Filling(rule, input, files, open, n, n + 1)
    ensures var more := open + [input[n]];
            && (rule.sizeOf(more) < rule.maxSize ==> Filling(rule, input, files, more, n + 1, n + 1))
            && (rule.sizeOf(more) >= rule.maxSize && HasEntries(f, more) ==>
                  Filling(rule, input, files + [f], [], n + 1, n + 1))
  {
    hide IsStop, Uncut, Ended;
    var more := open + [input[n]];
    assert Open(rule, input, more, n + 1, n + 1) by {
      hide StaysBelow, ClosedFiles;
    }
    assert StaysBelow(more, rule) by {
      assert forall k :: 0 <= k <= |open| ==> more[..k] == open[..k];
      assert open[..|open|] == open;
    }
    hide StaysBelow, Open, ClosedFiles;
    if HasEntries(f, more) && rule.sizeOf(more) >= rule.maxSize {
      assert EndedBefore(rule, input, f, n + 1);
      Closing(rule, input, files, f, more, n + 1, n + 1);
      NothingOpen(rule, input, n + 1, n + 1);
    }
  }

  lemma NothingFilled(rule: CutRule, input: seq<Entry>)
    ensures Filling(rule, input, [], [], 0, 0)
  {
  }

  /** What is left open after the last entry is the last file. */
  lemma FilledInTheEnd(rule: CutRule, input: seq<Entry>, files: seq<File>, f: File, open: seq<Entry>, all: seq<File>)
    requires Sorted(input) && Filling(rule, input, files, open, |input|, |input|)
    requires if open == [] then all == files else HasEntries(f, open) && all == files + [f]
    requires forall g :: g in all ==> exists i, j :: 0 <= i <= j < |input| && g.smallest == input[i].key &&
                                                     g.largest == input[j].key
    ensures FilledUp(all, input, rule)
  {
    hide IsStop, StaysBelow, Ended, EndedBefore, BytesBetween;
    if open != [] {
      Closing(rule, input, files, f, open, |input|, |input|);
    }
    hide Uncut;
    forall k | 0 <= k < |all|
      ensures BytesBetween(rule.grandparents, all[k].smallest, all[k].largest) <= rule.maxOverlap
    {
      assert all[k] in all;
      var i, j :| 0 <= i <= j < |input| && all[k].smallest == input[i].key && all[k].largest == input[j].key;
      UncutIsBounded(rule, input, i, j);
    }
  }
}
