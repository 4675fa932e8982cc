/** Table files and the tree of levels that one Version holds. */
module Tree {
  import opened Wrappers
  import opened DbFormat

  /** File metadata as kept in a Version, with the contents the table of that number has on disk. */
  datatype File = File(number: nat, size: nat, smallest: InternalKey, largest: InternalKey, entries: seq<Entry>)

  type Version = seq<seq<File>>

  predicate ValidFile(f: File) {
    && |f.entries| > 0
    && Sorted(f.entries)
    && f.smallest == f.entries[0].key
    && f.largest == f.entries[|f.entries| - 1].key
    && forall e :: e in f.entries ==> e.key.seqno <= MAX_SEQUENCE
  }

  /** What the metadata alone says; choosing files looks at nothing else. */
  predicate Ranged(f: File) {
    AtOrBefore(f.smallest, f.largest)
  }

  predicate AllRanged(fs: seq<File>) {
    forall f :: f in fs ==> Ranged(f)
  }

  lemma KeysWithinRange(f: File, e: Entry)
    requires ValidFile(f) && e in f.entries
    ensures AtOrBefore(f.smallest, e.key) && AtOrBefore(e.key, f.largest)
    ensures f.smallest.user <= e.key.user <= f.largest.user
  {
    var i :| 0 <= i < |f.entries| && f.entries[i] == e;
  }

  lemma RangeOrdered(f: File)
    requires ValidFile(f)
    ensures Ranged(f)
  {
    KeysWithinRange(f, f.entries[0]);
  }

  predicate Covers(f: File, u: UserKey) {
    f.smallest.user <= u <= f.largest.user
  }

  ghost predicate NewerFile(f: File, g: File) {
    forall a, b :: a in f.entries && b in g.entries && a.key.user == b.key.user ==> a.key.seqno > b.key.seqno
  }

  ghost predicate NewerFiles(fs: seq<File>, gs: seq<File>) {
    forall f, g :: f in fs && g in gs ==> NewerFile(f, g)
  }

  /** The order of files inside a level: by smallest key, ties broken by file number. */
  predicate BySmallestKey(f: File, g: File) {
    Before(f.smallest, g.smallest) || (f.smallest == g.smallest && f.number < g.number)
  }

  predicate InOrder(fs: seq<File>) {
    forall i, j :: 0 <= i < j < |fs| ==> BySmallestKey(fs[i], fs[j])
  }

  predicate Disjoint(fs: seq<File>) {
    forall i, j :: 0 <= i < j < |fs| ==> Before(fs[i].largest, fs[j].smallest)
  }

  predicate DistinctNumbers(fs: seq<File>) {
    forall f, g :: f in fs && g in fs && f.number == g.number ==> f == g
  }

  ghost function EntriesOf(fs: seq<File>): set<Entry> {
    set f, e | f in fs && e in f.entries :: e
  }

  /** The entries of the levels from `level` downwards. */
  ghost function Deeper(v: Version, level: nat): set<Entry>
    decreases |v| - level
  {
    if level >= |v| then {} else EntriesOf(v[level]) + Deeper(v, level + 1)
  }

  lemma {:induction false} InDeeper(v: Version, level: nat, e: Entry)
    ensures e in Deeper(v, level) <==> exists l :: level <= l < |v| && e in EntriesOf(v[l])
    decreases |v| - level
  {
    if level < |v| {
      InDeeper(v, level + 1, e);
    }
  }

  ghost function Flat(v: Version): set<Entry> {
    Deeper(v, 0)
  }

  ghost predicate ValidLevel(v: Version, l: nat)
    requires l < |v|
  {
    && (forall f :: f in v[l] ==> ValidFile(f))
    && InOrder(v[l])
    && DistinctNumbers(v[l])
    && (if l == 0 then forall f, g :: f in v[0] && g in v[0] && f.number > g.number ==> NewerFile(f, g)
        else Disjoint(v[l]))
  }

  ghost predicate NumbersOnce(v: Version) {
    forall l, m, f, g :: 0 <= l < m < |v| && f in v[l] && g in v[m] ==> f.number != g.number
  }

  /** The invariant of the tree: files below level 0 are sorted and apart; a level-0 file of higher number, and any file
      of a lower level, is newer for every user key it shares with the other; a file number occurs once. */
  ghost predicate Valid(v: Version) {
    && |v| == NUM_LEVELS
    && (forall l :: 0 <= l < |v| ==> ValidLevel(v, l))
    && (forall l, m :: 0 <= l < m < |v| ==> NewerFiles(v[l], v[m]))
    && NumbersOnce(v)
    && Unique(Flat(v))
  }

  /** The first index whose key is not before `k`, or the length. */
  function SeekIndex(es: seq<Entry>, k: InternalKey): (i: nat)
    ensures i <= |es|
    ensures forall j :: 0 <= j < i ==> Before(es[j].key, k)
    ensures i < |es| ==> !Before(es[i].key, k)
  {
    if es == [] || !Before(es[0].key, k) then 0 else
      var i := 1 + SeekIndex(es[1..], k);
      assert forall j :: 0 < j < i ==> es[j] == es[1..][j - 1];
      i
  }

  /** What a sorted run of entries yields for a read: its first entry at or after the lookup key, if that has the wanted
      user key.  Memtables and tables both answer this way. */
  function FirstVisible(es: seq<Entry>, u: UserKey, s: nat): Option<Entry> {
    var i := SeekIndex(es, LookupKey(u, s));
    if i < |es| && es[i].key.user == u then Some(es[i]) else None
  }

  function TableGet(f: File, u: UserKey, s: nat): Option<Entry> {
    FirstVisible(f.entries, u, s)
  }

  lemma FirstVisibleIsNewest(es: seq<Entry>, u: UserKey, s: nat)
    requires Sorted(es)
    ensures FirstVisible(es, u, s) == None <==> forall e :: e in es ==> !Sees(e, u, s)
    ensures FirstVisible(es, u, s).Some? ==> var r := FirstVisible(es, u, s).value;
              r in es && Sees(r, u, s) && forall o :: o in es && Sees(o, u, s) ==> o.key.seqno <= r.key.seqno
  {
    var i := SeekIndex(es, LookupKey(u, s));
    forall e | e in es && Sees(e, u, s)
      ensures i < |es| && es[i].key.user == u && e.key.seqno <= es[i].key.seqno
    {
      var j :| 0 <= j < |es| && es[j] == e;
      assert i <= j;
    }
  }
}
