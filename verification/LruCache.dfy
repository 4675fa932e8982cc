/** One shard of the block and table cache: reference counts, two lists and a hash table. */
module LruCache {
  import opened Wrappers
  import opened Bytewise
  import opened HandleTable

  // `refs` counts the clients' references, and one more for the cache's own while the entry is cached.
  datatype Entry = Entry(key: Bytes, hash: nat, value: Bytes, charge: nat, inCache: bool, refs: nat)

  /** Entries are numbered in order of allocation.  Each list has its newest entry last.  `held` counts the handles that
      clients have and have not released; `deleted` lists the entries whose deleter ran, in order. */
  datatype Shard = Shard(capacity: nat, usage: int, lru: seq<nat>, inUse: seq<nat>, table: map<Slot, nat>,
                         entries: map<nat, Entry>, next: nat, held: multiset<nat>, deleted: seq<nat>)

  function SlotOfEntry(e: Entry): Slot {
    Slot(e.hash, e.key)
  }

  ghost predicate NoRepeats(l: seq<nat>) {
    forall i, j :: 0 <= i < j < |l| ==> l[i] != l[j]
  }

  function Without(l: seq<nat>, e: nat): seq<nat> {
    if l == [] then [] else if l[0] == e then l[1..] else [l[0]] + Without(l[1..], e)
  }

  function TotalCharge(entries: map<nat, Entry>, l: seq<nat>): nat {
    if l == [] then 0 else (if l[0] in entries then entries[l[0]].charge else 0) + TotalCharge(entries, l[1..])
  }

  /** Every reference is a client's or the cache's. */
  ghost predicate RefsOk(s: Shard) {
    && (forall e :: e in s.entries ==> s.entries[e].refs == s.held[e] + (if s.entries[e].inCache then 1 else 0) > 0)
    && (forall e :: e in s.held ==> e in s.entries)
  }

  /** Each cached entry is in the list its references call for, once; no other entry is in any. */
  ghost predicate ListsOk(s: Shard) {
    && NoRepeats(s.lru) && NoRepeats(s.inUse)
    && (forall e :: e in s.lru <==> e in s.entries && s.entries[e].inCache && s.entries[e].refs == 1)
    && (forall e :: e in s.inUse <==> e in s.entries && s.entries[e].inCache && s.entries[e].refs >= 2)
  }

  /** The table finds each cached entry by its key; `loose` is one just taken out of the table. */
  ghost predicate TableOk(s: Shard, loose: Option<nat>) {
    && (forall k :: k in s.table ==>
          && s.table[k] in s.entries && s.entries[s.table[k]].inCache
          && SlotOfEntry(s.entries[s.table[k]]) == k
          && loose != Some(s.table[k]))
    && (forall e :: e in s.entries && s.entries[e].inCache && loose != Some(e) ==>
          SlotOfEntry(s.entries[e]) in s.table && s.table[SlotOfEntry(s.entries[e])] == e)
    && (loose.Some? ==> loose.value in s.entries && s.entries[loose.value].inCache)
  }

  ghost predicate UsageOk(s: Shard) {
    s.usage == TotalCharge(s.entries, s.lru) + TotalCharge(s.entries, s.inUse)
  }

  /** Every entry allocated is alive or was deleted, and not both. */
  ghost predicate LivesOk(s: Shard) {
    && NoRepeats(s.deleted)
    && (forall e :: e in s.entries ==> e < s.next)
    && (forall e :: e in s.deleted ==> e < s.next && e !in s.entries)
    && (forall e: nat :: e < s.next ==> e in s.entries || e in s.deleted)
  }

  ghost predicate Inv(s: Shard, loose: Option<nat>) {
    RefsOk(s) && ListsOk(s) && TableOk(s, loose) && UsageOk(s) && LivesOk(s)
  }

  // ---- what the operations do ----

  function Unlink(s: Shard, e: nat): Shard {
    s.(lru := Without(s.lru, e), inUse := Without(s.inUse, e))
  }

  function Ref(s: Shard, e: nat): Shard
    requires e in s.entries
  {
    var x := s.entries[e];
    var s1 := if x.refs == 1 && x.inCache then Unlink(s, e).(inUse := Without(s.inUse, e) + [e]) else s;
    s1.(entries := s.entries[e := x.(refs := x.refs + 1)])
  }

  function Unref(s: Shard, e: nat): Shard
    requires e in s.entries && s.entries[e].refs > 0
  {
    var x := s.entries[e].(refs := s.entries[e].refs - 1);
    if x.refs == 0 then s.(entries := s.entries - {e}, deleted := s.deleted + [e])
    else if x.inCache && x.refs == 1 then Unlink(s, e).(lru := Without(s.lru, e) + [e], entries := s.entries[e := x])
    else s.(entries := s.entries[e := x])
  }

  function FinishErase(s: Shard, loose: Option<nat>): Shard
    requires loose.Some? ==> loose.value in s.entries && s.entries[loose.value].refs > 0
  {
    match loose
    case None => s
    case Some(e) =>
      var x := s.entries[e];
      Unref(Unlink(s, e).(entries := s.entries[e := x.(inCache := false)], usage := s.usage - x.charge), e)
  }

  lemma {:induction false} WithoutMembers(l: seq<nat>, e: nat)
    ensures forall x :: x in Without(l, e) ==> x in l
    ensures forall x :: x in l && x != e ==> x in Without(l, e)
    ensures e !in l ==> Without(l, e) == l
  {
    if l != [] && l[0] != e {
      WithoutMembers(l[1..], e);
      assert forall x :: x in l <==> x == l[0] || x in l[1..];
      assert l == [l[0]] + l[1..];
    } else if l != [] {
      assert forall x :: x in l <==> x == l[0] || x in l[1..];
    }
  }

  lemma {:induction false} WithoutRepeats(l: seq<nat>, e: nat)
    requires NoRepeats(l)
    ensures NoRepeats(Without(l, e)) && e !in Without(l, e)
  {
    if l != [] && l[0] != e {
      WithoutRepeats(l[1..], e);
      WithoutMembers(l[1..], e);
      assert l[0] !in l[1..];
    }
  }

  lemma WithoutIs(l: seq<nat>, e: nat)
    requires NoRepeats(l)
    ensures NoRepeats(Without(l, e)) && forall x :: x in Without(l, e) <==> x in l && x != e
    ensures e !in l ==> Without(l, e) == l
  {
    WithoutRepeats(l, e);
    WithoutMembers(l, e);
  }

  lemma AppendIs(l: seq<nat>, e: nat)
    requires NoRepeats(l) && e !in l
    ensures NoRepeats(l + [e]) && forall x :: x in l + [e] <==> x in l || x == e
  {
  }

  lemma {:induction false} ChargeWithout(entries: map<nat, Entry>, l: seq<nat>, e: nat)
    requires e in entries
    ensures TotalCharge(entries, Without(l, e)) == TotalCharge(entries, l) - if e in l then entries[e].charge else 0
  {
    if l != [] && l[0] != e {
      ChargeWithout(entries, l[1..], e);
      assert e in l <==> e in l[1..];
    }
  }

  lemma {:induction false} ChargeAppend(entries: map<nat, Entry>, l: seq<nat>, e: nat)
    requires e in entries
    ensures TotalCharge(entries, l + [e]) == TotalCharge(entries, l) + entries[e].charge
  {
    if l != [] {
      ChargeAppend(entries, l[1..], e);
      assert (l + [e])[1..] == l[1..] + [e];
    }
  }

  /** Only the charges of the entries listed count. */
  lemma {:induction false} ChargeSame(a: map<nat, Entry>, b: map<nat, Entry>, l: seq<nat>)
    requires forall e :: e in l ==> e in a && e in b && a[e].charge == b[e].charge
    ensures TotalCharge(a, l) == TotalCharge(b, l)
  {
    if l != [] {
      ChargeSame(a, b, l[1..]);
    }
  }

  lemma RefKeepsLists(s: Shard, e: nat)
    requires ListsOk(s) && e in s.entries && s.entries[e].refs > 0
    ensures ListsOk(Ref(s, e))
  {
    hide Without, NoRepeats;
    WithoutIs(s.lru, e);
    WithoutIs(s.inUse, e);
    AppendIs(Without(s.inUse, e), e);
  }

  lemma RefKeepsUsage(s: Shard, e: nat)
    requires ListsOk(s) && UsageOk(s) && e in s.entries
    ensures UsageOk(Ref(s, e))
  {
    hide Without, NoRepeats, TotalCharge;
    var t := Ref(s, e);
    WithoutIs(s.lru, e);
    WithoutIs(s.inUse, e);
    ChargeWithout(s.entries, s.lru, e);
    ChargeWithout(s.entries, s.inUse, e);
    ChargeAppend(s.entries, Without(s.inUse, e), e);
    ChargeSame(s.entries, t.entries, t.lru);
    ChargeSame(s.entries, t.entries, t.inUse);
  }

  lemma RefKeepsRefs(s: Shard, e: nat)
    requires RefsOk(s) && e in s.entries
    ensures RefsOk(Ref(s, e).(held := s.held + multiset{e}))
  {
    hide Without;
  }

  lemma RefKeepsTable(s: Shard, loose: Option<nat>, e: nat)
    requires TableOk(s, loose) && e in s.entries
    ensures TableOk(Ref(s, e), loose)
  {
    hide Without;
  }

  lemma RefKeepsLives(s: Shard, e: nat)
    requires LivesOk(s) && e in s.entries
    ensures LivesOk(Ref(s, e))
  {
    hide Without, NoRepeats;
  }

  /** Only the reference counts have to do with what clients hold. */
  lemma HeldElsewhere(s: Shard, loose: Option<nat>, held: multiset<nat>)
    requires ListsOk(s) && UsageOk(s) && TableOk(s, loose) && LivesOk(s)
    ensures ListsOk(s.(held := held)) && UsageOk(s.(held := held)) && TableOk(s.(held := held), loose) &&
            LivesOk(s.(held := held))
  {
    hide NoRepeats, TotalCharge;
  }

  lemma EntryHasRefs(s: Shard, e: nat)
    requires RefsOk(s) && (e in s.entries || e in s.held)
    ensures e in s.entries && s.entries[e].refs > 0 && (s.entries[e].inCache && e in s.held ==> s.entries[e].refs > 1)
  {
  }

  /** A client takes a handle to an entry. */
  lemma RefKeeps(s: Shard, loose: Option<nat>, e: nat)
    requires Inv(s, loose) && e in s.entries
    ensures Inv(Ref(s, e).(held := s.held + multiset{e}), loose)
  {
    hide Ref, ListsOk, UsageOk, TableOk, LivesOk, RefsOk;
    EntryHasRefs(s, e);
    RefKeepsLists(s, e);
    RefKeepsUsage(s, e);
    RefKeepsRefs(s, e);
    RefKeepsTable(s, loose, e);
    RefKeepsLives(s, e);
    HeldElsewhere(Ref(s, e), loose, s.held + multiset{e});
  }

  lemma UnrefKeepsLists(s: Shard, e: nat)
    requires ListsOk(s) && e in s.entries && s.entries[e].refs > 0
    requires s.entries[e].inCache ==> s.entries[e].refs > 1
    ensures ListsOk(Unref(s, e))
  {
    hide Without, NoRepeats;
    WithoutIs(s.lru, e);
    WithoutIs(s.inUse, e);
    AppendIs(Without(s.lru, e), e);
  }

  lemma UnrefKeepsUsage(s: Shard, e: nat)
    requires ListsOk(s) && UsageOk(s) && e in s.entries && s.entries[e].refs > 0
    requires s.entries[e].inCache ==> s.entries[e].refs > 1
    ensures UsageOk(Unref(s, e))
  {
    hide Without, NoRepeats, TotalCharge;
    var t := Unref(s, e);
    WithoutIs(s.lru, e);
    WithoutIs(s.inUse, e);
    ChargeWithout(s.entries, s.lru, e);
    ChargeWithout(s.entries, s.inUse, e);
    ChargeAppend(s.entries, Without(s.lru, e), e);
    ChargeSame(s.entries, t.entries, if t.lru == s.lru then s.lru else Without(s.lru, e) + [e]);
    ChargeSame(s.entries, t.entries, t.inUse);
  }

  lemma UnrefKeepsLives(s: Shard, e: nat)
    requires LivesOk(s) && e in s.entries && s.entries[e].refs > 0
    ensures LivesOk(Unref(s, e))
  {
    AppendIs(s.deleted, e);
  }

  lemma UnrefKeepsTable(s: Shard, e: nat)
    requires TableOk(s, None) && e in s.entries && s.entries[e].refs > 0
    requires s.entries[e].inCache ==> s.entries[e].refs > 1
    ensures TableOk(Unref(s, e), None)
  {
  }

  lemma UnrefKeepsRefs(s: Shard, e: nat)
    requires RefsOk(s) && e in s.held && e in s.entries && s.entries[e].refs > 0
    ensures RefsOk(Unref(s, e).(held := s.held - multiset{e}))
  {
    hide Without;
  }

  /** A client gives a handle back; the entry is deleted when nobody else refers to it. */
  lemma UnrefKeeps(s: Shard, e: nat)
    requires Inv(s, None) && e in s.held
    ensures e in s.entries && s.entries[e].refs > 0
    ensures Inv(Unref(s, e).(held := s.held - multiset{e}), None)
  {
    hide Unref, ListsOk, UsageOk, TableOk, LivesOk, RefsOk;
    EntryHasRefs(s, e);
    UnrefKeepsRefs(s, e);
    UnrefKeepsLists(s, e);
    UnrefKeepsUsage(s, e);
    UnrefKeepsLives(s, e);
    UnrefKeepsTable(s, e);
    HeldElsewhere(Unref(s, e), None, s.held - multiset{e});
  }

  /** The state in which FinishErase lets go of the cache's reference. */
  function Erased(s: Shard, e: nat): Shard
    requires e in s.entries
  {
    Unlink(s, e).(entries := s.entries[e := s.entries[e].(inCache := false)], usage := s.usage - s.entries[e].charge)
  }

  lemma ErasedLists(s: Shard, e: nat)
    requires ListsOk(s) && e in s.entries && s.entries[e].inCache && s.entries[e].refs > 0
    ensures ListsOk(Erased(s, e))
  {
    hide Without, NoRepeats;
    WithoutIs(s.lru, e);
    WithoutIs(s.inUse, e);
  }

  lemma ErasedUsage(s: Shard, e: nat)
    requires ListsOk(s) && UsageOk(s) && e in s.entries && s.entries[e].inCache && s.entries[e].refs > 0
    ensures UsageOk(Erased(s, e))
  {
    hide Without, NoRepeats, TotalCharge;
    var t := Erased(s, e);
    WithoutIs(s.lru, e);
    WithoutIs(s.inUse, e);
    ChargeWithout(s.entries, s.lru, e);
    ChargeWithout(s.entries, s.inUse, e);
    ChargeSame(s.entries, t.entries, t.lru);
    ChargeSame(s.entries, t.entries, t.inUse);
  }

  lemma ErasedRest(s: Shard, e: nat)
    requires RefsOk(s) && TableOk(s, Some(e)) && LivesOk(s)
    ensures e in s.entries && s.entries[e].inCache && s.entries[e].refs == s.held[e] + 1
    ensures TableOk(Erased(s, e), None) && LivesOk(Erased(s, e))
  {
    hide Without, NoRepeats;
  }

  lemma ErasedRefs(s: Shard, e: nat)
    requires RefsOk(s) && e in s.entries && s.entries[e].inCache && s.entries[e].refs == s.held[e] + 1
    ensures RefsOk(Unref(Erased(s, e), e))
  {
    hide Without;
  }

  lemma EraseKeeps(s: Shard, e: nat)
    requires Inv(s, Some(e))
    ensures e in s.entries && s.entries[e].refs > 0 && Inv(Unref(Erased(s, e), e), None)
  {
    hide Unref, Erased, ListsOk, UsageOk, TableOk, LivesOk, RefsOk;
    ErasedRest(s, e);
    ErasedEntry(s, e);
    ErasedLists(s, e);
    ErasedUsage(s, e);
    ErasedRefs(s, e);
    UnrefKeepsLists(Erased(s, e), e);
    UnrefKeepsUsage(Erased(s, e), e);
    UnrefKeepsLives(Erased(s, e), e);
    UnrefKeepsTable(Erased(s, e), e);
  }

  lemma ErasedEntry(s: Shard, e: nat)
    requires e in s.entries
    ensures e in Erased(s, e).entries && Erased(s, e).entries[e] == s.entries[e].(inCache := false)
  {
  }

  /** An entry taken out of the table leaves its list, and the cache's reference goes. */
  lemma FinishEraseKeeps(s: Shard, loose: Option<nat>)
    requires Inv(s, loose)
    ensures loose.Some? ==> loose.value in s.entries && s.entries[loose.value].refs > 0
    ensures Inv(FinishErase(s, loose), None)
  {
    hide Inv;
    if loose.Some? {
      EraseKeeps(s, loose.value);
    }
  }

  // ---- insertion and eviction ----

  /** A new entry, referred to by the client that asked for it and by nobody else. */
  function Allocated(s: Shard, x: Entry): Shard {
    s.(entries := s.entries[s.next := x], next := s.next + 1, held := s.held + multiset{s.next})
  }

  /** The new entry joins the in-use list and the table, in place of an older one of the same key. */
  function Cached(s: Shard, x: Entry): Shard {
    var s1 := Allocated(s, x.(inCache := true, refs := 2));
    s1.(inUse := s.inUse + [s.next], usage := s.usage + x.charge, table := s.table[SlotOfEntry(x) := s.next])
  }

  function Replaced(s: Shard, x: Entry): Option<nat> {
    if SlotOfEntry(x) in s.table then Some(s.table[SlotOfEntry(x)]) else None
  }

  lemma CachedLists(s: Shard, x: Entry)
    requires ListsOk(s) && LivesOk(s)
    ensures ListsOk(Cached(s, x))
  {
    hide NoRepeats;
    AppendIs(s.inUse, s.next);
  }

  lemma CachedUsage(s: Shard, x: Entry)
    requires ListsOk(s) && LivesOk(s) && UsageOk(s)
    ensures UsageOk(Cached(s, x))
  {
    hide NoRepeats, TotalCharge;
    var t := Cached(s, x);
    ChargeSame(s.entries, t.entries, s.lru);
    ChargeSame(s.entries, t.entries, s.inUse);
    ChargeAppend(t.entries, s.inUse, s.next);
  }

  lemma CachedTable(s: Shard, x: Entry)
    requires TableOk(s, None) && LivesOk(s)
    ensures TableOk(Cached(s, x), Replaced(s, x))
  {
    hide NoRepeats;
  }

  lemma CachedRest(s: Shard, x: Entry)
    requires RefsOk(s) && LivesOk(s)
    ensures RefsOk(Cached(s, x)) && LivesOk(Cached(s, x))
  {
    hide NoRepeats;
  }

  lemma CachedKeeps(s: Shard, x: Entry)
    requires Inv(s, None)
    ensures Inv(Cached(s, x), Replaced(s, x))
  {
    hide Cached, ListsOk, UsageOk, TableOk, LivesOk, RefsOk;
    CachedLists(s, x);
    CachedUsage(s, x);
    CachedTable(s, x);
    CachedRest(s, x);
  }

  lemma AllocatedLists(s: Shard, x: Entry)
    requires ListsOk(s) && UsageOk(s) && TableOk(s, None) && LivesOk(s) && !x.inCache
    ensures ListsOk(Allocated(s, x)) && UsageOk(Allocated(s, x)) && TableOk(Allocated(s, x), None)
  {
    hide NoRepeats, TotalCharge;
    ChargeSame(s.entries, Allocated(s, x).entries, s.lru);
    ChargeSame(s.entries, Allocated(s, x).entries, s.inUse);
  }

  lemma AllocatedRest(s: Shard, x: Entry)
    requires RefsOk(s) && LivesOk(s) && !x.inCache && x.refs == 1
    ensures RefsOk(Allocated(s, x)) && LivesOk(Allocated(s, x))
  {
    hide NoRepeats;
  }

  lemma AllocatedKeeps(s: Shard, x: Entry)
    requires Inv(s, None) && !x.inCache && x.refs == 1
    ensures Inv(Allocated(s, x), None)
  {
    hide Allocated, ListsOk, UsageOk, TableOk, LivesOk, RefsOk;
    AllocatedLists(s, x);
    AllocatedRest(s, x);
  }

  /** The entry leaves the table; FinishErase is to follow. */
  lemma TakenOutKeeps(s: Shard, k: Slot)
    requires Inv(s, None) && k in s.table
    ensures Inv(s.(table := s.table - {k}), Some(s.table[k]))
  {
    hide NoRepeats, TotalCharge;
  }

  function DropOldest(s: Shard): Shard
    requires s.lru != [] && s.lru[0] in s.entries && s.entries[s.lru[0]].refs > 0
  {
    FinishErase(s.(table := s.table - {SlotOfEntry(s.entries[s.lru[0]])}), Some(s.lru[0]))
  }

  lemma OldestIsIdle(s: Shard)
    requires Inv(s, None) && s.lru != []
    ensures var e := s.lru[0];
      && e in s.entries && s.entries[e].refs == 1 && s.entries[e].inCache && s.held[e] == 0
      && SlotOfEntry(s.entries[e]) in s.table && s.table[SlotOfEntry(s.entries[e])] == e
      && e !in s.inUse
  {
    hide NoRepeats, TotalCharge;
    assert s.lru[0] in s.lru;
  }

  lemma DropOldestKeeps(s: Shard)
    requires Inv(s, None) && s.lru != []
    ensures s.lru[0] in s.entries && s.entries[s.lru[0]].refs > 0
    ensures var t, e := DropOldest(s), s.lru[0];
      && Inv(t, None)
      && t.lru == s.lru[1..] && t.inUse == s.inUse && t.deleted == s.deleted + [e]
      && t.held == s.held && t.capacity == s.capacity && t.next == s.next
      && t.usage == s.usage - s.entries[e].charge
      && t.entries == s.entries - {e} && t.table == s.table - {SlotOfEntry(s.entries[e])}
  {
    OldestIsIdle(s);
    TakenOutKeeps(s, SlotOfEntry(s.entries[s.lru[0]]));
    FinishEraseKeeps(s.(table := s.table - {SlotOfEntry(s.entries[s.lru[0]])}), Some(s.lru[0]));
    WithoutMembers(s.inUse, s.lru[0]);
    hide Inv;
  }

  /** Drops idle entries, the one idle longest first: all of them, or as many as it takes to fit. */
  ghost function Evict(s: Shard, all: bool): (t: Shard)
    requires Inv(s, None)
    ensures Inv(t, None)
    decreases |s.lru|
  {
    if (all || s.usage > s.capacity) && s.lru != [] then
      DropOldestKeeps(s);
      Evict(DropOldest(s), all)
    else s
  }

  /** What goes is a front part of the LRU list, and nothing else changes. */
  lemma {:induction false} EvictMeans(s: Shard, all: bool)
    requires Inv(s, None)
    ensures var t := Evict(s, all);
      && |t.lru| <= |s.lru|
      && var n := |s.lru| - |t.lru|;
      && t.lru == s.lru[n..] && t.deleted == s.deleted + s.lru[..n]
      && t.inUse == s.inUse && t.held == s.held && t.capacity == s.capacity && t.next == s.next
      && (forall e :: e in t.entries <==> e in s.entries && e !in s.lru[..n])
      && (forall e :: e in t.entries ==> t.entries[e] == s.entries[e])
    decreases |s.lru|
  {
    hide Inv, DropOldest;
    if (all || s.usage > s.capacity) && s.lru != [] {
      DropOldestKeeps(s);
      var s1 := DropOldest(s);
      EvictMeans(s1, all);
      var n := |s.lru| - |Evict(s, all).lru|;
      assert s.lru[..n] == [s.lru[0]] + s1.lru[..n - 1];
    } else {
      assert s.lru[..0] == [];
    }
  }

  /** No more goes than needed, and what stays fits unless all of it is in use. */
  lemma {:induction false} EvictFits(s: Shard, all: bool)
    requires Inv(s, None)
    ensures var t := Evict(s, all);
      && |t.lru| <= |s.lru|
      && var n := |s.lru| - |t.lru|;
      && (t.lru == [] || (!all && t.usage <= t.capacity))
      && (n == 0 ==> t == s)
      && (!all && n > 0 ==> s.lru[n - 1] in s.entries && t.usage + s.entries[s.lru[n - 1]].charge > t.capacity)
    decreases |s.lru|
  {
    hide Inv, DropOldest;
    EvictMeans(s, all);
    if (all || s.usage > s.capacity) && s.lru != [] {
      DropOldestKeeps(s);
      EvictFits(DropOldest(s), all);
    }
  }

  /** Insert up to the point where idle entries are dropped. */
  ghost function Admitted(s: Shard, x: Entry): (t: Shard)
    requires Inv(s, None) && !x.inCache && x.refs == 1
    ensures Inv(t, None)
  {
    if s.capacity > 0 then
      CachedKeeps(s, x);
      FinishEraseKeeps(Cached(s, x), Replaced(s, x));
      FinishErase(Cached(s, x), Replaced(s, x))
    else
      AllocatedKeeps(s, x);
      Allocated(s, x)
  }

  /** The whole of Insert. */
  ghost function Inserted(s: Shard, x: Entry): (t: Shard)
    requires Inv(s, None) && !x.inCache && x.refs == 1
    ensures Inv(t, None)
  {
    Evict(Admitted(s, x), false)
  }

  /** Afterwards the usage is within the capacity or nothing is idle; the caller holds the new entry; and it is the one
      found under its key, if the cache has any capacity. */
  lemma InsertMeans(s: Shard, x: Entry)
    requires Inv(s, None) && !x.inCache && x.refs == 1
    ensures var t := Inserted(s, x);
      && (t.usage <= t.capacity || t.lru == [])
      && t.next == s.next + 1 && s.next !in s.entries
      && t.held == s.held + multiset{s.next}
      && s.next in t.entries && t.entries[s.next].key == x.key && t.entries[s.next].hash == x.hash
      && t.entries[s.next].value == x.value
      && (s.capacity > 0 ==> SlotOfEntry(x) in t.table && t.table[SlotOfEntry(x)] == s.next)
  {
    if s.capacity > 0 {
      CachedKeeps(s, x);
      var c := Cached(s, x);
      FinishEraseKeeps(c, Replaced(s, x));
      var f := FinishErase(c, Replaced(s, x));
      NewEntryStays(s, x);
      EvictMeans(f, false);
      EvictFits(f, false);
      CachedIsFound(Inserted(s, x), s.next);
    } else {
      AllocatedKeeps(s, x);
      EvictMeans(Allocated(s, x), false);
      EvictFits(Allocated(s, x), false);
      AllocatedIsBusy(s, x);
    }
    FreshEntry(s);
  }

  lemma FreshEntry(s: Shard)
    requires Inv(s, None)
    ensures s.next !in s.entries && s.next !in s.lru && s.next !in s.inUse
  {
  }

  lemma AllocatedIsBusy(s: Shard, x: Entry)
    requires Inv(s, None) && !x.inCache
    ensures s.next !in Allocated(s, x).lru && s.next in Allocated(s, x).entries && Allocated(s, x).entries[s.next] == x
  {
    FreshEntry(s);
  }

  lemma NewEntryStays(s: Shard, x: Entry)
    requires Inv(s, None)
    requires Inv(Cached(s, x), Replaced(s, x))
    ensures Replaced(s, x).Some? ==>
              Replaced(s, x).value in Cached(s, x).entries && Cached(s, x).entries[Replaced(s, x).value].refs > 0
    ensures var f := FinishErase(Cached(s, x), Replaced(s, x));
      && s.next in f.entries && f.entries[s.next] == x.(inCache := true, refs := 2) && s.next !in f.lru
      && f.held == s.held + multiset{s.next} && f.next == s.next + 1 && f.capacity == s.capacity
  {
    hide Without, NoRepeats, TotalCharge;
    FinishEraseKeeps(Cached(s, x), Replaced(s, x));
    FreshEntry(s);
  }

  lemma CachedIsFound(s: Shard, e: nat)
    requires Inv(s, None) && e in s.entries && s.entries[e].inCache
    ensures SlotOfEntry(s.entries[e]) in s.table && s.table[SlotOfEntry(s.entries[e])] == e
  {
  }

  // ---- runs ----

  /** What clients ask of the cache; only a handle that a client has may be released. */
  datatype Op =
    | Lookup(key: Bytes, hash: nat)
    | Release(e: nat)
    | Insert(x: Entry)
    | Erase(key: Bytes, hash: nat)
    | Prune
    | SetCapacity(n: nat)

  ghost predicate Does(s: Shard, op: Op, t: Shard) {
    && Inv(s, None)
    && match op
       case Lookup(key, hash) =>
         if Slot(hash, key) in s.table && s.table[Slot(hash, key)] in s.entries
         then t == Ref(s, s.table[Slot(hash, key)]).(held := s.held + multiset{s.table[Slot(hash, key)]})
         else t == s
       case Release(e) =>
         e in s.held && e in s.entries && s.entries[e].refs > 0 && t == Unref(s, e).(held := s.held - multiset{e})
       case Insert(x) => !x.inCache && x.refs == 1 && t == Inserted(s, x)
       case Erase(key, hash) => Erases(s, Slot(hash, key), t)
       case Prune => t == Evict(s, true)
       case SetCapacity(n) => t == s.(capacity := n)
  }

  ghost predicate Erases(s: Shard, k: Slot, t: Shard) {
    if k in s.table && s.table[k] in s.entries && s.entries[s.table[k]].refs > 0
    then t == FinishErase(s.(table := s.table - {k}), Some(s.table[k]))
    else t == s
  }

  lemma ErasesKeeps(s: Shard, k: Slot, t: Shard)
    requires Inv(s, None) && Erases(s, k, t)
    ensures Inv(t, None)
  {
    hide Inv, FinishErase;
    if k in s.table {
      TableIsAlive(s, k);
      TakenOutKeeps(s, k);
      FinishEraseKeeps(s.(table := s.table - {k}), Some(s.table[k]));
    }
  }

  /** Every operation keeps the invariant. */
  lemma DoesKeeps(s: Shard, op: Op, t: Shard)
    requires Does(s, op, t)
    ensures Inv(t, None)
  {
    hide Inv, Erases, Ref, Unref;
    match op
    case Lookup(key, hash) =>
      if Slot(hash, key) in s.table && s.table[Slot(hash, key)] in s.entries {
        RefKeeps(s, None, s.table[Slot(hash, key)]);
      }
    case Release(e) => UnrefKeeps(s, e);
    case Insert(x) =>
    case Erase(key, hash) => ErasesKeeps(s, Slot(hash, key), t);
    case Prune =>
    case SetCapacity(n) => SameButCapacity(s, n);
  }

  lemma FinishEraseGrows(s: Shard, loose: Option<nat>)
    requires loose.Some? ==> loose.value in s.entries && s.entries[loose.value].refs > 0
    ensures s.deleted <= FinishErase(s, loose).deleted && s.next == FinishErase(s, loose).next
  {
    hide Without;
  }

  lemma InsertedGrows(s: Shard, x: Entry)
    requires Inv(s, None) && !x.inCache && x.refs == 1
    ensures s.deleted <= Inserted(s, x).deleted && s.next <= Inserted(s, x).next
  {
    hide Inv, Evict, FinishErase;
    AdmittedIs(s, x);
    if s.capacity > 0 {
      FinishEraseGrows(Cached(s, x), Replaced(s, x));
    }
    EvictMeans(Admitted(s, x), false);
  }

  /** Entries deleted stay so, and numbers are not used again. */
  lemma DoesGrows(s: Shard, op: Op, t: Shard)
    requires Does(s, op, t)
    ensures s.deleted <= t.deleted && s.next <= t.next
  {
    hide Inv, Inserted, Evict, FinishErase, Without;
    match op
    case Lookup(key, hash) =>
    case Release(e) =>
    case Insert(x) => InsertedGrows(s, x);
    case Erase(key, hash) =>
      var k := Slot(hash, key);
      if k in s.table && s.table[k] in s.entries && s.entries[s.table[k]].refs > 0 {
        FinishEraseGrows(s.(table := s.table - {k}), Some(s.table[k]));
      }
    case Prune => EvictMeans(s, true);
    case SetCapacity(n) =>
  }

  const EMPTY := Shard(0, 0, [], [], map[], map[], 0, multiset{}, [])

  /** A run from the empty cache: one more state than operations. */
  ghost predicate Run(states: seq<Shard>, ops: seq<Op>) {
    |states| == |ops| + 1 && states[0] == EMPTY && forall i :: 0 <= i < |ops| ==> Does(states[i], ops[i], states[i + 1])
  }

  lemma {:induction false} RunKeeps(states: seq<Shard>, ops: seq<Op>, i: nat)
    requires Run(states, ops) && i < |states|
    ensures Inv(states[i], None)
  {
    hide Inv, Does;
    if i == 0 {
      EmptyIsOk(EMPTY);
    } else {
      DoesKeeps(states[i - 1], ops[i - 1], states[i]);
    }
  }

  lemma {:induction false} RunGrows(states: seq<Shard>, ops: seq<Op>, i: nat, j: nat)
    requires Run(states, ops) && i <= j < |states|
    ensures states[i].deleted <= states[j].deleted && states[i].next <= states[j].next
    decreases j
  {
    hide Does;
    if i < j {
      RunGrows(states, ops, i, j - 1);
      DoesGrows(states[j - 1], ops[j - 1], states[j]);
    }
  }

  /** A client holds the entry, or the cache has it in one of its lists. */
  ghost predicate Referred(s: Shard, e: nat) {
    e in s.held || e in s.lru || e in s.inUse
  }

  lemma DeletedOrReferred(s: Shard, e: nat)
    requires Inv(s, None)
    ensures e in s.deleted <==> e < s.next && !Referred(s, e)
    ensures NoRepeats(s.deleted) && (Referred(s, e) ==> e < s.next)
  {
    hide NoRepeats, UsageOk, TableOk;
    if e < s.next && e !in s.deleted {
      assert e in s.entries;
    }
    if e in s.held {
      assert e in s.entries;
    }
  }

  /** Over every run: the deleter of an entry runs exactly in the step with which the last reference to it goes, a
      client's or the cache's. */
  lemma DeletedWithLastReference(states: seq<Shard>, ops: seq<Op>, i: nat, e: nat)
    requires Run(states, ops) && i < |ops|
    ensures e in states[i + 1].deleted && e !in states[i].deleted <==>
              !Referred(states[i + 1], e) && (Referred(states[i], e) || states[i].next <= e < states[i + 1].next)
  {
    hide Inv, Does, Referred;
    RunKeeps(states, ops, i);
    RunKeeps(states, ops, i + 1);
    RunGrows(states, ops, i, i + 1);
    DeletedOrReferred(states[i], e);
    DeletedOrReferred(states[i + 1], e);
  }

  /** Over every run: the list of deleters run only grows, none is in it twice, what is in it is never held or cached
      again, and no entry is lost: each one ever allocated is in it, or referred to. */
  lemma EachDeletedOnce(states: seq<Shard>, ops: seq<Op>, i: nat, j: nat, e: nat)
    requires Run(states, ops) && i <= j < |states|
    ensures states[i].deleted <= states[j].deleted && NoRepeats(states[j].deleted)
    ensures e in states[i].deleted ==> !Referred(states[j], e)
    ensures e < states[i].next ==> (e in states[i].deleted <==> !Referred(states[i], e))
  {
    hide Inv, Does, Referred, NoRepeats;
    RunKeeps(states, ops, i);
    RunKeeps(states, ops, j);
    RunGrows(states, ops, i, j);
    DeletedOrReferred(states[i], e);
    DeletedOrReferred(states[j], e);
  }

  class LRUCache {
    var capacity: nat
    var usage: int
    var lru: seq<nat>
    var inUse: seq<nat>
    const table: HandleTable
    var entries: map<nat, Entry>
    var next: nat
    var deleted: seq<nat>
    ghost var held: multiset<nat>

    ghost function Abs(): Shard
      reads this, table
    {
      Shard(capacity, usage, lru, inUse, table.m, entries, next, held, deleted)
    }

    ghost predicate Ok()
      reads this, table
    {
      table.Ok() && Inv(Abs(), None)
    }

    constructor ()
      ensures Ok() && Abs() == EMPTY && fresh(table)
    {
      capacity, usage, lru, inUse, entries, next, deleted, held := 0, 0, [], [], map[], 0, [], multiset{};
      table := new HandleTable();
      new;
      EmptyIsOk(Abs());
    }

    method SetCapacity(n: nat)
      requires Ok()
      modifies this`capacity
      ensures Ok() && Abs() == old(Abs()).(capacity := n)
      ensures Does(old(Abs()), Op.SetCapacity(n), Abs())
    {
      ghost var s := Abs();
      capacity := n;
      SameButCapacity(s, n);
    }

    method LRU_Remove(e: nat)
      modifies this`lru, this`inUse
      ensures Abs() == Unlink(old(Abs()), e)
    {
      lru := Without(lru, e);
      inUse := Without(inUse, e);
    }

    method Ref_(e: nat)
      requires e in entries
      modifies this
      ensures Abs() == Ref(old(Abs()), e)
    {
      var x := entries[e];
      if x.refs == 1 && x.inCache {
        LRU_Remove(e);
        inUse := inUse + [e];
      }
      entries := entries[e := x.(refs := x.refs + 1)];
    }

    method Unref_(e: nat)
      requires e in entries && entries[e].refs > 0
      modifies this
      ensures Abs() == Unref(old(Abs()), e)
    {
      var x := entries[e].(refs := entries[e].refs - 1);
      entries := entries[e := x];
      if x.refs == 0 {
        deleted := deleted + [e];
        entries := entries - {e};
        assert entries == old(entries) - {e};
      } else if x.inCache && x.refs == 1 {
        LRU_Remove(e);
        lru := lru + [e];
      }
    }

    method FinishErase_(loose: Option<nat>) returns (erased: bool)
      requires loose.Some? ==> loose.value in entries && entries[loose.value].refs > 0
      modifies this
      ensures Abs() == FinishErase(old(Abs()), loose) && erased == loose.Some?
    {
      if loose.Some? {
        var e := loose.value;
        LRU_Remove(e);
        var x := entries[e];
        entries := entries[e := x.(inCache := false)];
        usage := usage - x.charge;
        Unref_(e);
      }
      return loose.Some?;
    }

    /** Finds an entry by its key; the caller then holds it. */
    method Lookup(key: Bytes, hash: nat) returns (r: Option<nat>)
      requires Ok()
      modifies this
      ensures Ok()
      ensures r == if Slot(hash, key) in old(table.m) then Some(old(table.m)[Slot(hash, key)]) else None
      ensures r == None ==> Abs() == old(Abs())
      ensures r.Some? ==>
                r.value in old(entries) && Abs() == Ref(old(Abs()), r.value).(held := old(held) + multiset{r.value})
      ensures Does(old(Abs()), Op.Lookup(key, hash), Abs())
    {
      hide Inv;
      r := table.Lookup(key, hash);
      if r.Some? {
        ghost var s := Abs();
        TableIsAlive(s, Slot(hash, key));
        RefKeeps(s, None, r.value);
        Ref_(r.value);
        held := held + multiset{r.value};
      }
    }

    method Release(e: nat)
      requires Ok() && e in held
      modifies this
      ensures Ok() && e in old(entries) && old(entries)[e].refs > 0
      ensures Abs() == Unref(old(Abs()), e).(held := old(held) - multiset{e})
      ensures Does(old(Abs()), Op.Release(e), Abs())
    {
      hide Inv;
      UnrefKeeps(Abs(), e);
      Unref_(e);
      held := held - multiset{e};
    }

    /** Allocates an entry with a reference for the cache, lists it and puts it in the table. */
    method Cache(x: Entry) returns (loose: Option<nat>)
      requires table.Ok()
      modifies this, table
      ensures table.Ok() && Abs() == Cached(old(Abs()), x) && loose == Replaced(old(Abs()), x)
    {
      hide table.Ok;
      entries := entries[next := x.(refs := 2, inCache := true)];
      inUse := inUse + [next];
      usage := usage + x.charge;
      loose := table.Insert(Handle(next, x.key, x.hash));
      held := held + multiset{next};
      next := next + 1;
    }

    method Admit(key: Bytes, hash: nat, value: Bytes, charge: nat) returns (e: nat)
      requires Ok()
      modifies this, table
      ensures Ok() && e == old(next)
      ensures Abs() == Admitted(old(Abs()), Entry(key, hash, value, charge, false, 1))
    {
      hide Inv, FinishErase, Admitted, Cached, Replaced, table.Ok;
      var x := Entry(key, hash, value, charge, false, 1);
      AdmittedIs(Abs(), x);
      e := next;
      if capacity > 0 {
        var loose := Cache(x);
        var _ := FinishErase_(loose);
      } else {
        entries := entries[e := x];
        held := held + multiset{e};
        next := next + 1;
      }
    }

    /** Adds an entry that the caller then holds, and drops idle ones while there is too much. */
    method Insert(key: Bytes, hash: nat, value: Bytes, charge: nat) returns (e: nat)
      requires Ok()
      modifies this, table
      ensures Ok() && e == old(next)
      ensures Abs() == Inserted(old(Abs()), Entry(key, hash, value, charge, false, 1))
      ensures Does(old(Abs()), Op.Insert(Entry(key, hash, value, charge, false, 1)), Abs())
    {
      hide Inv, Evict, Admitted, Erases, Ref, Unref, FinishErase, table.Ok;
      e := Admit(key, hash, value, charge);
      ghost var start := Abs();
      while usage > capacity && lru != []
        invariant Ok() && Evict(start, false) == Evict(Abs(), false)
        decreases |lru|
      {
        DropOne(false);
      }
      StopsHere(Abs(), false);
    }

    /** Takes the entry idle longest out of the table and the cache. */
    method DropOne(ghost all: bool)
      requires Ok() && lru != [] && (all || usage > capacity)
      modifies this, table
      ensures Ok() && |lru| < |old(lru)| && Evict(Abs(), all) == Evict(old(Abs()), all)
    {
      hide Inv, Evict;
      ghost var s := Abs();
      OldestIsIdle(s);
      DropOldestKeeps(s);
      StepsOn(s, all);
      var old_ := lru[0];
      var x := entries[old_];
      var r := table.Remove(x.key, x.hash);
      // What was found in the table is the entry itself.
      assert r == Some(old_);
      var erased := FinishErase_(r);
      assert Abs() == DropOldest(s);
    }

    method Erase(key: Bytes, hash: nat)
      requires Ok()
      modifies this, table
      ensures Ok()
      ensures Slot(hash, key) !in old(table.m) ==> Abs() == old(Abs())
      ensures Slot(hash, key) in old(table.m) ==>
                && old(table.m)[Slot(hash, key)] in old(entries)
                && old(entries[table.m[Slot(hash, key)]].refs) > 0
                && Abs() == FinishErase(old(Abs()).(table := old(table.m) - {Slot(hash, key)}),
                                        Some(old(table.m)[Slot(hash, key)]))
      ensures Does(old(Abs()), Op.Erase(key, hash), Abs())
    {
      hide Inv, FinishErase, table.Ok;
      ghost var s := Abs();
      if Slot(hash, key) in table.m {
        TableIsAlive(s, Slot(hash, key));
        TakenOutKeeps(s, Slot(hash, key));
        FinishEraseKeeps(s.(table := s.table - {Slot(hash, key)}), Some(s.table[Slot(hash, key)]));
      } else {
        assert table.m - {Slot(hash, key)} == table.m;
        NothingToErase(s);
      }
      var r := table.Remove(key, hash);
      var _ := FinishErase_(r);
    }

    /** Drops all idle entries. */
    method Prune()
      requires Ok()
      modifies this, table
      ensures Ok() && Abs() == Evict(old(Abs()), true)
      ensures Does(old(Abs()), Op.Prune, Abs())
    {
      hide Inv, Evict;
      ghost var s := Abs();
      while lru != []
        invariant Ok() && Evict(s, true) == Evict(Abs(), true)
        decreases |lru|
      {
        DropOne(true);
      }
      StopsHere(Abs(), true);
    }
  }

  lemma EmptyIsOk(s: Shard)
    requires s.usage == 0 && s.lru == [] && s.inUse == [] && s.table == map[] && s.entries == map[] && s.next == 0
    requires s.held == multiset{} && s.deleted == []
    ensures Inv(s, None)
  {
    hide Inv;
    assert RefsOk(s);
    assert TableOk(s, None);
    assert ListsOk(s) && UsageOk(s) && LivesOk(s);
    InvIs(s, None);
  }

  lemma InvIs(s: Shard, loose: Option<nat>)
    requires RefsOk(s) && ListsOk(s) && TableOk(s, loose) && UsageOk(s) && LivesOk(s)
    ensures Inv(s, loose)
  {
    hide RefsOk, ListsOk, TableOk, UsageOk, LivesOk;
  }

  lemma AdmittedIs(s: Shard, x: Entry)
    requires Inv(s, None) && !x.inCache && x.refs == 1
    ensures s.capacity == 0 ==> Admitted(s, x) == Allocated(s, x)
    ensures var c, r := Cached(s, x), Replaced(s, x);
      s.capacity > 0 ==>
            (r.Some? ==> r.value in c.entries && c.entries[r.value].refs > 0) && Admitted(s, x) == FinishErase(c, r)
  {
    CachedKeeps(s, x);
    FinishEraseKeeps(Cached(s, x), Replaced(s, x));
  }

  lemma NothingToErase(s: Shard)
    ensures FinishErase(s, None) == s
  {
  }

  lemma StopsHere(s: Shard, all: bool)
    requires Inv(s, None) && (s.lru == [] || (!all && s.usage <= s.capacity))
    ensures Evict(s, all) == s
  {
  }

  lemma StepsOn(s: Shard, all: bool)
    requires Inv(s, None) && s.lru != [] && (all || s.usage > s.capacity)
    ensures s.lru[0] in s.entries && s.entries[s.lru[0]].refs > 0 && Inv(DropOldest(s), None)
    ensures Evict(s, all) == Evict(DropOldest(s), all)
  {
    DropOldestKeeps(s);
  }

  lemma SameButCapacity(s: Shard, n: nat)
    requires Inv(s, None)
    ensures Inv(s.(capacity := n), None)
  {
  }

  lemma TableIsAlive(s: Shard, k: Slot)
    requires Inv(s, None) && k in s.table
    ensures s.table[k] in s.entries && s.entries[s.table[k]].refs > 0
  {
  }
}
