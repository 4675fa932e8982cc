/** The user-level iterator: of all entries the internal iterator yields it shows, for each user key, the newest one a
    snapshot sees, and skips deleted keys; it walks in both directions. */
module DbIter {
  import opened Wrappers
  import opened DbFormat
  import opened Tree
  import opened Cursor

  /** Entry `i` is what the snapshot shows for its user key. */
  ghost predicate Yields(es: seq<Entry>, s: nat, i: nat) {
    && i < |es|
    && es[i].key.seqno <= s && es[i].key.kind.Value?
    && forall j :: 0 <= j < i && es[j].key.user == es[i].key.user ==> es[j].key.seqno > s
  }

  /** The user keys a move may land on. */
  datatype Bound = AnyKey | AtLeast(u: UserKey) | MoreThan(u: UserKey) | LessThan(u: UserKey)

  predicate InBound(u: UserKey, b: Bound) {
    match b
    case AnyKey => true
    case AtLeast(v) => v <= u
    case MoreThan(v) => v < u
    case LessThan(v) => u < v
  }

  ghost predicate Shows(es: seq<Entry>, s: nat, b: Bound, i: nat) {
    Yields(es, s, i) && InBound(es[i].key.user, b)
  }

  /** `r` is the first entry shown within the bound. */
  ghost predicate FirstShown(es: seq<Entry>, s: nat, b: Bound, r: Option<nat>) {
    if r == None then forall i :: 0 <= i < |es| ==> !Shows(es, s, b, i)
    else Shows(es, s, b, r.value) && forall i :: 0 <= i < r.value ==> !Shows(es, s, b, i)
  }

  /** The same, of the entries from `from` on. */
  ghost predicate FirstShownFrom(es: seq<Entry>, s: nat, from: nat, b: Bound, r: Option<nat>) {
    if r == None then forall i :: from <= i < |es| ==> !Shows(es, s, b, i)
    else from <= r.value && Shows(es, s, b, r.value) && forall i :: from <= i < r.value ==> !Shows(es, s, b, i)
  }

  lemma ShowsYields(es: seq<Entry>, s: nat, b: Bound, i: nat)
    ensures Shows(es, s, b, i) ==> Yields(es, s, i)
  {
  }

  lemma YieldsInside(es: seq<Entry>, s: nat, i: nat)
    requires Yields(es, s, i)
    ensures i < |es|
  {
  }

  function SkipBound(skip: Option<UserKey>): Bound {
    if skip.Some? then MoreThan(skip.value) else AnyKey
  }

  predicate Visible(es: seq<Entry>, s: nat, i: nat) {
    i < |es| && es[i].key.seqno <= s
  }

  /** Walking forwards from `pos`: no visible entry has a user key before the one to skip, and those hidden by an entry
      already passed have just that key, which is the one first to be skipped or one that was passed. */
  ghost predicate SkipsHidden(es: seq<Entry>, s: nat, pos: nat, skip0: Option<UserKey>, skip: Option<UserKey>) {
    && Sorted(es)
    && (skip.Some? ==> forall j :: pos <= j && Visible(es, s, j) ==> skip.value <= es[j].key.user)
    && (forall i, j ::
          0 <= i < pos <= j && Visible(es, s, i) && Visible(es, s, j) && es[i].key.user == es[j].key.user ==>
          skip == Some(es[j].key.user))
    && (skip != skip0 ==>
          && skip.Some?
          && (skip0.Some? ==> skip0.value <= skip.value)
          && exists i :: 0 <= i < pos && Visible(es, s, i) && es[i].key.user == skip.value)
  }

  /** An entry too new for the snapshot changes nothing. */
  lemma PassInvisible(es: seq<Entry>, s: nat, pos: nat, skip0: Option<UserKey>, skip: Option<UserKey>)
    requires SkipsHidden(es, s, pos, skip0, skip) && pos < |es| && es[pos].key.seqno > s
    ensures SkipsHidden(es, s, pos + 1, skip0, skip) && !Shows(es, s, SkipBound(skip0), pos)
  {
  }

  /** A deletion hides the older entries of its key. */
  lemma PassDeletion(es: seq<Entry>, s: nat, pos: nat, skip0: Option<UserKey>, skip: Option<UserKey>)
    requires SkipsHidden(es, s, pos, skip0, skip) && pos < |es| && es[pos].key.seqno <= s && es[pos].key.kind.Deletion?
    ensures SkipsHidden(es, s, pos + 1, skip0, Some(es[pos].key.user)) && !Shows(es, s, SkipBound(skip0), pos)
  {
    assert Visible(es, s, pos);
    forall i, j | 0 <= i < pos && pos < j && Visible(es, s, i) && Visible(es, s, j) && es[i].key.user == es[j].key.user
      ensures es[j].key.user == es[pos].key.user
    {
      assert Before(es[i].key, es[pos].key) && Before(es[pos].key, es[j].key);
    }
  }

  lemma PassValue(es: seq<Entry>, s: nat, pos: nat, skip0: Option<UserKey>, skip: Option<UserKey>)
    requires SkipsHidden(es, s, pos, skip0, skip) && pos < |es| && es[pos].key.seqno <= s && es[pos].key.kind.Value?
    ensures skip.Some? && es[pos].key.user <= skip.value ==>
              SkipsHidden(es, s, pos + 1, skip0, skip) && !Shows(es, s, SkipBound(skip0), pos)
    ensures !(skip.Some? && es[pos].key.user <= skip.value) ==> Shows(es, s, SkipBound(skip0), pos)
  {
    assert Visible(es, s, pos);
    if skip.Some? && es[pos].key.user <= skip.value {
      forall i, j | 0 <= i < pos + 1 <= j && Visible(es, s, i) && Visible(es, s, j) && es[i].key.user == es[j].key.user
        ensures skip == Some(es[j].key.user)
      {
      }
    } else {
      forall j | 0 <= j < pos && es[j].key.user == es[pos].key.user
        ensures es[j].key.seqno > s
      {
        assert !Visible(es, s, j);
      }
    }
  }

  /** `r` is the last entry shown within the bound. */
  ghost predicate LastShown(es: seq<Entry>, s: nat, b: Bound, r: Option<nat>) {
    if r == None then forall i :: 0 <= i < |es| ==> !Shows(es, s, b, i)
    else Shows(es, s, b, r.value) && forall i :: r.value < i < |es| ==> !Shows(es, s, b, i)
  }

  /** `r` is the last entry shown of those before `hi`. */
  ghost predicate LastShownBelow(es: seq<Entry>, s: nat, hi: nat, r: Option<nat>) {
    if r == None then forall i :: 0 <= i < hi ==> !Yields(es, s, i)
    else r.value < hi && Yields(es, s, r.value) && forall i :: r.value < i < hi ==> !Yields(es, s, i)
  }

  /** Walking backwards from `hi`, down to `n`: nothing passed is shown for certain, save the candidate, which is the
      visible entry passed last. */
  ghost predicate Gathers(es: seq<Entry>, s: nat, n: nat, hi: nat, candidate: Option<nat>) {
    && Sorted(es) && n <= hi <= |es|
    && (forall i :: n <= i < hi && candidate != Some(i) ==> !Yields(es, s, i))
    && (candidate.Some? ==>
          && n <= candidate.value < hi
          && Visible(es, s, candidate.value) && es[candidate.value].key.kind.Value?
          && forall j :: n <= j < candidate.value ==> !Visible(es, s, j))
  }

  lemma GathersNothing(es: seq<Entry>, s: nat, hi: nat)
    requires Sorted(es) && hi <= |es|
    ensures Gathers(es, s, hi, hi, None)
  {
  }

  lemma StepBackward(es: seq<Entry>, s: nat, n: nat, hi: nat, candidate: Option<nat>)
    requires Gathers(es, s, n, hi, candidate) && n > 0
    ensures !Visible(es, s, n - 1) ==> Gathers(es, s, n - 1, hi, candidate)
    ensures Visible(es, s, n - 1) && (candidate.Some? ==> es[candidate.value].key.user == es[n - 1].key.user) ==>
              Gathers(es, s, n - 1, hi, if es[n - 1].key.kind.Value? then Some(n - 1) else None)
    ensures candidate.Some? ==> es[n - 1].key.user <= es[candidate.value].key.user
  {
    assert Visible(es, s, n - 1) && candidate.Some? && es[candidate.value].key.user == es[n - 1].key.user ==>
        !Yields(es, s, candidate.value);
  }

  /** The candidate is shown once a visible entry of a smaller key, or the front, is reached. */
  lemma CandidateIsShown(es: seq<Entry>, s: nat, n: nat, hi: nat, candidate: Option<nat>)
    requires Gathers(es, s, n, hi, candidate)
    requires n == 0 || (candidate.Some? && es[n - 1].key.user < es[candidate.value].key.user)
    ensures LastShownBelow(es, s, hi, candidate)
    ensures candidate.Some? ==> n <= candidate.value && forall j :: n <= j < candidate.value ==> es[j].key.seqno > s
  {
    if candidate.Some? {
      forall j | n <= j < candidate.value
        ensures es[j].key.seqno > s
      {
        assert !Visible(es, s, j);
      }
      forall j | 0 <= j < candidate.value && es[j].key.user == es[candidate.value].key.user
        ensures es[j].key.seqno > s
      {
        assert n <= j && !Visible(es, s, j);
      }
    }
  }

  lemma YieldsAreOrdered(es: seq<Entry>, s: nat)
    requires Sorted(es)
    ensures forall i, j :: 0 <= i < j < |es| && Yields(es, s, i) && Yields(es, s, j) ==> es[i].key.user < es[j].key.user
  {
    forall i, j | 0 <= i < j < |es| && Yields(es, s, i) && Yields(es, s, j)
      ensures es[i].key.user < es[j].key.user
    {
      assert Before(es[i].key, es[j].key);
    }
  }

  lemma LandingsBound(es: seq<Entry>, s: nat, i: nat, r: nat, k: nat)
    requires Sorted(es) && Yields(es, s, i)
    ensures FirstShown(es, s, MoreThan(es[i].key.user), Some(r)) && Yields(es, s, k) && i < k ==> i < r <= k
    ensures LastShown(es, s, LessThan(es[i].key.user), Some(r)) && Yields(es, s, k) && k < i ==> k <= r < i
  {
    YieldsAreOrdered(es, s);
    assert Yields(es, s, k) && i < k ==> Shows(es, s, MoreThan(es[i].key.user), k);
    assert Yields(es, s, k) && k < i ==> Shows(es, s, LessThan(es[i].key.user), k);
  }

  /** Stepping back undoes stepping forward, and the other way round. */
  lemma ShownStepsUndo(es: seq<Entry>, s: nat, i: nat, r: nat, q: Option<nat>)
    requires Sorted(es) && Yields(es, s, i) && r < |es|
    ensures FirstShown(es, s, MoreThan(es[i].key.user), Some(r)) && LastShown(es, s, LessThan(es[r].key.user), q) ==>
              q == Some(i)
    ensures LastShown(es, s, LessThan(es[i].key.user), Some(r)) && FirstShown(es, s, MoreThan(es[r].key.user), q) ==>
              q == Some(i)
  {
    YieldsAreOrdered(es, s);
    assert InBound(es[i].key.user, MoreThan(es[r].key.user)) ==> Shows(es, s, MoreThan(es[r].key.user), i);
    assert InBound(es[i].key.user, LessThan(es[r].key.user)) ==> Shows(es, s, LessThan(es[r].key.user), i);
    if q.Some? {
      LandingsBound(es, s, i, r, q.value);
    }
  }

  /** What is shown for a user key is what a point read of it returns, and shown entries come in user-key order. */
  lemma ShownIsRead(es: seq<Entry>, s: nat, u: UserKey)
    requires Sorted(es) && Unique((set e | e in es))
    ensures Read((set e | e in es), u, s) == None <==>
              forall i :: 0 <= i < |es| && Yields(es, s, i) ==> es[i].key.user != u
    ensures forall i :: 0 <= i < |es| && Yields(es, s, i) && es[i].key.user == u ==>
              Read((set e | e in es), u, s) == Some(es[i].value)
  {
    var all := set e | e in es;
    forall i | 0 <= i < |es| && Yields(es, s, i) && es[i].key.user == u
      ensures Read(all, u, s) == Some(es[i].value)
    {
      assert IsNewest(all, u, s, es[i]);
      ReadNewest(all, u, s, es[i]);
    }
    if Read(all, u, s).Some? {
      var e :| IsNewest(all, u, s, e) && e.key.kind.Value?;
      var i :| 0 <= i < |es| && es[i] == e;
      assert Yields(es, s, i);
    }
  }

  /** Seeking to the lookup key of `target` passes by nothing that is to be shown. */
  lemma SeekStart(es: seq<Entry>, s: nat, target: UserKey, r: Option<nat>)
    requires Sorted(es)
    ensures var pos := SeekIndex(es, LookupKey(target, s));
      SkipsHidden(es, s, pos, None, None) &&
          (FirstShownFrom(es, s, pos, AnyKey, r) ==> FirstShown(es, s, AtLeast(target), r))
  {
    var pos := SeekIndex(es, LookupKey(target, s));
    assert forall i :: 0 <= i < pos && Visible(es, s, i) ==> es[i].key.user < target;
    assert forall i :: pos <= i < |es| ==> target <= es[i].key.user;
    assert forall i :: 0 <= i < pos ==> !Shows(es, s, AtLeast(target), i);
    assert forall i :: pos <= i < |es| ==> (Shows(es, s, AtLeast(target), i) <==> Shows(es, s, AnyKey, i));
  }

  /** Moving on from the entry shown, or from just behind it, skipping its user key. */
  lemma NextStart(es: seq<Entry>, s: nat, pos: nat, i: nat, r: Option<nat>)
    requires Sorted(es) && Yields(es, s, i) && pos <= i
    requires pos > 0 ==> es[pos - 1].key.user < es[i].key.user || pos == i
    requires forall j :: pos <= j < i ==> es[j].key.seqno > s
    ensures var skip := Some(es[i].key.user);
      && SkipsHidden(es, s, pos, skip, skip)
      && (FirstShownFrom(es, s, pos, SkipBound(skip), r) ==> FirstShown(es, s, MoreThan(skip.value), r))
  {
    assert forall b :: pos <= b && Visible(es, s, b) ==> es[i].key.user <= es[b].key.user;
    assert forall a :: 0 <= a < pos && Visible(es, s, a) ==> es[a].key.user < es[i].key.user;
    assert forall a :: 0 <= a < pos ==> es[a].key.user <= es[i].key.user;
  }

  lemma PrevStart(es: seq<Entry>, s: nat, n: nat, i: nat, r: Option<nat>)
    requires Sorted(es) && Yields(es, s, i) && n <= i
    requires n > 0 ==> es[n - 1].key.user < es[i].key.user
    requires forall j :: n <= j < i ==> es[j].key.seqno > s || es[j].key.user == es[i].key.user
    ensures LastShownBelow(es, s, n, r) ==> LastShown(es, s, LessThan(es[i].key.user), r)
  {
    assert forall a :: 0 <= a < n ==> es[a].key.user < es[i].key.user;
    assert forall a :: i <= a < |es| ==> es[i].key.user <= es[a].key.user;
  }

  class DBIter {
    const sequence: nat
    var iter: Run
    var savedKey: Option<UserKey>
    var savedValue: Blob
    var forward: bool
    var valid: bool
    ghost var shown: Option<nat>

    constructor (iter: Run, sequence: nat)
      requires iter.Ok()
      ensures Ok() && !valid && this.iter == iter && this.sequence == sequence
    {
      this.iter, this.sequence := iter, sequence;
      savedKey, savedValue, forward, valid := None, [], true, false;
      shown := None;
    }

    /** Walking backwards, nothing the snapshot sees lies between the internal iterator and the entry shown. */
    ghost predicate JustBehind(i: nat)
      requires i < |iter.entries|
      reads this
    {
      && (iter.Valid() ==> iter.pos < i && iter.Current().key.user < iter.entries[i].key.user)
      && forall j :: (if iter.Valid() then iter.pos < j else 0 <= j) && j < i ==> iter.entries[j].key.seqno > sequence
    }

    ghost predicate Ok()
      reads this
    {
      && iter.Ok()
      && (valid <==> shown.Some?)
      && (valid ==>
            && Yields(iter.entries, sequence, shown.value)
            && if forward then iter.pos == shown.value
               else
                 && savedKey == Some(iter.entries[shown.value].key.user)
                 && savedValue == iter.entries[shown.value].value
                 && JustBehind(shown.value))
    }

    method Key() returns (k: UserKey)
      requires Ok() && valid
      ensures k == iter.entries[shown.value].key.user
    {
      k := if forward then iter.Current().key.user else savedKey.value;
    }

    method Value() returns (v: Blob)
      requires Ok() && valid
      ensures v == iter.entries[shown.value].value
    {
      v := if forward then iter.Current().value else savedValue;
    }

    /** Moves on to the first entry shown from the current one on, past the key to skip. */
    method FindNextUserEntry(skipping: bool)
      requires iter.Ok() && iter.Valid() && forward && (skipping ==> savedKey.Some?)
      requires SkipsHidden(iter.entries, sequence, iter.pos, if skipping then savedKey else None,
                           if skipping then savedKey else None)
      modifies this
      ensures Ok() && forward && iter.entries == old(iter.entries)
      ensures FirstShownFrom(iter.entries, sequence, old(iter.pos), SkipBound(if skipping then old(savedKey) else None),
                             shown)
    {
      hide SkipsHidden, Shows, Yields;
      ghost var es, skip0 := iter.entries, if skipping then savedKey else None;
      var skip := skipping;
      while iter.Valid()
        invariant iter.Ok() && iter.entries == es && old(iter.pos) <= iter.pos <= |es|
        invariant forward
        invariant skip ==> savedKey.Some?
        invariant SkipsHidden(es, sequence, iter.pos, skip0, if skip then savedKey else None)
        invariant forall i :: old(iter.pos) <= i < iter.pos ==> !Shows(es, sequence, SkipBound(skip0), i)
        decreases |es| - iter.pos
      {
        ghost var skipped := if skip then savedKey else None;
        var e := iter.Current();
        if e.key.seqno <= sequence {
          match e.key.kind {
            case Deletion =>
              PassDeletion(es, sequence, iter.pos, skip0, skipped);
              savedKey, skip := Some(e.key.user), true;
            case Value =>
              PassValue(es, sequence, iter.pos, skip0, skipped);
              if skip && e.key.user <= savedKey.value {
                // hidden
              } else {
                valid, savedKey, shown := true, None, Some(iter.pos);
                ShowsYields(es, sequence, SkipBound(skip0), iter.pos);
                return;
              }
          }
        } else {
          PassInvisible(es, sequence, iter.pos, skip0, skipped);
        }
        iter := iter.Next();
      }
      savedKey, valid, shown := None, false, None;
    }

    /** How many entries the internal iterator has at and before it. */
    function Remaining(): nat
      reads this
    {
      if iter.Valid() then iter.pos + 1 else 0
    }

    /** Moves back to the last entry shown at or before the current one. */
    method FindPrevUserEntry()
      requires iter.Ok() && !forward
      modifies this
      ensures Ok() && iter.entries == old(iter.entries)
      ensures LastShownBelow(iter.entries, sequence, old(Remaining()), shown)
    {
      hide Gathers, Yields;
      ghost var es, hi := iter.entries, Remaining();
      ghost var candidate: Option<nat> := None;
      var valueType := Deletion;
      GathersNothing(es, sequence, hi);
      if iter.Valid() {
        while iter.Valid()
          invariant iter.Ok() && iter.entries == es && !forward
          invariant Gathers(es, sequence, Remaining(), hi, candidate)
          invariant candidate.Some? <==> valueType.Value?
          invariant candidate.Some? ==>
                      && candidate.value < |es|
                      && savedKey == Some(es[candidate.value].key.user)
                      && savedValue == es[candidate.value].value
          decreases Remaining()
        {
          StepBackward(es, sequence, Remaining(), hi, candidate);
          var e := iter.Current();
          if e.key.seqno <= sequence {
            if valueType.Value? && e.key.user < savedKey.value {
              break;
            }
            valueType := e.key.kind;
            if valueType.Deletion? {
              savedKey, savedValue, candidate := None, [], None;
            } else {
              savedKey, savedValue, candidate := Some(e.key.user), e.value, Some(iter.pos);
            }
          }
          iter := iter.Prev();
        }
      }
      CandidateIsShown(es, sequence, Remaining(), hi, candidate);
      shown := candidate;
      if valueType.Deletion? {
        valid, savedKey, savedValue, forward := false, None, [], true;
      } else {
        valid := true;
      }
    }

    method Seek(target: UserKey)
      requires Ok()
      modifies this
      ensures Ok() && iter.entries == old(iter.entries)
      ensures FirstShown(iter.entries, sequence, AtLeast(target), shown)
    {
      hide SkipsHidden, Shows, Yields;
      forward, savedValue, savedKey := true, [], None;
      SeekStart(iter.entries, sequence, target, None);
      iter := iter.Seek(LookupKey(target, sequence));
      if iter.Valid() {
        FindNextUserEntry(false);
        SeekStart(iter.entries, sequence, target, shown);
      } else {
        valid, shown := false, None;
      }
    }

    method SeekToFirst()
      requires Ok()
      modifies this
      ensures Ok() && iter.entries == old(iter.entries)
      ensures FirstShown(iter.entries, sequence, AnyKey, shown)
    {
      forward, savedValue := true, [];
      iter := iter.SeekToFirst();
      if iter.Valid() {
        FindNextUserEntry(false);
      } else {
        valid, shown := false, None;
      }
    }

    method SeekToLast()
      requires Ok()
      modifies this
      ensures Ok() && iter.entries == old(iter.entries)
      ensures LastShown(iter.entries, sequence, AnyKey, shown)
    {
      forward, savedValue := false, [];
      iter := iter.SeekToLast();
      FindPrevUserEntry();
    }

    method Next()
      requires Ok() && valid
      modifies this
      ensures Ok() && iter.entries == old(iter.entries)
      ensures FirstShown(iter.entries, sequence, MoreThan(old(iter.entries[shown.value].key.user)), shown)
    {
      hide SkipsHidden, Shows, Yields;
      ghost var i := shown.value;
      YieldsInside(iter.entries, sequence, i);
      if !forward {
        forward := true;
        // just before the entries of the key shown
        if !iter.Valid() {
          iter := iter.SeekToFirst();
        } else {
          iter := iter.Next();
        }
        // The check for an invalid internal iterator made here never fires: the entry shown is still ahead.
        assert iter.Valid();
      } else {
        savedKey := Some(iter.Current().key.user);
      }
      ghost var pos := iter.pos;
      NextStart(iter.entries, sequence, pos, i, None);
      FindNextUserEntry(true);
      NextStart(iter.entries, sequence, pos, i, shown);
    }

    method Prev()
      requires Ok() && valid
      modifies this
      ensures Ok() && iter.entries == old(iter.entries)
      ensures LastShown(iter.entries, sequence, LessThan(old(iter.entries[shown.value].key.user)), shown)
    {
      hide Shows, Yields;
      ghost var i, es := shown.value, iter.entries;
      YieldsInside(es, sequence, i);
      if forward {
        savedKey := Some(iter.Current().key.user);
        while true
          invariant iter.Ok() && iter.entries == es && iter.Valid() && iter.pos <= i
          invariant valid && forward && savedKey == Some(es[i].key.user)
          invariant forall j :: iter.pos <= j < i ==> es[j].key.user == es[i].key.user
          decreases iter.pos
        {
          iter := iter.Prev();
          if !iter.Valid() {
            valid, savedKey, savedValue, shown := false, None, [], None;
            PrevStart(es, sequence, 0, i, None);
            return;
          }
          if iter.Current().key.user < savedKey.value {
            break;
          }
        }
        forward := false;
      }
      ghost var n := Remaining();
      FindPrevUserEntry();
      PrevStart(es, sequence, n, i, shown);
    }
  }
}
