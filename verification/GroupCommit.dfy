/** Group commit: writers queue up, and the one at the front writes for those behind it while the lock is free. */
module GroupCommit {
  import opened Wrappers
  import opened WriteBatch

  // A writer without a batch only asks for a memtable switch.
  datatype Writer = Writer(batch: Option<seq<Op>>, sync: bool)

  function OpsOf(w: Writer): seq<Op> {
    if w.batch.Some? then w.batch.value else []
  }

  function AllOps(ws: seq<Writer>): seq<Op> {
    if ws == [] then [] else AllOps(ws[..|ws| - 1]) + OpsOf(ws[|ws| - 1])
  }

  function ByteSize(ops: seq<Op>): nat {
    |Rep(0, ops)|
  }

  function TotalSize(ws: seq<Writer>): nat {
    if ws == [] then 0
    else TotalSize(ws[..|ws| - 1]) + if ws[|ws| - 1].batch.Some? then ByteSize(ws[|ws| - 1].batch.value) else 0
  }

  function MaxSize(first: nat): nat {
    if first <= 0x2_0000 then first + 0x2_0000 else 0x10_0000
  }

  /** The writer at place `k` may be written together with all those before it. */
  predicate Joins(ws: seq<Writer>, k: nat)
    requires k < |ws|
  {
    && !(ws[k].sync && !ws[0].sync)
    && (ws[k].batch.Some? ==> TotalSize(ws[..k + 1]) <= MaxSize(TotalSize(ws[..1])))
  }

  /** The first `n` writers are as many as may be written together. */
  ghost predicate IsGroup(ws: seq<Writer>, n: nat) {
    && 0 < n <= |ws|
    && (forall k :: 0 < k < n ==> Joins(ws, k))
    && (n < |ws| ==> !Joins(ws, n))
  }

  /** Gathers the batches of the writers that may go together with the first. */
  method BuildBatchGroup(ws: seq<Writer>) returns (n: nat, ops: seq<Op>)
    requires ws != [] && ws[0].batch.Some?
    ensures IsGroup(ws, n) && ops == AllOps(ws[..n])
  {
    hide ByteSize, AllOps, TotalSize;
    ops := ws[0].batch.value;
    var size := ByteSize(ops);
    var maxSize := 0x10_0000;
    if size <= 0x2_0000 {
      maxSize := size + 0x2_0000;
    }
    OneWriter(ws[0]);
    assert ws[..1] == [ws[0]];
    n := 1;
    while n < |ws|
      invariant 0 < n <= |ws|
      invariant ops == AllOps(ws[..n]) && size == TotalSize(ws[..n])
      invariant forall k :: 0 < k < n ==> Joins(ws, k)
    {
      OneMoreWriter(ws, n);
      var w := ws[n];
      if w.sync && !ws[0].sync {
        break;
      }
      if w.batch.Some? {
        size := size + ByteSize(w.batch.value);
        if size > maxSize {
          break;
        }
        ops := ops + w.batch.value;
      }
      n := n + 1;
    }
  }

  lemma OneMoreWriter(ws: seq<Writer>, n: nat)
    requires n < |ws|
    ensures AllOps(ws[..n + 1]) == AllOps(ws[..n]) + OpsOf(ws[n])
    ensures TotalSize(ws[..n + 1]) == TotalSize(ws[..n]) + if ws[n].batch.Some? then ByteSize(ws[n].batch.value) else 0
  {
    assert ws[..n + 1][..n] == ws[..n];
  }

  lemma OneWriter(w: Writer)
    ensures AllOps([w]) == OpsOf(w)
    ensures TotalSize([w]) == if w.batch.Some? then ByteSize(w.batch.value) else 0
  {
    assert [w][..0] == [];
  }

  // ---- the protocol ----

  /** What the front writer does while the lock is free; `last` is the last writer it writes for. */
  datatype Stage = Logging | Syncing | Inserting(done: nat) | Over(ok: bool, syncError: bool)
  datatype Group = Group(last: nat, ops: seq<Op>, first: nat, stage: Stage)
  datatype Phase = Waiting | Unlocked(group: Group) | Finished(ok: bool)

  /** Writers are numbered in order of arrival. */
  datatype State = State(arrived: seq<Writer>, phase: seq<Phase>, queue: seq<nat>, lastSequence: nat,
                         log: seq<(nat, seq<Op>)>, synced: nat, mem: seq<(nat, Op)>, failed: bool,
                         outcomes: seq<Outcome>)

  /** `outcomes` lists the writers in the order they finish; `numbered` says that its operations took sequence
      numbers. */
  datatype Outcome = Outcome(writer: nat, ok: bool, numbered: bool)

  datatype Action =
    | Arrive(w: Writer)
    | Lead(id: nat, roomOk: bool, n: nat)
    | AddRecord(id: nat, ok: bool)
    | Sync(id: nat, ok: bool)
    | InsertOne(id: nat)
    | Finish(id: nat)

  function WritersOf(s: State, ids: seq<nat>): seq<Writer>
    requires forall i :: 0 <= i < |ids| ==> ids[i] < |s.arrived|
  {
    seq(|ids|, i requires 0 <= i < |ids| => s.arrived[ids[i]])
  }

  ghost predicate Numbers(s: State) {
    && |s.phase| == |s.arrived|
    && |s.outcomes| + |s.queue| == |s.arrived|
    && (forall i :: 0 <= i < |s.outcomes| ==> s.outcomes[i].writer == i)
    && (forall i :: 0 <= i < |s.queue| ==> s.queue[i] == |s.outcomes| + i)
  }

  function SetPhase(s: State, w: nat, p: Phase): State
    requires w < |s.phase|
  {
    s.(phase := s.phase[w := p])
  }

  function SetStage(s: State, w: nat, stage: Stage): State
    requires w < |s.phase| && s.phase[w].Unlocked?
  {
    SetPhase(s, w, Unlocked(s.phase[w].group.(stage := stage)))
  }

  /** Taking writers off the front of the queue, up to and including `last`. */
  function Upto(queue: seq<nat>, last: nat): (n: nat)
    ensures n <= |queue|
  {
    if queue == [] then 0 else if queue[0] == last then 1 else 1 + Upto(queue[1..], last)
  }

  function Finishing(ids: seq<nat>, ok: bool, numbered: bool): seq<Outcome> {
    seq(|ids|, i requires 0 <= i < |ids| => Outcome(ids[i], ok, numbered))
  }

  function MarkDone(phase: seq<Phase>, ids: seq<nat>, ok: bool): (p: seq<Phase>)
    ensures |p| == |phase|
  {
    seq(|phase|, i requires 0 <= i < |phase| => if i in ids then Finished(ok) else phase[i])
  }

  /** Pops the writers up to `last`, each with the status of the group. */
  function Popped(s: State, last: nat, ok: bool, numbered: bool): State {
    var n := Upto(s.queue, last);
    s.(queue := s.queue[n..], phase := MarkDone(s.phase, s.queue[..n], ok),
       outcomes := s.outcomes + Finishing(s.queue[..n], ok, numbered))
  }

  ghost predicate Does(s: State, a: Action, t: State) {
    && (a.Arrive? || (a.id < |s.phase| && |s.phase| == |s.arrived| && s.queue != []))
    && match a
       case Arrive(w) =>
         t == s.(arrived := s.arrived + [w], phase := s.phase + [Waiting], queue := s.queue + [|s.arrived|])
       case Lead(w, roomOk, n) =>
         && s.phase[w].Waiting? && s.queue[0] == w && (s.failed ==> !roomOk)
         && (forall i :: 0 <= i < |s.queue| ==> s.queue[i] < |s.arrived|)
         && if roomOk && s.arrived[w].batch.Some? then
              && IsGroup(WritersOf(s, s.queue), n)
              && t == SetPhase(s, w,
                               Unlocked(Group(s.queue[n - 1], AllOps(WritersOf(s, s.queue)[..n]), s.lastSequence + 1,
                                              Logging)))
            else t == Popped(s, w, roomOk, false)
       case AddRecord(w, ok) =>
         && s.phase[w].Unlocked? && s.phase[w].group.stage.Logging?
         && var g := s.phase[w].group;
            if ok then
              var next := SetStage(s, w, if s.arrived[w].sync then Syncing else Inserting(0));
              t == next.(log := s.log + [(g.first, g.ops)])
            else t == SetStage(s, w, Over(false, false))
       case Sync(w, ok) =>
         && s.phase[w].Unlocked? && s.phase[w].group.stage.Syncing?
         && if ok then t == SetStage(s, w, Inserting(0)).(synced := |s.log|) else t == SetStage(s, w, Over(false, true))
       case InsertOne(w) =>
         && s.phase[w].Unlocked? && s.phase[w].group.stage.Inserting?
         && var g := s.phase[w].group; var k := g.stage.done;
            if k < |g.ops| then t == SetStage(s, w, Inserting(k + 1)).(mem := s.mem + [(g.first + k, g.ops[k])])
            else t == SetStage(s, w, Over(true, false))
       case Finish(w) =>
         && s.phase[w].Unlocked? && s.phase[w].group.stage.Over?
         && var g := s.phase[w].group;
            t == Popped(s, g.last, g.stage.ok, true).(lastSequence := s.lastSequence + |g.ops|,
                                                      failed := s.failed || g.stage.syncError)
  }

  /** The specification: the finished writers taken one at a time, in order, each alone. */
  function OneByOne(arrived: seq<Writer>, outcomes: seq<Outcome>): (nat, seq<(nat, Op)>) {
    if outcomes == [] then (0, [])
    else
      var o := outcomes[|outcomes| - 1];
      var (last, mem) := OneByOne(arrived, outcomes[..|outcomes| - 1]);
      if !o.numbered || o.writer >= |arrived| then (last, mem)
      else
        var ops := OpsOf(arrived[o.writer]);
        (last + |ops|, if o.ok then mem + Numbered(ops, last + 1) else mem)
  }

  /** The group of the writer that holds the front of the queue, if it is at work. */
  function Active(s: State): Option<Group> {
    if s.queue != [] && s.queue[0] < |s.phase| && s.phase[s.queue[0]].Unlocked?
        then Some(s.phase[s.queue[0]].group) else None
  }

  /** Only the writer at the front is ever at work while the lock is free; finished writers are those that left. */
  ghost predicate Phases(s: State) {
    && Numbers(s)
    && (forall w :: 0 <= w < |s.phase| && s.phase[w].Unlocked? ==> w == |s.outcomes|)
    && (forall w :: 0 <= w < |s.outcomes| ==> s.phase[w] == Finished(s.outcomes[w].ok))
    && (forall w :: |s.outcomes| <= w < |s.phase| ==> !s.phase[w].Finished?)
  }

  /** What the front writer writes are the batches of the writers from itself to `last`. */
  ghost predicate GroupOk(s: State) {
    Active(s).Some? ==>
      var g, w := Active(s).value, |s.outcomes|;
      && w <= g.last < |s.arrived|
      && g.ops == AllOps(s.arrived[w..g.last + 1])
      && g.first == s.lastSequence + 1
      && (forall i :: w <= i <= g.last && s.arrived[i].sync ==> s.arrived[w].sync)
      && (g.stage.Inserting? ==> g.stage.done <= |g.ops|)
  }

  function Inserted(g: Group): seq<(nat, Op)> {
    match g.stage
    case Inserting(k) => if k <= |g.ops| then Numbered(g.ops, g.first)[..k] else []
    case Over(true, _) => Numbered(g.ops, g.first)
    case _ => []
  }

  /** The memtable holds what writing one at a time gives, and past it what the group at work has put in so far. */
  ghost predicate MemOk(s: State) {
    var (last, mem) := OneByOne(s.arrived, s.outcomes);
    && s.lastSequence == last
    && s.mem == mem + if Active(s).Some? then Inserted(Active(s).value) else []
  }

  ghost predicate InLog(log: seq<(nat, seq<Op>)>, e: (nat, Op)) {
    exists r :: r in log && e in Numbered(r.1, r.0)
  }

  /** Whatever reaches the memtable is in the log. */
  ghost predicate Logged(s: State) {
    && (forall e :: e in s.mem ==> InLog(s.log, e))
    && (Active(s).Some? &&
        !(Active(s).value.stage.Logging? || (Active(s).value.stage.Over? && !Active(s).value.stage.ok)) ==>
          (Active(s).value.first, Active(s).value.ops) in s.log)
  }

  function FirstNumber(s: State, i: nat): nat
    requires i <= |s.outcomes|
  {
    OneByOne(s.arrived, s.outcomes[..i]).0 + 1
  }

  /** A writer that asked for it and was told all is well has its operations in the synced part of the log. */
  ghost predicate DurableAt(s: State, i: nat)
    requires i < |s.outcomes| && |s.outcomes| <= |s.arrived| && s.synced <= |s.log|
  {
    s.outcomes[i].ok && s.outcomes[i].numbered && s.arrived[i].sync ==>
      forall e :: e in Numbered(OpsOf(s.arrived[i]), FirstNumber(s, i)) ==> InLog(s.log[..s.synced], e)
  }

  ghost predicate Durable(s: State) {
    && s.synced <= |s.log|
    && |s.outcomes| <= |s.arrived|
    && (forall i :: 0 <= i < |s.outcomes| ==> DurableAt(s, i))
    && (Active(s).Some? && |s.outcomes| < |s.arrived| && s.arrived[|s.outcomes|].sync &&
        (Active(s).value.stage.Inserting? || (Active(s).value.stage.Over? && Active(s).value.stage.ok)) ==>
          (Active(s).value.first, Active(s).value.ops) in s.log[..s.synced])
  }

  ghost predicate Inv(s: State) {
    Phases(s) && GroupOk(s) && MemOk(s) && Logged(s) && Durable(s)
  }

  lemma {:induction false} ArrivalChangesNothing(arrived: seq<Writer>, w: Writer, outcomes: seq<Outcome>)
    requires forall i :: 0 <= i < |outcomes| ==> outcomes[i].writer < |arrived|
    ensures OneByOne(arrived + [w], outcomes) == OneByOne(arrived, outcomes)
  {
    if outcomes != [] {
      ArrivalChangesNothing(arrived, w, outcomes[..|outcomes| - 1]);
    }
  }

  lemma OneMore(arrived: seq<Writer>, outcomes: seq<Outcome>, o: Outcome)
    requires o.writer < |arrived|
    ensures var (last, mem) := OneByOne(arrived, outcomes);
      var ops := OpsOf(arrived[o.writer]);
      OneByOne(arrived, outcomes + [o]) ==
        if o.numbered then (last + |ops|, if o.ok then mem + Numbered(ops, last + 1) else mem) else (last, mem)
  {
    hide Numbered;
    assert (outcomes + [o])[..|outcomes|] == outcomes;
  }

  /** A group written together is its writers written one at a time. */
  lemma {:induction false} GroupIsOneByOne(arrived: seq<Writer>, outcomes: seq<Outcome>, n: nat, ok: bool,
          more: seq<Outcome>)
    requires |outcomes| + n <= |arrived| && |more| == n
    requires forall i :: 0 <= i < n ==> more[i] == Outcome(|outcomes| + i, ok, true)
    ensures var (last, mem) := OneByOne(arrived, outcomes);
      var ops := AllOps(arrived[|outcomes|..|outcomes| + n]);
      OneByOne(arrived, outcomes + more) == (last + |ops|, if ok then mem + Numbered(ops, last + 1) else mem)
  {
    hide OneByOne, Numbered, OpsOf, AllOps;
    var (last, mem) := OneByOne(arrived, outcomes);
    var w := |outcomes|;
    if n == 0 {
      assert outcomes + more == outcomes;
      NoOps(arrived[w..w + n], last + 1);
      assert mem + [] == mem;
    } else {
      GroupIsOneByOne(arrived, outcomes, n - 1, ok, more[..n - 1]);
      assert outcomes + more == outcomes + more[..n - 1] + [more[n - 1]];
      OneMore(arrived, outcomes + more[..n - 1], more[n - 1]);
      var ops, own := AllOps(arrived[w..w + n - 1]), OpsOf(arrived[w + n - 1]);
      assert AllOps(arrived[w..w + n]) == ops + own by {
        OneMoreWriter(arrived[w..w + n], n - 1);
        assert arrived[w..w + n][..n] == arrived[w..w + n] && arrived[w..w + n][..n - 1] == arrived[w..w + n - 1];
      }
      NumberedConcat(ops, own, last + 1);
      assert mem + Numbered(ops, last + 1) + Numbered(own, last + 1 + |ops|) ==
             mem + (Numbered(ops, last + 1) + Numbered(own, last + 1 + |ops|));
    }
  }

  lemma NoOps(ws: seq<Writer>, seqno: nat)
    requires ws == []
    ensures AllOps(ws) == [] && Numbered(AllOps(ws), seqno) == []
  {
  }

  lemma NumberedConcat(a: seq<Op>, b: seq<Op>, seqno: nat)
    ensures Numbered(a + b, seqno) == Numbered(a, seqno) + Numbered(b, seqno + |a|)
  {
  }

  lemma {:induction false} UptoIs(queue: seq<nat>, start: nat, last: nat)
    requires forall i :: 0 <= i < |queue| ==> queue[i] == start + i
    requires start <= last < start + |queue|
    ensures Upto(queue, last) == last - start + 1
  {
    if queue[0] != last {
      UptoIs(queue[1..], start + 1, last);
    }
  }

  /** Popping keeps the queue and the finished writers in order of arrival. */
  lemma PopKeepsPhases(s: State, last: nat, ok: bool, numbered: bool)
    requires Phases(s) && |s.outcomes| <= last < |s.arrived|
    ensures var t := Popped(s, last, ok, numbered);
      && Phases(t) && Active(t) == None
      && t.outcomes == s.outcomes + Finishing(s.queue[..last - |s.outcomes| + 1], ok, numbered)
      && |t.outcomes| == last + 1
      && (forall i :: |s.outcomes| <= i <= last ==> t.outcomes[i] == Outcome(i, ok, numbered))
  {
    UptoIs(s.queue, |s.outcomes|, last);
    var t, n := Popped(s, last, ok, numbered), last - |s.outcomes| + 1;
    forall w | 0 <= w < |s.phase|
      ensures t.phase[w] == if |s.outcomes| <= w <= last then Finished(ok) else s.phase[w]
    {
      assert |s.outcomes| <= w <= last ==> s.queue[..n][w - |s.outcomes|] == w;
    }
  }

  lemma ArriveKeeps(s: State, w: Writer, t: State)
    requires Inv(s) && Does(s, Arrive(w), t)
    ensures Inv(t)
  {
    hide OneByOne, Numbered, AllOps, InLog, OpsOf;
    ArrivalChangesNothing(s.arrived, w, s.outcomes);
    if Active(s).Some? {
      assert t.arrived[|s.outcomes|..Active(s).value.last + 1] == s.arrived[|s.outcomes|..Active(s).value.last + 1];
    }
    forall i | 0 <= i < |t.outcomes|
      ensures DurableAt(t, i)
    {
      assert DurableAt(s, i);
      ArrivalChangesNothing(s.arrived, w, s.outcomes[..i]);
    }
  }

  lemma LeadKeeps(s: State, id: nat, n: nat, t: State)
    requires Inv(s) && Does(s, Lead(id, true, n), t) && s.arrived[id].batch.Some?
    ensures Inv(t)
  {
    hide OneByOne, Numbered, AllOps, InLog, OpsOf, TotalSize;
    var w, g := |s.outcomes|, t.phase[id].group;
    assert Active(s) == None && Active(t) == Some(g);
    assert WritersOf(s, s.queue)[..n] == s.arrived[w..g.last + 1];
    forall i | w <= i <= g.last && s.arrived[i].sync
      ensures s.arrived[w].sync
    {
      assert WritersOf(s, s.queue)[i - w] == s.arrived[i];
      assert i > w ==> Joins(WritersOf(s, s.queue), i - w);
    }
    DurableStays(s, t);
  }

  /** What was durable stays so while nobody finishes. */
  lemma DurableStays(s: State, t: State)
    requires Durable(s) && t.outcomes == s.outcomes && t.arrived == s.arrived
    requires s.synced <= t.synced <= |t.log| && s.log[..s.synced] <= t.log[..t.synced]
    ensures forall i :: 0 <= i < |t.outcomes| ==> DurableAt(t, i)
  {
    hide OneByOne, Numbered, OpsOf, InLog;
    LoggedStays(s.log[..s.synced], t.log[..t.synced]);
    forall i | 0 <= i < |t.outcomes|
      ensures DurableAt(t, i)
    {
      assert DurableAt(s, i);
    }
  }

  lemma LoggedStays(log: seq<(nat, seq<Op>)>, more: seq<(nat, seq<Op>)>)
    requires log <= more
    ensures forall e :: InLog(log, e) ==> InLog(more, e)
  {
    hide Numbered;
  }

  /** A writer turned away, or one that has nothing to write, leaves alone. */
  lemma RejectKeeps(s: State, id: nat, roomOk: bool, n: nat, t: State)
    requires Inv(s) && Does(s, Lead(id, roomOk, n), t) && !(roomOk && s.arrived[id].batch.Some?)
    ensures Inv(t)
  {
    hide OneByOne, Numbered, AllOps, InLog, OpsOf;
    var o := Outcome(id, roomOk, false);
    PopKeepsPhases(s, id, roomOk, false);
    assert t.outcomes == s.outcomes + [o];
    OneMore(s.arrived, s.outcomes, o);
    forall i | 0 <= i < |t.outcomes|
      ensures DurableAt(t, i)
    {
      if i < |s.outcomes| {
        assert DurableAt(s, i) && t.outcomes[..i] == s.outcomes[..i];
      }
    }
  }

  lemma AddRecordKeeps(s: State, id: nat, ok: bool, t: State)
    requires Inv(s) && Does(s, AddRecord(id, ok), t)
    ensures Inv(t)
  {
    hide OneByOne, Numbered, AllOps, InLog, OpsOf;
    LoggedStays(s.log, t.log);
    DurableStays(s, t);
    assert Active(s) == Some(s.phase[id].group) && Active(t) == Some(t.phase[id].group);
    NoneInserted(s.phase[id].group, t.phase[id].group);
  }

  lemma NoneInserted(g: Group, h: Group)
    ensures g.stage.Logging? || g.stage.Syncing? ==> Inserted(g) == []
    ensures h.stage.Syncing? || h.stage == Inserting(0) || (h.stage.Over? && !h.stage.ok) ==> Inserted(h) == []
  {
    hide Numbered;
  }

  lemma SyncKeeps(s: State, id: nat, ok: bool, t: State)
    requires Inv(s) && Does(s, Sync(id, ok), t)
    ensures Inv(t)
  {
    hide OneByOne, Numbered, AllOps, InLog, OpsOf;
    DurableStays(s, t);
    assert Active(s) == Some(s.phase[id].group) && Active(t) == Some(t.phase[id].group);
    NoneInserted(s.phase[id].group, t.phase[id].group);
  }

  lemma InsertOneKeeps(s: State, id: nat, t: State)
    requires Inv(s) && Does(s, InsertOne(id), t)
    ensures Inv(t)
  {
    hide OneByOne, AllOps, InLog, OpsOf, Inserted, Numbered;
    DurableStays(s, t);
    var g := s.phase[id].group;
    assert Active(s) == Some(g) && Active(t) == Some(t.phase[id].group);
    OneMoreInserted(g);
    if g.stage.done < |g.ops| {
      IsInLog(s.log, (g.first, g.ops), g.stage.done);
      var mem := OneByOne(s.arrived, s.outcomes).1;
      var e := (g.first + g.stage.done, g.ops[g.stage.done]);
      assert mem + Inserted(g) + [e] == mem + (Inserted(g) + [e]);
    }
  }

  lemma OneMoreInserted(g: Group)
    requires g.stage.Inserting? && g.stage.done <= |g.ops|
    ensures if g.stage.done < |g.ops| then
              Inserted(g.(stage := Inserting(g.stage.done + 1))) ==
                    Inserted(g) + [(g.first + g.stage.done, g.ops[g.stage.done])]
            else Inserted(g.(stage := Over(true, false))) == Inserted(g)
  {
  }

  lemma IsInLog(log: seq<(nat, seq<Op>)>, r: (nat, seq<Op>), k: nat)
    requires r in log && k < |r.1|
    ensures InLog(log, (r.0 + k, r.1[k]))
  {
    assert Numbered(r.1, r.0)[k] == (r.0 + k, r.1[k]);
  }

  /** Each member's operations are in the group's, under the numbers the member would have got alone. */
  lemma {:induction false} MemberInGroup(ws: seq<Writer>, k: nat, first: nat, e: (nat, Op))
    requires k < |ws| && e in Numbered(OpsOf(ws[k]), first + |AllOps(ws[..k])|)
    ensures e in Numbered(AllOps(ws), first)
  {
    hide Numbered, OpsOf, AllOps;
    var m := |ws| - 1;
    OneMoreWriter(ws, m);
    assert ws[..m + 1] == ws;
    NumberedConcat(AllOps(ws[..m]), OpsOf(ws[m]), first);
    if k < m {
      assert ws[..m][..k] == ws[..k];
      MemberInGroup(ws[..m], k, first, e);
    }
  }

  /** What is known of the group at work when its leader finishes. */
  lemma GroupAtWork(s: State, id: nat, t: State)
    requires Inv(s) && Does(s, Finish(id), t)
    ensures id == |s.outcomes| < |s.phase| && s.phase[id].Unlocked? && s.phase[id].group.stage.Over? && Phases(t) &&
            Active(t) == None
    ensures var g, w := s.phase[id].group, id;
      && Active(s) == Some(g)
      && w <= g.last < |s.arrived|
      && g.ops == AllOps(s.arrived[w..g.last + 1])
      && g.first == s.lastSequence + 1 == OneByOne(s.arrived, s.outcomes).0 + 1
      && t.arrived == s.arrived && t.log == s.log && t.synced == s.synced && s.synced <= |s.log|
      && t.lastSequence == s.lastSequence + |g.ops| && t.mem == s.mem
      && |t.outcomes| == g.last + 1 && t.outcomes[..w] == s.outcomes
      && (forall i :: w <= i <= g.last ==> t.outcomes[i] == Outcome(i, g.stage.ok, true))
      && (forall i :: w <= i <= g.last && g.stage.ok && s.arrived[i].sync ==> (g.first, g.ops) in s.log[..s.synced])
  {
    hide OneByOne, AllOps, InLog, OpsOf, DurableAt;
    PopKeepsPhases(s, s.phase[id].group.last, s.phase[id].group.stage.ok, true);
  }

  lemma FinishDurable(s: State, id: nat, t: State, i: nat)
    requires Inv(s) && Does(s, Finish(id), t)
    requires i < |t.outcomes| <= |t.arrived| && t.synced <= |t.log|
    ensures DurableAt(t, i)
  {
    hide OneByOne, Numbered, AllOps, InLog, OpsOf, Does, Inv, Phases, Active;
    GroupAtWork(s, id, t);
    var w, g := id, s.phase[id].group;
    if i < w {
      WasDurable(s, i);
      assert t.outcomes[..i] == s.outcomes[..i];
    } else if g.stage.ok && s.arrived[i].sync {
      GroupIsOneByOne(s.arrived, s.outcomes, i - w, true, t.outcomes[w..i]);
      assert t.outcomes[..i] == s.outcomes + t.outcomes[w..i];
      var ws := s.arrived[w..g.last + 1];
      assert ws[..i - w] == s.arrived[w..i];
      forall e | e in Numbered(OpsOf(t.arrived[i]), FirstNumber(t, i))
        ensures InLog(t.log[..t.synced], e)
      {
        MemberInGroup(ws, i - w, g.first, e);
        InLogByRecord(t.log[..t.synced], (g.first, g.ops), e);
      }
    }
  }

  lemma WasDurable(s: State, i: nat)
    requires Inv(s) && i < |s.outcomes|
    ensures |s.outcomes| <= |s.arrived| && s.synced <= |s.log| && DurableAt(s, i)
  {
    hide DurableAt;
  }

  lemma InLogByRecord(log: seq<(nat, seq<Op>)>, r: (nat, seq<Op>), e: (nat, Op))
    requires r in log && e in Numbered(r.1, r.0)
    ensures InLog(log, e)
  {
  }

  lemma FinishKeeps(s: State, id: nat, t: State)
    requires Inv(s) && Does(s, Finish(id), t)
    ensures Inv(t)
  {
    hide OneByOne, Numbered, AllOps, InLog, OpsOf, DurableAt, Does, Active, Phases;
    GroupAtWork(s, id, t);
    var w, g := id, s.phase[id].group;
    GroupIsOneByOne(s.arrived, s.outcomes, g.last + 1 - w, g.stage.ok, t.outcomes[w..]);
    assert t.outcomes == s.outcomes + t.outcomes[w..];
    var mem := OneByOne(s.arrived, s.outcomes).1;
    assert mem + [] == mem;
    forall i | 0 <= i < |t.outcomes|
      ensures DurableAt(t, i)
    {
      FinishDurable(s, id, t, i);
    }
  }

  /** Every step of every writer keeps the protocol's invariant. */
  lemma DoesKeeps(s: State, a: Action, t: State)
    requires Inv(s) && Does(s, a, t)
    ensures Inv(t)
  {
    hide Inv, Does;
    match a {
      case Arrive(w) => ArriveKeeps(s, w, t);
      case Lead(id, roomOk, n) =>
        LeadersExist(s, id, roomOk, n, t);
        if roomOk && s.arrived[id].batch.Some? {
          LeadKeeps(s, id, n, t);
        } else {
          RejectKeeps(s, id, roomOk, n, t);
        }
      case AddRecord(id, ok) => AddRecordKeeps(s, id, ok, t);
      case Sync(id, ok) => SyncKeeps(s, id, ok, t);
      case InsertOne(id) => InsertOneKeeps(s, id, t);
      case Finish(id) => FinishKeeps(s, id, t);
    }
  }

  lemma LeadersExist(s: State, id: nat, roomOk: bool, n: nat, t: State)
    requires Does(s, Lead(id, roomOk, n), t)
    ensures id < |s.arrived|
  {
  }

  function Start(): State {
    State([], [], [], 0, [], 0, [], false, [])
  }

  ghost predicate Reaches(s: State, t: State) {
    exists a :: Does(s, a, t)
  }

  /** Any interleaving of any number of writers. */
  ghost predicate Run(run: seq<State>) {
    && run != [] && run[0] == Start()
    && forall k :: 0 < k < |run| ==> Reaches(run[k - 1], run[k])
  }

  lemma {:induction false} RunKeeps(run: seq<State>, i: nat)
    requires Run(run) && i < |run|
    ensures Inv(run[i])
  {
    hide Inv, Does;
    if i == 0 {
      StartIsOk();
    } else {
      RunKeeps(run, i - 1);
      assert Reaches(run[i - 1], run[i]);
      var a :| Does(run[i - 1], a, run[i]);
      DoesKeeps(run[i - 1], a, run[i]);
    }
  }

  lemma StartIsOk()
    ensures Inv(Start())
  {
  }

  /** At most one writer works while the lock is free, and it is the one at the front of the queue. */
  lemma OneAtWork(run: seq<State>, i: nat, v: nat, w: nat)
    requires Run(run) && i < |run|
    requires v < |run[i].phase| && run[i].phase[v].Unlocked? && w < |run[i].phase| && run[i].phase[w].Unlocked?
    ensures v == w && run[i].queue != [] && run[i].queue[0] == v
  {
    RunKeeps(run, i);
  }

  /** Writers finish in order of arrival, each exactly once: those finished and those queued are together all that ever
      arrived, in order. */
  lemma EachFinishesOnce(run: seq<State>, i: nat)
    requires Run(run) && i < |run|
    ensures var s := run[i];
      && |s.outcomes| + |s.queue| == |s.arrived| == |s.phase|
      && (forall k :: 0 <= k < |s.outcomes| ==> s.outcomes[k].writer == k && s.phase[k] == Finished(s.outcomes[k].ok))
      && (forall k :: 0 <= k < |s.queue| ==>
            s.queue[k] == |s.outcomes| + k < |s.phase| && !s.phase[s.queue[k]].Finished?)
  {
    RunKeeps(run, i);
  }

  /** What a reader at the published sequence number sees in the memtable is what writing one at a time gives; a group
      being put in is past it, and so is seen whole or not at all. */
  lemma VisibleIsOneByOne(run: seq<State>, i: nat)
    requires Run(run) && i < |run|
    ensures var s := run[i];
      var (last, mem) := OneByOne(s.arrived, s.outcomes);
      && s.lastSequence == last
      && mem <= s.mem
      && (forall k :: 0 <= k < |mem| ==> mem[k].0 <= last)
      && (forall k :: |mem| <= k < |s.mem| ==> s.mem[k].0 > last)
      && (forall j, k :: 0 <= j < k < |s.mem| ==> s.mem[j].0 < s.mem[k].0)
  {
    hide OneByOne;
    RunKeeps(run, i);
    OneByOneRises(run[i].arrived, run[i].outcomes);
  }

  ghost predicate Rising(mem: seq<(nat, Op)>, last: nat) {
    && (forall k :: 0 <= k < |mem| ==> mem[k].0 <= last)
    && (forall j, k :: 0 <= j < k < |mem| ==> mem[j].0 < mem[k].0)
  }

  lemma RisesMore(mem: seq<(nat, Op)>, last: nat, ops: seq<Op>)
    requires Rising(mem, last)
    ensures Rising(mem, last + |ops|) && Rising(mem + Numbered(ops, last + 1), last + |ops|)
  {
  }

  /** Sequence numbers rise without a repeat. */
  lemma {:induction false} OneByOneRises(arrived: seq<Writer>, outcomes: seq<Outcome>)
    ensures Rising(OneByOne(arrived, outcomes).1, OneByOne(arrived, outcomes).0)
  {
    hide Rising;
    if outcomes != [] {
      var o := outcomes[|outcomes| - 1];
      var (last, mem) := OneByOne(arrived, outcomes[..|outcomes| - 1]);
      OneByOneRises(arrived, outcomes[..|outcomes| - 1]);
      RisesMore(mem, last, if o.writer < |arrived| then OpsOf(arrived[o.writer]) else []);
    } else {
      NothingRises();
    }
  }

  lemma NothingRises()
    ensures Rising([], 0)
  {
  }

  /** The log is ahead of the memtable, and what was to be synced is synced before its writer is told so. */
  lemma LogComesFirst(run: seq<State>, i: nat)
    requires Run(run) && i < |run|
    ensures forall e :: e in run[i].mem ==> InLog(run[i].log, e)
    ensures |run[i].outcomes| <= |run[i].arrived| && run[i].synced <= |run[i].log|
    ensures forall w :: 0 <= w < |run[i].outcomes| ==> DurableAt(run[i], w)
  {
    hide DurableAt, InLog;
    RunKeeps(run, i);
  }

  // ---- the sections of Write between lock releases ----

  class WriteQueue {
    var arrived: seq<Writer>
    var phase: seq<Phase>
    var writers: seq<nat>
    var lastSequence: nat
    var log: seq<(nat, seq<Op>)>
    var synced: nat
    var mem: seq<(nat, Op)>
    var failed: bool
    var outcomes: seq<Outcome>

    function Abs(): State
      reads this
    {
      State(arrived, phase, writers, lastSequence, log, synced, mem, failed, outcomes)
    }

    constructor ()
      ensures Abs() == Start() && Inv(Abs())
    {
      arrived, phase, writers, lastSequence, log, synced, mem, failed, outcomes := [], [], [], 0, [], 0, [], false, [];
      new;
      StartIsOk();
    }

    /** A writer takes the lock and queues up. */
    method Enqueue(w: Writer) returns (id: nat)
      requires Inv(Abs())
      modifies this
      ensures Inv(Abs()) && Does(old(Abs()), Arrive(w), Abs())
    {
      hide Inv;
      ghost var s := Abs();
      id := |arrived|;
      arrived, phase, writers := arrived + [w], phase + [Waiting], writers + [id];
      ArriveKeeps(s, w, Abs());
    }

    /** The writer at the front, with room made for it or not, gathers its group and lets go of the lock; or leaves. */
    method Begin(id: nat, roomOk: bool) returns (n: nat)
      requires Inv(Abs()) && id < |phase| && phase[id].Waiting? && writers != [] && writers[0] == id
      requires failed ==> !roomOk
      modifies this
      ensures Inv(Abs()) && Does(old(Abs()), Lead(id, roomOk, n), Abs())
    {
      QueueOk(Abs());
      hide Inv, Does, IsGroup, AllOps;
      ghost var s := Abs();
      n := 0;
      if roomOk && arrived[id].batch.Some? {
        var ops;
        n, ops := BuildBatchGroup(WritersOf(Abs(), writers));
        GroupBounds(WritersOf(Abs(), writers), n);
        phase := phase[id := Unlocked(Group(writers[n - 1], ops, lastSequence + 1, Logging))];
        LedGroup(s, id, n, Abs());
      } else {
        Pop(id, roomOk, false);
        LedAlone(s, id, roomOk, n, Abs());
      }
      DoesKeeps(s, Lead(id, roomOk, n), Abs());
    }

    method AddRecord(id: nat, ok: bool)
      requires Inv(Abs()) && id < |phase| && phase[id].Unlocked? && phase[id].group.stage.Logging?
      modifies this
      ensures Inv(Abs()) && Does(old(Abs()), Action.AddRecord(id, ok), Abs())
    {
      QueueOk(Abs());
      hide Inv;
      ghost var s := Abs();
      var g := phase[id].group;
      if ok {
        log := log + [(g.first, g.ops)];
        phase := phase[id := Unlocked(g.(stage := if arrived[id].sync then Syncing else Inserting(0)))];
      } else {
        phase := phase[id := Unlocked(g.(stage := Over(false, false)))];
      }
      AddRecordKeeps(s, id, ok, Abs());
    }

    method Sync(id: nat, ok: bool)
      requires Inv(Abs()) && id < |phase| && phase[id].Unlocked? && phase[id].group.stage.Syncing?
      modifies this
      ensures Inv(Abs()) && Does(old(Abs()), Action.Sync(id, ok), Abs())
    {
      QueueOk(Abs());
      hide Inv;
      ghost var s := Abs();
      if ok {
        synced := |log|;
      }
      phase := phase[id := Unlocked(phase[id].group.(stage := if ok then Inserting(0) else Over(false, true)))];
      SyncKeeps(s, id, ok, Abs());
    }

    method InsertOne(id: nat)
      requires Inv(Abs()) && id < |phase| && phase[id].Unlocked? && phase[id].group.stage.Inserting?
      modifies this
      ensures Inv(Abs()) && Does(old(Abs()), Action.InsertOne(id), Abs())
    {
      QueueOk(Abs());
      hide Inv;
      ghost var s := Abs();
      var g := phase[id].group;
      var k := g.stage.done;
      if k < |g.ops| {
        mem := mem + [(g.first + k, g.ops[k])];
        phase := phase[id := Unlocked(g.(stage := Inserting(k + 1)))];
      } else {
        phase := phase[id := Unlocked(g.(stage := Over(true, false)))];
      }
      InsertOneKeeps(s, id, Abs());
    }

    /** The leader takes the lock again, publishes the sequence numbers and sees its group off. */
    method End(id: nat)
      requires Inv(Abs()) && id < |phase| && phase[id].Unlocked? && phase[id].group.stage.Over?
      modifies this
      ensures Inv(Abs()) && Does(old(Abs()), Finish(id), Abs())
    {
      QueueOk(Abs());
      LastIsQueued(Abs(), id);
      hide Inv;
      ghost var s := Abs();
      var g := phase[id].group;
      if g.stage.syncError {
        failed := true;
      }
      lastSequence := lastSequence + |g.ops|;
      Pop(g.last, g.stage.ok, true);
      FinishKeeps(s, id, Abs());
    }

    /** Takes writers off the queue up to `last` and hands each the status. */
    method Pop(last: nat, ok: bool, numbered: bool)
      requires last in writers && forall w :: w in writers ==> w < |phase|
      modifies this`writers, this`phase, this`outcomes
      ensures Abs() == Popped(old(Abs()), last, ok, numbered)
    {
      hide MarkDone, Finishing, Upto;
      ghost var q, p, o, k := writers, phase, outcomes, 0;
      PoppedNone(p, o, ok, numbered);
      while true
        invariant 0 <= k < |q| && writers == q[k..] && last in writers
        invariant Upto(q, last) == k + Upto(writers, last)
        invariant |phase| == |p| && phase == MarkDone(p, q[..k], ok) && outcomes == o + Finishing(q[..k], ok, numbered)
        decreases |writers|
      {
        PoppedOne(q, k, p, o, last, ok, numbered);
        var ready := writers[0];
        writers := writers[1..];
        phase := phase[ready := Finished(ok)];
        outcomes := outcomes + [Outcome(ready, ok, numbered)];
        k := k + 1;
        if ready == last {
          break;
        }
      }
    }
  }

  lemma PoppedNone(p: seq<Phase>, o: seq<Outcome>, ok: bool, numbered: bool)
    ensures MarkDone(p, [], ok) == p
    ensures o + Finishing([], ok, numbered) == o
  {
  }

  lemma PoppedOne(q: seq<nat>, k: nat, p: seq<Phase>, o: seq<Outcome>, last: nat, ok: bool, numbered: bool)
    requires k < |q| && q[k] in q && q[k] < |p|
    ensures MarkDone(p, q[..k + 1], ok) == MarkDone(p, q[..k], ok)[q[k] := Finished(ok)]
    ensures o + Finishing(q[..k + 1], ok, numbered) ==
              o + Finishing(q[..k], ok, numbered) + [Outcome(q[k], ok, numbered)]
    ensures Upto(q[k..], last) == if q[k] == last then 1 else 1 + Upto(q[k + 1..], last)
    ensures q[k..][1..] == q[k + 1..]
  {
    assert q[..k + 1] == q[..k] + [q[k]];
  }

  lemma QueueOk(s: State)
    requires Inv(s)
    ensures |s.phase| == |s.arrived| && forall w :: w in s.queue ==> w < |s.arrived|
    ensures forall w :: 0 <= w < |s.phase| && s.phase[w].Unlocked? ==> s.queue != [] && s.queue[0] == w
  {
  }

  lemma LastIsQueued(s: State, id: nat)
    requires Inv(s) && id < |s.phase| && s.phase[id].Unlocked?
    ensures s.phase[id].group.last in s.queue
  {
    assert Active(s) == Some(s.phase[id].group);
    assert s.queue[s.phase[id].group.last - |s.outcomes|] == s.phase[id].group.last;
  }

  lemma GroupBounds(ws: seq<Writer>, n: nat)
    requires IsGroup(ws, n)
    ensures 0 < n <= |ws|
  {
  }

  lemma LedGroup(s: State, id: nat, n: nat, t: State)
    requires Inv(s) && id < |s.phase| && s.phase[id].Waiting? && s.queue != [] && s.queue[0] == id && !s.failed
    requires |s.phase| == |s.arrived| && s.arrived[id].batch.Some?
    requires forall w :: w in s.queue ==> w < |s.arrived|
    requires 0 < n <= |s.queue| && IsGroup(WritersOf(s, s.queue), n)
    requires t ==
               SetPhase(s, id,
                        Unlocked(Group(s.queue[n - 1], AllOps(WritersOf(s, s.queue)[..n]), s.lastSequence + 1,
                                       Logging)))
    ensures Does(s, Lead(id, true, n), t)
  {
  }

  lemma LedAlone(s: State, id: nat, roomOk: bool, n: nat, t: State)
    requires Inv(s) && id < |s.phase| && s.phase[id].Waiting? && s.queue != [] && s.queue[0] == id
    requires (s.failed ==> !roomOk) && |s.phase| == |s.arrived| && !(roomOk && s.arrived[id].batch.Some?)
    requires t == Popped(s, id, roomOk, false)
    ensures Does(s, Lead(id, roomOk, n), t)
  {
  }
}
