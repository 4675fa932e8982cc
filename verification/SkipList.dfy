/** The skip list behind a memtable: one writer links nodes bottom-up while readers search without locks. */
module SkipList {
  import opened Wrappers

  const MAX_HEIGHT: nat := 12

  // Any total order on keys serves.
  type Key = real
  // A pointer to a node; None is the null pointer.
  type Link = Option<nat>

  /** The memory a reader sees.  Nodes are numbered in order of allocation; node 0 is the head. */
  datatype Memory = Memory(keys: seq<Key>, next: seq<seq<Link>>, maxHeight: nat)

  predicate Shaped(m: Memory) {
    && |m.keys| == |m.next| > 0
    && |m.next[0]| == MAX_HEIGHT
    && 1 <= m.maxHeight <= MAX_HEIGHT
    && (forall n :: 0 <= n < |m.next| ==> 1 <= |m.next[n]| <= MAX_HEIGHT)
    && (forall n, i :: 0 <= n < |m.next| && 0 <= i < |m.next[n]| && m.next[n][i].Some? ==>
          0 < m.next[n][i].value < |m.next| && i < |m.next[m.next[n][i].value]|)
  }

  ghost predicate PointedTo(m: Memory, i: nat, n: nat) {
    exists p :: 0 <= p < |m.next| && i < |m.next[p]| && m.next[p][i] == Some(n)
  }

  /** The nodes in the list at level `i`. */
  ghost function Level(m: Memory, i: nat): set<nat> {
    set n | 0 < n < |m.keys| && PointedTo(m, i, n)
  }

  ghost predicate OnLevel(m: Memory, i: nat, n: nat) {
    n == 0 || n in Level(m, i)
  }

  predicate Precedes(m: Memory, a: nat, b: nat)
    requires a < |m.keys| && 0 < b < |m.keys|
  {
    a == 0 || m.keys[a] < m.keys[b]
  }

  /** `link` leads from `n` to the next node in key order among `nodes`. */
  ghost predicate LeadsTo(m: Memory, nodes: set<nat>, n: nat, link: Link)
    requires n < |m.keys| && forall o :: o in nodes ==> 0 < o < |m.keys|
  {
    match link
    case None => forall o :: o in nodes ==> !Precedes(m, n, o)
    case Some(b) => b in nodes && Precedes(m, n, b) && forall o :: o in nodes && Precedes(m, n, o) ==>
          m.keys[b] <= m.keys[o]
  }

  ghost predicate LevelOk(m: Memory, i: nat)
    requires Shaped(m)
  {
    && (forall n: nat :: OnLevel(m, i, n) ==>
          n < |m.next| && i < |m.next[n]| && LeadsTo(m, Level(m, i), n, m.next[n][i]))
    && (i >= m.maxHeight ==> Level(m, i) == {})
    && (i > 0 ==> Level(m, i) <= Level(m, i - 1))
  }

  ghost predicate DistinctKeys(m: Memory) {
    forall a, b :: a in Level(m, 0) && b in Level(m, 0) && m.keys[a] == m.keys[b] ==> a == b
  }

  /** Every level is sorted and holds a subset of the level below. */
  ghost predicate Inv(m: Memory) {
    && Shaped(m)
    && DistinctKeys(m)
    && forall i :: 0 <= i < MAX_HEIGHT ==> LevelOk(m, i)
  }

  /** The single stores by which a writer changes the memory. */
  datatype Store =
    | Raise(height: nat)
    | Allocate(key: Key, height: nat)
    | Fill(x: nat, i: nat, link: Link)
    | Publish(p: nat, i: nat, x: nat)

  /** What Insert has made sure of before each store. */
  ghost predicate May(m: Memory, s: Store) {
    match s
    case Raise(h) => m.maxHeight < h <= MAX_HEIGHT
    case Allocate(k, h) => 1 <= h <= MAX_HEIGHT
    case Fill(x, i, link) =>
      && 0 < x < |m.next| && i < |m.next[x]| && m.next[x][i] == None
      && !OnLevel(m, i, x)
      && (link.Some? ==> link.value in Level(m, i))
    case Publish(p, i, x) =>
      && |m.keys| == |m.next| && 0 < x < |m.next| && i < |m.next[x]| && i < m.maxHeight
      && !OnLevel(m, i, x)
      && (i > 0 ==> x in Level(m, i - 1))
      && p < |m.next| && i < |m.next[p]| && OnLevel(m, i, p)
      && Precedes(m, p, x)
      && m.next[x][i] == m.next[p][i]
      && (m.next[p][i].Some? ==> 0 < m.next[p][i].value < |m.keys| && Precedes(m, x, m.next[p][i].value))
  }

  function Apply(m: Memory, s: Store): Memory {
    match s
    case Raise(h) => m.(maxHeight := h)
    case Allocate(k, h) => m.(keys := m.keys + [k], next := m.next + [seq(h, _ => None)])
    case Fill(x, i, link) => SetNext(m, x, i, link)
    case Publish(p, i, x) => SetNext(m, p, i, Some(x))
  }

  function SetNext(m: Memory, n: nat, i: nat, link: Link): Memory {
    if n < |m.next| && i < |m.next[n]| then m.(next := m.next[n := m.next[n][i := link]]) else m
  }

  lemma PointedAfter(m: Memory, n: nat, i: nat, link: Link, j: nat, t: nat)
    requires n < |m.next| && i < |m.next[n]|
    ensures PointedTo(SetNext(m, n, i, link), j, t) ==> PointedTo(m, j, t) || (j == i && link == Some(t))
    ensures PointedTo(m, j, t) && !(j == i && m.next[n][i] == Some(t)) ==> PointedTo(SetNext(m, n, i, link), j, t)
    ensures j == i && link == Some(t) ==> PointedTo(SetNext(m, n, i, link), j, t)
  {
    var m' := SetNext(m, n, i, link);
    if PointedTo(m, j, t) && !(j == i && m.next[n][i] == Some(t)) {
      var p :| 0 <= p < |m.next| && j < |m.next[p]| && m.next[p][j] == Some(t);
      assert m'.next[p][j] == Some(t);
    }
    if j == i && link == Some(t) {
      assert m'.next[n][j] == Some(t);
    }
  }

  lemma LevelAfterAllocate(m: Memory, k: Key, h: nat, j: nat)
    requires Shaped(m)
    ensures Level(Apply(m, Allocate(k, h)), j) == Level(m, j)
  {
    var m' := Apply(m, Allocate(k, h));
    assert forall p :: 0 <= p < |m.next| ==> m'.next[p] == m.next[p];
    forall n: nat
      ensures PointedTo(m', j, n) <==> PointedTo(m, j, n)
    {
      if PointedTo(m, j, n) {
        var p :| 0 <= p < |m.next| && j < |m.next[p]| && m.next[p][j] == Some(n);
        assert m'.next[p][j] == Some(n);
      }
    }
    forall n | n in Level(m, j)
      ensures n in Level(m', j)
    {
    }
    forall n | n in Level(m', j)
      ensures n in Level(m, j)
    {
      assert PointedTo(m, j, n);
    }
  }

  /** One level gains the published node; nothing else joins or leaves a level. */
  lemma LevelAfter(m: Memory, s: Store, j: nat)
    requires Shaped(m) && May(m, s)
    ensures Level(Apply(m, s), j) == Level(m, j) + (if s.Publish? && s.i == j then {s.x} else {})
  {
    hide PointedTo;
    var m' := Apply(m, s);
    match s {
      case Raise(_) => RaiseMovesNothing(m, s.height, j);
      case Allocate(k, h) => LevelAfterAllocate(m, k, h, j);
      case Fill(x, i, link) =>
        forall n: nat
          ensures n in Level(m', j) <==> n in Level(m, j)
        {
          PointedAfter(m, x, i, link, j, n);
        }
      case Publish(p, i, x) =>
        assert m.next[p][i].Some? ==> PointedTo(m', i, m.next[p][i].value) by {
          if m.next[p][i].Some? {
            StillPointed(m, p, i, x);
          }
        }
        forall n: nat
          ensures n in Level(m', j) <==> n in Level(m, j) || (i == j && n == x)
        {
          PointedAfter(m, p, i, Some(x), j, n);
        }
    }
  }

  lemma RaiseMovesNothing(m: Memory, h: nat, j: nat)
    ensures Level(m.(maxHeight := h), j) == Level(m, j)
  {
    assert forall n: nat :: PointedTo(m.(maxHeight := h), j, n) <==> PointedTo(m, j, n);
  }

  /** The node that `p` led to is now led to by the new node. */
  lemma StillPointed(m: Memory, p: nat, i: nat, x: nat)
    requires Shaped(m) && May(m, Publish(p, i, x)) && m.next[p][i].Some?
    ensures PointedTo(Apply(m, Publish(p, i, x)), i, m.next[p][i].value)
  {
    assert Apply(m, Publish(p, i, x)).next[x][i] == m.next[p][i];
  }

  lemma LevelRange(m: Memory, i: nat)
    requires Shaped(m)
    ensures forall n :: n in Level(m, i) ==> 0 < n < |m.next| && i < |m.next[n]|
  {
  }

  lemma SetNextKeepsShape(m: Memory, n: nat, i: nat, link: Link)
    requires Shaped(m) && n < |m.next| && i < |m.next[n]|
    requires link.Some? ==> 0 < link.value < |m.next| && i < |m.next[link.value]|
    ensures Shaped(SetNext(m, n, i, link))
  {
    var m' := SetNext(m, n, i, link);
    assert forall k :: 0 <= k < |m.next| ==> |m'.next[k]| == |m.next[k]|;
  }

  lemma StoreKeepsShape(m: Memory, s: Store)
    requires Shaped(m) && May(m, s)
    ensures Shaped(Apply(m, s))
    ensures m.keys <= Apply(m, s).keys
  {
    match s {
      case Raise(_) =>
      case Allocate(_, h) =>
        assert forall n :: 0 <= n < |m.next| ==> Apply(m, s).next[n] == m.next[n];
      case Fill(x, i, link) =>
        LevelRange(m, i);
        SetNextKeepsShape(m, x, i, link);
      case Publish(p, i, x) => SetNextKeepsShape(m, p, i, Some(x));
    }
  }

  lemma InvLevel(m: Memory, j: nat)
    requires Inv(m) && j < MAX_HEIGHT
    ensures Shaped(m) && LevelOk(m, j) && (j > 0 ==> LevelOk(m, j - 1) && Level(m, j) <= Level(m, j - 1))
    ensures forall n: nat :: OnLevel(m, j, n) ==> n < |m.next| && j < |m.next[n]|
  {
  }

  lemma {:induction false} LevelsNest(m: Memory, i: nat)
    requires Inv(m) && i < MAX_HEIGHT
    ensures Level(m, i) <= Level(m, 0)
  {
    hide Level, Inv, Shaped, LevelOk;
    if i > 0 {
      InvLevel(m, i);
      LevelsNest(m, i - 1);
    }
  }

  /** A node whose link is not the one stored to leads where it did. */
  lemma UntouchedLeads(m: Memory, s: Store, j: nat, n: nat)
    requires Shaped(m) && j < MAX_HEIGHT && LevelOk(m, j) && May(m, s) && !(s.Publish? && s.i == j)
    requires OnLevel(m, j, n)
    ensures var m' := Apply(m, s);
      && n < |m'.next| && n < |m'.keys| && j < |m'.next[n]|
      && (forall o :: o in Level(m, j) ==> 0 < o < |m'.keys|)
      && LeadsTo(m', Level(m, j), n, m'.next[n][j])
  {
    LevelRange(m, j);
    hide Level, Shaped;
    assert Apply(m, s).next[n][j] == m.next[n][j];
    assert m.keys <= Apply(m, s).keys;
  }

  /** In key order: `x` goes between its predecessor `p` and the node `p` led to, and no other node's successor
      changes. */
  lemma SpliceLeads(m: Memory, nodes: set<nat>, p: nat, x: nat, b: Link, n: nat, link: Link)
    requires 0 < x < |m.keys| && forall o :: o in nodes ==> 0 < o < |m.keys|
    requires forall a, c :: a in nodes && c in nodes && m.keys[a] == m.keys[c] ==> a == c
    requires p == 0 || p in nodes
    requires n == 0 || n in nodes
    requires |m.keys| > 0 && LeadsTo(m, nodes, p, b) && LeadsTo(m, nodes, n, link)
    requires Precedes(m, p, x) && (b.Some? ==> Precedes(m, x, b.value))
    ensures LeadsTo(m, nodes + {x}, p, Some(x))
    ensures LeadsTo(m, nodes + {x}, x, b)
    ensures n != p ==> LeadsTo(m, nodes + {x}, n, link)
  {
    assert forall o :: o in nodes && Precedes(m, x, o) ==> Precedes(m, p, o);
    if n != p {
      assert Precedes(m, n, x) ==> link.Some? && m.keys[link.value] <= m.keys[x] by {
        assert p != 0 && Precedes(m, n, p) ==> link.Some? && m.keys[link.value] <= m.keys[p];
        assert n != 0 && Precedes(m, p, n) ==> b.Some? && m.keys[b.value] <= m.keys[n];
      }
    }
  }

  /** Linking `x` behind its predecessor leaves every node of the level leading to the next. */
  lemma PublishedLeads(m: Memory, s: Store, n: nat)
    requires Inv(m) && s.Publish? && s.i < MAX_HEIGHT && May(m, s)
    requires n == s.x || OnLevel(m, s.i, n)
    ensures var m' := Apply(m, s);
      && n < |m'.next| && n < |m'.keys| && s.i < |m'.next[n]|
      && (forall o :: o in Level(m, s.i) + {s.x} ==> 0 < o < |m'.keys|)
      && LeadsTo(m', Level(m, s.i) + {s.x}, n, m'.next[n][s.i])
  {
    hide Level, Shaped, Inv;
    InvLevel(m, s.i);
    LevelsNest(m, s.i);
    LevelRange(m, s.i);
    var nodes, p, x := Level(m, s.i), s.p, s.x;
    BottomDistinct(m);
    SpliceLeads(m, nodes, p, x, m.next[p][s.i], if n == x then p else n, m.next[if n == x then p else n][s.i]);
    SameKeysLead(m, Apply(m, s), nodes + {x}, n, Apply(m, s).next[n][s.i]);
  }

  lemma BottomDistinct(m: Memory)
    requires Inv(m)
    ensures DistinctKeys(m)
  {
  }

  lemma SameKeysLead(m: Memory, m': Memory, nodes: set<nat>, n: nat, link: Link)
    requires m.keys <= m'.keys && n < |m.keys| && forall o :: o in nodes ==> 0 < o < |m.keys|
    requires LeadsTo(m, nodes, n, link)
    ensures LeadsTo(m', nodes, n, link)
  {
  }

  lemma StoreKeepsLevel(m: Memory, s: Store, j: nat)
    requires Inv(m) && May(m, s) && j < MAX_HEIGHT
    requires Shaped(Apply(m, s))
    ensures LevelOk(Apply(m, s), j)
  {
    hide Inv, Level, PointedTo, Shaped, Apply, LeadsTo;
    InvLevel(m, j);
    LevelAfter(m, s, j);
    if j > 0 {
      LevelAfter(m, s, j - 1);
    }
    var m' := Apply(m, s);
    forall n: nat | OnLevel(m', j, n)
      ensures n < |m'.next| && n < |m'.keys| && j < |m'.next[n]|
      ensures forall o :: o in Level(m', j) ==> 0 < o < |m'.keys|
      ensures LeadsTo(m', Level(m', j), n, m'.next[n][j])
    {
      if s.Publish? && s.i == j {
        PublishedLeads(m, s, n);
      } else {
        assert Level(m', j) == Level(m, j);
        UntouchedLeads(m, s, j, n);
      }
    }
    assert m'.maxHeight >= m.maxHeight by {
      MaxHeightGrows(m, s);
    }
  }

  lemma MaxHeightGrows(m: Memory, s: Store)
    requires May(m, s)
    ensures Apply(m, s).maxHeight >= m.maxHeight
  {
  }

  /** Each store of a writer keeps every level sorted and inside the level below. */
  lemma StoreKeeps(m: Memory, s: Store)
    requires Inv(m) && May(m, s)
    ensures Inv(Apply(m, s))
    ensures Level(Apply(m, s), 0) == Level(m, 0) + (if s.Publish? && s.i == 0 then {s.x} else {})
    ensures m.keys <= Apply(m, s).keys
  {
    hide Level, LevelOk;
    StoreKeepsShape(m, s);
    LevelAfter(m, s, 0);
    forall j | 0 <= j < MAX_HEIGHT
      ensures LevelOk(Apply(m, s), j)
    {
      StoreKeepsLevel(m, s, j);
    }
    StoreKeepsDistinct(m, s);
  }

  lemma StoreKeepsDistinct(m: Memory, s: Store)
    requires Inv(m) && May(m, s)
    ensures DistinctKeys(Apply(m, s))
  {
    hide Level;
    LevelAfter(m, s, 0);
    LevelRange(m, 0);
    InvLevel(m, 0);
    if s.Publish? && s.i == 0 {
      assert LeadsTo(m, Level(m, 0), s.p, m.next[s.p][0]);
    }
  }

  // ---- readers ----

  /** A search in progress stands at a node of some level; when done it has the node stopped at and the one after it. */
  datatype Walk = At(x: nat, level: nat) | Done(x: nat, found: Link)

  // The key searched for; None is past all keys.
  type Target = Option<Key>

  predicate IsAfterNode(m: Memory, target: Target, n: nat)
    requires n < |m.keys|
  {
    target.Some? ==> m.keys[n] < target.value
  }

  predicate CanLoad(m: Memory, w: Walk) {
    && w.At? && w.x < |m.next| && w.level < |m.next[w.x]|
    && (m.next[w.x][w.level].Some? ==> m.next[w.x][w.level].value < |m.keys|)
  }

  /** One load of a link and the decision taken on it. */
  function Step(m: Memory, target: Target, w: Walk): Walk
    requires CanLoad(m, w)
  {
    var next := m.next[w.x][w.level];
    if next.Some? && IsAfterNode(m, target, next.value) then At(next.value, w.level)
    else if w.level == 0 then Done(w.x, next)
    else At(w.x, w.level - 1)
  }

  ghost predicate WalkOk(m: Memory, target: Target, w: Walk) {
    w.At? ==>
      && w.level < MAX_HEIGHT
      && w.x < |m.keys|
      && OnLevel(m, w.level, w.x)
      && (w.x == 0 || IsAfterNode(m, target, w.x))
  }

  /** `found` is the first node in the list at or after the target. */
  ghost predicate IsCeiling(m: Memory, target: Target, found: Link) {
    match found
    case None => forall o :: o in Level(m, 0) ==> IsAfterNode(m, target, o)
    case Some(b) =>
      && b in Level(m, 0) && !IsAfterNode(m, target, b)
      && forall o :: o in Level(m, 0) && !IsAfterNode(m, target, o) ==> m.keys[b] <= m.keys[o]
  }

  /** `x` is the last node in the list before the target; the head when there is none. */
  ghost predicate IsFloor(m: Memory, target: Target, x: nat) {
    && OnLevel(m, 0, x)
    && (x != 0 ==> IsAfterNode(m, target, x))
    && forall o :: o in Level(m, 0) && IsAfterNode(m, target, o) ==> x != 0 && m.keys[o] <= m.keys[x]
  }

  /** A search never loads a link that does not exist, stays before its target, and when it ends is exact for the memory
      it made its last load from. */
  lemma StepIsExact(m: Memory, target: Target, w: Walk)
    requires Inv(m) && w.At? && WalkOk(m, target, w)
    ensures CanLoad(m, w)
    ensures var w' := Step(m, target, w);
      && WalkOk(m, target, w')
      && (w'.Done? ==> IsCeiling(m, target, w'.found) && IsFloor(m, target, w'.x))
      && (w'.At? && w'.level == w.level ==> Ahead(m, w'.x) < Ahead(m, w.x))
  {
    InvLevel(m, w.level);
    LevelsNest(m, w.level);
    LevelRange(m, 0);
    LevelRange(m, w.level);
    hide Level, Inv, Shaped;
    var next := m.next[w.x][w.level];
    assert LeadsTo(m, Level(m, w.level), w.x, next);
    if next.Some? && IsAfterNode(m, target, next.value) {
      assert next.value in Ahead(m, w.x) && next.value !in Ahead(m, next.value);
      assert Ahead(m, next.value) <= Ahead(m, w.x);
    }
  }

  /** The nodes after `x`: what is left to walk at one level. */
  ghost function Ahead(m: Memory, x: nat): set<nat>
    requires x < |m.keys|
  {
    set o | o in Level(m, 0) && Precedes(m, x, o)
  }

  lemma StoreKeepsWalk(m: Memory, s: Store, target: Target, w: Walk)
    requires Inv(m) && May(m, s) && WalkOk(m, target, w)
    ensures WalkOk(Apply(m, s), target, w)
  {
    if w.At? {
      LevelAfter(m, s, w.level);
    }
  }

  // ---- one writer and any number of readers ----

  datatype Reader = Reader(target: Target, walk: Walk)
  datatype System = System(mem: Memory, readers: map<nat, Reader>)
  datatype Event = Writes(s: Store) | Starts(r: nat, target: Target) | Reads(r: nat)

  /** One atomic step, of the writer or of one reader. */
  ghost predicate Does(a: System, e: Event, b: System) {
    match e
    case Writes(s) => May(a.mem, s) && b == a.(mem := Apply(a.mem, s))
    case Starts(r, target) => a.mem.maxHeight >= 1 &&
        b == a.(readers := a.readers[r := Reader(target, At(0, a.mem.maxHeight - 1))])
    case Reads(r) =>
      && r in a.readers && CanLoad(a.mem, a.readers[r].walk)
      && b == a.(readers := a.readers[r := a.readers[r].(walk := Step(a.mem, a.readers[r].target, a.readers[r].walk))])
  }

  ghost predicate SystemOk(a: System) {
    Inv(a.mem) && forall r :: r in a.readers ==> WalkOk(a.mem, a.readers[r].target, a.readers[r].walk)
  }

  lemma EventKeeps(a: System, e: Event, b: System)
    requires SystemOk(a) && Does(a, e, b)
    ensures SystemOk(b)
    ensures Level(a.mem, 0) <= Level(b.mem, 0) && a.mem.keys <= b.mem.keys
  {
    hide Level, Inv, WalkOk, Apply, May;
    match e {
      case Writes(s) =>
        StoreKeeps(a.mem, s);
        forall r | r in b.readers
          ensures WalkOk(b.mem, b.readers[r].target, b.readers[r].walk)
        {
          StoreKeepsWalk(a.mem, s, a.readers[r].target, a.readers[r].walk);
        }
      case Starts(r, target) => StartIsOk(a.mem, target);
      case Reads(r) => StepIsExact(a.mem, a.readers[r].target, a.readers[r].walk);
    }
  }

  lemma StartIsOk(m: Memory, target: Target)
    requires Inv(m)
    ensures 1 <= m.maxHeight <= MAX_HEIGHT && |m.keys| == |m.next| && WalkOk(m, target, At(0, m.maxHeight - 1))
  {
  }

  ghost predicate Follows(a: System, b: System) {
    exists e :: Does(a, e, b)
  }

  /** Any interleaving of the writer's stores and the readers' loads. */
  ghost predicate Run(run: seq<System>) {
    && |run| > 0 && SystemOk(run[0])
    && forall k :: 0 < k < |run| ==> Follows(run[k - 1], run[k])
  }

  lemma {:induction false} RunKeeps(run: seq<System>, i: nat, j: nat)
    requires Run(run) && i <= j < |run|
    ensures SystemOk(run[i]) && SystemOk(run[j])
    ensures Level(run[i].mem, 0) <= Level(run[j].mem, 0) && run[i].mem.keys <= run[j].mem.keys
    decreases j
  {
    hide SystemOk, Does, Level;
    if i < j {
      RunKeeps(run, i, j - 1);
      assert Follows(run[j - 1], run[j]);
      var e :| Does(run[j - 1], e, run[j]);
      EventKeeps(run[j - 1], e, run[j]);
    } else if j > 0 {
      RunKeeps(run, j - 1, j - 1);
      assert Follows(run[j - 1], run[j]);
      var e :| Does(run[j - 1], e, run[j]);
      EventKeeps(run[j - 1], e, run[j]);
    }
  }

  /** However a search interleaves with inserts, the answer it ends with is exact at that moment, so it never misses a
      node that was in the list when the search began, or at any earlier time. */
  lemma ReaderNeverMisses(run: seq<System>, i: nat, j: nat, r: nat)
    requires Run(run) && i <= j && j + 1 < |run|
    requires r in run[j].readers && Does(run[j], Reads(r), run[j + 1]) && run[j + 1].readers[r].walk.Done?
    ensures var m, reader := run[j].mem, run[j + 1].readers[r];
      && IsCeiling(m, reader.target, reader.walk.found) && IsFloor(m, reader.target, reader.walk.x)
      && Level(run[i].mem, 0) <= Level(m, 0) && run[i].mem.keys <= m.keys
      && (forall n :: n in Level(run[i].mem, 0) && !IsAfterNode(run[i].mem, reader.target, n) ==>
            reader.walk.found.Some? && m.keys[reader.walk.found.value] <= m.keys[n])
  {
    RunKeeps(run, i, j);
    hide Level, Inv, Run;
    StepIsExact(run[j].mem, run[j].readers[r].target, run[j].readers[r].walk);
    LevelKeys(run[i].mem, run[j].mem);
  }

  lemma LevelKeys(a: Memory, b: Memory)
    requires a.keys <= b.keys
    ensures forall n :: n in Level(a, 0) ==> n < |a.keys| && a.keys[n] == b.keys[n]
  {
  }

  // ---- the list itself ----

  /** `p` is the node after which `key` goes at a level. */
  ghost predicate IsPrev(m: Memory, key: Key, level: nat, p: nat) {
    && OnLevel(m, level, p)
    && p < |m.keys| && (p == 0 || m.keys[p] < key)
    && p < |m.next| && level < |m.next[p]|
    && (m.next[p][level].Some? ==> m.next[p][level].value < |m.keys| && key <= m.keys[m.next[p][level].value])
  }

  /** The keys in the list. */
  ghost function KeySet(m: Memory): set<Key> {
    set n | n in Level(m, 0) :: m.keys[n]
  }

  lemma KeySetGrows(a: Memory, b: Memory, key: Key)
    requires b.keys == a.keys + [key] && Level(b, 0) == Level(a, 0) + {|a.keys|}
    ensures KeySet(b) == KeySet(a) + {key}
  {
    LevelKeys(a, b);
    hide Level;
    forall n | n in Level(a, 0)
      ensures a.keys[n] in KeySet(b)
    {
      assert n in Level(b, 0);
    }
    assert |a.keys| in Level(b, 0);
  }

  lemma EmptyIsOk(m: Memory)
    requires m == Memory([0.0], [seq(MAX_HEIGHT, _ => None)], 1)
    ensures Inv(m) && KeySet(m) == {}
  {
    forall i: nat, n: nat
      ensures n !in Level(m, i)
    {
      assert m.next[0] == seq(MAX_HEIGHT, _ => None);
    }
    hide Level;
    assert forall i: nat :: Level(m, i) == {};
  }

  /** A run of single stores, each one allowed. */
  ghost predicate Stores(trace: seq<Memory>) {
    forall k :: 0 < k < |trace| ==> IsStore(trace[k - 1], trace[k])
  }

  ghost predicate IsStore(a: Memory, b: Memory) {
    exists s :: May(a, s) && b == Apply(a, s)
  }

  lemma OneMoreStore(trace: seq<Memory>, s: Store)
    requires trace != [] && Stores(trace) && May(trace[|trace| - 1], s)
    ensures Stores(trace + [Apply(trace[|trace| - 1], s)])
  {
    assert IsStore(trace[|trace| - 1], Apply(trace[|trace| - 1], s));
  }

  /** Insert is about to link node `x` at level `i`: it is in every level below, and `prev` is right for those above. */
  ghost predicate Linking(m: Memory, bottom: set<nat>, x: nat, height: nat, i: nat, prev: seq<nat>) {
    && Inv(m)
    && 0 < x < |m.keys| && x < |m.next| && |m.next[x]| == height <= m.maxHeight && i <= height <= |prev|
    && (forall o :: o in bottom ==> o < |m.keys| && m.keys[o] != m.keys[x])
    && Level(m, 0) == bottom + (if i > 0 then {x} else {})
    && (forall j :: 0 <= j < i ==> x in Level(m, j))
    && (forall j :: i <= j < height ==> m.next[x][j] == None && x !in Level(m, j) && IsPrev(m, m.keys[x], j, prev[j]))
  }

  lemma StoreKeepsPrev(m: Memory, s: Store, key: Key, j: nat, p: nat)
    requires Shaped(m) && May(m, s) && IsPrev(m, key, j, p)
    requires !(s.Fill? && s.i == j) && !(s.Publish? && s.i == j)
    ensures IsPrev(Apply(m, s), key, j, p)
  {
    hide Level, Shaped;
    LevelAfter(m, s, j);
    if s.Allocate? || s.Fill? || s.Publish? {
      StoreKeepsShape(m, s);
    }
    assert Apply(m, s).next[p][j] == m.next[p][j];
  }

  lemma LinkingAt(m: Memory, bottom: set<nat>, x: nat, height: nat, i: nat, prev: seq<nat>)
    requires Linking(m, bottom, x, height, i, prev) && i < height
    ensures i < |prev| && Inv(m) && Shaped(m) && LevelOk(m, i)
    ensures 1 <= m.maxHeight <= MAX_HEIGHT && |m.keys| == |m.next| && i < m.maxHeight
    ensures 0 < x < |m.keys| && i < |m.next[x]| && m.next[x][i] == None && !OnLevel(m, i, x)
    ensures i > 0 ==> x in Level(m, i - 1)
    ensures IsPrev(m, m.keys[x], i, prev[i]) && OnLevel(m, i, prev[i])
    ensures forall o :: o in Level(m, i) ==> 0 < o < |m.keys| && m.keys[o] != m.keys[x]
  {
    InvLevel(m, i);
    LevelsNest(m, i);
    LevelRange(m, i);
    hide Level, Inv, IsPrev;
  }

  /** The first of the two stores for a level: the new node's own link. */
  lemma FillIsSafe(m: Memory, bottom: set<nat>, x: nat, height: nat, i: nat, prev: seq<nat>)
    requires Linking(m, bottom, x, height, i, prev) && i < height
    ensures prev[i] < |m.next| && i < |m.next[prev[i]]|
    ensures May(m, Fill(x, i, m.next[prev[i]][i]))
    ensures Inv(m) && Shaped(m)
  {
    hide Level, Inv, Shaped, Linking;
    LinkingAt(m, bottom, x, height, i, prev);
    var p := prev[i];
    assert LeadsTo(m, Level(m, i), p, m.next[p][i]);
  }

  /** The second store: the predecessor's link. */
  lemma PublishIsSafe(m: Memory, bottom: set<nat>, x: nat, height: nat, i: nat, prev: seq<nat>)
    requires Linking(m, bottom, x, height, i, prev) && i < height
    requires prev[i] < |m.next| && i < |m.next[prev[i]]|
    ensures May(SetNext(m, x, i, m.next[prev[i]][i]), Publish(prev[i], i, x))
  {
    hide Level, Inv, Shaped, Linking;
    LinkingAt(m, bottom, x, height, i, prev);
    FillIsSafe(m, bottom, x, height, i, prev);
    var fill := Fill(x, i, m.next[prev[i]][i]);
    LevelAfter(m, fill, i);
    if i > 0 {
      LevelAfter(m, fill, i - 1);
    }
    assert LeadsTo(m, Level(m, i), prev[i], m.next[prev[i]][i]);
  }

  lemma LinkedLevel(m: Memory, x: nat, i: nat, p: nat, key: Key, j: nat, q: nat)
    requires Shaped(m) && p < |m.next| && i < |m.next[p]|
    requires var fill := Fill(x, i, m.next[p][i]); May(m, fill) && May(Apply(m, fill), Publish(p, i, x))
    ensures var m2 := Apply(Apply(m, Fill(x, i, m.next[p][i])), Publish(p, i, x));
      Level(m2, j) == Level(m, j) + (if j == i then {x} else {}) &&
          (IsPrev(m, key, j, q) && j != i ==> IsPrev(m2, key, j, q))
  {
    hide Level, Shaped, May, IsPrev;
    var fill := Fill(x, i, m.next[p][i]);
    StoreKeepsShape(m, fill);
    LevelAfter(m, fill, j);
    LevelAfter(Apply(m, fill), Publish(p, i, x), j);
    if IsPrev(m, key, j, q) && j != i {
      StoreKeepsPrev(m, fill, key, j, q);
      StoreKeepsPrev(Apply(m, fill), Publish(p, i, x), key, j, q);
    }
  }

  lemma LinkedOneLevel(m: Memory, bottom: set<nat>, x: nat, height: nat, i: nat, prev: seq<nat>)
    requires Linking(m, bottom, x, height, i, prev) && i < height
    requires prev[i] < |m.next| && i < |m.next[prev[i]]|
    ensures var fill, publish := Fill(x, i, m.next[prev[i]][i]), Publish(prev[i], i, x);
      Linking(Apply(Apply(m, fill), publish), bottom, x, height, i + 1, prev)
  {
    hide Level, Inv, May, IsPrev, Shaped, PointedTo;
    var fill, publish := Fill(x, i, m.next[prev[i]][i]), Publish(prev[i], i, x);
    var m1 := Apply(m, fill);
    var m2 := Apply(m1, publish);
    LinkingAt(m, bottom, x, height, i, prev);
    FillIsSafe(m, bottom, x, height, i, prev);
    PublishIsSafe(m, bottom, x, height, i, prev);
    StoreKeeps(m, fill);
    StoreKeeps(m1, publish);
    forall j | 0 <= j < height
      ensures Level(m2, j) == Level(m, j) + (if j == i then {x} else {})
      ensures j > i ==> IsPrev(m2, m.keys[x], j, prev[j])
    {
      LinkedLevel(m, x, i, prev[i], m.keys[x], j, prev[j]);
    }
    LinkedLevel(m, x, i, prev[i], m.keys[x], 0, 0);
  }

  /** Levels above the highest in use are empty, so the head is the node before any key there. */
  lemma HeadIsPrev(m: Memory, key: Key, j: nat)
    requires Inv(m) && m.maxHeight <= j < MAX_HEIGHT
    ensures IsPrev(m, key, j, 0)
  {
    InvLevel(m, j);
    hide Inv;
    assert OnLevel(m, j, 0);
    assert LeadsTo(m, Level(m, j), 0, m.next[0][j]);
  }

  lemma StoreKeepsPrevs(m: Memory, s: Store, key: Key, height: nat, prev: seq<nat>)
    requires Inv(m) && May(m, s) && (s.Raise? || s.Allocate?) && height <= |prev|
    requires forall j :: 0 <= j < height ==> IsPrev(m, key, j, prev[j])
    ensures forall j :: 0 <= j < height ==> IsPrev(Apply(m, s), key, j, prev[j])
  {
    hide IsPrev;
    forall j | 0 <= j < height
      ensures IsPrev(Apply(m, s), key, j, prev[j])
    {
      StoreKeepsPrev(m, s, key, j, prev[j]);
    }
  }

  lemma LinkingStarts(m: Memory, key: Key, height: nat, prev: seq<nat>)
    requires Inv(m) && 1 <= height <= m.maxHeight && height <= |prev|
    requires forall o :: o in Level(m, 0) ==> o < |m.keys| && m.keys[o] != key
    requires forall j :: 0 <= j < height ==> IsPrev(m, key, j, prev[j])
    ensures Linking(Apply(m, Allocate(key, height)), Level(m, 0), |m.keys|, height, 0, prev)
  {
    var s := Allocate(key, height);
    assert 1 <= height <= MAX_HEIGHT;
    StoreKeeps(m, s);
    StoreKeepsPrevs(m, s, key, height, prev);
    forall j | 0 <= j < height
      ensures |m.keys| !in Level(Apply(m, s), j)
    {
      LevelAfter(m, s, j);
    }
  }

  lemma LinkingEnds(m: Memory, bottom: set<nat>, x: nat, height: nat, prev: seq<nat>)
    requires Linking(m, bottom, x, height, height, prev) && height > 0
    ensures Inv(m) && Level(m, 0) == bottom + {x} && 0 < x < |m.keys|
  {
  }

  /** The two stores that link the new node at one level. */
  lemma TwoStores(trace: seq<Memory>, bottom: set<nat>, x: nat, height: nat, i: nat, prev: seq<nat>)
    returns (longer: seq<Memory>)
    requires trace != [] && Stores(trace) && Linking(trace[|trace| - 1], bottom, x, height, i, prev) && i < height
    ensures var m := trace[|trace| - 1];
      && prev[i] < |m.next| && i < |m.next[prev[i]]| && x < |m.next| && i < |m.next[x]|
      && longer ==
            trace + [SetNext(m, x, i, m.next[prev[i]][i]),
                     SetNext(SetNext(m, x, i, m.next[prev[i]][i]), prev[i], i, Some(x))]
      && Linking(longer[|longer| - 1], bottom, x, height, i + 1, prev)
    ensures Stores(longer)
  {
    hide Linking, Stores, May, Inv, Level, IsPrev, Shaped;
    var m := trace[|trace| - 1];
    FillIsSafe(m, bottom, x, height, i, prev);
    LinkingAt(m, bottom, x, height, i, prev);
    PublishIsSafe(m, bottom, x, height, i, prev);
    LinkedOneLevel(m, bottom, x, height, i, prev);
    var fill, publish := Fill(x, i, m.next[prev[i]][i]), Publish(prev[i], i, x);
    OneMoreStore(trace, fill);
    OneMoreStore(trace + [Apply(m, fill)], publish);
    longer := trace + [Apply(m, fill)] + [Apply(Apply(m, fill), publish)];
  }

  lemma NoStores(m: Memory)
    ensures Stores([m])
  {
  }

  lemma KeyIsFree(m: Memory, key: Key)
    requires Inv(m) && key !in KeySet(m)
    ensures forall o :: o in Level(m, 0) ==> o < |m.keys| && m.keys[o] != key
  {
  }

  lemma RaiseIsSafe(m: Memory, height: nat)
    requires Inv(m) && m.maxHeight < height <= MAX_HEIGHT
    ensures May(m, Raise(height)) && Inv(m.(maxHeight := height)) && Level(m.(maxHeight := height), 0) == Level(m, 0)
  {
    StoreKeeps(m, Raise(height));
  }

  lemma AllocateIsSafe(m: Memory, key: Key, height: nat)
    requires 1 <= height <= MAX_HEIGHT
    ensures May(m, Allocate(key, height))
  {
  }

  class SkipList {
    var keys: seq<Key>
    var next: seq<seq<Link>>
    var maxHeight: nat

    function Mem(): Memory
      reads this
    {
      Memory(keys, next, maxHeight)
    }

    ghost function Contents(): set<Key>
      reads this
    {
      KeySet(Mem())
    }

    constructor ()
      ensures Inv(Mem()) && Contents() == {}
    {
      keys := [0.0];
      next := [seq(MAX_HEIGHT, _ => None)];
      maxHeight := 1;
      new;
      EmptyIsOk(Mem());
    }

    /** The first node at or after the key; `prev`, when given, gets the node before the key at each level. */
    method FindGreaterOrEqual(key: Key, prev: array?<nat>) returns (found: Link)
      requires Inv(Mem()) && (prev != null ==> prev.Length == MAX_HEIGHT)
      modifies prev
      ensures IsCeiling(Mem(), Some(key), found)
      ensures prev != null ==> forall i :: 0 <= i < maxHeight ==> IsPrev(Mem(), key, i, prev[i])
    {
      hide Inv, Level, IsCeiling, IsFloor, LeadsTo, Shaped;
      ghost var m := Mem();
      StartIsOk(m, Some(key));
      var x: nat, level: nat := 0, maxHeight - 1;
      while true
        invariant Mem() == m && 0 <= level < maxHeight
        invariant WalkOk(m, Some(key), At(x, level))
        invariant prev != null ==> forall i :: level < i < maxHeight ==> IsPrev(m, key, i, prev[i])
        decreases level, Ahead(m, x)
      {
        StepIsExact(m, Some(key), At(x, level));
        var link := next[x][level];
        if link.Some? && keys[link.value] < key {
          x := link.value;
        } else {
          if prev != null {
            prev[level] := x;
          }
          if level == 0 {
            return link;
          } else {
            level := level - 1;
          }
        }
      }
    }

    /** The last node before the key; the head when there is none. */
    method FindLessThan(key: Key) returns (x: nat)
      requires Inv(Mem())
      ensures IsFloor(Mem(), Some(key), x)
    {
      hide Inv, Level, IsCeiling, IsFloor, LeadsTo, Shaped;
      ghost var m := Mem();
      StartIsOk(m, Some(key));
      x := 0;
      var level := maxHeight - 1;
      while true
        invariant 0 <= level < maxHeight && WalkOk(m, Some(key), At(x, level))
        decreases level, Ahead(m, x)
      {
        StepIsExact(m, Some(key), At(x, level));
        var link := next[x][level];
        if link == None || keys[link.value] >= key {
          if level == 0 {
            return x;
          } else {
            level := level - 1;
          }
        } else {
          x := link.value;
        }
      }
    }

    /** The last node of the list; the head when it is empty. */
    method FindLast() returns (x: nat)
      requires Inv(Mem())
      ensures IsFloor(Mem(), None, x)
    {
      hide Inv, Level, IsCeiling, IsFloor, LeadsTo, Shaped;
      ghost var m := Mem();
      StartIsOk(m, None);
      x := 0;
      var level := maxHeight - 1;
      while true
        invariant 0 <= level < maxHeight && WalkOk(m, None, At(x, level))
        decreases level, Ahead(m, x)
      {
        StepIsExact(m, None, At(x, level));
        var link := next[x][level];
        if link == None {
          if level == 0 {
            return x;
          } else {
            level := level - 1;
          }
        } else {
          x := link.value;
        }
      }
    }

    method Contains(key: Key) returns (b: bool)
      requires Inv(Mem())
      ensures b <==> key in Contents()
    {
      LevelRange(Mem(), 0);
      var x := FindGreaterOrEqual(key, null);
      b := x.Some? && keys[x.value] == key;
      hide Inv, Level;
      assert b ==> x.value in Level(Mem(), 0);
    }

    /** Adds a key that is not there yet.  `trace` is the memory after each store: all that a reader can come upon. */
    method Insert(key: Key, height: nat) returns (ghost trace: seq<Memory>)
      requires Inv(Mem()) && key !in Contents() && 1 <= height <= MAX_HEIGHT
      modifies this
      ensures Inv(Mem()) && Contents() == old(Contents()) + {key}
      ensures Stores(trace) && trace != [] && trace[0] == old(Mem()) && trace[|trace| - 1] == Mem()
    {
      hide Inv, Level, IsPrev, IsCeiling, Shaped, May, Stores, Linking, KeySet;
      ghost var m := Mem();
      var prev := new nat[MAX_HEIGHT];
      var found := FindGreaterOrEqual(key, prev);
      KeyIsFree(m, key);
      trace := [Mem()];
      NoStores(m);
      StartIsOk(m, None);
      if height > maxHeight {
        for i := maxHeight to height
          invariant Mem() == m
          invariant forall j :: 0 <= j < i ==> IsPrev(m, key, j, prev[j])
        {
          prev[i] := 0;
          HeadIsPrev(m, key, i);
        }
        maxHeight := height;
        RaiseIsSafe(m, height);
        StoreKeepsPrevs(m, Raise(height), key, height, prev[..]);
        OneMoreStore(trace, Raise(height));
        trace := trace + [Mem()];
      }
      ghost var bottom, prevs := Level(m, 0), prev[..];
      LinkingStarts(Mem(), key, height, prevs);
      AllocateIsSafe(Mem(), key, height);
      OneMoreStore(trace, Allocate(key, height));
      var x := |keys|;
      keys, next := keys + [key], next + [seq(height, _ => None)];
      trace := trace + [Mem()];
      for i := 0 to height
        invariant Linking(Mem(), bottom, x, height, i, prevs)
        invariant keys == old(keys) + [key] && prev[..] == prevs
        invariant Stores(trace) && trace != [] && trace[0] == m && trace[|trace| - 1] == Mem()
      {
        trace := TwoStores(trace, bottom, x, height, i, prevs);
        next := next[x := next[x][i := next[prev[i]][i]]];
        next := next[prev[i] := next[prev[i]][i := Some(x)]];
      }
      LinkingEnds(Mem(), bottom, x, height, prevs);
      KeySetGrows(m, Mem(), key);
    }
  }

  lemma BottomLeads(m: Memory, n: nat)
    requires Inv(m) && OnLevel(m, 0, n)
    ensures n < |m.keys| && n < |m.next| && |m.next[n]| > 0 && LeadsTo(m, Level(m, 0), n, m.next[n][0])
    ensures forall o :: o in Level(m, 0) ==> 0 < o < |m.keys|
  {
    InvLevel(m, 0);
    LevelRange(m, 0);
  }

  /** A cursor on the list, with no state but the node it stands at. */
  class Iterator {
    const list: SkipList
    var node: Link

    constructor (list: SkipList)
      ensures this.list == list && node == None
    {
      this.list, node := list, None;
    }

    ghost predicate Ok()
      reads this, list
    {
      Inv(list.Mem()) && (node.Some? ==> node.value in Level(list.Mem(), 0))
    }

    method Next()
      requires Ok() && node.Some?
      modifies this
      ensures Ok() && LeadsTo(list.Mem(), Level(list.Mem(), 0), old(node.value), node)
    {
      BottomLeads(list.Mem(), node.value);
      node := list.next[node.value][0];
    }

    method Prev()
      requires Ok() && node.Some?
      modifies this
      ensures Ok() && IsFloor(list.Mem(), Some(list.keys[old(node.value)]), if node.Some? then node.value else 0)
    {
      BottomLeads(list.Mem(), node.value);
      hide Inv, Level;
      var x := list.FindLessThan(list.keys[node.value]);
      node := if x == 0 then None else Some(x);
    }

    method Seek(target: Key)
      requires Ok()
      modifies this
      ensures Ok() && IsCeiling(list.Mem(), Some(target), node)
    {
      hide Inv, Level;
      node := list.FindGreaterOrEqual(target, null);
    }

    method SeekToFirst()
      requires Ok()
      modifies this
      ensures Ok() && LeadsTo(list.Mem(), Level(list.Mem(), 0), 0, node)
    {
      BottomLeads(list.Mem(), 0);
      node := list.next[0][0];
    }

    method SeekToLast()
      requires Ok()
      modifies this
      ensures Ok() && IsFloor(list.Mem(), None, if node.Some? then node.value else 0)
    {
      hide Inv, Level;
      var x := list.FindLast();
      node := if x == 0 then None else Some(x);
    }
  }
}
