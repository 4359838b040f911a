/** Several harts with translation caches, page-table stores and fences, in any
    interleaving. Hardware walks are made one entry at a time, any number of them may be
    in progress while the tables change or be kept to resume from, and what they found
    may be cached, faults included, until a fence discards it. */
module Tlb {
  import opened Words
  import opened PageTables
  import opened Hardware

  /** A cached walk: every address with the indices of `va` from `end.level` up. */
  datatype Cached = Cached(va: nat, end: End)

  /** A walk of `va` that has come to table `page` at `level`. */
  datatype Partial = Partial(va: nat, level: nat, page: nat)

  datatype Hart = Hart(root: nat, tlb: set<Cached>, walks: set<Partial>)

  datatype State = State(mem: Memory, harts: seq<Hart>)

  /** `ReadEntry` takes a walk one entry on; `Resume` begins one for another address
      where a walk with the same indices has come. `Store` is a page-table store by
      hart `k`; `StoreUnused` one to a word that no hart's current root leads to;
      `LocalFence` is hart `k`'s own fence and `RemoteFence` the one it has hart `j`
      execute; `SetRoot` the satp write. */
  datatype Step =
    | StartWalk(j: nat, va: nat)
    | Resume(j: nat, walk: Partial, va: nat)
    | ReadEntry(j: nat, walk: Partial)
    | Evict(j: nat, gone: set<Cached>, dropped: set<Partial>)
    | Store(k: nat, slot: nat, word: Word)
    | StoreUnused(k: nat, slot: nat, word: Word)
    | LocalFence(k: nat)
    | RemoteFence(k: nat, j: nat)
    | SetRoot(k: nat, root: nat)

  function Flushed(x: Hart): Hart {
    x.(tlb := {}, walks := {})
  }

  /** One entry read by a walk: go down a level or cache the end. The walk itself may
      stay, as in a cache of intermediate tables. */
  function Advance(h: Scheme, mem: Memory, x: Hart, walk: Partial): Hart {
    var Partial(va, l, p) := walk;
    var s := 512 * p + h.index(va, l);
    var e := if s < |mem| then h.decode(l, mem[s]) else Fault;
    if e.Pointer? && l > 0 then x.(walks := x.walks + {Partial(va, l - 1, e.page)})
    else x.(tlb := x.tlb + {Cached(va, End(l, if e.Pointer? then Fault else e))})
  }

  /** `va` and `vb` select the same indices above level `l`. */
  predicate SameFrom(h: Scheme, top: nat, va: nat, vb: nat, l: nat) {
    forall k: nat | l < k <= top :: h.index(va, k) == h.index(vb, k)
  }

  function Dropped(x: Hart, gone: set<Cached>, dropped: set<Partial>): Hart {
    x.(tlb := x.tlb - gone, walks := x.walks - dropped)
  }

  function Begun(x: Hart, walk: Partial): Hart {
    x.(walks := x.walks + {walk})
  }

  predicate HartOf(st: State, j: nat) {
    j < |st.harts|
  }

  /** The walk of `va` from table `p` at level `l` uses table `q` at level `k`. */
  predicate HwUses(h: Scheme, mem: Memory, p: nat, l: nat, va: nat, q: nat, k: nat)
    decreases l, p
  {
    var s := 512 * p + h.index(va, l);
    (q == p && k == l) ||
    (l > 0 && s < |mem| && h.decode(l, mem[s]).Pointer? &&
     HwUses(h, mem, h.decode(l, mem[s]).page, l - 1, va, q, k))
  }

  /** No walk from `root` reads `slot`. */
  ghost predicate Unread(h: Scheme, top: nat, mem: Memory, root: nat, slot: nat) {
    forall va: nat, q: nat, k: nat :: HwUses(h, mem, root, top, va, q, k) ==> 512 * q + h.index(va, k) != slot
  }

  ghost predicate Enabled(h: Scheme, top: nat, st: State, t: Step) {
    match t
    case StartWalk(j, va) => HartOf(st, j)
    case Resume(j, w, va) => HartOf(st, j) && w in st.harts[j].walks && SameFrom(h, top, w.va, va, w.level)
    case ReadEntry(j, w) => HartOf(st, j) && w in st.harts[j].walks
    case Evict(j, _, _) => HartOf(st, j)
    case Store(k, s, w) => HartOf(st, k) && s < |st.mem|
    case StoreUnused(k, s, w) =>
      HartOf(st, k) && s < |st.mem| && forall j | 0 <= j < |st.harts| :: Unread(h, top, st.mem, st.harts[j].root, s)
    case LocalFence(k) => HartOf(st, k)
    case RemoteFence(k, j) => HartOf(st, k) && HartOf(st, j)
    case SetRoot(k, _) => HartOf(st, k)
  }

  function Next(h: Scheme, top: nat, st: State, t: Step): State {
    match t
    case StartWalk(j, va) =>
      if j < |st.harts| then st.(harts := st.harts[j := Begun(st.harts[j], Partial(va, top, st.harts[j].root))]) else st
    case Resume(j, w, va) =>
      if j < |st.harts| then st.(harts := st.harts[j := Begun(st.harts[j], Partial(va, w.level, w.page))]) else st
    case ReadEntry(j, w) =>
      if j < |st.harts| then st.(harts := st.harts[j := Advance(h, st.mem, st.harts[j], w)]) else st
    case Evict(j, gone, dropped) =>
      if j < |st.harts| then st.(harts := st.harts[j := Dropped(st.harts[j], gone, dropped)]) else st
    case Store(_, s, w) => if s < |st.mem| then st.(mem := st.mem[s := w]) else st
    case StoreUnused(_, s, w) => if s < |st.mem| then st.(mem := st.mem[s := w]) else st
    case LocalFence(k) => if k < |st.harts| then st.(harts := st.harts[k := Flushed(st.harts[k])]) else st
    case RemoteFence(_, j) => if j < |st.harts| then st.(harts := st.harts[j := Flushed(st.harts[j])]) else st
    case SetRoot(k, r) => if k < |st.harts| then st.(harts := st.harts[k := st.harts[k].(root := r)]) else st
  }

  // ----- agreement of a cache with the tables

  predicate SameAbove(h: Scheme, top: nat, va: nat, vb: nat, l: nat) {
    forall k: nat | l <= k <= top :: h.index(va, k) == h.index(vb, k)
  }

  /** Every address the cached walk covers still walks to the same end. */
  ghost predicate Agrees(h: Scheme, top: nat, mem: Memory, root: nat, c: Cached) {
    forall vb: nat :: SameAbove(h, top, c.va, vb, c.end.level) ==> HwEnd(h, mem, root, top, vb) == c.end
  }

  /** A walk is where a new walk would pass. */
  predicate WalkAgrees(h: Scheme, top: nat, mem: Memory, root: nat, w: Partial) {
    w.level <= top && HwUses(h, mem, root, top, w.va, w.page, w.level)
  }

  ghost predicate Coherent(h: Scheme, top: nat, st: State, j: nat)
    requires HartOf(st, j)
  {
    var x := st.harts[j];
    (forall w :: w in x.walks ==> WalkAgrees(h, top, st.mem, x.root, w)) &&
    (forall c :: c in x.tlb ==> Agrees(h, top, st.mem, x.root, c))
  }

  // ----- hardware walks

  lemma {:induction false} UsesEnd(h: Scheme, mem: Memory, p: nat, l: nat, va: nat, q: nat, k: nat)
    requires HwUses(h, mem, p, l, va, q, k)
    ensures k <= l && HwEnd(h, mem, q, k, va) == HwEnd(h, mem, p, l, va)
    decreases l
  {
    var s := 512 * p + h.index(va, l);
    if !(q == p && k == l) {
      UsesEnd(h, mem, h.decode(l, mem[s]).page, l - 1, va, q, k);
    }
  }

  lemma {:induction false} UsesNext(h: Scheme, mem: Memory, p: nat, l: nat, va: nat, q: nat, k: nat)
    requires HwUses(h, mem, p, l, va, q, k) && k > 0
    requires var s := 512 * q + h.index(va, k); s < |mem| && h.decode(k, mem[s]).Pointer?
    ensures HwUses(h, mem, p, l, va, h.decode(k, mem[512 * q + h.index(va, k)]).page, k - 1)
    decreases l
  {
    var s := 512 * p + h.index(va, l);
    if q == p && k == l {
      var n := h.decode(k, mem[s]).page;
      assert HwUses(h, mem, n, l - 1, va, n, k - 1);
    } else {
      UsesNext(h, mem, h.decode(l, mem[s]).page, l - 1, va, q, k);
    }
  }

  lemma {:induction false} UsesShared(h: Scheme, mem: Memory, p: nat, l: nat, va: nat, vb: nat, q: nat, k: nat)
    requires HwUses(h, mem, p, l, va, q, k) && k <= l && forall m: nat | k < m <= l :: h.index(va, m) == h.index(vb, m)
    ensures HwUses(h, mem, p, l, vb, q, k)
    decreases l
  {
    var s := 512 * p + h.index(va, l);
    if !(q == p && k == l) {
      UsesEnd(h, mem, h.decode(l, mem[s]).page, l - 1, va, q, k);
      UsesShared(h, mem, h.decode(l, mem[s]).page, l - 1, va, vb, q, k);
    }
  }

  lemma {:induction false} UnreadFrame(h: Scheme, mem: Memory, p: nat, l: nat, va: nat, s: nat, w: Word)
    requires s < |mem| && forall q: nat, k: nat :: HwUses(h, mem, p, l, va, q, k) ==> 512 * q + h.index(va, k) != s
    ensures HwEnd(h, mem[s := w], p, l, va) == HwEnd(h, mem, p, l, va)
    ensures forall q: nat, k: nat :: HwUses(h, mem[s := w], p, l, va, q, k) == HwUses(h, mem, p, l, va, q, k)
    decreases l
  {
    var t := 512 * p + h.index(va, l);
    assert HwUses(h, mem, p, l, va, p, l);
    if l > 0 && t < |mem| && h.decode(l, mem[t]).Pointer? {
      var n := h.decode(l, mem[t]).page;
      var m := l - 1;
      forall q: nat, k: nat | HwUses(h, mem, n, m, va, q, k)
        ensures 512 * q + h.index(va, k) != s
      {
        assert HwUses(h, mem, p, l, va, q, k);
      }
      UnreadFrame(h, mem, n, m, va, s, w);
    }
  }

  // ----- one step

  /** Reading an entry keeps a coherent hart coherent. */
  lemma AdvanceCoherent(h: Scheme, top: nat, st: State, j: nat, w: Partial)
    requires HartOf(st, j) && Coherent(h, top, st, j) && w in st.harts[j].walks
    ensures Coherent(h, top, Next(h, top, st, ReadEntry(j, w)), j)
  {
    var x := st.harts[j];
    var Partial(va, l, p) := w;
    assert WalkAgrees(h, top, st.mem, x.root, w);
    var s := 512 * p + h.index(va, l);
    var e := if s < |st.mem| then h.decode(l, st.mem[s]) else Fault;
    if e.Pointer? && l > 0 {
      UsesNext(h, st.mem, x.root, top, va, p, l);
    } else {
      var c := Cached(va, End(l, if e.Pointer? then Fault else e));
      forall vb: nat | SameAbove(h, top, va, vb, l)
        ensures HwEnd(h, st.mem, x.root, top, vb) == c.end
      {
        UsesShared(h, st.mem, x.root, top, va, vb, p, l);
        UsesEnd(h, st.mem, x.root, top, vb, p, l);
      }
    }
  }

  /** A store no walk reads keeps every coherent hart coherent without a fence. */
  lemma UnusedCoherent(h: Scheme, top: nat, st: State, t: Step, j: nat)
    requires t.StoreUnused? && Enabled(h, top, st, t) && HartOf(st, j) && Coherent(h, top, st, j)
    ensures Coherent(h, top, Next(h, top, st, t), j)
  {
    var x := st.harts[j];
    assert Unread(h, top, st.mem, x.root, t.slot);
    forall c, vb: nat | c in x.tlb && SameAbove(h, top, c.va, vb, c.end.level)
      ensures HwEnd(h, st.mem[t.slot := t.word], x.root, top, vb) == c.end
    {
      assert Agrees(h, top, st.mem, x.root, c);
      UnreadFrame(h, st.mem, x.root, top, vb, t.slot, t.word);
    }
    forall w | w in x.walks
      ensures WalkAgrees(h, top, st.mem[t.slot := t.word], x.root, w)
    {
      assert WalkAgrees(h, top, st.mem, x.root, w);
      UnreadFrame(h, st.mem, x.root, top, w.va, t.slot, t.word);
    }
  }

  /** A step that discards hart `j`'s cache. */
  predicate Fences(t: Step, j: nat) {
    t == LocalFence(j) || (t.RemoteFence? && t.j == j)
  }

  /** A step after which hart `j`'s cache may be stale. */
  predicate Upsets(t: Step, j: nat) {
    t.Store? || (t.SetRoot? && t.k == j)
  }

  /** A fence makes a hart coherent, whatever it held; any other step keeps it so,
      except a store or a change of its own root. */
  lemma StepCoherent(h: Scheme, top: nat, st: State, t: Step, j: nat)
    requires Enabled(h, top, st, t) && HartOf(st, j)
    requires Fences(t, j) || (Coherent(h, top, st, j) && !Upsets(t, j))
    ensures HartOf(Next(h, top, st, t), j) && Coherent(h, top, Next(h, top, st, t), j)
  {
    match t
    case ReadEntry(i, w) =>
      if i == j { AdvanceCoherent(h, top, st, j, w); }
    case Resume(i, w, va) =>
      if i == j {
        assert WalkAgrees(h, top, st.mem, st.harts[j].root, w);
        UsesShared(h, st.mem, st.harts[j].root, top, w.va, va, w.page, w.level);
      }
    case StoreUnused(_, _, _) =>
      if !Fences(t, j) { UnusedCoherent(h, top, st, t, j); }
    case _ =>
  }

  // ----- runs

  function Run(h: Scheme, top: nat, st: State, ts: seq<Step>): State
    decreases |ts|
  {
    if ts == [] then st else Next(h, top, Run(h, top, st, ts[..|ts| - 1]), ts[|ts| - 1])
  }

  ghost predicate EnabledRun(h: Scheme, top: nat, st: State, ts: seq<Step>)
    decreases |ts|
  {
    ts == [] ||
    (EnabledRun(h, top, st, ts[..|ts| - 1]) && Enabled(h, top, Run(h, top, st, ts[..|ts| - 1]), ts[|ts| - 1]))
  }

  /** One more step. */
  lemma RunOn(h: Scheme, top: nat, st: State, ts: seq<Step>, t: Step)
    requires EnabledRun(h, top, st, ts) && Enabled(h, top, Run(h, top, st, ts), t)
    ensures EnabledRun(h, top, st, ts + [t]) && Run(h, top, st, ts + [t]) == Next(h, top, Run(h, top, st, ts), t)
  {
    var us := ts + [t];
    assert us[..|us| - 1] == ts && us[|us| - 1] == t;
  }

  /** The fence that the step calls for on hart `j`: a root change the hart's own,
      a store the storing hart's, local for itself and remote for the others. */
  function FenceFor(t: Step, j: nat): Step
    requires Upsets(t, j)
  {
    if t.SetRoot? || t.k == j then LocalFence(j) else RemoteFence(t.k, j)
  }

  /** Step `i` of the run still waits for its fence on hart `j`. */
  predicate Waits(ts: seq<Step>, i: nat, j: nat) {
    i < |ts| && Upsets(ts[i], j) && FenceFor(ts[i], j) !in ts[i + 1..]
  }

  lemma {:induction false} SameHarts(h: Scheme, top: nat, st: State, ts: seq<Step>)
    ensures |Run(h, top, st, ts).harts| == |st.harts|
    decreases |ts|
  {
    if ts != [] {
      SameHarts(h, top, st, ts[..|ts| - 1]);
    }
  }

  /** In every interleaving from a coherent start, a hart holds a cached walk that
      the tables contradict only while some store, or a change of its own root,
      still waits for its fence on that hart. */
  lemma {:induction false} StaleOnlyWhileWaiting(h: Scheme, top: nat, st: State, ts: seq<Step>, j: nat)
    requires HartOf(st, j) && Coherent(h, top, st, j) && EnabledRun(h, top, st, ts)
    ensures HartOf(Run(h, top, st, ts), j)
    ensures Coherent(h, top, Run(h, top, st, ts), j) || exists i: nat :: Waits(ts, i, j)
    decreases |ts|
  {
    if ts != [] {
      var n := |ts| - 1;
      var us, t := ts[..n], ts[n];
      var su := Run(h, top, st, us);
      StaleOnlyWhileWaiting(h, top, st, us, j);
      SameHarts(h, top, st, us);
      if Fences(t, j) {
        StepCoherent(h, top, su, t, j);
      } else if Coherent(h, top, su, j) {
        if Upsets(t, j) {
          assert ts[n + 1..] == [] && Waits(ts, n, j);
        } else {
          StepCoherent(h, top, su, t, j);
        }
      } else {
        var i: nat :| Waits(us, i, j);
        assert ts[i + 1..] == us[i + 1..] + [t];
        assert Waits(ts, i, j);
      }
      SameHarts(h, top, st, ts);
    }
  }

  /** Once every store and root change has had its fence on hart `j`, all that the
      hart has cached agrees with the tables: each address any cached walk covers
      translates to what was cached. */
  lemma QuietIsCoherent(h: Scheme, top: nat, st: State, ts: seq<Step>, j: nat, c: Cached, vb: nat)
    requires HartOf(st, j) && Coherent(h, top, st, j) && EnabledRun(h, top, st, ts)
    requires forall i: nat :: !Waits(ts, i, j)
    requires HartOf(Run(h, top, st, ts), j) && c in Run(h, top, st, ts).harts[j].tlb
    requires SameAbove(h, top, c.va, vb, c.end.level)
    ensures var sn := Run(h, top, st, ts);
            Physical(h, c.end, vb) == HwWalk(h, sn.mem, sn.harts[j].root, top, vb)
  {
    StaleOnlyWhileWaiting(h, top, st, ts, j);
    var sn := Run(h, top, st, ts);
    assert Agrees(h, top, sn.mem, sn.harts[j].root, c);
  }

  // ----- whole kernel operations on every hart, interleaved

  /** The steps a kernel operation makes, as opposed to those of the walkers. */
  predicate IssuedBy(t: Step, k: nat) {
    (t.Store? || t.StoreUnused? || t.LocalFence? || t.RemoteFence? || t.SetRoot?) && t.k == k
  }

  function Project(ts: seq<Step>, k: nat): seq<Step> {
    if ts == [] then [] else (if IssuedBy(ts[0], k) then [ts[0]] else []) + Project(ts[1..], k)
  }

  /** Every store and root change in the log is followed by its fence on each of
      the n harts it may upset. */
  ghost predicate Settled(log: seq<Step>, n: nat) {
    forall i: nat, j: nat :: j < n ==> !Waits(log, i, j)
  }

  lemma {:induction false} ProjectHolds(ts: seq<Step>, k: nat, t: Step)
    requires t in Project(ts, k)
    ensures t in ts
  {
    if ts != [] && !(IssuedBy(ts[0], k) && t == ts[0]) {
      ProjectHolds(ts[1..], k, t);
    }
  }

  lemma {:induction false} ProjectAt(ts: seq<Step>, k: nat, i: nat) returns (m: nat)
    requires i < |ts| && IssuedBy(ts[i], k)
    ensures m < |Project(ts, k)| && Project(ts, k)[m] == ts[i] && Project(ts, k)[m + 1..] == Project(ts[i + 1..], k)
  {
    if i == 0 {
      m := 0;
    } else {
      m := ProjectAt(ts[1..], k, i - 1);
      assert ts[1..][i..] == ts[i + 1..];
      if IssuedBy(ts[0], k) {
        var rest := Project(ts[1..], k);
        assert ([ts[0]] + rest)[m + 2..] == rest[m + 1..];
        m := m + 1;
      }
    }
  }

  /** If each hart's own steps are settled, nothing waits for a fence, however the
      harts and the walkers are interleaved. */
  lemma SettledInterleaving(ts: seq<Step>, n: nat)
    requires forall k: nat :: Settled(Project(ts, k), n)
    ensures Settled(ts, n)
  {
    forall i: nat, j: nat | j < n
      ensures !Waits(ts, i, j)
    {
      if i < |ts| && Upsets(ts[i], j) {
        var k := ts[i].k;
        var m := ProjectAt(ts, k, i);
        assert !Waits(Project(ts, k), m, j);
        ProjectHolds(ts[i + 1..], k, FenceFor(ts[i], j));
      }
    }
  }

  /** Harts that each run whole operations, interleaved in any way with each other
      and with the walkers, end with every cache agreeing with the tables. */
  lemma WholeOperationsCoherent(h: Scheme, top: nat, st: State, ts: seq<Step>, j: nat)
    requires HartOf(st, j) && Coherent(h, top, st, j) && EnabledRun(h, top, st, ts)
    requires forall k: nat :: Settled(Project(ts, k), |st.harts|)
    ensures HartOf(Run(h, top, st, ts), j) && Coherent(h, top, Run(h, top, st, ts), j)
  {
    SettledInterleaving(ts, |st.harts|);
    StaleOnlyWhileWaiting(h, top, st, ts, j);
  }
}
