/** The RISC-V operations called as the steps of a run, with all they ask of memory
    supplied by the run's invariant. */
module RiscvBoot {
  import opened Words
  import opened Options
  import opened PageTables
  import opened PageTableUpdates
  import opened Pointers
  import opened VirtualAddresses
  import opened Hardware
  import opened RiscvPte
  import opened RiscvWalk
  import opened RiscvSpaces
  import opened RiscvTheorems
  import opened RiscvHarts
  import A = AsidPools
  import K = RiscvKernel
  import T = Tlb

  /** In a forest every walk stays inside memory. */
  lemma WalksInside(k: nat, mem: Memory, tab: Labels, r: nat, va: nat)
    requires Inv(k, mem, tab) && IsRoot(tab, r)
    ensures Safe(FORMAT, mem, r, TOP, va)
  {
    LabelledIsSafe(FORMAT, mem, tab, r, r, TOP, va);
  }

  /** A linked table is refused at the first entry: nothing else is looked at. */
  lemma LinkedLooksInside(k: nat, mem: Memory, tab: Labels, r: nat, va: nat, z: nat, j: nat)
    requires Inv(k, mem, tab) && IsRoot(tab, r) && j < TOP && Uses(FORMAT, mem, r, TOP, va, z, j)
    ensures LooksInside(mem, r, TOP, va, z)
  {
    assert EntryOk(FORMAT, mem, tab, r, PtIndex(va, TOP));
  }

  /** The pointers the kernel is given for the pages of an operation. */
  predicate PointersFor(offset: nat, op: Op, root: nat, other: nat) {
    root == TableOf(offset, op.root) &&
    match op
    case NewRoot(_) => true
    case MapTable(_, pt, _) => other == offset + pt
    case MapPage(_, frame, _) => other == offset + frame
    case UnmapPage(_, _, _, frame) => other == offset + frame
  }

  /** What an operation asks of memory. */
  predicate Asks(k: nat, mem: Memory, op: Op) {
    match op
    case NewRoot(z) => PageInside(mem, k) && PageInside(mem, z)
    case MapTable(r, _, vptr) => Safe(FORMAT, mem, r, TOP, vptr)
    case MapPage(r, _, vptr) => Safe(FORMAT, mem, r, TOP, vptr)
    case UnmapPage(_, r, vptr, _) => Safe(FORMAT, mem, r, TOP, vptr)
  }

  /** The invariant gives it. */
  lemma AskedIsThere(k: nat, mem: Memory, tab: Labels, a: Flat, op: Op)
    requires Inv(k, mem, tab) && Legal(k, mem, tab, a, op)
    ensures Asks(k, mem, op)
  {
    match op
    case NewRoot(z) => assert PlaceOk(FORMAT, tab[k]);
    case MapTable(r, _, vptr) => WalksInside(k, mem, tab, r, vptr);
    case MapPage(r, _, vptr) => WalksInside(k, mem, tab, r, vptr);
    case UnmapPage(_, r, vptr, _) => WalksInside(k, mem, tab, r, vptr);
  }

  // ----- the steps of an operation, seen by the harts

  /** What hart `me` of `n` does in an operation: its store, if any, and the fences. */
  function CallLog(me: nat, n: nat, k: nat, mem: Memory, op: Op): seq<T.Step>
    requires Asks(k, mem, op)
  {
    match op
    case NewRoot(z) => K.CopyLog(me, mem, k, z, 512)
    case MapTable(r, pt, vptr) => K.Sfenced(me, n, StopOf(mem, r, vptr).slot, New(pt / 0x1000, V))
    case MapPage(r, frame, vptr) => K.Sfenced(me, n, StopOf(mem, r, vptr).slot, New(frame / 0x1000, ADUVRWX))
    case UnmapPage(bits, r, vptr, frame) =>
      if Unmappable(ViewAt(FORMAT, mem, r, vptr), bits, frame)
      then K.Sfenced(me, n, StopOf(mem, r, vptr).slot, 0) else []
  }

  lemma CallSettled(me: nat, n: nat, k: nat, mem: Memory, op: Op)
    requires Asks(k, mem, op)
    ensures T.Settled(CallLog(me, n, k, mem, op), n)
  {
    match op
    case NewRoot(z) => CopySettled(me, mem, k, z, 512, n);
    case MapTable(r, pt, vptr) => StoreThenSfence(me, n, StopOf(mem, r, vptr).slot, New(pt / 0x1000, V));
    case MapPage(r, frame, vptr) => StoreThenSfence(me, n, StopOf(mem, r, vptr).slot, New(frame / 0x1000, ADUVRWX));
    case UnmapPage(bits, r, vptr, frame) => StoreThenSfence(me, n, StopOf(mem, r, vptr).slot, 0);
  }

  /** It begins with the store the run takes it for, and goes on with the fences. */
  lemma CallIsEvent(me: nat, n: nat, k: nat, mem: Memory, op: Op)
    requires Asks(k, mem, op) && !op.NewRoot?
    ensures var ts := MapSteps(mem, me, op);
            CallLog(me, n, k, mem, op) == if ts == [] then [] else ts + K.Sfence(me, n)
  {
  }

  /** The steps can be made on `st`, keep its harts and leave its memory as `mem`. */
  ghost predicate Leaves(h: Scheme, top: nat, st: T.State, ts: seq<T.Step>, mem: Memory) {
    T.EnabledRun(h, top, st, ts) && var sn := T.Run(h, top, st, ts); |sn.harts| == |st.harts| && sn.mem == mem
  }

  lemma FenceRuns(h: Scheme, top: nat, st: T.State, ts: seq<T.Step>, mem: Memory, me: nat, j: nat)
    requires Leaves(h, top, st, ts, mem) && me < |st.harts| && j < |st.harts|
    ensures Leaves(h, top, st, ts + [T.RemoteFence(me, j)], mem)
  {
    T.RunOn(h, top, st, ts, T.RemoteFence(me, j));
  }

  lemma {:induction false} FencesRun(h: Scheme, top: nat, st: T.State, ts: seq<T.Step>, mem: Memory, me: nat, n: nat)
    returns (us: seq<T.Step>)
    requires Leaves(h, top, st, ts, mem) && me < |st.harts| && n <= |st.harts|
    ensures Leaves(h, top, st, us, mem) && us == ts + K.RemoteFences(me, n)
  {
    if n == 0 {
      us := ts;
    } else {
      us := FencesRun(h, top, st, ts, mem, me, n - 1);
      us := NextFence(h, top, st, ts, us, mem, me, n);
    }
  }

  lemma NextFence(h: Scheme, top: nat, st: T.State, ts: seq<T.Step>, us: seq<T.Step>, mem: Memory, me: nat, n: nat)
    returns (vs: seq<T.Step>)
    requires Leaves(h, top, st, us, mem) && me < |st.harts| && 0 < n <= |st.harts|
    requires us == ts + K.RemoteFences(me, n - 1)
    ensures Leaves(h, top, st, vs, mem) && vs == ts + K.RemoteFences(me, n)
  {
    FencesAppend(ts, me, n);
    if n - 1 == me {
      vs := us;
    } else {
      vs := us + [T.RemoteFence(me, n - 1)];
      FenceRuns(h, top, st, us, mem, me, n - 1);
    }
  }

  lemma FencesAppend(ts: seq<T.Step>, me: nat, n: nat)
    requires n > 0
    ensures ts + K.RemoteFences(me, n) ==
            if n - 1 == me then ts + K.RemoteFences(me, n - 1)
            else ts + K.RemoteFences(me, n - 1) + [T.RemoteFence(me, n - 1)]
  {
    if n - 1 == me {
      assert K.RemoteFences(me, n) == K.RemoteFences(me, n - 1);
    }
  }

  /** A store and its fences can be made on any machine with these harts, and leave its
      memory with that word stored. */
  lemma SfencedRuns(h: Scheme, top: nat, st: T.State, me: nat, n: nat, s: nat, v: Word)
    requires me < |st.harts| && n == |st.harts| && s < |st.mem|
    ensures var ts := K.Sfenced(me, n, s, v);
            T.EnabledRun(h, top, st, ts) && T.Run(h, top, st, ts).mem == st.mem[s := v]
  {
    assert [T.Store(me, s, v)] == [] + [T.Store(me, s, v)];
    T.RunOn(h, top, st, [], T.Store(me, s, v));
    T.RunOn(h, top, st, [T.Store(me, s, v)], T.LocalFence(me));
    var ts := [T.Store(me, s, v)] + [T.LocalFence(me)];
    var us := FencesRun(h, top, st, ts, st.mem[s := v], me, n);
    assert K.Sfenced(me, n, s, v) == us;
  }

  /** Steps that any machine with the old words can make and that leave it the new ones,
      whatever its `n` harts hold, as long as their roots are labelled. */
  ghost predicate Reaches(me: nat, n: nat, tab: Labels, mem: Memory, ts: seq<T.Step>, mem': Memory) {
    forall st: T.State :: st.mem == mem && |st.harts| == n && me < n && RootsOk(st, tab) ==> RunsTo(st, ts, mem')
  }

  ghost predicate RunsTo(st: T.State, ts: seq<T.Step>, mem': Memory) {
    T.EnabledRun(SV39, TOP, st, ts) && T.Run(SV39, TOP, st, ts).mem == mem'
  }

  lemma StoreReaches(me: nat, n: nat, tab: Labels, mem: Memory, s: nat, v: Word)
    requires s < |mem|
    ensures Reaches(me, n, tab, mem, K.Sfenced(me, n, s, v), mem[s := v])
  {
    forall st: T.State | st.mem == mem && |st.harts| == n && me < n && RootsOk(st, tab)
      ensures RunsTo(st, K.Sfenced(me, n, s, v), mem[s := v])
    {
      SfencedRuns(SV39, TOP, st, me, n, s, v);
    }
  }

  lemma CopyReaches(me: nat, n: nat, k: nat, tab: Labels, mem: Memory, z: nat)
    requires Inv(k, mem, tab) && z !in tab && PageInside(mem, z) && PageInside(mem, k)
    ensures Reaches(me, n, tab, mem, K.CopyLog(me, mem, k, z, 512), CopyGlobal(mem, k, z))
  {
    K.CopiedGlobal(mem, k, z);
    forall st: T.State | st.mem == mem && |st.harts| == n && me < n && RootsOk(st, tab)
      ensures RunsTo(st, K.CopyLog(me, mem, k, z, 512), CopyGlobal(mem, k, z))
    {
      CopyEnabled(k, st, tab, me, z, 512);
    }
  }

  lemma NothingReaches(me: nat, n: nat, tab: Labels, mem: Memory)
    ensures Reaches(me, n, tab, mem, [], mem)
  {
  }

  /** So it is with the steps of every operation. */
  lemma CallReaches(me: nat, n: nat, k: nat, mem: Memory, tab: Labels, a: Flat, op: Op)
    requires Inv(k, mem, tab) && Legal(k, mem, tab, a, op) && Asks(k, mem, op)
    ensures Reaches(me, n, tab, mem, CallLog(me, n, k, mem, op), NextMem(k, mem, op))
  {
    match op
    case NewRoot(z) => CopyReaches(me, n, k, tab, mem, z);
    case MapTable(r, pt, vptr) =>
      var _ := WalkEndsLabelled(FORMAT, mem, tab, r, vptr);
      StoreReaches(me, n, tab, mem, StopOf(mem, r, vptr).slot, New(pt / 0x1000, V));
    case MapPage(r, frame, vptr) =>
      var _ := WalkEndsLabelled(FORMAT, mem, tab, r, vptr);
      StoreReaches(me, n, tab, mem, StopOf(mem, r, vptr).slot, New(frame / 0x1000, ADUVRWX));
    case UnmapPage(bits, r, vptr, frame) =>
      var _ := WalkEndsLabelled(FORMAT, mem, tab, r, vptr);
      StoreReaches(me, n, tab, mem, StopOf(mem, r, vptr).slot, 0);
      NothingReaches(me, n, tab, mem);
  }

  // ----- the calls

  method Issue(k: K.Kernel, op: Op, root: nat, other: nat, asid: nat)
    requires Asks(k.rootPage, k.words[..], op) && PointersFor(k.offset, op, root, other)
    requires k.PoolsOk() && A.InRange(k.split, asid)
    requires op.UnmapPage? ==> A.Find(k.split, k.Asids(), K.RootOf, asid) == Some(root)
    modifies k.words, k`log
    ensures k.words[..] == NextMem(k.rootPage, old(k.words[..]), op)
    ensures k.log == old(k.log) + CallLog(k.hart, k.harts, k.rootPage, old(k.words[..]), op)
  {
    match op
    case NewRoot(z) =>
      k.CopyGlobalMappings(root);
    case MapTable(r, pt, vptr) =>
      k.MapItPtCap(root, other, vptr);
    case MapPage(r, frame, vptr) =>
      k.MapItFrameCap(root, other, vptr);
    case UnmapPage(bits, r, vptr, frame) =>
      var ret := k.UnmapPage(bits, asid, vptr, other);
  }

  /** Each operation of the kernel is a step of the run: it does to memory what the step
      says, keeps the forest and does to the flat table just what the flat step says. What
      it has told the harts is settled, and is what takes a machine from the old words to
      the new. */
  method Perform(k: K.Kernel, ghost tab: Labels, ghost a: Flat, op: Op, root: nat, other: nat, asid: nat)
    requires Inv(k.rootPage, k.words[..], tab) && Refines(k.words[..], tab, a)
    requires Legal(k.rootPage, k.words[..], tab, a, op) && PointersFor(k.offset, op, root, other)
    requires k.PoolsOk() && A.InRange(k.split, asid)
    requires op.UnmapPage? ==> A.Find(k.split, k.Asids(), K.RootOf, asid) == Some(root)
    modifies k.words, k`log
    ensures k.words[..] == NextMem(k.rootPage, old(k.words[..]), op)
    ensures Inv(k.rootPage, k.words[..], NextTab(a, tab, op))
    ensures Refines(k.words[..], NextTab(a, tab, op), NextFlat(k.rootPage, a, op))
    ensures |k.log| >= |old(k.log)| && k.log[..|old(k.log)|] == old(k.log)
    ensures T.Settled(k.log[|old(k.log)|..], k.harts)
    ensures Reaches(k.hart, k.harts, tab, old(k.words[..]), k.log[|old(k.log)|..], k.words[..])
  {
    ghost var mem := k.words[..];
    AskedIsThere(k.rootPage, mem, tab, a, op);
    Step(k.rootPage, mem, tab, a, op);
    CallSettled(k.hart, k.harts, k.rootPage, mem, op);
    CallReaches(k.hart, k.harts, k.rootPage, mem, tab, a, op);
    Issue(k, op, root, other, asid);
    assert k.log[|old(k.log)|..] == CallLog(k.hart, k.harts, k.rootPage, mem, op);
  }

  /** The pointers for an operation. */
  function RootPtr(offset: nat, op: Op): nat {
    TableOf(offset, op.root)
  }

  function OtherPtr(offset: nat, op: Op): nat {
    match op
    case NewRoot(_) => 0
    case MapTable(_, pt, _) => offset + pt
    case MapPage(_, frame, _) => offset + frame
    case UnmapPage(_, _, _, frame) => offset + frame
  }

  /** Each unmapping names its root by an ASID that is bound to it. */
  ghost predicate Named(k: K.Kernel, ops: seq<Op>, asids: seq<nat>)
    reads k`pools, k.asidTable
  {
    |asids| == |ops| &&
    forall i :: 0 <= i < |ops| ==>
      A.InRange(k.split, asids[i]) &&
      (ops[i].UnmapPage? ==> A.Find(k.split, k.Asids(), K.RootOf, asids[i]) == Some(RootPtr(k.offset, ops[i])))
  }

  /** The operations still to come are legal and end in memory `goal`. */
  ghost predicate Underway(k: K.Kernel, tab: Labels, a: Flat, ops: seq<Op>, goal: Memory)
    reads k.words
  {
    Inv(k.rootPage, k.words[..], tab) && Refines(k.words[..], tab, a) &&
    LegalRun(k.rootPage, k.words[..], tab, a, ops) && RunMem(k.rootPage, k.words[..], ops) == goal
  }

  method PerformNext(k: K.Kernel, ghost tab: Labels, ghost a: Flat, ghost ops: seq<Op>, ghost goal: Memory, op: Op,
      asid: nat)
    returns (ghost tab': Labels, ghost a': Flat)
    requires Underway(k, tab, a, ops, goal) && ops != [] && op == ops[0]
    requires k.PoolsOk() && A.InRange(k.split, asid)
    requires op.UnmapPage? ==> A.Find(k.split, k.Asids(), K.RootOf, asid) == Some(RootPtr(k.offset, op))
    modifies k.words, k`log
    ensures Underway(k, tab', a', ops[1..], goal)
    ensures |k.log| >= |old(k.log)| && k.log[..|old(k.log)|] == old(k.log)
    ensures T.Settled(k.log[|old(k.log)|..], k.harts)
  {
    tab', a' := NextTab(a, tab, op), NextFlat(k.rootPage, a, op);
    Perform(k, tab, a, op, RootPtr(k.offset, op), OtherPtr(k.offset, op), asid);
  }

  lemma LogGrows(first: seq<T.Step>, mid: seq<T.Step>, last: seq<T.Step>, n: nat)
    requires |first| <= |mid| <= |last| && mid[..|first|] == first && last[..|mid|] == mid
    requires T.Settled(mid[|first|..], n) && T.Settled(last[|mid|..], n)
    ensures last[..|first|] == first && T.Settled(last[|first|..], n)
  {
    SettledAppend(mid[|first|..], last[|mid|..], n);
    assert last[|first|..] == mid[|first|..] + last[|mid|..];
  }

  /** One call after the other: memory, forest and flat table end as the run says, so
      every address of every space translates as the flat table does, and what the harts
      have been told is settled. */
  method PerformAll(k: K.Kernel, ghost tab: Labels, ghost a: Flat, ops: seq<Op>, asids: seq<nat>)
    requires Inv(k.rootPage, k.words[..], tab) && Refines(k.words[..], tab, a)
    requires LegalRun(k.rootPage, k.words[..], tab, a, ops) && k.PoolsOk() && Named(k, ops, asids)
    modifies k.words, k`log
    ensures k.words[..] == RunMem(k.rootPage, old(k.words[..]), ops)
    ensures forall r: nat, va: nat :: IsRoot(RunTab(k.rootPage, a, tab, ops), r) && Canonical(va) ==>
              Translate(k.words[..], r, va) == Deliver(SV39, RunFlat(k.rootPage, a, ops)(r, va), va)
    ensures |k.log| >= |old(k.log)| && k.log[..|old(k.log)|] == old(k.log)
    ensures T.Settled(k.log[|old(k.log)|..], k.harts)
  {
    ghost var goal := RunMem(k.rootPage, k.words[..], ops);
    EveryRun(k.rootPage, k.words[..], tab, a, ops);
    CallAll(k, tab, a, ops, asids, goal);
  }

  method CallAll(k: K.Kernel, ghost tab: Labels, ghost a: Flat, ops: seq<Op>, asids: seq<nat>, ghost goal: Memory)
    requires Underway(k, tab, a, ops, goal) && k.PoolsOk() && Named(k, ops, asids)
    modifies k.words, k`log
    ensures k.words[..] == goal
    ensures |k.log| >= |old(k.log)| && k.log[..|old(k.log)|] == old(k.log)
    ensures T.Settled(k.log[|old(k.log)|..], k.harts)
  {
    ghost var before := k.log;
    ghost var t, f := tab, a;
    var i := 0;
    assert ops[0..] == ops;
    while i < |ops|
      invariant 0 <= i <= |ops| && k.PoolsOk() && Named(k, ops, asids) && Underway(k, t, f, ops[i..], goal)
      invariant |k.log| >= |before| && k.log[..|before|] == before && T.Settled(k.log[|before|..], k.harts)
    {
      ghost var log := k.log;
      assert ops[i..][1..] == ops[i + 1..];
      t, f := PerformNext(k, t, f, ops[i..], goal, ops[i], asids[i]);
      LogGrows(before, log, k.log, k.harts);
      i := i + 1;
    }
  }

  // ----- harts that make whole calls

  /** A whole kernel call: a mapping operation, or a change of root. */
  datatype Call =
    | Mapping(k: nat, mem: Memory, op: Op)
    | SetRoot(split: A.Split, asids: A.State<nat>, offset: nat, rootPage: nat, root: K.Cap)

  predicate CallOk(c: Call) {
    match c
    case Mapping(k, mem, op) => Asks(k, mem, op)
    case SetRoot(_, _, offset, _, root) => root.PageTableCap? ==> root.basePtr >= offset
  }

  function LogOf(me: nat, n: nat, c: Call): seq<T.Step>
    requires CallOk(c)
  {
    match c
    case Mapping(k, mem, op) => CallLog(me, n, k, mem, op)
    case SetRoot(b, st, offset, rootPage, root) => K.VmRootLog(b, st, offset, me, rootPage, root)
  }

  function LogsOf(me: nat, n: nat, cs: seq<Call>): seq<T.Step>
    requires forall c :: c in cs ==> CallOk(c)
    decreases |cs|
  {
    if cs == [] then [] else LogsOf(me, n, cs[..|cs| - 1]) + LogOf(me, n, cs[|cs| - 1])
  }

  lemma {:induction false} CallsSettled(me: nat, n: nat, cs: seq<Call>)
    requires forall c :: c in cs ==> CallOk(c)
    ensures T.Settled(LogsOf(me, n, cs), n)
    decreases |cs|
  {
    if cs != [] {
      var c := cs[|cs| - 1];
      assert CallOk(c);
      CallsSettled(me, n, cs[..|cs| - 1]);
      match c {
        case Mapping(k, mem, op) => CallSettled(me, n, k, mem, op);
        case SetRoot(b, st, offset, rootPage, root) => VmRootSettled(b, st, offset, me, rootPage, root, n);
      }
      SettledAppend(LogsOf(me, n, cs[..|cs| - 1]), LogOf(me, n, c), n);
    }
  }

  /** If each hart has made whole kernel calls, then however the harts and their walkers
      were interleaved every address a cached walk covers translates as the flat table
      says, on every hart. */
  lemma CallsShowFlat(k: nat, w: World, es: seq<Event>, calls: nat -> seq<Call>, j: nat, c: T.Cached, vb: nat)
    requires Good(k, w) && AllowedRun(k, w, es) && w.log == []
    requires T.HartOf(w.st, j) && T.Coherent(SV39, TOP, w.st, j)
    requires forall m: nat :: forall x :: x in calls(m) ==> CallOk(x)
    requires forall m: nat :: T.Project(Run(k, w, es).log, m) == LogsOf(m, |w.st.harts|, calls(m))
    requires T.HartOf(Run(k, w, es).st, j) && c in Run(k, w, es).st.harts[j].tlb
    requires T.SameAbove(SV39, TOP, c.va, vb, c.end.level)
    ensures var w' := Run(k, w, es);
            Physical(SV39, c.end, vb) == Deliver(SV39, w'.flat(w'.st.harts[j].root, vb), vb)
  {
    forall m: nat
      ensures T.Settled(T.Project(Run(k, w, es).log, m), |w.st.harts|)
    {
      CallsSettled(m, |w.st.harts|, calls(m));
    }
    WholeOperationsShowFlat(k, w, es, j, c, vb);
  }
}
