/** Several harts that map, unmap and create roots while walks are made and cached, in
    any interleaving: the tables stay a forest, and once no fence is pending every cached
    translation is the one the flat table gives. A kernel operation reads the tables and
    makes its store in one step, as under the kernel's lock; the entries of a new root
    are copied one per step; fences come as later steps of their own. */
module RiscvHarts {
  import opened Words
  import opened PageTables
  import opened PageTableUpdates
  import opened Hardware
  import opened RiscvPte
  import opened RiscvWalk
  import opened RiscvSpaces
  import opened RiscvKernel
  import opened RiscvTheorems
  import T = Tlb

  datatype Event =
    | Map(me: nat, op: Op)
    | CopyEntry(me: nat, page: nat, i: Entry)
    | Adopt(page: nat)
    | Other(step: T.Step)

  /** The machine, the labels and the flat table it is to show, and the steps made. */
  datatype World = World(st: T.State, tab: Labels, flat: Flat, log: seq<T.Step>)

  /** The store of a mapping operation, if it makes one. */
  function MapSteps(mem: Memory, me: nat, op: Op): seq<T.Step> {
    match op
    case NewRoot(_) => []
    case MapTable(r, pt, vptr) => [T.Store(me, StopOf(mem, r, vptr).slot, New(pt / 0x1000, V))]
    case MapPage(r, frame, vptr) => [T.Store(me, StopOf(mem, r, vptr).slot, New(frame / 0x1000, ADUVRWX))]
    case UnmapPage(bits, r, vptr, frame) =>
      if Unmappable(ViewAt(FORMAT, mem, r, vptr), bits, frame) then [T.Store(me, StopOf(mem, r, vptr).slot, 0)] else []
  }

  function Steps(k: nat, w: World, e: Event): seq<T.Step> {
    match e
    case Map(me, op) => MapSteps(w.st.mem, me, op)
    case CopyEntry(me, z, i) =>
      if 512 * k + i < |w.st.mem| then [T.StoreUnused(me, 512 * z + i, w.st.mem[512 * k + i])] else []
    case Adopt(_) => []
    case Other(t) => [t]
  }

  /** A page that holds what a new root holds. */
  predicate Copied(k: nat, mem: Memory, z: nat) {
    PageInside(mem, k) && PageInside(mem, z) &&
    forall i: Entry :: EntryCopied(k, mem, z, i)
  }

  predicate EntryCopied(k: nat, mem: Memory, z: nat, i: Entry)
    requires PageInside(mem, k) && PageInside(mem, z)
  {
    mem[512 * z + i] == if i < FIRST_GLOBAL then 0 else mem[512 * k + i]
  }

  ghost predicate Allowed(k: nat, w: World, e: Event) {
    match e
    case Map(me, op) => T.HartOf(w.st, me) && !op.NewRoot? && Legal(k, w.st.mem, w.tab, w.flat, op)
    case CopyEntry(me, z, i) => T.HartOf(w.st, me) && z !in w.tab && PageInside(w.st.mem, z) && i >= FIRST_GLOBAL
    case Adopt(z) => z !in w.tab && Copied(k, w.st.mem, z)
    case Other(t) =>
      !t.Store? && !t.StoreUnused? && T.Enabled(SV39, TOP, w.st, t) && (t.SetRoot? ==> IsRoot(w.tab, t.root))
  }

  ghost function After(k: nat, w: World, e: Event): World {
    var ts := Steps(k, w, e);
    var st := if ts == [] then w.st else T.Next(SV39, TOP, w.st, ts[0]);
    match e
    case Map(_, op) => World(st, NextTab(w.flat, w.tab, op), NextFlat(k, w.flat, op), w.log + ts)
    case CopyEntry(_, _, _) => World(st, w.tab, w.flat, w.log + ts)
    case Adopt(z) => World(st, w.tab[z := Own(z, [])], FlatRoot(w.flat, k, z), w.log)
    case Other(_) => World(st, w.tab, w.flat, w.log + ts)
  }

  ghost predicate RootsOk(st: T.State, tab: Labels) {
    forall j :: 0 <= j < |st.harts| ==> IsRoot(tab, st.harts[j].root)
  }

  ghost predicate Good(k: nat, w: World) {
    Inv(k, w.st.mem, w.tab) && Refines(w.st.mem, w.tab, w.flat) && RootsOk(w.st, w.tab)
  }

  // ----- memory outside the tables

  ghost predicate SameTables(mem: Memory, mem': Memory, tab: Labels) {
    |mem'| == |mem| && forall p :: p in tab ==> SamePage(mem, mem', p)
  }

  lemma InvOutside(k: nat, mem: Memory, mem': Memory, tab: Labels)
    requires Inv(k, mem, tab) && SameTables(mem, mem', tab)
    ensures Inv(k, mem', tab)
  {
    forall p, i: Entry | p in tab
      ensures PlaceOk(FORMAT, tab[p]) && PageInside(mem', p) && EntryOk(FORMAT, mem', tab, p, i)
      ensures SharingOk(k, mem', tab, p, i)
    {
      SameEntry(mem, mem', p, i);
      SameEntry(mem, mem', k, i);
      assert EntryOk(FORMAT, mem, tab, p, i) && SharingOk(k, mem, tab, p, i);
    }
    forall p | p in tab
      ensures CleanPage(SV39, FORMAT, mem', p, LevelOf(FORMAT, tab[p]))
    {
      assert CleanPage(SV39, FORMAT, mem, p, LevelOf(FORMAT, tab[p]));
      forall s | 512 * p <= s < 512 * p + 512
        ensures CleanWord(SV39, FORMAT, LevelOf(FORMAT, tab[p]), mem'[s])
      {
        SameEntry(mem, mem', p, s - 512 * p);
      }
    }
  }

  lemma RefinesOutside(mem: Memory, mem': Memory, tab: Labels, a: Flat)
    requires Labelled(FORMAT, mem, tab) && SameTables(mem, mem', tab) && Refines(mem, tab, a)
    ensures Refines(mem', tab, a)
  {
    forall r: nat, va: nat | IsRoot(tab, r)
      ensures ViewAt(FORMAT, mem', r, va) == a(r, va)
    {
      WalkOutside(FORMAT, mem, mem', tab, r, r, TOP, va);
      assert ViewAt(FORMAT, mem, r, va) == a(r, va);
    }
  }

  lemma OutsideStore(mem: Memory, tab: Labels, s: nat, v: Word)
    requires Labelled(FORMAT, mem, tab) && s < |mem| && s / 512 !in tab
    ensures SameTables(mem, mem[s := v], tab)
  {
    forall p | p in tab
      ensures SamePage(mem, mem[s := v], p)
    {
      assert PageInside(mem, p);
      SameButOne(mem, mem[s := v], s / 512, p);
    }
  }

  // ----- one event of each kind

  lemma MapEnabled(w: World, k: nat, me: nat, op: Op)
    requires Good(k, w) && Allowed(k, w, Map(me, op))
    ensures var ts := MapSteps(w.st.mem, me, op); ts != [] ==> |ts| == 1 && T.Enabled(SV39, TOP, w.st, ts[0])
    ensures After(k, w, Map(me, op)).st == w.st.(mem := NextMem(k, w.st.mem, op))
  {
    var _ := WalkEndsLabelled(FORMAT, w.st.mem, w.tab, op.root, op.vptr);
  }

  lemma MapGood(k: nat, w: World, me: nat, op: Op)
    requires Good(k, w) && Allowed(k, w, Map(me, op))
    ensures Good(k, After(k, w, Map(me, op)))
  {
    MapEnabled(w, k, me, op);
    Step(k, w.st.mem, w.tab, w.flat, op);
    var tab' := NextTab(w.flat, w.tab, op);
    forall r | IsRoot(w.tab, r)
      ensures IsRoot(tab', r)
    {
    }
  }

  /** A store to a page in no use is enabled and keeps the tables. */
  lemma UnusedStore(k: nat, st: T.State, tab: Labels, me: nat, s: nat, v: Word)
    requires Inv(k, st.mem, tab) && RootsOk(st, tab) && T.HartOf(st, me) && s < |st.mem| && s / 512 !in tab
    ensures T.Enabled(SV39, TOP, st, T.StoreUnused(me, s, v))
    ensures Inv(k, st.mem[s := v], tab) && SameTables(st.mem, st.mem[s := v], tab)
  {
    forall j | 0 <= j < |st.harts|
      ensures T.Unread(SV39, TOP, st.mem, st.harts[j].root, s)
    {
      FreshRootUnread(k, st.mem, tab, s / 512, st.harts[j].root, s);
    }
    OutsideStore(st.mem, tab, s, v);
    InvOutside(k, st.mem, st.mem[s := v], tab);
  }

  lemma CopyAfter(k: nat, w: World, me: nat, z: nat, i: Entry)
    requires 512 * k + i < |w.st.mem| && 512 * z + i < |w.st.mem|
    ensures var v := w.st.mem[512 * k + i];
            Steps(k, w, CopyEntry(me, z, i)) == [T.StoreUnused(me, 512 * z + i, v)] &&
            After(k, w, CopyEntry(me, z, i)).st == w.st.(mem := w.st.mem[512 * z + i := v])
  {
  }

  lemma CopyGood(k: nat, w: World, me: nat, z: nat, i: Entry)
    requires Good(k, w) && Allowed(k, w, CopyEntry(me, z, i))
    ensures Good(k, After(k, w, CopyEntry(me, z, i)))
    ensures var ts := Steps(k, w, CopyEntry(me, z, i)); |ts| == 1 && T.Enabled(SV39, TOP, w.st, ts[0])
  {
    assert PageInside(w.st.mem, k);
    PageOf(z, i);
    CopyAfter(k, w, me, z, i);
    var s, v := 512 * z + i, w.st.mem[512 * k + i];
    UnusedStore(k, w.st, w.tab, me, s, v);
    RefinesOutside(w.st.mem, w.st.mem[s := v], w.tab, w.flat);
  }

  /** Memory with page `z` blank. */
  function Blanked(mem: Memory, z: nat): Memory
    requires PageInside(mem, z)
  {
    mem[..512 * z] + seq<Word>(512, i => 0) + mem[512 * z + 512..]
  }

  lemma BlankedSame(mem: Memory, z: nat, tab: Labels)
    requires Labelled(FORMAT, mem, tab) && PageInside(mem, z) && z !in tab
    ensures SameTables(mem, Blanked(mem, z), tab)
  {
    forall p | p in tab
      ensures SamePage(mem, Blanked(mem, z), p)
    {
      assert PageInside(mem, p);
      SameButOne(mem, Blanked(mem, z), z, p);
    }
  }

  lemma AdoptGood(k: nat, w: World, z: nat)
    requires Good(k, w) && Allowed(k, w, Adopt(z))
    ensures Good(k, After(k, w, Adopt(z)))
  {
    var mem := w.st.mem;
    var blank := Blanked(mem, z);
    BlankedSame(mem, z, w.tab);
    InvOutside(k, mem, blank, w.tab);
    RefinesOutside(mem, blank, w.tab, w.flat);
    CopiedIsCopy(k, mem, z);
    RootStep(k, blank, w.tab, w.flat, z);
  }

  lemma CopiedIsCopy(k: nat, mem: Memory, z: nat)
    requires Copied(k, mem, z) && k != z
    ensures PageInside(Blanked(mem, z), k) && PageInside(Blanked(mem, z), z) && ZeroPage(Blanked(mem, z), z)
    ensures CopyGlobal(Blanked(mem, z), k, z) == mem
  {
    var blank := Blanked(mem, z);
    CopyEntries(blank, k, z);
    forall s | 0 <= s < |mem|
      ensures CopyGlobal(blank, k, z)[s] == mem[s]
    {
      if 512 * z <= s < 512 * z + 512 {
        var i: Entry := s - 512 * z;
        assert EntryCopied(k, mem, z, i);
      }
    }
  }

  lemma OtherGood(k: nat, w: World, t: T.Step)
    requires Good(k, w) && Allowed(k, w, Other(t))
    ensures Good(k, After(k, w, Other(t)))
  {
  }

  lemma EventGood(k: nat, w: World, e: Event)
    requires Good(k, w) && Allowed(k, w, e)
    ensures Good(k, After(k, w, e))
    ensures var ts := Steps(k, w, e); ts != [] ==> |ts| == 1 && T.Enabled(SV39, TOP, w.st, ts[0])
  {
    match e
    case Map(me, op) =>
      MapEnabled(w, k, me, op);
      MapGood(k, w, me, op);
    case CopyEntry(me, z, i) => CopyGood(k, w, me, z, i);
    case Adopt(z) => AdoptGood(k, w, z);
    case Other(t) => OtherGood(k, w, t);
  }

  // ----- runs

  ghost function Run(k: nat, w: World, es: seq<Event>): World
    decreases |es|
  {
    if es == [] then w else After(k, Run(k, w, es[..|es| - 1]), es[|es| - 1])
  }

  ghost predicate AllowedRun(k: nat, w: World, es: seq<Event>)
    decreases |es|
  {
    es == [] || (AllowedRun(k, w, es[..|es| - 1]) && Allowed(k, Run(k, w, es[..|es| - 1]), es[|es| - 1]))
  }

  /** The steps made so far lead from `st` to the machine as it is. */
  ghost predicate Follows(st: T.State, w: World) {
    T.EnabledRun(SV39, TOP, st, w.log) && T.Run(SV39, TOP, st, w.log) == w.st
  }

  lemma FollowsOn(k: nat, st: T.State, w: World, e: Event)
    requires Good(k, w) && Allowed(k, w, e) && Follows(st, w)
    ensures Follows(st, After(k, w, e))
  {
    EventGood(k, w, e);
    var ts := Steps(k, w, e);
    if ts != [] {
      assert ts == [ts[0]];
      T.RunOn(SV39, TOP, st, w.log, ts[0]);
    } else {
      assert w.log + ts == w.log;
    }
  }

  lemma {:induction false} RunGood(k: nat, w: World, es: seq<Event>)
    requires Good(k, w) && AllowedRun(k, w, es) && w.log == []
    ensures Good(k, Run(k, w, es)) && Follows(w.st, Run(k, w, es))
    decreases |es|
  {
    if es != [] {
      var us, e := es[..|es| - 1], es[|es| - 1];
      RunGood(k, w, us);
      EventGood(k, Run(k, w, us), e);
      FollowsOn(k, w.st, Run(k, w, us), e);
    }
  }

  /** Whatever the harts do and however it is interleaved, the tables stay a forest that
      shows the flat table; and on a hart with no fence pending every address a cached
      walk covers translates as the flat table says. */
  lemma CachesShowFlat(k: nat, w: World, es: seq<Event>, j: nat, c: T.Cached, vb: nat)
    requires Good(k, w) && AllowedRun(k, w, es) && w.log == []
    requires T.HartOf(w.st, j) && T.Coherent(SV39, TOP, w.st, j)
    requires forall i: nat :: !T.Waits(Run(k, w, es).log, i, j)
    requires T.HartOf(Run(k, w, es).st, j) && c in Run(k, w, es).st.harts[j].tlb
    requires T.SameAbove(SV39, TOP, c.va, vb, c.end.level)
    ensures Good(k, Run(k, w, es))
    ensures var w' := Run(k, w, es);
            Physical(SV39, c.end, vb) == Deliver(SV39, w'.flat(w'.st.harts[j].root, vb), vb)
  {
    RunGood(k, w, es);
    var w' := Run(k, w, es);
    T.QuietIsCoherent(SV39, TOP, w.st, w'.log, j, c, vb);
    var r := w'.st.harts[j].root;
    assert IsRoot(w'.tab, r);
    SameIndices();
    HwIsDeliver(SV39, FORMAT, w'.st.mem, w'.tab, r, vb);
    assert ViewAt(FORMAT, w'.st.mem, r, vb) == w'.flat(r, vb);
  }

  /** If each hart has fenced what it stored and switched, as every whole operation does,
      that holds of every hart. */
  lemma WholeOperationsShowFlat(k: nat, w: World, es: seq<Event>, j: nat, c: T.Cached, vb: nat)
    requires Good(k, w) && AllowedRun(k, w, es) && w.log == []
    requires T.HartOf(w.st, j) && T.Coherent(SV39, TOP, w.st, j)
    requires forall m: nat :: T.Settled(T.Project(Run(k, w, es).log, m), |w.st.harts|)
    requires T.HartOf(Run(k, w, es).st, j) && c in Run(k, w, es).st.harts[j].tlb
    requires T.SameAbove(SV39, TOP, c.va, vb, c.end.level)
    ensures var w' := Run(k, w, es);
            Physical(SV39, c.end, vb) == Deliver(SV39, w'.flat(w'.st.harts[j].root, vb), vb)
  {
    T.SettledInterleaving(Run(k, w, es).log, |w.st.harts|);
    CachesShowFlat(k, w, es, j, c, vb);
  }

  // ----- the copy as the kernel makes it

  lemma StoredUnused(st: T.State, mem: Memory, me: nat, s: nat, v: Word)
    requires s < |mem|
    ensures T.Next(SV39, TOP, st.(mem := mem), T.StoreUnused(me, s, v)) == st.(mem := mem[s := v])
  {
  }

  /** The steps `ts` lead from `st` to nothing but memory `mem`, a forest still. */
  ghost predicate Made(k: nat, st: T.State, tab: Labels, ts: seq<T.Step>, mem: Memory) {
    T.EnabledRun(SV39, TOP, st, ts) && T.Run(SV39, TOP, st, ts) == st.(mem := mem) && Inv(k, mem, tab)
  }

  lemma CopyOne(k: nat, st: T.State, tab: Labels, me: nat, mem: Memory, ts: seq<T.Step>, s: nat, v: Word,
      ts': seq<T.Step>, mem': Memory)
    requires Made(k, st, tab, ts, mem) && RootsOk(st, tab) && T.HartOf(st, me) && s < |mem| && s / 512 !in tab
    requires ts' == ts + [T.StoreUnused(me, s, v)] && mem' == mem[s := v]
    ensures Made(k, st, tab, ts', mem')
  {
    UnusedStore(k, st.(mem := mem), tab, me, s, v);
    T.RunOn(SV39, TOP, st, ts, T.StoreUnused(me, s, v));
    StoredUnused(st, mem, me, s, v);
  }

  /** The stores of `copyGlobalMappings` into a page in no use are all enabled where every
      hart's root is labelled, and change nothing but that page. */
  lemma {:induction false} CopyEnabled(k: nat, st: T.State, tab: Labels, me: nat, z: nat, i: nat)
    requires Inv(k, st.mem, tab) && RootsOk(st, tab) && T.HartOf(st, me)
    requires z !in tab && PageInside(st.mem, z) && PageInside(st.mem, k) && FIRST_GLOBAL <= i <= 512
    ensures Made(k, st, tab, CopyLog(me, st.mem, k, z, i), CopyUpTo(st.mem, k, z, i))
    decreases i
  {
    if i == FIRST_GLOBAL {
      assert st.(mem := st.mem) == st;
    } else {
      var j := i - 1;
      CopyEnabled(k, st, tab, me, z, j);
      var m := CopyUpTo(st.mem, k, z, j);
      PageOf(z, j);
      CopyNext(me, st.mem, k, z, j);
      CopyOne(k, st, tab, me, m, CopyLog(me, st.mem, k, z, j), 512 * z + j, m[512 * k + j],
              CopyLog(me, st.mem, k, z, i), CopyUpTo(st.mem, k, z, i));
    }
  }
}
