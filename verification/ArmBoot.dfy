/** The AArch64 operations called one after the other, with all they ask of memory
    supplied by the forest of tables. */
module ArmBoot {
  import opened Words
  import opened Options
  import opened PageTables
  import opened PageTableUpdates
  import opened Pointers
  import opened ArmPte
  import opened ArmWalk
  import opened ArmSpaces
  import opened ArmTheorems
  import A = AsidPools
  import K = ArmKernel

  /** A pointer to a page of physical memory below 2^48. */
  predicate FramePtr(offset: nat, ptr: nat) {
    PagePtr(offset, ptr) && ptr - offset < TOP_BITS
  }

  /** Physical addresses of the four pages of one boot mapping. */
  datatype Pages = Pages(pud: Word, pd: Word, pt: Word, frame: Word)

  function PagesOf(offset: nat, pud: nat, pd: nat, pt: nat, frame: nat): Pages
    requires FramePtr(offset, pud) && FramePtr(offset, pd) && FramePtr(offset, pt) && FramePtr(offset, frame)
  {
    Pages(pud - offset, pd - offset, pt - offset, frame - offset)
  }

  ghost predicate Start(mem: Memory, tab: Labels, r0: nat, va: nat, x: Pages) {
    va < TOP_BITS && x.frame % 0x1000 == 0 && x.frame < TOP_BITS && BootStart(mem, tab, r0, va, x.pud, x.pd, x.pt)
  }

  function Mapped(mem: Memory, r0: nat, va: nat, x: Pages, exec: bool, smp: bool): Memory {
    MapFrame(BootTables(mem, r0, va, x.pud, x.pd, x.pt), r0, x.frame, va, exec, smp)
  }

  /** What the four mappings ask of memory, one after the other; the source asserts the
      attribute bits of the root's entry. */
  predicate Asks(mem: Memory, r0: nat, va: nat, x: Pages) {
    var m1 := MapPud(mem, r0, x.pud, va);
    var m2 := MapPd(m1, r0, x.pd, va);
    FollowSafe(mem, r0, TOP, va, 3) && FollowSafe(m1, r0, TOP, va, 2) &&
    FindSlot(m1, r0, va, 3) < |m1| && AttrField(m1[FindSlot(m1, r0, va, 3)]) == 3 &&
    FollowSafe(m2, r0, TOP, va, 1) && FollowSafe(MapPt(m2, r0, x.pt, va), r0, TOP, va, 0)
  }

  lemma StartSuffices(mem: Memory, tab: Labels, r0: nat, va: nat, x: Pages)
    requires Start(mem, tab, r0, va, x)
    ensures Asks(mem, r0, va, x)
  {
    BootSteps(mem, tab, r0, va, x.pud, x.pd, x.pt);
  }

  method MapFour(k: K.Kernel, root: nat, pud: nat, pd: nat, pt: nat, frame: nat, va: nat, exec: bool)
    requires PagePtr(k.offset, root) && FramePtr(k.offset, pud) && FramePtr(k.offset, pd)
    requires FramePtr(k.offset, pt) && FramePtr(k.offset, frame)
    requires Asks(k.words[..], PageAt(k.offset, root), va, PagesOf(k.offset, pud, pd, pt, frame))
    modifies k.words, k`log
    ensures k.words[..] ==
            Mapped(old(k.words[..]), PageAt(k.offset, root), va, PagesOf(k.offset, pud, pd, pt, frame), exec, k.smp)
  {
    MapThree(k, root, pud, pd, pt, va, frame);
    k.MapItFrameCap(root, frame, va, exec);
  }

  /** The three tables, without the frame. */
  method MapThree(k: K.Kernel, root: nat, pud: nat, pd: nat, pt: nat, va: nat, ghost frame: nat)
    requires PagePtr(k.offset, root) && FramePtr(k.offset, pud) && FramePtr(k.offset, pd)
    requires FramePtr(k.offset, pt) && FramePtr(k.offset, frame)
    requires Asks(k.words[..], PageAt(k.offset, root), va, PagesOf(k.offset, pud, pd, pt, frame))
    modifies k.words, k`log
    ensures var x := PagesOf(k.offset, pud, pd, pt, frame);
            k.words[..] == BootTables(old(k.words[..]), PageAt(k.offset, root), va, x.pud, x.pd, x.pt)
  {
    ghost var mem, r0, x := k.words[..], PageAt(k.offset, root), PagesOf(k.offset, pud, pd, pt, frame);
    k.MapItPudCap(root, pud, va);
    ghost var m1 := k.words[..];
    assert m1 == MapPud(mem, r0, x.pud, va);
    k.MapItPdCap(root, pd, va);
    assert k.words[..] == MapPd(m1, r0, x.pd, va);
    k.MapItPtCap(root, pt, va);
  }

  /** PUD, PD, page table and frame for one address. */
  method MapPath(k: K.Kernel, ghost tab: Labels, root: nat, pud: nat, pd: nat, pt: nat, frame: nat, va: nat, exec: bool)
    requires PagePtr(k.offset, root) && FramePtr(k.offset, pud) && FramePtr(k.offset, pd)
    requires FramePtr(k.offset, pt) && FramePtr(k.offset, frame)
    requires Start(k.words[..], tab, PageAt(k.offset, root), va, PagesOf(k.offset, pud, pd, pt, frame))
    modifies k.words, k`log
    ensures k.words[..] ==
            Mapped(old(k.words[..]), PageAt(k.offset, root), va, PagesOf(k.offset, pud, pd, pt, frame), exec, k.smp)
  {
    StartSuffices(k.words[..], tab, PageAt(k.offset, root), va, PagesOf(k.offset, pud, pd, pt, frame));
    MapFour(k, root, pud, pd, pt, frame, va, exec);
  }

  lemma PathMapped(mem: Memory, tab: Labels, r0: nat, va: nat, x: Pages, exec: bool, smp: bool)
    requires Start(mem, tab, r0, va, x)
    ensures var m := Mapped(mem, r0, va, x, exec, smp);
            Inv(m, BootLabels(tab, r0, va, x.pud, x.pd, x.pt)) && Safe(FORMAT, m, r0, TOP, va) &&
            FollowSafe(m, r0, TOP, va, 0) && StopOf(m, r0, va) == Stop(0, FindSlot(m, r0, va, 0))
  {
    BootChain(mem, tab, r0, va, x.pud, x.pd, x.pt, x.frame, exec, smp, r0, va);
    var m, t := Mapped(mem, r0, va, x, exec, smp), BootLabels(tab, r0, va, x.pud, x.pd, x.pt);
    RootStays(mem, tab, r0, va, x);
    WalksInside(m, t, r0, va);
    FindsLast(m, t, r0, va);
  }

  lemma RootStays(mem: Memory, tab: Labels, r0: nat, va: nat, x: Pages)
    requires Start(mem, tab, r0, va, x)
    ensures IsRoot(BootLabels(tab, r0, va, x.pud, x.pd, x.pt), r0)
  {
  }

  /** After them `find_pt` gives the slot that `lookup_pt_slot` gives, with 12 bits left. */
  method MapAndFind(k: K.Kernel, ghost tab: Labels, root: nat, pud: nat, pd: nat, pt: nat, frame: nat, va: nat,
      exec: bool)
    returns (found: nat, slot: nat, bits: nat)
    requires PagePtr(k.offset, root) && FramePtr(k.offset, pud) && FramePtr(k.offset, pd)
    requires FramePtr(k.offset, pt) && FramePtr(k.offset, frame)
    requires Start(k.words[..], tab, PageAt(k.offset, root), va, PagesOf(k.offset, pud, pd, pt, frame))
    modifies k.words, k`log
    ensures found == slot && bits == 12
    ensures var x := PagesOf(k.offset, pud, pd, pt, frame);
            Inv(k.words[..], BootLabels(tab, PageAt(k.offset, root), va, x.pud, x.pd, x.pt))
  {
    ghost var mem, x := k.words[..], PagesOf(k.offset, pud, pd, pt, frame);
    MapPath(k, tab, root, pud, pd, pt, frame, va, exec);
    PathMapped(mem, tab, PageAt(k.offset, root), va, x, exec, k.smp);
    found := k.FindPt(root, va, 0);
    slot, bits := k.LookupPtSlot(root, va);
  }

  lemma FindsLast(mem: Memory, tab: Labels, r: nat, va: nat)
    requires Inv(mem, tab) && IsRoot(tab, r) && StopOf(mem, r, va).level == 0
    ensures FollowSafe(mem, r, TOP, va, 0)
  {
    var q := WalkEndsLabelled(FORMAT, mem, tab, r, va);
    FollowsInside(mem, tab, r, r, TOP, va, q, 0);
  }

  /** A frame mapped through an existing page table, and unmapped again through the ASID
      bound to that root, leaves memory as it was exactly when the slot was zero. */
  method MapAndUnmap(k: K.Kernel, ghost tab: Labels, ghost q: nat, root: nat, asid: nat, frame: nat, va: nat,
      exec: bool)
    requires PagePtr(k.offset, root) && FramePtr(k.offset, frame) && k.PoolsOk() && k.AsidOk(asid)
    requires A.Find(k.split, k.Asids(), K.RootOf, asid) == Some(root)
    requires var mem, r := k.words[..], PageAt(k.offset, root);
             Inv(mem, tab) && IsRoot(tab, r) && Uses(FORMAT, mem, r, TOP, va, q, 0)
    modifies k.words, k`log
    ensures var s := Slot(FORMAT, q, va, 0);
            s < k.words.Length && (k.words[..] == old(k.words[..]) <==> old(k.words[..])[s] == 0)
  {
    FrameAsks(k.words[..], tab, PageAt(k.offset, root), va, q, frame - k.offset, exec, k.smp);
    MapThenUnmap(k, root, asid, frame, va, exec);
  }

  method MapThenUnmap(k: K.Kernel, root: nat, asid: nat, frame: nat, va: nat, exec: bool)
    requires PagePtr(k.offset, root) && FramePtr(k.offset, frame) && k.PoolsOk() && k.AsidOk(asid)
    requires A.Find(k.split, k.Asids(), K.RootOf, asid) == Some(root)
    requires FollowSafe(k.words[..], PageAt(k.offset, root), TOP, va, 0)
    requires var r := PageAt(k.offset, root);
             Safe(FORMAT, MapFrame(k.words[..], r, frame - k.offset, va, exec, k.smp), r, TOP, va)
    modifies k.words, k`log
    ensures var r := PageAt(k.offset, root);
            k.words[..] ==
            Unmap(MapFrame(old(k.words[..]), r, frame - k.offset, va, exec, k.smp), 12, r, va, frame - k.offset)
  {
    k.MapItFrameCap(root, frame, va, exec);
    k.UnmapPage(12, asid, va, frame);
  }

  lemma FrameAsks(mem: Memory, tab: Labels, r: nat, va: nat, q: nat, frame: Word, exec: bool, smp: bool)
    requires Inv(mem, tab) && IsRoot(tab, r) && Uses(FORMAT, mem, r, TOP, va, q, 0)
    requires frame % 0x1000 == 0 && frame < TOP_BITS
    ensures FollowSafe(mem, r, TOP, va, 0) && Safe(FORMAT, MapFrame(mem, r, frame, va, exec, smp), r, TOP, va)
    ensures var s := Slot(FORMAT, q, va, 0);
            s < |mem| && (Unmap(MapFrame(mem, r, frame, va, exec, smp), 12, r, va, frame) == mem <==> mem[s] == 0)
  {
    FollowsInside(mem, tab, r, r, TOP, va, q, 0);
    MapFrameInv(mem, tab, r, va, q, frame, exec, smp);
    WalksInside(MapFrame(mem, r, frame, va, exec, smp), tab, r, va);
    FrameRoundTrip(mem, tab, r, va, q, frame, exec, smp);
  }
}
