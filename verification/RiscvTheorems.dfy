/** What the RISC-V operations achieve, seen from the hardware. */
module RiscvTheorems {
  import opened Words
  import opened Options
  import opened PageTables
  import opened PageTableUpdates
  import opened VirtualAddresses
  import opened Hardware
  import opened RiscvPte
  import opened RiscvWalk
  import opened RiscvSpaces
  import opened RiscvKernel
  import A = AsidPools
  import T = Tlb

  // ----- unmap_page

  /** When its checks pass, on any address: exactly the walks that read the slot
      stop translating, in whatever address space, shared tables included. */
  lemma UnmapEverywhere(mem: Memory, tab: Labels, bits: nat, r0: nat, vptr: nat, frame: nat, r: nat, va: nat)
    requires Labelled(FORMAT, mem, tab) && Clean(SV39, FORMAT, mem, tab) && IsRoot(tab, r0) && IsRoot(tab, r)
    requires Unmappable(ViewAt(FORMAT, mem, r0, vptr), bits, frame)
    ensures Translate(Unmap(mem, bits, r0, vptr, frame), r, va) ==
            if Reads(FORMAT, mem, r, TOP, va, StopOf(mem, r0, vptr).slot) then None else Translate(mem, r, va)
  {
    var q := WalkEndsLabelled(FORMAT, mem, tab, r0, vptr);
    var w := StopOf(mem, r0, vptr);
    var mem' := mem[w.slot := 0];
    assert PlaceOk(FORMAT, tab[q]);
    NonTableIsClean(LevelOf(FORMAT, tab[q]), 0);
    LabelledAfterLeaf(FORMAT, mem, tab, w.slot, 0);
    CleanAfterStore(SV39, FORMAT, mem, tab, q, w.slot, 0);
    SameIndices();
    HwIsDeliver(SV39, FORMAT, mem, tab, r, va);
    HwIsDeliver(SV39, FORMAT, mem', tab, r, va);
    StoreLeafAnywhere(FORMAT, mem, r, TOP, va, w.slot, 0);
    var _ := WalkEndsLabelled(FORMAT, mem, tab, r, va);
  }

  /** When its checks pass on a private address: precisely the aligned range of
      Span(level) = 2^bits bytes around `vptr` stops translating, in that address
      space only. */
  lemma UnmapExact(k: nat, mem: Memory, tab: Labels, bits: nat, r0: nat, vptr: nat, frame: nat, r: nat, va: nat)
    requires Inv(k, mem, tab) && IsRoot(tab, r0) && r0 != k && IsRoot(tab, r)
    requires ViewAt(FORMAT, mem, k, vptr).level == TOP && Canonical(vptr) && Canonical(va)
    requires Unmappable(ViewAt(FORMAT, mem, r0, vptr), bits, frame)
    ensures Translate(Unmap(mem, bits, r0, vptr, frame), r, va) ==
            if r == r0 && va / Pow2(bits) == vptr / Pow2(bits) then None else Translate(mem, r, va)
  {
    var w := StopOf(mem, r0, vptr);
    var q := PrivateStop(k, mem, tab, (r: nat, va: nat) => ViewAt(FORMAT, mem, r, va), r0, vptr);
    UnmapEverywhere(mem, tab, bits, r0, vptr, frame, r, va);
    ReadsExactly(FORMAT, mem, tab, r0, vptr, w.level, q, w.slot, r, va);
    AgreeIsRange(va, vptr, w.level);
    SpanIsPow2(w.level);
  }

  /** Mapping a frame and unmapping it again restores memory word for word exactly
      when the slot was zero before. */
  lemma FrameRoundTrip(mem: Memory, root: nat, frame: nat, vptr: nat)
    requires frame % 0x1000 == 0 && frame / 0x1000 < PPN_LIMIT
    requires StopOf(mem, root, vptr).slot < |mem|
    ensures var w := StopOf(mem, root, vptr);
            Unmap(MapFrame(mem, root, frame, vptr), BitsLeft(w.level), root, vptr, frame) == mem <==> mem[w.slot] == 0
  {
    var w := StopOf(mem, root, vptr);
    var v := New(frame / 0x1000, ADUVRWX);
    NewFields(frame / 0x1000, ADUVRWX);
    var mapped := MapFrame(mem, root, frame, vptr);
    var back := Unmap(mapped, BitsLeft(w.level), root, vptr, frame);
    assert v != 0 && !IsPteTable(v);
    if !IsPteTable(mem[w.slot]) {
      StoreAtStop(FORMAT, mem, root, TOP, vptr, v);
      assert back[w.slot] == 0;
      if mem[w.slot] == 0 {
        assert back == mem[w.slot := v][w.slot := 0] == mem;
      }
    } else {
      assert back[w.slot] == v || back[w.slot] == 0;
    }
  }

  // ----- unmap_page_table

  lemma {:induction false} UsesBefore(mem: Memory, p: nat, l: nat, va: nat, s: nat, q: nat, k: nat)
    requires s < |mem| && Uses(FORMAT, mem[s := 0], p, l, va, q, k)
    ensures Uses(FORMAT, mem, p, l, va, q, k)
    decreases l
  {
    var t := Slot(FORMAT, p, va, l);
    if !(q == p && k == l) {
      assert t != s;
      UsesBefore(mem, GetPpn(mem[t]), l - 1, va, s, q, k);
    }
  }

  /** `unmap_page_table` never unlinks a table: if the walk of `va` reaches page `z`
      below the root, memory stays as it is, because the first entry is a table; and
      what the walk did not reach before it does not reach afterwards. */
  lemma UnmapTableKeepsLinks(mem: Memory, root: nat, va: nat, z: nat, k: nat)
    requires k < TOP
    ensures Uses(FORMAT, mem, root, TOP, va, z, k) ==> UnmapTable(mem, root, va, z) == mem
    ensures Uses(FORMAT, UnmapTable(mem, root, va, z), root, TOP, va, z, k) <==> Uses(FORMAT, mem, root, TOP, va, z, k)
  {
    var slot := TakenForParent(mem, root, TOP, va, z);
    if slot.Some? && slot.value < |mem| && Uses(FORMAT, mem[slot.value := 0], root, TOP, va, z, k) {
      UsesBefore(mem, root, TOP, va, slot.value, z, k);
    }
  }

  /** Two addresses in the same range below the slot one of them reaches get the
      same slot and the same number of bits left. */
  lemma SameSlot(mem: Memory, root: nat, va: nat, vb: nat)
    requires va / Pow2(BitsLeft(StopOf(mem, root, va).level)) == vb / Pow2(BitsLeft(StopOf(mem, root, va).level))
    ensures StopOf(mem, root, vb) == StopOf(mem, root, va)
  {
    var l := StopOf(mem, root, va).level;
    SpanIsPow2(l);
    SameRangeAgrees(FORMAT, va, vb, l);
    SameStop(FORMAT, mem, root, TOP, va, vb);
  }

  // ----- satp

  /** The word is the source's masks and shifts. */
  lemma SourceSatp(mode: nat, asid: nat, ppn: nat)
    ensures SatpNew(mode, asid, ppn) ==
            Or(Or(Shl(And(mode, Pow2(4) - 1), 60), Shl(And(asid, Pow2(16) - 1), 44)), Shl(And(ppn, Pow2(44) - 1), 0))
  {
    SatpPowers();
    MaskShift(mode, 4, 60);
    MaskShift(asid, 16, 44);
    MaskShift(ppn, 44, 0);
    SatpOr(mode % 0x10, asid % 0x1_0000, ppn % PPN_LIMIT);
  }

  lemma SatpPowers()
    ensures Pow2(0) == 1 && Pow2(4) == 0x10 && Pow2(16) == 0x1_0000 && Pow2(44) == PPN_LIMIT
    ensures Pow2(60) == 0x1000_0000_0000_0000
  {
    Powers();
    assert Pow2(16) == 16 * Pow2(12);
    assert Pow2(52) == 16 * Pow2(48);
    assert Pow2(60) == 256 * Pow2(52);
  }

  lemma SatpOr(m: nat, a: nat, p: nat)
    requires m < 0x10 && a < 0x1_0000 && p < PPN_LIMIT
    ensures Or(Or(m * 0x1000_0000_0000_0000, a * PPN_LIMIT), p) == m * 0x1000_0000_0000_0000 + a * PPN_LIMIT + p
  {
    SatpHigh(m, a);
    SatpLow(m * 0x1_0000 + a, p);
  }

  lemma SatpHigh(m: nat, a: nat)
    requires a < 0x1_0000
    ensures Or(m * 0x1000_0000_0000_0000, a * PPN_LIMIT) == m * 0x1000_0000_0000_0000 + a * PPN_LIMIT
  {
    SatpPowers();
    DivModUnique(m * 0x1000_0000_0000_0000, Pow2(60), m, 0);
    OrBelow(m * 0x1000_0000_0000_0000, a * PPN_LIMIT, 60);
  }

  lemma SatpLow(h: nat, p: nat)
    requires p < PPN_LIMIT
    ensures Or(h * PPN_LIMIT, p) == h * PPN_LIMIT + p
  {
    SatpPowers();
    DivModUnique(h * PPN_LIMIT, Pow2(44), h, 0);
    OrBelow(h * PPN_LIMIT, p, 44);
  }

  /** The three fields of satp come back from the word. */
  lemma SatpFields(mode: nat, asid: nat, ppn: nat)
    ensures var w := SatpNew(mode, asid, ppn);
            w / 0x1000_0000_0000_0000 == mode % 0x10 && w / PPN_LIMIT % 0x1_0000 == asid % 0x1_0000 &&
            w % PPN_LIMIT == ppn % PPN_LIMIT
  {
    var w := SatpNew(mode, asid, ppn);
    var hi := mode % 0x10 * 0x1_0000 + asid % 0x1_0000;
    assert w == hi * PPN_LIMIT + ppn % PPN_LIMIT;
    DivModUnique(w, PPN_LIMIT, hi, ppn % PPN_LIMIT);
    DivModUnique(hi, 0x1_0000, mode % 0x10, asid % 0x1_0000);
    DivModUnique(w, 0x1000_0000_0000_0000, mode % 0x10, asid % 0x1_0000 * PPN_LIMIT + ppn % PPN_LIMIT);
  }

  /** `set_vm_root` leaves the hart on the kernel's own table exactly when the
      capability is no page table, or names the kernel's table itself: the fallback
      for a failed lookup does not last. A failed lookup shows only in the result. */
  lemma VmRootInstalled(b: A.Split, st: A.State<nat>, offset: nat, rootPage: nat, root: Cap)
    requires root.PageTableCap? ==> root.basePtr >= offset && (root.basePtr - offset) / 0x1000 < PPN_LIMIT
    requires rootPage < PPN_LIMIT
    ensures VmRootSatp(offset, rootPage, root) % PPN_LIMIT == rootPage <==>
            root.OtherCap? || (root.basePtr - offset) / 0x1000 == rootPage
    ensures VmRootOutcome(b, st, root) == Ok <==>
            root.OtherCap? || A.Find(b, st, RootOf, root.mappedAsid).Some?
  {
    SatpFields(8, 0, rootPage);
    if root.PageTableCap? {
      SatpFields(8, root.mappedAsid, (root.basePtr - offset) / 0x1000);
    }
  }

  /** Mode, ASID and page number in satp after `set_vm_root`: Sv39, and those of the
      capability or of the kernel's table with ASID 0. */
  lemma VmRootFields(offset: nat, rootPage: nat, root: Cap)
    requires root.PageTableCap? ==> root.basePtr >= offset
    ensures var w := VmRootSatp(offset, rootPage, root);
            w / 0x1000_0000_0000_0000 == 8 &&
            w / 0x1000_0000_0000 % 0x1_0000 == (if root.PageTableCap? then root.mappedAsid % 0x1_0000 else 0) &&
            w % 0x1000_0000_0000 ==
              (if root.PageTableCap? then (root.basePtr - offset) / 0x1000 else rootPage) % 0x1000_0000_0000
  {
    SatpFields(8, 0, rootPage);
    if root.PageTableCap? {
      SatpFields(8, root.mappedAsid, (root.basePtr - offset) / 0x1000);
    }
  }

  // ----- fences

  lemma {:induction false} RemoteFencesReach(me: nat, n: nat, j: nat)
    requires j < n && j != me
    ensures T.RemoteFence(me, j) in RemoteFences(me, n)
  {
    if j < n - 1 {
      RemoteFencesReach(me, n - 1, j);
    }
  }

  /** Appending steps that do not upset any hart settles nothing and upsets
      nothing. */
  lemma SettledAppend(log: seq<T.Step>, more: seq<T.Step>, n: nat)
    requires T.Settled(log, n) && T.Settled(more, n)
    ensures T.Settled(log + more, n)
  {
    forall i: nat, j: nat | j < n
      ensures !T.Waits(log + more, i, j)
    {
      if i < |log| {
        assert (log + more)[i + 1..] == log[i + 1..] + more;
        assert !T.Waits(log, i, j);
      } else if i < |log + more| {
        assert (log + more)[i + 1..] == more[i - |log| + 1..];
        assert !T.Waits(more, i - |log|, j);
      }
    }
  }

  lemma {:induction false} RemoteFencesUpset(me: nat, n: nat, i: nat, j: nat)
    requires i < |RemoteFences(me, n)|
    ensures !T.Upsets(RemoteFences(me, n)[i], j)
  {
    if i < |RemoteFences(me, n - 1)| {
      RemoteFencesUpset(me, n - 1, i, j);
    }
  }

  /** A store followed by `sfence` leaves no hart waiting. */
  lemma StoreThenSfence(me: nat, n: nat, s: nat, w: Word)
    ensures T.Settled([T.Store(me, s, w)] + Sfence(me, n), n)
  {
    var ts := [T.Store(me, s, w)] + Sfence(me, n);
    forall i: nat, j: nat | j < n
      ensures !T.Waits(ts, i, j)
    {
      if i == 0 {
        assert ts[1..] == Sfence(me, n);
        if j != me {
          RemoteFencesReach(me, n, j);
          assert T.RemoteFence(me, j) in Sfence(me, n);
        }
      } else if 2 <= i < |ts| {
        assert ts[i] == RemoteFences(me, n)[i - 2];
        RemoteFencesUpset(me, n, i - 2, j);
      }
    }
  }

  /** A root change is settled by the hart's own fence: no other hart is involved. */
  lemma SwitchSettled(me: nat, addr: nat, n: nat)
    ensures T.Settled(SwitchLog(me, addr), n)
  {
    var ts := SwitchLog(me, addr);
    assert ts[1..] == [T.LocalFence(me)];
  }

  /** Whatever the capability and the ASID table, `set_vm_root` is settled. */
  lemma VmRootSettled(b: A.Split, st: A.State<nat>, offset: nat, me: nat, rootPage: nat, root: Cap, n: nat)
    requires root.PageTableCap? ==> root.basePtr >= offset
    ensures T.Settled(VmRootLog(b, st, offset, me, rootPage, root), n)
  {
    SwitchSettled(me, 0x1000 * rootPage, n);
    if root.PageTableCap? {
      SwitchSettled(me, root.basePtr - offset, n);
      SettledAppend(SwitchLog(me, 0x1000 * rootPage), SwitchLog(me, root.basePtr - offset), n);
      assert [] + SwitchLog(me, root.basePtr - offset) == SwitchLog(me, root.basePtr - offset);
    }
  }

  lemma {:induction false} RunAppend(h: Scheme, top: nat, st: T.State, ts: seq<T.Step>, us: seq<T.Step>)
    ensures T.Run(h, top, st, ts + us) == T.Run(h, top, T.Run(h, top, st, ts), us)
    decreases |us|
  {
    if us == [] {
      assert ts + us == ts;
    } else {
      RunAppend(h, top, st, ts, us[..|us| - 1]);
      assert (ts + us)[..|ts + us| - 1] == ts + us[..|us| - 1];
    }
  }

  lemma TwoSteps(h: Scheme, top: nat, st: T.State, t: T.Step, u: T.Step)
    ensures T.Run(h, top, st, [t, u]) == T.Next(h, top, T.Next(h, top, st, t), u)
  {
    assert [t, u][..1] == [t] && [t][..0] == [];
    assert T.Run(h, top, st, [t]) == T.Next(h, top, T.Run(h, top, st, []), t);
  }

  /** The machine with hart `me` on a root and nothing cached. */
  function OnRoot(st: T.State, me: nat, root: nat): T.State
    requires T.HartOf(st, me)
  {
    st.(harts := st.harts[me := T.Hart(root, {}, {})])
  }

  lemma SwitchNext(h: Scheme, top: nat, st: T.State, me: nat, root: nat)
    requires T.HartOf(st, me)
    ensures T.Next(h, top, T.Next(h, top, st, T.SetRoot(me, root)), T.LocalFence(me)) == OnRoot(st, me, root)
  {
  }

  lemma SwitchRuns(h: Scheme, top: nat, st: T.State, me: nat, addr: nat)
    requires T.HartOf(st, me)
    ensures T.Run(h, top, st, SwitchLog(me, addr)) == OnRoot(st, me, addr / 0x1000 % PPN_LIMIT)
  {
    TwoSteps(h, top, st, T.SetRoot(me, addr / 0x1000 % PPN_LIMIT), T.LocalFence(me));
    SwitchNext(h, top, st, me, addr / 0x1000 % PPN_LIMIT);
  }

  lemma OnRootTwice(st: T.State, me: nat, first: nat, last: nat)
    requires T.HartOf(st, me)
    ensures T.HartOf(OnRoot(st, me, first), me)
    ensures OnRoot(OnRoot(st, me, first), me, last) == OnRoot(st, me, last)
  {
  }

  lemma SwitchTwice(h: Scheme, top: nat, st: T.State, me: nat, first: nat, last: nat)
    requires T.HartOf(st, me)
    ensures T.Run(h, top, st, SwitchLog(me, first) + SwitchLog(me, last)) ==
            OnRoot(st, me, last / 0x1000 % PPN_LIMIT)
  {
    var p, q := first / 0x1000 % PPN_LIMIT, last / 0x1000 % PPN_LIMIT;
    RunAppend(h, top, st, SwitchLog(me, first), SwitchLog(me, last));
    SwitchRuns(h, top, st, me, first);
    OnRootTwice(st, me, p, q);
    SwitchRuns(h, top, OnRoot(st, me, p), me, last);
  }

  /** On any machine the steps of `set_vm_root` leave the hart with the root that satp
      names and nothing cached, and touch neither memory nor another hart. */
  lemma VmRootRuns(h: Scheme, top: nat, b: A.Split, sa: A.State<nat>, st: T.State, offset: nat, me: nat, rootPage: nat,
      root: Cap)
    requires root.PageTableCap? ==> root.basePtr >= offset
    requires T.HartOf(st, me)
    ensures T.Run(h, top, st, VmRootLog(b, sa, offset, me, rootPage, root)) ==
            OnRoot(st, me, VmRootSatp(offset, rootPage, root) % 0x1000_0000_0000)
  {
    VmRootFields(offset, rootPage, root);
    SwitchRuns(h, top, st, me, 0x1000 * rootPage);
    if root.PageTableCap? {
      SwitchTwice(h, top, st, me, 0x1000 * rootPage, root.basePtr - offset);
      SwitchRuns(h, top, st, me, root.basePtr - offset);
      assert [] + SwitchLog(me, root.basePtr - offset) == SwitchLog(me, root.basePtr - offset);
    }
  }

  /** On the way the hart is on the kernel's table exactly when the capability is no page
      table, its ASID is not bound to it, or it is that table. */
  lemma VmRootFallsBack(b: A.Split, sa: A.State<nat>, offset: nat, me: nat, rootPage: nat, root: Cap)
    requires root.PageTableCap? ==> root.basePtr >= offset
    requires rootPage < PPN_LIMIT
    ensures T.SetRoot(me, rootPage) in VmRootLog(b, sa, offset, me, rootPage, root) <==>
            root.OtherCap? || A.Find(b, sa, RootOf, root.mappedAsid) != Some(root.basePtr) ||
            (root.basePtr - offset) / 0x1000 % PPN_LIMIT == rootPage
  {
    assert SwitchLog(me, 0x1000 * rootPage)[0] == T.SetRoot(me, rootPage);
    if root.PageTableCap? {
      var last := SwitchLog(me, root.basePtr - offset);
      assert last[0] == T.SetRoot(me, (root.basePtr - offset) / 0x1000 % PPN_LIMIT);
      assert [] + last == last;
    }
  }

  lemma {:induction false} CopySettled(me: nat, mem: Memory, k: nat, z: nat, i: nat, n: nat)
    requires PageInside(mem, k) && PageInside(mem, z) && i <= 512
    ensures T.Settled(CopyLog(me, mem, k, z, i), n)
    ensures forall t :: t in CopyLog(me, mem, k, z, i) ==> t.StoreUnused? && t.slot / 512 == z
  {
    if i > FIRST_GLOBAL {
      CopySettled(me, mem, k, z, i - 1, n);
      var t := T.StoreUnused(me, 512 * z + (i - 1), CopyUpTo(mem, k, z, i - 1)[512 * k + (i - 1)]);
      assert T.Settled([t], n);
      SettledAppend(CopyLog(me, mem, k, z, i - 1), [t], n);
    }
  }

  lemma {:induction false} HwUsesLabelled(h: Scheme, f: Format, mem: Memory, tab: Labels, p: nat, r: nat, l: nat,
      va: nat, q: nat, k: nat)
    requires Labelled(f, mem, tab) && Clean(h, f, mem, tab) && SameIndex(h, f) && l <= f.top
    requires OnPath(f, tab, p, r, l, va) && T.HwUses(h, mem, p, l, va, q, k)
    ensures q in tab && k <= l
    decreases l
  {
    var i := f.index(va, l);
    assert h.index(va, l) == i;
    if !(q == p && k == l) {
      assert CleanWord(h, f, l, mem[512 * p + i]) && EntryOk(f, mem, tab, p, i);
      HwUsesLabelled(h, f, mem, tab, f.next(mem[512 * p + i]), r, l - 1, va, q, k);
    }
  }

  /** The unfenced stores of `copyGlobalMappings` are sound: no walk from a root in
      use reads the fresh page they go to. */
  lemma FreshRootUnread(k: nat, mem: Memory, tab: Labels, z: nat, r: nat, slot: nat)
    requires Inv(k, mem, tab) && z !in tab && slot / 512 == z && IsRoot(tab, r)
    ensures T.Unread(SV39, TOP, mem, r, slot)
  {
    forall va: nat, q: nat, j: nat | T.HwUses(SV39, mem, r, TOP, va, q, j)
      ensures 512 * q + SV39.index(va, j) != slot
    {
      UsedPage(k, mem, tab, r, va, q, j);
      PageOf(q, SV39.index(va, j));
    }
  }

  lemma UsedPage(k: nat, mem: Memory, tab: Labels, r: nat, va: nat, q: nat, j: nat)
    requires Inv(k, mem, tab) && IsRoot(tab, r) && T.HwUses(SV39, mem, r, TOP, va, q, j)
    ensures q in tab
  {
    SameIndices();
    HwUsesLabelled(SV39, FORMAT, mem, tab, r, r, TOP, va, q, j);
  }

  lemma PageOf(q: nat, i: Entry)
    ensures (512 * q + i) / 512 == q
  {
  }
}
