/** What the AArch64 mapping operations achieve, seen from the hardware. */
module ArmTheorems {
  import opened Words
  import opened Options
  import opened PageTables
  import opened PageTableUpdates
  import opened VirtualAddresses
  import opened Hardware
  import opened BootMappings
  import opened ArmPte
  import opened ArmWalk
  import opened ArmSpaces

  // ----- unmap_page

  /** When its checks pass: precisely the aligned range of 2^bits bytes around `vptr`
      stops translating, in that address space only, for 4K, 2M and 1G entries. */
  lemma UnmapExact(mem: Memory, tab: Labels, bits: nat, r0: nat, vptr: nat, frame: nat, r: nat, va: nat)
    requires Inv(mem, tab) && IsRoot(tab, r0) && IsRoot(tab, r) && vptr < TOP_BITS && va < TOP_BITS
    requires Unmappable(ViewAt(FORMAT, mem, r0, vptr), bits, frame)
    ensures Inv(Unmap(mem, bits, r0, vptr, frame), tab)
    ensures Translate(Unmap(mem, bits, r0, vptr, frame), r, va) ==
            if r == r0 && va / Pow2(bits) == vptr / Pow2(bits) then None else Translate(mem, r, va)
  {
    var q := StopOwned(mem, tab, r0, vptr);
    var w := StopOf(mem, r0, vptr);
    CleanIs(w.level, 0);
    TypesDecode(w.level, 0);
    InvAfterLeaf(mem, tab, q, w.slot, 0);
    StoreLeaf(FORMAT, mem, tab, r0, vptr, w.level, q, w.slot, 0, r, va);
    SameIndices();
    HwIsDeliver(VMSA, FORMAT, mem, tab, r, va);
    HwIsDeliver(VMSA, FORMAT, mem[w.slot := 0], tab, r, va);
    AgreeIsRange(va, vptr, w.level);
    SpanIsPow2(w.level);
  }

  /** Two addresses in the same range below the slot one of them reaches get the
      same slot and the same number of bits left. */
  lemma SameSlot(mem: Memory, root: nat, va: nat, vb: nat)
    requires va / Pow2(BitsLeft(StopOf(mem, root, va).level)) == vb / Pow2(BitsLeft(StopOf(mem, root, va).level))
    ensures StopOf(mem, root, vb) == StopOf(mem, root, va)
  {
    var l := StopOf(mem, root, va).level;
    SpanIsPow2(l);
    SameRangeAgrees(FORMAT, va, vb, l);
    SameStop(FORMAT, mem, root, TOP, va, vb);
  }

  // ----- unmap_page_table

  /** The word read back after the zeroing is the table's first entry as it was, unless
      the slot is that entry itself. */
  lemma UnmapTableReads(mem: Memory, r: nat, va: nat, z: nat)
    requires PageInside(mem, z) && ParentSlot(FORMAT, mem, r, TOP, va, z) != Some(512 * z)
    ensures UnmapTable(mem, r, va, 0x1000 * z) ==
            match ParentSlot(FORMAT, mem, r, TOP, va, z)
            case None => mem
            case Some(s) => Store(mem, s, mem[512 * z])
  {
  }

  /** And in a forest it never is. */
  lemma UnmapTableIs(mem: Memory, tab: Labels, r: nat, va: nat, z: nat)
    requires Inv(mem, tab) && IsRoot(tab, r) && PageInside(mem, z)
    ensures UnmapTable(mem, r, va, 0x1000 * z) ==
            match ParentSlot(FORMAT, mem, r, TOP, va, z)
            case None => mem
            case Some(s) => Store(mem, s, mem[512 * z])
  {
    ParentExactly(FORMAT, mem, tab, r, va, z);
    UnmapTableReads(mem, r, va, z);
  }

  /** It changes memory exactly when the table lies at depth 1 to 3 on the path of
      `va`; then one word changes, the slot that named the table, which ends as the
      table's own first entry. */
  lemma UnmapTableWrites(mem: Memory, tab: Labels, r: nat, va: nat, z: nat)
    requires Inv(mem, tab) && IsRoot(tab, r) && PageInside(mem, z)
    ensures UnmapTable(mem, r, va, 0x1000 * z) != mem <==>
            exists k: nat :: k < TOP && Uses(FORMAT, mem, r, TOP, va, z, k)
    ensures UnmapTable(mem, r, va, 0x1000 * z) != mem ==>
              exists s: nat :: s < |mem| && IsTable(mem[s]) && GetPage(mem[s]) == z &&
                              Reads(FORMAT, mem, r, TOP, va, s) &&
                              UnmapTable(mem, r, va, 0x1000 * z) == mem[s := mem[512 * z]]
  {
    UnmapTableIs(mem, tab, r, va, z);
    ParentExactly(FORMAT, mem, tab, r, va, z);
    if ParentSlot(FORMAT, mem, r, TOP, va, z).Some? {
      var s := ParentSlot(FORMAT, mem, r, TOP, va, z).value;
      assert mem[s := mem[512 * z]][s] != mem[s];
    }
  }

  predicate AllInvalid(mem: Memory, z: nat) {
    PageInside(mem, z) && forall s :: 512 * z <= s < 512 * z + 512 ==> mem[s] % 2 == 0
  }

  /** If the removed table was all invalid, no translation changes anywhere, and the
      walk of `va` now stops one level above the table, at its parent's slot. */
  lemma UnmapEmptyTable(mem: Memory, tab: Labels, r0: nat, v0: nat, z: nat, k: nat, r: nat, va: nat)
    requires Inv(mem, tab) && IsRoot(tab, r0) && IsRoot(tab, r)
    requires k < TOP && Uses(FORMAT, mem, r0, TOP, v0, z, k) && AllInvalid(mem, z)
    ensures var mem' := UnmapTable(mem, r0, v0, 0x1000 * z);
            Inv(mem', tab) && Translate(mem', r, va) == Translate(mem, r, va)
    ensures StopOf(mem, r0, v0).level == k
    ensures StopOf(UnmapTable(mem, r0, v0, 0x1000 * z), r0, v0).level == k + 1
  {
    UnmapTableIs(mem, tab, r0, v0, z);
    UsedOnPath(FORMAT, mem, tab, r0, r0, TOP, v0, z, k);
    var q := ParentOf(FORMAT, mem, tab, r0, v0, z, k);
    var s, v := Slot(FORMAT, q, v0, k + 1), mem[512 * z];
    TypesDecode(k + 1, v);
    InvalidFaults(mem, z, k);
    SameIndices();
    CleanIs(k + 1, v);
    InvAfterLeaf(mem, tab, q, s, v);
    DropEmptyTable(VMSA, FORMAT, mem, tab, r0, v0, k, q, s, z, v, r, va);
    DropTableStops(VMSA, FORMAT, mem, tab, r0, v0, k, q, s, z, v);
  }

  lemma InvalidFaults(mem: Memory, z: nat, k: nat)
    requires AllInvalid(mem, z)
    ensures AllFault(VMSA, FORMAT, mem, z, k)
  {
    forall s | 512 * z <= s < 512 * z + 512
      ensures !IsTable(mem[s]) && Decode(k, mem[s]) == Fault
    {
      TypesDecode(k, mem[s]);
    }
  }

  // ----- the boot mappings

  /** Three distinct zeroed pages in no use, and a root entry for `va` that is no
      table yet. */
  ghost predicate BootStart(mem: Memory, tab: Labels, r0: nat, va: nat, pud: Word, pd: Word, pt: Word) {
    Inv(mem, tab) && IsRoot(tab, r0) &&
    Fresh(mem, tab, GetPage(pud)) && Fresh(mem, tab, GetPage(pd)) && Fresh(mem, tab, GetPage(pt)) &&
    GetPage(pud) != GetPage(pd) && GetPage(pd) != GetPage(pt) && GetPage(pud) != GetPage(pt) &&
    var s := FindSlot(mem, r0, va, TOP); s < |mem| ==> !IsTable(mem[s])
  }

  lemma FreshIsEmpty(mem: Memory, tab: Labels, z: nat, k: nat)
    requires Fresh(mem, tab, z)
    ensures Empty(VMSA, FORMAT, mem, tab, z, k)
  {
    TypesDecode(k, 0);
    CleanIs(k, 0);
  }

  lemma TableIsFor(l: nat, addr: Word)
    requires l > 0
    ensures TableFor(VMSA, FORMAT, l, NewTable(addr), GetPage(addr))
  {
    TableWord(addr);
    CleanIs(l, NewTable(addr));
  }

  lemma RootReady(mem: Memory, tab: Labels, r0: nat, va: nat)
    requires Inv(mem, tab) && IsRoot(tab, r0)
    requires var s := FindSlot(mem, r0, va, TOP); s < |mem| ==> !IsTable(mem[s])
    ensures Ready(VMSA, FORMAT, mem, tab, r0, va, TOP, r0)
  {
    var s := Slot(FORMAT, r0, va, TOP);
    assert EntryOk(FORMAT, mem, tab, r0, FORMAT.index(va, TOP));
    assert CleanWord(VMSA, FORMAT, TOP, mem[s]);
    CleanIs(TOP, mem[s]);
  }

  /** Memory after the PUD, the PD and the page table have been entered. */
  function BootTables(mem: Memory, r0: nat, va: nat, pud: Word, pd: Word, pt: Word): Memory {
    var m1 := MapPud(mem, r0, pud, va);
    MapPt(MapPd(m1, r0, pd, va), r0, pt, va)
  }

  function BootLabels(tab: Labels, r0: nat, va: nat, pud: Word, pd: Word, pt: Word): Labels {
    PathTables(FORMAT, tab, r0, va, GetPage(pud), GetPage(pd), GetPage(pt))
  }

  lemma SeenFrame(v: Word, va: nat)
    requires GetType(v) == PAGE_4K
    ensures Physical(VMSA, End(0, VMSA.decode(0, v)), va) == Some(AddrField(v) + va % 0x1000)
    ensures !IsTable(v) && CleanWord(VMSA, FORMAT, 0, v)
  {
    TypesDecode(0, v);
    CleanIs(0, v);
  }

  lemma FrameWord(frame: Word, exec: bool, smp: bool)
    requires frame % 0x1000 == 0 && frame < TOP_BITS
    ensures var v := New4kPage(BootFields(exec, smp), frame); GetType(v) == PAGE_4K && AddrField(v) == frame
  {
    PageWord(BootFields(exec, smp), frame);
  }

  lemma BootPath(mem: Memory, tab: Labels, r0: nat, va: nat, pud: Word, pd: Word, pt: Word, v: Word, r: nat, vb: nat)
    requires BootStart(mem, tab, r0, va, pud, pd, pt) && IsRoot(tab, r) && GetType(v) == PAGE_4K
    ensures var m := Enter(FORMAT, BootTables(mem, r0, va, pud, pd, pt), r0, va, 0, v);
            var s := FindSlot(m, r0, va, 0);
            Inv(m, BootLabels(tab, r0, va, pud, pd, pt)) && s < |m| && m[s] == v && StopOf(m, r0, va) == Stop(0, s) &&
            HwWalk(VMSA, m, r, TOP, vb) ==
            if r == r0 && Agree(FORMAT, vb, va, 0) then Some(AddrField(v) + vb % 0x1000)
              else HwWalk(VMSA, mem, r, TOP, vb)
  {
    RootReady(mem, tab, r0, va);
    SameIndices();
    FreshIsEmpty(mem, tab, GetPage(pud), 2);
    FreshIsEmpty(mem, tab, GetPage(pd), 1);
    FreshIsEmpty(mem, tab, GetPage(pt), 0);
    TableIsFor(3, pud);
    TableIsFor(2, pd);
    TableIsFor(1, pt);
    SeenFrame(v, vb);
    EnterPath(VMSA, FORMAT, mem, tab, r0, va, GetPage(pud), GetPage(pd), GetPage(pt),
              NewTable(pud), NewTable(pd), NewTable(pt), v, r, vb);
  }

  lemma SamePageAgrees(va: nat, vb: nat)
    requires va < TOP_BITS && vb < TOP_BITS
    ensures Agree(FORMAT, vb, va, 0) <==> vb / 0x1000 == va / 0x1000
  {
    AgreeIsRange(vb, va, 0);
  }

  /** The boot chain: a PUD, a PD, a page table and a frame entered one after the
      other for one address, from zeroed tables. `find_pt` then gives the slot the
      walk stops at, with 12 bits left; it holds a 4K page with the frame's address;
      that page translates to the frame, no other address of any space changes, and the
      tables are a forest again. */
  lemma BootChain(mem: Memory, tab: Labels, r0: nat, va: nat, pud: Word, pd: Word, pt: Word, frame: Word, exec: bool,
      smp: bool, r: nat, vb: nat)
    requires BootStart(mem, tab, r0, va, pud, pd, pt) && IsRoot(tab, r) && va < TOP_BITS && vb < TOP_BITS
    requires frame % 0x1000 == 0 && frame < TOP_BITS
    ensures var m4 := MapFrame(BootTables(mem, r0, va, pud, pd, pt), r0, frame, va, exec, smp);
            var s := FindSlot(m4, r0, va, 0);
            Inv(m4, BootLabels(tab, r0, va, pud, pd, pt)) &&
            StopOf(m4, r0, va) == Stop(0, s) && s < |m4| && GetType(m4[s]) == PAGE_4K && AddrField(m4[s]) == frame &&
            Translate(m4, r, vb) ==
            if r == r0 && vb / 0x1000 == va / 0x1000 then Some(frame + vb % 0x1000) else Translate(mem, r, vb)
  {
    FrameWord(frame, exec, smp);
    SamePageAgrees(va, vb);
    BootPath(mem, tab, r0, va, pud, pd, pt, New4kPage(BootFields(exec, smp), frame), r, vb);
  }

  // ----- what the operations ask of memory

  /** In a forest every walk stays inside memory. */
  lemma WalksInside(mem: Memory, tab: Labels, r: nat, va: nat)
    requires Inv(mem, tab) && IsRoot(tab, r)
    ensures Safe(FORMAT, mem, r, TOP, va)
  {
    LabelledIsSafe(FORMAT, mem, tab, r, r, TOP, va);
  }

  /** And so does `find_pt` down to a table the walk uses. */
  lemma {:induction false} FollowsInside(mem: Memory, tab: Labels, p: nat, r: nat, l: nat, va: nat, q: nat, k: nat)
    requires Labelled(FORMAT, mem, tab) && l <= TOP && OnPath(FORMAT, tab, p, r, l, va)
    requires Uses(FORMAT, mem, p, l, va, q, k)
    ensures FollowSafe(mem, p, l, va, k)
    decreases l
  {
    var i := FORMAT.index(va, l);
    assert EntryOk(FORMAT, mem, tab, p, i);
    if !(q == p && k == l) {
      var n := GetPage(mem[512 * p + i]);
      UsedOnPath(FORMAT, mem, tab, n, r, l - 1, va, q, k);
      FollowsInside(mem, tab, n, r, l - 1, va, q, k);
    }
  }

  lemma TableStep(mem: Memory, tab: Labels, r0: nat, va: nat, l: nat, q: nat, addr: Word)
    returns (mem': Memory, tab': Labels)
    requires Inv(mem, tab) && Ready(VMSA, FORMAT, mem, tab, r0, va, l, q) && 0 < l && IsRoot(tab, r0)
    requires Empty(VMSA, FORMAT, mem, tab, GetPage(addr), l - 1)
    ensures mem' == Enter(FORMAT, mem, r0, va, l, NewTable(addr)) == mem[Slot(FORMAT, q, va, l) := NewTable(addr)]
    ensures tab' == tab[GetPage(addr) := Own(r0, Path(FORMAT, va, l - 1))]
    ensures Inv(mem', tab') && Ready(VMSA, FORMAT, mem', tab', r0, va, l - 1, GetPage(addr)) && IsRoot(tab', r0)
    ensures FollowSafe(mem, r0, TOP, va, l) && FollowSafe(mem', r0, TOP, va, l - 1)
  {
    SameIndices();
    TableIsFor(l, addr);
    mem', tab' := EnterTable(VMSA, FORMAT, mem, tab, r0, va, l, q, GetPage(addr), NewTable(addr), r0, va);
    FollowsInside(mem, tab, r0, r0, TOP, va, q, l);
    FollowsInside(mem', tab', r0, r0, TOP, va, GetPage(addr), l - 1);
  }

  lemma FirstStep(mem: Memory, tab: Labels, r0: nat, va: nat, pud: Word, pd: Word, pt: Word) returns (tab': Labels)
    requires BootStart(mem, tab, r0, va, pud, pd, pt)
    ensures var m1 := MapPud(mem, r0, pud, va);
            FollowSafe(mem, r0, TOP, va, 3) && FollowSafe(m1, r0, TOP, va, 2) &&
            FindSlot(m1, r0, va, 3) < |m1| && AttrField(m1[FindSlot(m1, r0, va, 3)]) == 3 &&
            Inv(m1, tab') && IsRoot(tab', r0) && Ready(VMSA, FORMAT, m1, tab', r0, va, 2, GetPage(pud)) &&
            Empty(VMSA, FORMAT, m1, tab', GetPage(pd), 1) && Empty(VMSA, FORMAT, m1, tab', GetPage(pt), 0)
  {
    RootReady(mem, tab, r0, va);
    FreshIsEmpty(mem, tab, GetPage(pud), 2);
    FreshIsEmpty(mem, tab, GetPage(pd), 1);
    FreshIsEmpty(mem, tab, GetPage(pt), 0);
    var m1;
    m1, tab' := TableStep(mem, tab, r0, va, 3, r0, pud);
    var s, a := Slot(FORMAT, r0, va, 3), tab'[GetPage(pud)];
    EmptyKept(VMSA, FORMAT, mem, tab, GetPage(pd), 1, s, NewTable(pud), GetPage(pud), a);
    EmptyKept(VMSA, FORMAT, mem, tab, GetPage(pt), 0, s, NewTable(pud), GetPage(pud), a);
    assert FindSlot(m1, r0, va, 3) == s;
    NewPageParts(pud, 3);
  }

  /** One after the other the boot mappings find in memory what each asks for, the
      attribute bits the source asserts included. */
  lemma BootSteps(mem: Memory, tab: Labels, r0: nat, va: nat, pud: Word, pd: Word, pt: Word)
    requires BootStart(mem, tab, r0, va, pud, pd, pt)
    ensures FollowSafe(mem, r0, TOP, va, 3)
    ensures var m1 := MapPud(mem, r0, pud, va);
            FollowSafe(m1, r0, TOP, va, 2) &&
            FindSlot(m1, r0, va, 3) < |m1| && AttrField(m1[FindSlot(m1, r0, va, 3)]) == 3
    ensures FollowSafe(MapPd(MapPud(mem, r0, pud, va), r0, pd, va), r0, TOP, va, 1)
    ensures FollowSafe(BootTables(mem, r0, va, pud, pd, pt), r0, TOP, va, 0)
  {
    var t1 := FirstStep(mem, tab, r0, va, pud, pd, pt);
    var m1 := MapPud(mem, r0, pud, va);
    var m2, t2 := TableStep(m1, t1, r0, va, 2, GetPage(pud), pd);
    var s := Slot(FORMAT, GetPage(pud), va, 2);
    EmptyKept(VMSA, FORMAT, m1, t1, GetPage(pt), 0, s, NewTable(pd), GetPage(pd), t2[GetPage(pd)]);
    var m3, t3 := TableStep(m2, t2, r0, va, 1, GetPage(pd), pt);
  }

  // ----- round trips

  /** Mapping a frame through an existing page table and unmapping it again restores
      memory word for word exactly when the slot was zero. */
  lemma FrameRoundTrip(mem: Memory, tab: Labels, root: nat, va: nat, q: nat, frame: Word, exec: bool, smp: bool)
    requires Inv(mem, tab) && IsRoot(tab, root) && Uses(FORMAT, mem, root, TOP, va, q, 0)
    requires frame % 0x1000 == 0 && frame < TOP_BITS
    ensures Slot(FORMAT, q, va, 0) < |mem|
    ensures Unmap(MapFrame(mem, root, frame, va, exec, smp), BitsLeft(0), root, va, frame) == mem <==>
            mem[Slot(FORMAT, q, va, 0)] == 0
  {
    UsedOnPath(FORMAT, mem, tab, root, root, TOP, va, q, 0);
    var s, v := Slot(FORMAT, q, va, 0), New4kPage(BootFields(exec, smp), frame);
    FollowUsed(FORMAT, mem, root, TOP, va, q, 0);
    UsedAfterStore(FORMAT, mem, tab, root, root, TOP, va, q, 0, v);
    StopsAt(FORMAT, mem[s := v], root, va, q, 0);
    FrameWord(frame, exec, smp);
    assert Unmap(mem[s := v], BitsLeft(0), root, va, frame) == mem[s := v][s := 0] == mem[s := 0];
    assert mem[s := 0][s] == 0;
    if mem[s] == 0 { assert mem[s := 0] == mem; }
  }

  /** A frame mapped through an existing page table keeps the forest. */
  lemma MapFrameInv(mem: Memory, tab: Labels, root: nat, va: nat, q: nat, frame: Word, exec: bool, smp: bool)
    requires Inv(mem, tab) && IsRoot(tab, root) && Uses(FORMAT, mem, root, TOP, va, q, 0)
    requires frame % 0x1000 == 0 && frame < TOP_BITS
    ensures Inv(MapFrame(mem, root, frame, va, exec, smp), tab)
  {
    UsedOnPath(FORMAT, mem, tab, root, root, TOP, va, q, 0);
    FollowUsed(FORMAT, mem, root, TOP, va, q, 0);
    FrameWord(frame, exec, smp);
    var v := New4kPage(BootFields(exec, smp), frame);
    CleanIs(0, v);
    InvAfterLeaf(mem, tab, q, Slot(FORMAT, q, va, 0), v);
  }

  lemma StoredOver(mem: Memory, s: nat, v: Word, w: Word)
    requires s < |mem|
    ensures mem[s := v][s := w] == mem <==> mem[s] == w
  {
    assert mem[s := v][s := w][s] == w;
    if mem[s] == w { assert mem[s := v][s := w] == mem; }
  }

  lemma TableAt(z: nat)
    requires z < 0x10_0000_0000
    ensures TableFor(VMSA, FORMAT, 1, NewTable(0x1000 * z), z)
  {
    TableIsFor(1, 0x1000 * z);
    assert GetPage(0x1000 * z) == z;
  }

  lemma ParentAfterMapPt(mem: Memory, tab: Labels, root: nat, va: nat, q: nat, z: nat, v: Word)
    requires Inv(mem, tab) && IsRoot(tab, root) && Uses(FORMAT, mem, root, TOP, va, q, 1) && z !in tab
    requires IsTable(v) && GetPage(v) == z
    ensures var s := Slot(FORMAT, q, va, 1);
            s < |mem| && 512 * q <= s < 512 * q + 512 && q in tab &&
              Enter(FORMAT, mem, root, va, 1, v) == mem[s := v] &&
            ParentSlot(FORMAT, mem[s := v], root, TOP, va, z) == Some(s)
  {
    UsedOnPath(FORMAT, mem, tab, root, root, TOP, va, q, 1);
    FollowUsed(FORMAT, mem, root, TOP, va, q, 1);
    ParentAfterStore(FORMAT, mem, tab, root, root, TOP, va, q, 1, v);
  }

  lemma MapThenUnmapTable(mem: Memory, tab: Labels, root: nat, va: nat, q: nat, z: nat) returns (w: Word)
    requires Inv(mem, tab) && IsRoot(tab, root) && Uses(FORMAT, mem, root, TOP, va, q, 1)
    requires z !in tab && z < 0x10_0000_0000 && PageInside(mem, z)
    ensures var s := Slot(FORMAT, q, va, 1);
            s < |mem| && w == mem[512 * z] &&
            UnmapTable(MapPt(mem, root, 0x1000 * z, va), root, va, 0x1000 * z) ==
            mem[s := NewTable(0x1000 * z)][s := w]
  {
    var s, v := Slot(FORMAT, q, va, 1), NewTable(0x1000 * z);
    TableAt(z);
    ParentAfterMapPt(mem, tab, root, va, q, z, v);
    UnmapTableReads(mem[s := v], root, va, z);
    w := mem[512 * z];
  }

  /** Entering a table in no use and removing it again leaves its own first entry in
      the slot: memory is restored exactly when the slot held that word before, so
      for an empty table exactly when the slot was zero. */
  lemma TableRoundTrip(mem: Memory, tab: Labels, root: nat, va: nat, q: nat, z: nat)
    requires Inv(mem, tab) && IsRoot(tab, root) && Uses(FORMAT, mem, root, TOP, va, q, 1)
    requires z !in tab && z < 0x10_0000_0000 && PageInside(mem, z)
    ensures Slot(FORMAT, q, va, 1) < |mem|
    ensures UnmapTable(MapPt(mem, root, 0x1000 * z, va), root, va, 0x1000 * z) == mem <==>
            mem[Slot(FORMAT, q, va, 1)] == mem[512 * z]
  {
    var s, v := Slot(FORMAT, q, va, 1), NewTable(0x1000 * z);
    var w := MapThenUnmapTable(mem, tab, root, va, q, z);
    StoredOver(mem, s, v, w);
  }
}
