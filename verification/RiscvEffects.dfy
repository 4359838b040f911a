/** What each RISC-V mapping operation changes, said in addresses: which translations an
    address space has after it, from those it had before. */
module RiscvEffects {
  import opened Words
  import opened Options
  import opened PageTables
  import opened PageTableUpdates
  import opened VirtualAddresses
  import opened Hardware
  import opened RiscvPte
  import opened RiscvWalk
  import opened RiscvSpaces
  import opened RiscvTheorems

  /** An entry of the given size maps `va`, and to the frame. */
  predicate MapsFrame(mem: Memory, r: nat, va: nat, bits: nat, frame: nat) {
    BitsLeft(StopOf(mem, r, va).level) == bits && Translate(mem, r, va) == Some(frame + va % Pow2(bits))
  }

  // ----- unmap_page

  /** Of an address that translates, `unmap_page` zeroes the slot exactly when the entry
      has the caller's size and maps the address to the caller's frame; else memory stays
      as it is. */
  lemma UnmapDecides(mem: Memory, tab: Labels, bits: nat, r: nat, va: nat, frame: nat)
    requires Labelled(FORMAT, mem, tab) && Clean(SV39, FORMAT, mem, tab) && IsRoot(tab, r)
    requires Translate(mem, r, va).Some?
    ensures var s := StopOf(mem, r, va).slot;
            s < |mem| && mem[s] != 0 &&
            Unmap(mem, bits, r, va, frame) == if MapsFrame(mem, r, va, bits, frame) then mem[s := 0] else mem
  {
    var _ := WalkEndsLabelled(FORMAT, mem, tab, r, va);
    SameIndices();
    HwIsDeliver(SV39, FORMAT, mem, tab, r, va);
    UnmapLeaf(mem, bits, r, va, frame);
  }

  lemma UnmapLeaf(mem: Memory, bits: nat, r: nat, va: nat, frame: nat)
    requires var w := StopOf(mem, r, va);
             w.slot < |mem| && Translate(mem, r, va) == Deliver(SV39, View(w.level, mem[w.slot]), va) != None
    ensures var s := StopOf(mem, r, va).slot;
            mem[s] != 0 &&
            Unmap(mem, bits, r, va, frame) == if MapsFrame(mem, r, va, bits, frame) then mem[s := 0] else mem
  {
    var w := StopOf(mem, r, va);
    LeafFound(w.level, mem[w.slot], va);
  }

  lemma LeafFound(l: nat, w: Word, va: nat)
    requires l <= TOP && DecodeAt(l, w).Leaf?
    ensures GetValid(w) != 0 && !IsPteTable(w) && DecodeAt(l, w).base == 0x1000 * GetPpn(w) && w != 0
    ensures SV39.offset(va, l) == va % Pow2(BitsLeft(l))
  {
    HardwareAgrees(w);
    SpanIsPow2(l);
  }

  /** Of a private address mapped at that size and to that frame, exactly the aligned
      2^bits bytes around it fault afterwards, in that space only. */
  lemma UnmapMapped(k: nat, mem: Memory, tab: Labels, bits: nat, r0: nat, vptr: nat, frame: nat, r: nat, va: nat)
    requires Inv(k, mem, tab) && IsRoot(tab, r0) && r0 != k && IsRoot(tab, r)
    requires ViewAt(FORMAT, mem, k, vptr).level == TOP && Canonical(va)
    requires MapsFrame(mem, r0, vptr, bits, frame)
    ensures Translate(Unmap(mem, bits, r0, vptr, frame), r, va) ==
            if r == r0 && va / Pow2(bits) == vptr / Pow2(bits) then None else Translate(mem, r, va)
  {
    SameIndices();
    HwIsDeliver(SV39, FORMAT, mem, tab, r0, vptr);
    var _ := WalkEndsLabelled(FORMAT, mem, tab, r0, vptr);
    var w := StopOf(mem, r0, vptr);
    LeafFound(w.level, mem[w.slot], vptr);
    UnmapExact(k, mem, tab, bits, r0, vptr, frame, r, va);
  }

  /** In any memory, an entry with bit 0 clear, or with bits 1, 2 and 3 all clear, is left;
      any other of the caller's size and frame is zeroed, also one the processor rejects. */
  lemma UnmapByBits(mem: Memory, bits: nat, r: nat, va: nat, frame: nat)
    requires StopOf(mem, r, va).slot < |mem|
    ensures var w := StopOf(mem, r, va);
            var e := mem[w.slot];
            Unmap(mem, bits, r, va, frame) ==
            if BitsLeft(w.level) == bits && e % 2 == 1 && (e / 2 % 2 == 1 || e / 4 % 2 == 1 || e / 8 % 2 == 1) &&
               e / 0x400 % 0x1000_0000_0000 * 0x1000 == frame
            then mem[w.slot := 0] else mem
  {
  }

  // ----- map_it_frame_cap and map_it_pt_cap

  function Views(mem: Memory): Flat {
    (r: nat, va: nat) => ViewAt(FORMAT, mem, r, va)
  }

  lemma SeenAfter(k: nat, mem': Memory, tab': Labels, a: Flat, r: nat, va: nat)
    requires Inv(k, mem', tab') && Refines(mem', tab', a) && IsRoot(tab', r)
    ensures HwWalk(SV39, mem', r, TOP, va) == Deliver(SV39, a(r, va), va)
  {
    SameIndices();
    HwIsDeliver(SV39, FORMAT, mem', tab', r, va);
    assert ViewAt(FORMAT, mem', r, va) == a(r, va);
  }

  lemma FrameSeen(l: nat, frame: nat, va: nat)
    requires l <= TOP && frame < 0x100_0000_0000_0000
    ensures var base := frame / 0x1000 * 0x1000;
            Deliver(SV39, View(l, New(frame / 0x1000, ADUVRWX)), va) ==
            if base % Pow2(BitsLeft(l)) == 0 then Some(base + va % Pow2(BitsLeft(l))) else None
    ensures !IsPteTable(New(frame / 0x1000, ADUVRWX))
  {
    WrittenEntries(frame / 0x1000);
    HardwareAgrees(New(frame / 0x1000, ADUVRWX));
    PageSeen(l, New(frame / 0x1000, ADUVRWX), frame / 0x1000, va);
  }

  lemma PageSeen(l: nat, v: Word, page: nat, va: nat)
    requires l <= TOP && Decode(v) == Page(page)
    ensures var base := page * 0x1000;
            Deliver(SV39, View(l, v), va) ==
            if base % Pow2(BitsLeft(l)) == 0 then Some(base + va % Pow2(BitsLeft(l))) else None
  {
    SpanIsPow2(l);
  }

  /** Mapping a frame at a private address: the aligned range of the slot's size around
      it translates to the frame's page if that is aligned to the size and faults if not;
      nothing else changes in any space. */
  lemma MapFrameTranslates(k: nat, mem: Memory, tab: Labels, r0: nat, vptr: nat, frame: nat, r: nat, va: nat)
    requires Inv(k, mem, tab) && IsRoot(tab, r0) && r0 != k && IsRoot(tab, r)
    requires ViewAt(FORMAT, mem, k, vptr).level == TOP && Canonical(vptr) && Canonical(va)
    requires frame < 0x100_0000_0000_0000
    ensures var bits, base := BitsLeft(StopOf(mem, r0, vptr).level), frame / 0x1000 * 0x1000;
            Translate(MapFrame(mem, r0, frame, vptr), r, va) ==
            if r == r0 && va / Pow2(bits) == vptr / Pow2(bits)
            then (if base % Pow2(bits) == 0 then Some(base + va % Pow2(bits)) else None)
            else Translate(mem, r, va)
  {
    var l, v := StopOf(mem, r0, vptr).level, New(frame / 0x1000, ADUVRWX);
    FrameSeen(l, frame, va);
    LeafSeen(k, mem, tab, r0, vptr, v, r, va);
    AgreeIsRange(va, vptr, l);
    SpanIsPow2(l);
  }

  lemma LeafSeen(k: nat, mem: Memory, tab: Labels, r0: nat, vptr: nat, v: Word, r: nat, va: nat)
    requires Inv(k, mem, tab) && IsRoot(tab, r0) && r0 != k && IsRoot(tab, r)
    requires ViewAt(FORMAT, mem, k, vptr).level == TOP && !IsPteTable(v)
    ensures var w := StopOf(mem, r0, vptr);
            HwWalk(SV39, Store(mem, w.slot, v), r, TOP, va) ==
            if r == r0 && Agree(FORMAT, va, vptr, w.level) then Deliver(SV39, View(w.level, v), va)
            else HwWalk(SV39, mem, r, TOP, va)
  {
    LeafStep(k, mem, tab, Views(mem), r0, vptr, v);
    SeenAfter(k, mem, tab, Views(mem), r, va);
    SeenAfter(k, Store(mem, StopOf(mem, r0, vptr).slot, v), tab, FlatStore(Views(mem), r0, vptr, v), r, va);
  }

  /** Entering a fresh table above level 0: its aligned range faults, nothing else changes
      in any space. */
  lemma MapTableTranslates(k: nat, mem: Memory, tab: Labels, r0: nat, vptr: nat, pt: nat, r: nat, va: nat)
    requires Inv(k, mem, tab) && IsRoot(tab, r0) && r0 != k && IsRoot(tab, r)
    requires ViewAt(FORMAT, mem, k, vptr).level == TOP && Canonical(vptr) && Canonical(va)
    requires StopOf(mem, r0, vptr).level > 0 && pt / 0x1000 < PPN_LIMIT && Fresh(mem, tab, pt / 0x1000)
    ensures var bits := BitsLeft(StopOf(mem, r0, vptr).level);
            Translate(MapPt(mem, r0, pt, vptr), r, va) ==
            if r == r0 && va / Pow2(bits) == vptr / Pow2(bits) then None else Translate(mem, r, va)
  {
    var l, z := StopOf(mem, r0, vptr).level, pt / 0x1000;
    TableSeen(k, mem, tab, r0, vptr, z, r, va);
    AgreeIsRange(va, vptr, l);
    SpanIsPow2(l);
  }

  lemma TableSeen(k: nat, mem: Memory, tab: Labels, r0: nat, vptr: nat, z: nat, r: nat, va: nat)
    requires Inv(k, mem, tab) && IsRoot(tab, r0) && r0 != k && IsRoot(tab, r)
    requires ViewAt(FORMAT, mem, k, vptr).level == TOP && StopOf(mem, r0, vptr).level > 0
    requires z < PPN_LIMIT && Fresh(mem, tab, z)
    ensures var w := StopOf(mem, r0, vptr);
            HwWalk(SV39, Store(mem, w.slot, New(z, V)), r, TOP, va) ==
            if r == r0 && Agree(FORMAT, va, vptr, w.level) then None else HwWalk(SV39, mem, r, TOP, va)
  {
    var w := StopOf(mem, r0, vptr);
    var mem', tab' := Store(mem, w.slot, New(z, V)), tab[z := Own(r0, Path(FORMAT, vptr, w.level - 1))];
    TableStep(k, mem, tab, Views(mem), r0, vptr, z);
    SplitSeen(k, mem, mem', tab, tab', r0, vptr, r, va);
  }

  lemma SplitSeen(k: nat, mem: Memory, mem': Memory, tab: Labels, tab': Labels, r0: nat, vptr: nat, r: nat, va: nat)
    requires Inv(k, mem, tab) && Inv(k, mem', tab') && IsRoot(tab, r) && IsRoot(tab', r)
    requires ViewAt(FORMAT, mem, r0, vptr).level > 0 && Refines(mem', tab', FlatSplit(Views(mem), r0, vptr))
    ensures HwWalk(SV39, mem', r, TOP, va) ==
            if r == r0 && Agree(FORMAT, va, vptr, ViewAt(FORMAT, mem, r0, vptr).level) then None
            else HwWalk(SV39, mem, r, TOP, va)
  {
    SeenAfter(k, mem, tab, Views(mem), r, va);
    var a := FlatSplit(Views(mem), r0, vptr);
    SeenAfter(k, mem', tab', a, r, va);
    SplitDelivers(Views(mem), a, r0, vptr, r, va);
  }

  lemma SplitDelivers(a: Flat, b: Flat, r0: nat, vptr: nat, r: nat, va: nat)
    requires a(r0, vptr).level > 0 && b == FlatSplit(a, r0, vptr)
    ensures Deliver(SV39, b(r, va), va) ==
            if r == r0 && Agree(FORMAT, va, vptr, a(r0, vptr).level) then None else Deliver(SV39, a(r, va), va)
  {
    assert Decode(0) == Faulting;
  }

  /** The entry of a mapped frame lets users read, write and execute it; the entry of a
      table carries no permission. Neither is global. */
  lemma MappedEntries(mem: Memory, r: nat, vptr: nat, frame: nat, pt: nat)
    requires StopOf(mem, r, vptr).slot < |mem|
    ensures var s := StopOf(mem, r, vptr).slot;
            PermsOf(MapFrame(mem, r, frame, vptr)[s]) == Perms(true, true, true, true, true, false, true, true) &&
            PermsOf(MapPt(mem, r, pt, vptr)[s]) == Perms(true, false, false, false, false, false, false, false)
  {
    MappedPerms(frame / 0x1000, 0);
    MappedPerms(pt / 0x1000, 0);
  }

  // ----- copyGlobalMappings

  /** A fresh root translates addresses from 0x8000_0000 on as the kernel's does, and none
      below. */
  lemma NewRootTranslates(k: nat, mem: Memory, tab: Labels, z: nat, va: nat)
    requires Inv(k, mem, tab) && Fresh(mem, tab, z)
    ensures Translate(CopyGlobal(mem, k, z), z, va) == if va < 0x8000_0000 then None else Translate(mem, k, va)
  {
    if Canonical(va) {
      var mem', tab' := CopyGlobal(mem, k, z), tab[z := Own(z, [])];
      InvAfterRoot(k, mem, tab, z);
      NewRootView(k, mem, tab, z, va);
      SameIndices();
      HwIsDeliver(SV39, FORMAT, mem, tab, k, va);
      HwIsDeliver(SV39, FORMAT, mem', tab', z, va);
      UpperRoot(va);
    }
  }

  lemma UpperRoot(va: nat)
    requires Canonical(va)
    ensures PtIndex(va, TOP) < 2 <==> va < 0x8000_0000
  {
  }

  // ----- unmap_page_table

  /** It looks at one entry per level above 0: a table ends it, an entry that names page
      `z` is zeroed, and from any other it goes on where its page number points. */
  lemma UnmapTableByLevel(mem: Memory, r: nat, va: nat, z: nat)
    requires PageInside(mem, r)
    ensures var s := 512 * r + va / 0x4000_0000 % 512;
            var t := 512 * GetPpn(mem[s]) + va / 0x20_0000 % 512;
            UnmapTable(mem, r, va, z) ==
            if IsPteTable(mem[s]) then mem
            else if GetPpn(mem[s]) == z then mem[s := 0]
            else if t < |mem| && !IsPteTable(mem[t]) && GetPpn(mem[t]) == z then mem[t := 0]
            else mem
  {
    var s := Slot(FORMAT, r, va, 2);
    assert s == 512 * r + va / 0x4000_0000 % 512;
    var p := GetPpn(mem[s]);
    var t := Slot(FORMAT, p, va, 1);
    assert t == 512 * p + va / 0x20_0000 % 512;
    assert t < |mem| ==> TakenForParent(mem, GetPpn(mem[t]), 0, va, z) == None;
    assert TakenForParent(mem, p, 1, va, z) ==
           if t < |mem| && !IsPteTable(mem[t]) && GetPpn(mem[t]) == z then Some(t) else None;
  }
}
