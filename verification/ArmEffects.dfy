/** What the AArch64 unmapping and mapping of a page change, said in addresses: which
    translations an address space has after it, from those it had before. */
module ArmEffects {
  import opened Words
  import opened Options
  import opened PageTables
  import opened PageTableUpdates
  import opened VirtualAddresses
  import opened Hardware
  import opened BootMappings
  import opened ArmPte
  import opened ArmWalk
  import opened ArmSpaces
  import opened ArmTheorems

  /** An entry of the given size maps `va`, and to the frame. */
  predicate MapsFrame(mem: Memory, r: nat, va: nat, bits: nat, frame: nat) {
    BitsLeft(StopOf(mem, r, va).level) == bits && Translate(mem, r, va) == Some(frame + va % Pow2(bits))
  }

  /** A page, or a block with bit 58 clear and no address bits below its size. */
  predicate Plain(l: nat, w: Word) {
    l == 0 || (w / SOFT_4K % 2 == 0 && AddrField(w) % Span(l) == 0)
  }

  /** What the kernel writes is plain. */
  lemma WrittenPlain(l: nat, x: Fields, addr: Word)
    requires l == 1 || l == 2
    requires AddrField(addr) % Span(l) == 0
    ensures Plain(l, NewBlock(x, addr)) && Plain(0, New4kPage(x, addr))
  {
    BlockWord(x, addr);
  }

  // ----- what the walk finds

  lemma BaseIsAddress(l: nat, w: Word)
    requires l == 1 || l == 2
    ensures BlockBase(l, w) % Span(l) == 0
    ensures BlockBase(l, w) <= AddrField(w) < BlockBase(l, w) + Span(l)
  {
    if l == 1 {
      Rounded(w / 0x1000, w / 0x20_0000, 0x200, 0x800_0000);
      Multiple(BlockBase(1, w), 0x20_0000, w / 0x20_0000 % 0x800_0000);
    } else {
      Rounded(w / 0x1000, w / 0x4000_0000, 0x4_0000, 0x4_0000);
      Multiple(BlockBase(2, w), 0x4000_0000, w / 0x4000_0000 % 0x4_0000);
    }
  }

  /** Dropping low bits of a page number before or after the high ones. */
  lemma Rounded(p: nat, c: nat, m: nat, n: nat)
    requires m > 0 && n > 0 && m * n == 0x10_0000_0000 && c == p / m
    ensures c % n * m <= p % 0x10_0000_0000 < c % n * m + m
  {
    var t, u, v := p % m, c / n, c % n;
    assert p == c * m + t by { assert p == m * c + t; }
    assert c == u * n + v by { assert c == n * u + v; }
    Distribute(u * n, v, m);
    assert u * n * m == u * 0x10_0000_0000 by { assert u * n * m == u * (m * n); }
    MulDistributes(n, v, m);
    MulAtLeast(n - v, m);
    DivModUnique(p, 0x10_0000_0000, u, v * m + t);
  }

  /** A leaf of a forest that is plain is a page to the kernel, with the address the
      processor uses; one that is not either has another type or another address. */
  lemma LeafFound(l: nat, w: Word)
    requires l <= TOP && Decode(l, w).Leaf? && (l == 0 ==> !IsTable(w))
    ensures l <= 2 && w != 0
    ensures Plain(l, w) <==> IsPage(w) && AddrField(w) == Decode(l, w).base
    ensures IsPage(w) && AddrField(w) % Span(l) == 0 ==> AddrField(w) == Decode(l, w).base
  {
    Parity(w);
    if l > 0 {
      BaseIsAddress(l, w);
      SameMultiple(BlockBase(l, w), AddrField(w), Span(l));
    }
  }

  lemma SameMultiple(b: nat, a: nat, n: nat)
    requires n > 0 && b % n == 0 && b <= a < b + n
    ensures a % n == 0 <==> a == b
  {
    var q := b / n;
    assert b == q * n by { assert b == n * q; }
    DivModUnique(a, n, q, a - b);
  }

  lemma StopLeaf(mem: Memory, tab: Labels, r: nat, va: nat) returns (l: nat, w: Word)
    requires Inv(mem, tab) && IsRoot(tab, r) && Translate(mem, r, va).Some?
    ensures var stop := StopOf(mem, r, va);
            stop.slot < |mem| && l == stop.level <= TOP && w == mem[stop.slot] && Decode(l, w).Leaf? &&
            (l == 0 ==> !IsTable(w)) && Translate(mem, r, va) == Some(Decode(l, w).base + va % Pow2(BitsLeft(l)))
  {
    var q := WalkEndsLabelled(FORMAT, mem, tab, r, va);
    var stop := StopOf(mem, r, va);
    l, w := stop.level, mem[stop.slot];
    SameIndices();
    HwIsDeliver(VMSA, FORMAT, mem, tab, r, va);
    DeliveredLeaf(l, w, va);
    LastIsNoTable(mem, tab, q, r, va, l);
  }

  lemma DeliveredLeaf(l: nat, w: Word, va: nat)
    requires l <= TOP && Deliver(VMSA, View(l, w), va).Some?
    ensures Decode(l, w).Leaf? && Deliver(VMSA, View(l, w), va) == Some(Decode(l, w).base + va % Pow2(BitsLeft(l)))
  {
    SpanIsPow2(l);
  }

  lemma LastIsNoTable(mem: Memory, tab: Labels, q: nat, r: nat, va: nat, l: nat)
    requires Inv(mem, tab) && OnPath(FORMAT, tab, q, r, l, va) && l <= TOP
    ensures Slot(FORMAT, q, va, l) < |mem| && (l == 0 ==> !IsTable(mem[Slot(FORMAT, q, va, l)]))
  {
    assert EntryOk(FORMAT, mem, tab, q, FORMAT.index(va, l));
  }

  // ----- unmap_page

  /** Of an address that translates, `unmap_page` for an aligned frame zeroes the slot
      exactly when the entry has the caller's size, maps the address to that frame and is
      plain; else memory stays as it is. */
  lemma UnmapDecides(mem: Memory, tab: Labels, bits: nat, r: nat, va: nat, frame: nat)
    requires Inv(mem, tab) && IsRoot(tab, r) && Translate(mem, r, va).Some? && frame % Pow2(bits) == 0
    ensures var stop := StopOf(mem, r, va);
            stop.slot < |mem| && mem[stop.slot] != 0 &&
            Unmap(mem, bits, r, va, frame) ==
            if MapsFrame(mem, r, va, bits, frame) && Plain(stop.level, mem[stop.slot]) then mem[stop.slot := 0] else mem
  {
    var l, w := StopLeaf(mem, tab, r, va);
    LeafFound(l, w);
    SpanIsPow2(l);
    UnmapLeaf(mem, bits, r, va, frame, l, w);
  }

  lemma UnmapLeaf(mem: Memory, bits: nat, r: nat, va: nat, frame: nat, l: nat, w: Word)
    requires var stop := StopOf(mem, r, va); stop.slot < |mem| && l == stop.level && w == mem[stop.slot]
    requires Decode(l, w).Leaf? && Translate(mem, r, va) == Some(Decode(l, w).base + va % Pow2(BitsLeft(l)))
    requires Plain(l, w) <==> IsPage(w) && AddrField(w) == Decode(l, w).base
    requires IsPage(w) && BitsLeft(l) == bits && AddrField(w) == frame ==> AddrField(w) == Decode(l, w).base
    ensures Unmap(mem, bits, r, va, frame) ==
            if MapsFrame(mem, r, va, bits, frame) && Plain(l, w) then mem[StopOf(mem, r, va).slot := 0] else mem
  {
  }

  /** Of an address mapped by a plain entry at that size to that frame, exactly the aligned
      2^bits bytes around it fault afterwards, in that space only. */
  lemma UnmapMapped(mem: Memory, tab: Labels, bits: nat, r0: nat, vptr: nat, frame: nat, r: nat, va: nat)
    requires Inv(mem, tab) && IsRoot(tab, r0) && IsRoot(tab, r) && vptr < TOP_BITS && va < TOP_BITS
    requires MapsFrame(mem, r0, vptr, bits, frame)
    requires var stop := StopOf(mem, r0, vptr); stop.slot < |mem| && Plain(stop.level, mem[stop.slot])
    ensures Translate(Unmap(mem, bits, r0, vptr, frame), r, va) ==
            if r == r0 && va / Pow2(bits) == vptr / Pow2(bits) then None else Translate(mem, r, va)
  {
    var l, w := StopLeaf(mem, tab, r0, vptr);
    LeafFound(l, w);
    UnmapExact(mem, tab, bits, r0, vptr, frame, r, va);
  }

  /** In any memory: only an entry with bits 58, 1 and 0 equal to 111 or 001 is zeroed, of
      the caller's size and with the caller's address in bits 47 to 12. */
  lemma UnmapByBits(mem: Memory, bits: nat, r: nat, va: nat, frame: nat)
    requires StopOf(mem, r, va).slot < |mem|
    ensures var stop := StopOf(mem, r, va);
            var e := mem[stop.slot];
            Unmap(mem, bits, r, va, frame) ==
            if BitsLeft(stop.level) == bits && e / 0x1000 % 0x10_0000_0000 * 0x1000 == frame &&
               ((e % 4 == 3 && e / 0x400_0000_0000_0000 % 2 == 1) || (e % 4 == 1 && e / 0x400_0000_0000_0000 % 2 == 0))
            then mem[stop.slot := 0] else mem
  {
  }

  // ----- map_it_frame_cap

  /** Mapping a frame through a page table on the walk of `va`: that page translates to the
      frame, and nothing else changes in any space. */
  lemma MapFrameTranslates(mem: Memory, tab: Labels, r0: nat, va: nat, q: nat, frame: Word, exec: bool, smp: bool,
      r: nat, vb: nat)
    requires Inv(mem, tab) && IsRoot(tab, r0) && IsRoot(tab, r) && Uses(FORMAT, mem, r0, TOP, va, q, 0)
    requires va < TOP_BITS && vb < TOP_BITS && frame % 0x1000 == 0 && frame < TOP_BITS
    ensures Translate(MapFrame(mem, r0, frame, va, exec, smp), r, vb) ==
            if r == r0 && vb / 0x1000 == va / 0x1000 then Some(frame + vb % 0x1000) else Translate(mem, r, vb)
  {
    var v := FrameStored(mem, tab, r0, va, q, frame, exec, smp);
    SamePageAgrees(va, vb);
    PageStored(mem, tab, r0, va, q, v, r, vb);
  }

  lemma FrameStored(mem: Memory, tab: Labels, r0: nat, va: nat, q: nat, frame: Word, exec: bool, smp: bool)
    returns (v: Word)
    requires Inv(mem, tab) && IsRoot(tab, r0) && Uses(FORMAT, mem, r0, TOP, va, q, 0)
    requires frame % 0x1000 == 0 && frame < TOP_BITS
    ensures PageInside(mem, q) && MapFrame(mem, r0, frame, va, exec, smp) == mem[Slot(FORMAT, q, va, 0) := v]
    ensures OwnedSlot(FORMAT, mem, tab, r0, va, 0, q, Slot(FORMAT, q, va, 0))
    ensures Inv(mem[Slot(FORMAT, q, va, 0) := v], tab) && GetType(v) == PAGE_4K && AddrField(v) == frame
  {
    UsedOnPath(FORMAT, mem, tab, r0, r0, TOP, va, q, 0);
    FollowUsed(FORMAT, mem, r0, TOP, va, q, 0);
    FrameWord(frame, exec, smp);
    MapFrameInv(mem, tab, r0, va, q, frame, exec, smp);
    v := New4kPage(BootFields(exec, smp), frame);
  }

  lemma PageStored(mem: Memory, tab: Labels, r0: nat, va: nat, q: nat, v: Word, r: nat, vb: nat)
    requires Inv(mem, tab) && IsRoot(tab, r0) && IsRoot(tab, r) && GetType(v) == PAGE_4K
    requires OwnedSlot(FORMAT, mem, tab, r0, va, 0, q, Slot(FORMAT, q, va, 0)) && PageInside(mem, q)
    requires Inv(mem[Slot(FORMAT, q, va, 0) := v], tab)
    ensures HwWalk(VMSA, mem[Slot(FORMAT, q, va, 0) := v], r, TOP, vb) ==
            if r == r0 && Agree(FORMAT, vb, va, 0) then Some(AddrField(v) + vb % 0x1000)
            else HwWalk(VMSA, mem, r, TOP, vb)
  {
    SeenFrame(v, vb);
    SameIndices();
    StoreLeafSeen(VMSA, FORMAT, mem, tab, r0, va, 0, q, Slot(FORMAT, q, va, 0), v, r, vb);
  }

  /** A frame mapped so is writable by users, not global, with memory type 0, and
      executable as asked. */
  lemma MappedAttributes(mem: Memory, r: nat, frame: Word, va: nat, exec: bool, smp: bool)
    requires FindSlot(mem, r, va, 0) < |mem|
    ensures AttributesOf(MapFrame(mem, r, frame, va, exec, smp)[FindSlot(mem, r, va, 0)]) ==
            Attributes(0, true, false, if smp then 3 else 0, true, true, !exec)
  {
    BootAttributes(frame, exec, smp);
    EnteredWord(mem, r, va, New4kPage(BootFields(exec, smp), frame));
  }

  lemma EnteredWord(mem: Memory, r: nat, va: nat, v: Word)
    requires FindSlot(mem, r, va, 0) < |mem|
    ensures |Enter(FORMAT, mem, r, va, 0, v)| == |mem| && Enter(FORMAT, mem, r, va, 0, v)[FindSlot(mem, r, va, 0)] == v
  {
  }
}
