/** VMSAv8-64 stage 1 translation with 4 KiB pages and 48-bit addresses (section
    D8.3 of Arm DDI 0487) against the walk the kernel makes over the same tables. */
module ArmWalk {
  import opened Words
  import opened Options
  import opened PageTables
  import opened PageTableUpdates
  import opened VirtualAddresses
  import opened Hardware
  import opened ArmPte

  const TOP: nat := 3

  const FORMAT: Format := Format(TOP, PtIndex, IsTable, GetPage)

  const VMSA: Scheme := Scheme(VpnField, Offset, Decode)

  /** Bit 0 clear is invalid. Bits 1:0 = 01 are a block at levels 2 and 1 and
      reserved elsewhere; 11 are a page at level 0 and a table above. Output
      address bits below the block size play no part. Levels count down to 0, the
      reverse of the architecture's. */
  function Decode(l: nat, w: Word): HwEntry {
    if w % 2 == 0 then Fault
    else if w % 4 == 1 then if l == 1 || l == 2 then Leaf(BlockBase(l, w)) else Fault
    else if l == 0 then Leaf(AddrField(w))
    else Pointer(GetPage(w))
  }

  /** Bits 47 to 21 or 47 to 30. */
  function BlockBase(l: nat, w: Word): nat {
    if l == 1 then w / 0x20_0000 % 0x800_0000 * 0x20_0000 else w / 0x4000_0000 % 0x4_0000 * 0x4000_0000
  }

  /** Translation of a user address through TTBR0. */
  function Translate(mem: Memory, root: nat, va: nat): Option<nat> {
    if va < TOP_BITS then HwWalk(VMSA, mem, root, TOP, va) else None
  }

  lemma SameIndices()
    ensures SameIndex(VMSA, FORMAT)
  {
    forall va: nat, l: nat | l <= TOP
      ensures VMSA.index(va, l) == FORMAT.index(va, l)
    {
      PtIndexIs(va, l);
    }
  }

  /** Only a word with bits 1:0 = 11 that is no table to the kernel, a 4K page, is
      misread by the hardware, and only above level 0. */
  lemma CleanIs(l: nat, w: Word)
    ensures CleanWord(VMSA, FORMAT, l, w) <==> l == 0 || w % 4 != 3 || IsTable(w)
    ensures IsTable(w) ==> w % 4 == 3
  {
    TypeBits(w);
    PointerBits(l, w);
  }

  lemma PointerBits(l: nat, w: Word)
    ensures Decode(l, w).Pointer? <==> l > 0 && w % 4 == 3
    ensures Decode(l, w).Pointer? ==> Decode(l, w).page == GetPage(w)
  {
    Parity(w);
  }

  lemma TypeBits(w: Word)
    ensures IsTable(w) ==> w % 4 == 3
    ensures w % 4 == 3 ==> w % 2 == 1
  {
  }

  lemma TypesDecode(l: nat, w: Word)
    ensures IsTable(w) && l > 0 ==> Decode(l, w) == Pointer(GetPage(w))
    ensures GetType(w) == PAGE_4K ==> Decode(0, w) == Leaf(AddrField(w))
    ensures w % 2 == 0 ==> Decode(l, w) == Fault && !IsTable(w) && !IsPage(w)
  {
  }

  /** User addresses reach the same entry at level `l` exactly when they lie in the
      same aligned range of Span(l) bytes. */
  lemma AgreeIsRange(va: nat, vb: nat, l: nat)
    requires l <= TOP && va < TOP_BITS && vb < TOP_BITS
    ensures Agree(FORMAT, va, vb, l) <==> va / Span(l) == vb / Span(l)
  {
    AgreeIsSameRange(FORMAT, va, vb, l);
  }

  lemma WalkPointer(mem: Memory, p: nat, l: nat, va: nat, q: nat)
    requires 0 < l <= TOP && q < 0x10_0000_0000
    requires PageInside(mem, p) && mem[512 * p + PtIndex(va, l)] == NewTable(0x1000 * q)
    ensures HwWalk(VMSA, mem, p, l, va) == HwWalk(VMSA, mem, q, l - 1, va)
  {
    TableWord(0x1000 * q);
    assert GetPage(0x1000 * q) == q;
    TypesDecode(l, NewTable(0x1000 * q));
    PtIndexIs(va, l);
    PointerHere(VMSA, mem, p, l, va, q);
  }

  lemma BlockDecodes(x: Fields, addr: Word)
    requires addr % 0x20_0000 == 0 && addr < TOP_BITS
    ensures Decode(1, NewBlock(x, addr)) == Leaf(addr)
  {
    BlockWord(x, addr);
    WholeAddress(addr);
    BlockAddress(NewBlock(x, addr), x.uxn % 2 * 0x40, addr / 0x20_0000, LowFields(x) + 1);
    DecodeBlock(NewBlock(x, addr));
  }

  lemma WholeAddress(addr: Word)
    requires addr % 0x20_0000 == 0 && addr < TOP_BITS
    ensures AddrField(addr) == addr && addr == addr / 0x20_0000 * 0x20_0000
  {
    DivModUnique(addr, 0x1000, addr / 0x20_0000 * 0x200, 0);
  }

  lemma DecodeBlock(w: Word)
    requires w % 4 == 1
    ensures Decode(1, w) == Leaf(w / 0x20_0000 % 0x800_0000 * 0x20_0000)
  {
    assert w % 2 == 1;
  }

  lemma BlockAddress(w: nat, hi: nat, q: nat, low: nat)
    requires q < 0x800_0000 && low < 0x20_0000
    requires w == hi * 0x1_0000_0000_0000 + q * 0x20_0000 + low
    ensures w / 0x20_0000 % 0x800_0000 == q
  {
    DivModUnique(w, 0x20_0000, hi * 0x800_0000 + q, low);
    DivModUnique(hi * 0x800_0000 + q, 0x800_0000, hi, q);
  }

  lemma WalkBlock(mem: Memory, p: nat, va: nat, x: Fields, addr: Word)
    requires addr % 0x20_0000 == 0 && addr < TOP_BITS
    requires PageInside(mem, p) && mem[512 * p + PtIndex(va, 1)] == NewBlock(x, addr)
    ensures HwWalk(VMSA, mem, p, 1, va) == Some(addr + va % 0x20_0000)
  {
    BlockDecodes(x, addr);
    PtIndexIs(va, 1);
    LeafHere(VMSA, mem, p, 1, va, addr);
  }
}
