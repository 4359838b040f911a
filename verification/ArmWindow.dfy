/** The AArch64 kernel window: the loops that build it and the linear map the
    hardware then sees. */
module ArmWindow {
  import opened Words
  import opened Options
  import opened PageTables
  import opened PageTableUpdates
  import opened VirtualAddresses
  import opened Hardware
  import opened ArmPte
  import opened ArmWalk
  import opened ArmSpaces

  const MEGA: nat := 0x20_0000
  const GIB: nat := 0x4000_0000
  const REGION: nat := 0x80_0000_0000

  /** A page number below which 512 more fit a 48-bit address. */
  type Page = p: nat | p < 0xf_ffff_fe00

  /** The platform's layout; the kernel's tables are pages of physical memory, the 512
      page directories one after the other. */
  datatype Layout = Layout(
    pptrBase: nat, pptrTop: nat, paddrBase: nat, paddrTop: nat,
    pgdPage: Page, pudPage: Page, pdsPage: Page, ptPage: Page, smp: bool, hypervisor: bool)
  {
    predicate Ok() {
      pptrBase % MEGA == 0 && paddrBase % MEGA == 0 && pptrTop % GIB == 0 &&
      RangeBase() <= pptrBase < pptrTop < RangeBase() + TOP_BITS && pptrBase / REGION == pptrTop / REGION &&
      paddrBase <= paddrTop <= TOP_BITS && paddrTop - paddrBase <= pptrTop - pptrBase && Separate()
    }

    /** The 2^48 addresses the kernel's root translates: the upper ones through TTBR1, or
        the lower ones through TTBR0 of the hypervisor's own regime. */
    function RangeBase(): nat { if hypervisor then 0 else 0xffff_0000_0000_0000 }

    predicate Separate() {
      pgdPage != pudPage && !(pdsPage <= pgdPage < pdsPage + 512) && !(pdsPage <= pudPage < pdsPage + 512)
    }

    predicate Inside(mem: Memory) {
      PageInside(mem, pgdPage) && PageInside(mem, pudPage) && PageInside(mem, pdsPage + 511)
    }

    function Shift(): int { pptrBase - paddrBase }
    function End(): int { paddrTop + Shift() }

    function BlockFields(): Fields {
      Fields(if hypervisor then 0 else 1, 0, 1, Shareable(smp), 0, NORMAL)
    }

    /** The address that entry `i` of directory `j` translates. */
    function AddressOf(j: nat, i: nat): nat {
      pptrBase / REGION * REGION + j * GIB + i * MEGA
    }

    function PgdIndex(): Entry { PtIndex(pptrBase, 3) }
    function FirstPud(): Entry { PtIndex(pptrBase, 2) }
    function TopPud(): Entry { PtIndex(pptrTop, 2) }
  }

  // ----- what the tables hold

  function PgdEntry(c: Layout, w: Word, i: Entry): Word {
    if i == c.PgdIndex() then NewTable(0x1000 * c.pudPage) else w
  }

  /** The upper directory filled up to index `n`. */
  function PudEntry(c: Layout, n: nat, w: Word, i: Entry): Word {
    if c.FirstPud() <= i < n then NewTable(0x1000 * (c.pdsPage + i)) else w
  }

  /** The page directories filled up to address `bound`. */
  function PdEntry(c: Layout, bound: int, w: Word, j: nat, i: Entry): Word {
    var va := c.AddressOf(j, i);
    if c.pptrBase <= va < bound then NewBlock(c.BlockFields(), (va - c.Shift()) % WORD_LIMIT) else w
  }

  predicate IsPd(c: Layout, p: nat) {
    c.pdsPage <= p < c.pdsPage + 512
  }

  /** Word `i` of page `p`, once `w`, after the loops and the two later directory
      writes. */
  function BuiltWord(c: Layout, p: nat, i: Entry, w: Word): Word {
    if p == c.pgdPage then PgdEntry(c, w, i)
    else if p == c.pudPage then
      if i == c.TopPud() then NewTable(0x1000 * (c.pdsPage + 511)) else PudEntry(c, c.TopPud(), w, i)
    else if IsPd(c, p) then
      if p == c.pdsPage + 511 && i == 511 then NewTable(0x1000 * c.ptPage) else PdEntry(c, c.End(), w, p - c.pdsPage, i)
    else w
  }

  ghost predicate Built(c: Layout, mem: Memory, mem': Memory) {
    |mem'| == |mem| && forall s :: 0 <= s < |mem| ==> mem'[s] == BuiltWord(c, s / 512, s % 512, mem[s])
  }

  // ----- the loops

  function PudWord(c: Layout, n: nat, p: nat, i: Entry, w: Word): Word {
    if p == c.pudPage then PudEntry(c, n, w, i) else w
  }

  ghost predicate PudFilled(c: Layout, n: nat, mem: Memory, mem': Memory) {
    |mem'| == |mem| && forall s :: 0 <= s < |mem| ==> mem'[s] == PudWord(c, n, s / 512, s % 512, mem[s])
  }

  function PdWord(c: Layout, bound: int, p: nat, i: Entry, w: Word): Word {
    if IsPd(c, p) then PdEntry(c, bound, w, p - c.pdsPage, i) else w
  }

  /** Memory with the page directories filled up to `bound`. */
  ghost predicate PdFilled(c: Layout, bound: int, mem: Memory, mem': Memory) {
    |mem'| == |mem| && forall s :: 0 <= s < |mem| ==> mem'[s] == PdWord(c, bound, s / 512, s % 512, mem[s])
  }

  lemma SlotParts(p: nat, i: Entry)
    ensures (512 * p + i) / 512 == p && (512 * p + i) % 512 == i
  {
  }

  /** The window starts no higher than the directory of its top. */
  lemma PudOrder(c: Layout)
    requires c.Ok()
    ensures c.FirstPud() <= c.TopPud()
  {
    var r := c.pptrBase / REGION;
    assert c.pptrBase / GIB == r * 512 + c.FirstPud() && c.pptrTop / GIB == r * 512 + c.TopPud();
  }

  method MapPud(c: Layout, words: array<Word>)
    requires c.FirstPud() <= c.TopPud() && PageInside(words[..], c.pudPage)
    modifies words
    ensures PudFilled(c, c.TopPud(), old(words[..]), words[..])
  {
    ghost var mem := words[..];
    var idx: nat := c.FirstPud();
    while idx < c.TopPud()
      invariant c.FirstPud() <= idx <= c.TopPud() && PudFilled(c, idx, mem, words[..])
    {
      SlotParts(c.pudPage, idx);
      words[512 * c.pudPage + idx] := NewTable(0x1000 * (c.pdsPage + idx));
      idx := idx + 1;
    }
  }

  // addresses of directory entries

  lemma IndicesOf(c: Layout, va: nat)
    requires va / REGION == c.pptrBase / REGION
    ensures c.AddressOf(PtIndex(va, 2), PtIndex(va, 1)) == va / MEGA * MEGA
    ensures PtIndex(va, 3) == c.PgdIndex()
  {
    var r := va / REGION;
    assert va / GIB == r * 512 + PtIndex(va, 2);
    assert va / MEGA == va / GIB * 512 + PtIndex(va, 1);
  }

  lemma AddressesDiffer(c: Layout, j: nat, i: Entry, k: nat, m: Entry)
    requires c.AddressOf(j, i) == c.AddressOf(k, m)
    ensures j == k && i == m
  {
  }

  lemma AddressAligned(c: Layout, j: nat, i: nat)
    ensures c.AddressOf(j, i) % MEGA == 0
  {
  }

  lemma AlignedBelow(va: nat, v: nat, b: int)
    requires va % MEGA == 0 && v % MEGA == 0 && b <= v < b + MEGA
    ensures va < v <==> va < b
  {
    var x, y := va / MEGA, v / MEGA;
    assert va == x * MEGA && v == y * MEGA;
  }

  lemma Aligned(va: nat)
    requires va % MEGA == 0
    ensures va / MEGA * MEGA == va
  {
  }

  /** One more block, entry `k` of directory `j`, extends the bound by 2 MiB. */
  lemma PdStep(c: Layout, vaddr: nat, j: nat, k: Entry, p: nat, i: Entry, w: Word)
    requires vaddr % MEGA == 0 && c.pptrBase <= vaddr && c.AddressOf(j, k) == vaddr && j < 512
    ensures PdWord(c, vaddr + MEGA, p, i, w) ==
            if p == c.pdsPage + j && i == k then NewBlock(c.BlockFields(), (vaddr - c.Shift()) % WORD_LIMIT)
            else PdWord(c, vaddr, p, i, w)
  {
    if IsPd(c, p) {
      var n: nat := p - c.pdsPage;
      AddressAligned(c, n, i);
      PdEntryStep(c, vaddr, w, n, i);
      if c.AddressOf(n, i) == vaddr {
        AddressesDiffer(c, n, i, j, k);
      }
    }
  }

  lemma PdEntryStep(c: Layout, vaddr: nat, w: Word, n: nat, i: Entry)
    requires vaddr % MEGA == 0 && c.pptrBase <= vaddr && c.AddressOf(n, i) % MEGA == 0
    ensures PdEntry(c, vaddr + MEGA, w, n, i) ==
            if c.AddressOf(n, i) == vaddr then NewBlock(c.BlockFields(), (vaddr - c.Shift()) % WORD_LIMIT)
            else PdEntry(c, vaddr, w, n, i)
  {
    NextAligned(vaddr);
    AlignedBelow(c.AddressOf(n, i), vaddr + MEGA, vaddr + 1);
  }

  lemma NextAligned(v: nat)
    requires v % MEGA == 0
    ensures (v + MEGA) % MEGA == 0
  {
  }

  lemma PdFilledStep(c: Layout, vaddr: nat, j: nat, k: Entry, mem: Memory, m: Memory)
    requires vaddr % MEGA == 0 && c.pptrBase <= vaddr && c.AddressOf(j, k) == vaddr && j < 512
    requires PageInside(mem, c.pdsPage + 511) && PdFilled(c, vaddr, mem, m)
    ensures var s := 512 * (c.pdsPage + j) + k;
            PdFilled(c, vaddr + MEGA, mem, m[s := NewBlock(c.BlockFields(), (vaddr - c.Shift()) % WORD_LIMIT)])
  {
    var q := c.pdsPage + j;
    var m' := m[512 * q + k := NewBlock(c.BlockFields(), (vaddr - c.Shift()) % WORD_LIMIT)];
    SlotParts(q, k);
    forall s | 0 <= s < |mem|
      ensures m'[s] == PdWord(c, vaddr + MEGA, s / 512, s % 512, mem[s])
    {
      PdStep(c, vaddr, j, k, s / 512, s % 512, mem[s]);
    }
  }

  lemma PdFilledEnd(c: Layout, vaddr: nat, end: int, mem: Memory, m: Memory)
    requires vaddr % MEGA == 0 && end <= vaddr < end + MEGA && PdFilled(c, vaddr, mem, m)
    ensures PdFilled(c, end, mem, m)
  {
    forall s | 0 <= s < |mem|
      ensures m[s] == PdWord(c, end, s / 512, s % 512, mem[s])
    {
      if IsPd(c, s / 512) {
        AddressAligned(c, s / 512 - c.pdsPage, s % 512);
        AlignedBelow(c.AddressOf(s / 512 - c.pdsPage, s % 512), vaddr, end);
      }
    }
  }

  /** An aligned address below the window's end lies in the region, below its top. */
  lemma InRegion(c: Layout, va: nat)
    requires c.Ok() && c.pptrBase <= va < c.End()
    ensures va / REGION == c.pptrBase / REGION && c.FirstPud() <= PtIndex(va, 2) < c.TopPud() &&
            va < c.RangeBase() + TOP_BITS
  {
    assert va < c.pptrTop;
    GibOf(va);
    GibOf(c.pptrBase);
    GibOf(c.pptrTop);
  }

  lemma GibOf(va: nat)
    ensures va / GIB == va / REGION * 512 + PtIndex(va, 2)
  {
    var r, g := va / REGION, va % REGION / GIB;
    DivModUnique(va, GIB, r * 512 + g, va % REGION % GIB);
    DivModUnique(r * 512 + g, 512, r, g);
  }

  /** `set_kernel_page_directory_by_index` */
  method SetPd(c: Layout, words: array<Word>, j: Entry, k: Entry, pde: Word)
    requires PageInside(words[..], c.pdsPage + 511)
    modifies words
    ensures words[..] == old(words[..])[512 * (c.pdsPage + j) + k := pde]
  {
    words[512 * (c.pdsPage + j) + k] := pde;
  }

  method FillPd(c: Layout, words: array<Word>, j: Entry, k: Entry, vaddr: nat, paddr: Word, ghost mem: Memory)
    requires vaddr % MEGA == 0 && c.pptrBase <= vaddr && c.AddressOf(j, k) == vaddr && vaddr - c.Shift() == paddr
    requires PageInside(mem, c.pdsPage + 511) && PdFilled(c, vaddr, mem, words[..])
    modifies words
    ensures PdFilled(c, vaddr + MEGA, mem, words[..])
  {
    assert (vaddr - c.Shift()) % WORD_LIMIT == paddr;
    PdFilledStep(c, vaddr, j, k, mem, words[..]);
    SetPd(c, words, j, k, NewBlock(c.BlockFields(), paddr));
  }

  /** The direct map, one 2 MiB block at a time. */
  method MapPds(c: Layout, words: array<Word>)
    requires c.Ok() && PageInside(words[..], c.pdsPage + 511)
    modifies words
    ensures PdFilled(c, c.End(), old(words[..]), words[..])
  {
    ghost var mem := words[..];
    var vaddr, paddr := c.pptrBase, c.paddrBase;
    while paddr < c.paddrTop
      invariant vaddr == paddr + c.Shift() && vaddr % MEGA == 0 && c.paddrBase <= paddr && vaddr < c.End() + MEGA
      invariant PdFilled(c, vaddr, mem, words[..])
      decreases c.paddrTop - paddr
    {
      InRegion(c, vaddr);
      IndicesOf(c, vaddr);
      Aligned(vaddr);
      FillPd(c, words, PtIndex(vaddr, 2), PtIndex(vaddr, 1), vaddr, paddr, mem);
      NextAligned(vaddr);
      vaddr, paddr := vaddr + MEGA, paddr + MEGA;
    }
    PdFilledEnd(c, vaddr, c.End(), mem, words[..]);
  }

  /** `rust_map_kernel_window`, up to the device frames. */
  method MapKernelWindow(c: Layout, words: array<Word>)
    requires c.Ok() && c.Inside(words[..])
    modifies words
    ensures Built(c, old(words[..]), words[..])
  {
    ghost var m0 := words[..];
    words[512 * c.pgdPage + c.PgdIndex()] := NewTable(0x1000 * c.pudPage);
    ghost var m1 := words[..];
    PudOrder(c);
    MapPud(c, words);
    ghost var m2 := words[..];
    MapPds(c, words);
    ghost var m3 := words[..];
    words[512 * c.pudPage + c.TopPud()] := NewTable(0x1000 * (c.pdsPage + 511));
    ghost var m4 := words[..];
    words[512 * (c.pdsPage + 511) + 511] := NewTable(0x1000 * c.ptPage);
    Finished(c, m0, m1, m2, m3, m4, words[..]);
  }

  lemma Finished(c: Layout, m0: Memory, m1: Memory, m2: Memory, m3: Memory, m4: Memory, m5: Memory)
    requires c.Separate() && c.Inside(m0)
    requires m1 == m0[512 * c.pgdPage + c.PgdIndex() := NewTable(0x1000 * c.pudPage)]
    requires PudFilled(c, c.TopPud(), m1, m2) && PdFilled(c, c.End(), m2, m3)
    requires m4 == m3[512 * c.pudPage + c.TopPud() := NewTable(0x1000 * (c.pdsPage + 511))]
    requires m5 == m4[512 * (c.pdsPage + 511) + 511 := NewTable(0x1000 * c.ptPage)]
    ensures Built(c, m0, m5)
  {
    SlotParts(c.pgdPage, c.PgdIndex());
    SlotParts(c.pudPage, c.TopPud());
    SlotParts(c.pdsPage + 511, 511);
    forall s | 0 <= s < |m0|
      ensures m5[s] == BuiltWord(c, s / 512, s % 512, m0[s])
    {
      assert m2[s] == PudWord(c, c.TopPud(), s / 512, s % 512, m1[s]);
      assert m3[s] == PdWord(c, c.End(), s / 512, s % 512, m2[s]);
    }
  }

  // ----- the map

  /** Translation of a kernel address. */
  function KernelTranslate(c: Layout, mem: Memory, va: nat): Option<nat> {
    if c.RangeBase() <= va < c.RangeBase() + TOP_BITS then HwWalk(VMSA, mem, c.pgdPage, TOP, va) else None
  }

  lemma BuiltAt(c: Layout, mem: Memory, mem': Memory, p: nat, i: Entry)
    requires Built(c, mem, mem') && PageInside(mem, p)
    ensures mem'[512 * p + i] == BuiltWord(c, p, i, mem[512 * p + i])
  {
    SlotParts(p, i);
  }

  lemma ToPud(c: Layout, mem: Memory, mem': Memory, va: nat)
    requires c.Inside(mem) && Built(c, mem, mem') && PtIndex(va, 3) == c.PgdIndex()
    ensures HwWalk(VMSA, mem', c.pgdPage, 3, va) == HwWalk(VMSA, mem', c.pudPage, 2, va)
  {
    BuiltAt(c, mem, mem', c.pgdPage, c.PgdIndex());
    WalkPointer(mem', c.pgdPage, 3, va, c.pudPage);
  }

  lemma ToPd(c: Layout, mem: Memory, mem': Memory, va: nat, i: Entry)
    requires c.Separate() && c.Inside(mem) && Built(c, mem, mem') && PtIndex(va, 2) == i &&
             c.FirstPud() <= i < c.TopPud()
    ensures HwWalk(VMSA, mem', c.pudPage, 2, va) == HwWalk(VMSA, mem', c.pdsPage + i, 1, va)
  {
    BuiltAt(c, mem, mem', c.pudPage, i);
    WalkPointer(mem', c.pudPage, 2, va, c.pdsPage + i);
  }

  lemma PdBuilt(c: Layout, mem: Memory, mem': Memory, j: nat, k: Entry)
    requires c.Separate() && c.Inside(mem) && Built(c, mem, mem') && j < c.TopPud()
    ensures mem'[512 * (c.pdsPage + j) + k] == PdEntry(c, c.End(), mem[512 * (c.pdsPage + j) + k], j, k)
  {
    BuiltAt(c, mem, mem', c.pdsPage + j, k);
  }

  lemma BlockFor(c: Layout, first: nat, start: Word, j: nat, k: Entry, w: Word)
    requires c.AddressOf(j, k) == first && c.pptrBase <= first < c.End() && first - c.Shift() == start
    ensures PdEntry(c, c.End(), w, j, k) == NewBlock(c.BlockFields(), start)
  {
    assert (first - c.Shift()) % WORD_LIMIT == start;
  }

  lemma ShiftAligned(c: Layout, va: nat, pa: nat)
    requires c.pptrBase % MEGA == 0 && c.paddrBase % MEGA == 0 && va == pa + c.Shift() && c.pptrBase <= va
    ensures va / MEGA * MEGA - c.Shift() == pa / MEGA * MEGA && pa / MEGA * MEGA + va % MEGA == pa
    ensures c.pptrBase <= va / MEGA * MEGA <= va
  {
    var a, b := c.pptrBase / MEGA, c.paddrBase / MEGA;
    assert c.pptrBase == a * MEGA && c.paddrBase == b * MEGA;
    DivModUnique(va, MEGA, pa / MEGA + (a - b), pa % MEGA);
  }

  /** The block that covers `va` starts at `va` rounded down, at the fixed offset. */
  lemma BlockEntry(c: Layout, mem: Memory, mem': Memory, va: nat, pa: nat, j: nat, k: Entry) returns (start: Word)
    requires c.Separate() && c.Inside(mem) && Built(c, mem, mem') && j < c.TopPud()
    requires c.pptrBase % MEGA == 0 && c.paddrBase % MEGA == 0 && c.pptrBase <= va < c.End() && pa == va - c.Shift()
    requires c.AddressOf(j, k) == va / MEGA * MEGA && pa < TOP_BITS
    ensures mem'[512 * (c.pdsPage + j) + k] == NewBlock(c.BlockFields(), start)
    ensures start % MEGA == 0 && start < TOP_BITS && start + va % MEGA == pa
  {
    PdBuilt(c, mem, mem', j, k);
    ShiftAligned(c, va, pa);
    start := pa / MEGA * MEGA;
    BlockFor(c, va / MEGA * MEGA, start, j, k, mem[512 * (c.pdsPage + j) + k]);
    Multiple(start, MEGA, pa / MEGA);
  }

  lemma BlockWalk(c: Layout, mem: Memory, mem': Memory, va: nat, pa: nat, j: nat, k: Entry)
    requires c.Separate() && c.Inside(mem) && Built(c, mem, mem') && j < c.TopPud() && PtIndex(va, 1) == k
    requires c.pptrBase % MEGA == 0 && c.paddrBase % MEGA == 0 && c.pptrBase <= va < c.End() && pa == va - c.Shift()
    requires c.AddressOf(j, k) == va / MEGA * MEGA && pa < TOP_BITS
    ensures HwWalk(VMSA, mem', c.pdsPage + j, 1, va) == Some(pa)
  {
    var start := BlockEntry(c, mem, mem', va, pa, j, k);
    BlockReached(mem', c.pdsPage + j, va, pa, start, c.BlockFields());
  }

  lemma BlockReached(mem: Memory, p: nat, va: nat, pa: nat, start: Word, x: Fields)
    requires PageInside(mem, p) && mem[512 * p + PtIndex(va, 1)] == NewBlock(x, start)
    requires start % MEGA == 0 && start < TOP_BITS && start + va % MEGA == pa
    ensures HwWalk(VMSA, mem, p, 1, va) == Some(pa)
  {
    WalkBlock(mem, p, va, x, start);
  }

  lemma WindowWalk(c: Layout, mem: Memory, mem': Memory, va: nat, pa: nat, j: Entry, k: Entry)
    requires c.Separate() && c.Inside(mem) && Built(c, mem, mem') && c.FirstPud() <= j < c.TopPud()
    requires c.pptrBase % MEGA == 0 && c.paddrBase % MEGA == 0 && c.pptrBase <= va < c.End() && pa == va - c.Shift()
    requires PtIndex(va, 3) == c.PgdIndex() && PtIndex(va, 2) == j && PtIndex(va, 1) == k
    requires c.AddressOf(j, k) == va / MEGA * MEGA && pa < TOP_BITS
    ensures HwWalk(VMSA, mem', c.pgdPage, TOP, va) == Some(pa)
  {
    ToPud(c, mem, mem', va);
    ToPd(c, mem, mem', va, j);
    BlockWalk(c, mem, mem', va, pa, j, k);
  }

  /** Every physical address of the window is what the walk of its window address
      gives back; the two later directory writes disturb none of them. */
  lemma WindowLinear(c: Layout, mem: Memory, mem': Memory, pa: nat)
    requires c.Ok() && c.Inside(mem) && Built(c, mem, mem') && c.paddrBase <= pa < c.paddrTop
    ensures KernelTranslate(c, mem', pa - c.paddrBase + c.pptrBase) == Some(pa)
  {
    var va := pa + c.Shift();
    InRegion(c, va);
    IndicesOf(c, va);
    WindowWalk(c, mem, mem', va, pa, PtIndex(va, 2), PtIndex(va, 1));
  }

  /** The last 2 MiB of the gigabyte of the window's top are walked through the kernel's
      page table. */
  lemma DeviceTable(c: Layout, mem: Memory, mem': Memory, va: nat)
    requires c.Ok() && c.Inside(mem) && Built(c, mem, mem')
    requires va / GIB == c.pptrTop / GIB && va % GIB >= GIB - MEGA
    ensures HwWalk(VMSA, mem', c.pgdPage, TOP, va) == HwWalk(VMSA, mem', c.ptPage, 0, va)
  {
    TopIndices(c, va);
    ToPud(c, mem, mem', va);
    BuiltAt(c, mem, mem', c.pudPage, c.TopPud());
    WalkPointer(mem', c.pudPage, 2, va, c.pdsPage + 511);
    BuiltAt(c, mem, mem', c.pdsPage + 511, 511);
    WalkPointer(mem', c.pdsPage + 511, 1, va, c.ptPage);
  }

  lemma TopIndices(c: Layout, va: nat)
    requires c.pptrBase / REGION == c.pptrTop / REGION && va / GIB == c.pptrTop / GIB && va % GIB >= GIB - MEGA
    ensures PtIndex(va, 3) == c.PgdIndex() && PtIndex(va, 2) == c.TopPud() && PtIndex(va, 1) == 511
  {
    GibOf(va);
    GibOf(c.pptrTop);
    assert va / REGION == va / GIB / 512 && c.pptrTop / REGION == c.pptrTop / GIB / 512;
    DivModUnique(va, MEGA, va / GIB * 512 + 511, va % GIB - (GIB - MEGA));
  }

  /** No word outside the kernel's three kinds of tables changes, nor an entry for an
      address outside the window's region. */
  lemma OtherWords(c: Layout, mem: Memory, mem': Memory, s: nat)
    requires c.Ok() && Built(c, mem, mem') && s < |mem|
    requires s / 512 == c.pgdPage ==> s % 512 != PtIndex(c.pptrBase, 3)
    requires s / 512 == c.pudPage ==> !(PtIndex(c.pptrBase, 2) <= s % 512 <= PtIndex(c.pptrTop, 2))
    requires !(c.pdsPage <= s / 512 < c.pdsPage + 512)
    ensures mem'[s] == mem[s]
  {
    PudOrder(c);
    assert mem'[s] == BuiltWord(c, s / 512, s % 512, mem[s]);
  }

  /** Every address of the window is kernel memory: writable, global, cached, shared between
      several cores, and not executable by users unless it is the hypervisor's own. */
  lemma WindowAttributes(c: Layout, mem: Memory, mem': Memory, pa: nat)
    requires c.Ok() && c.Inside(mem) && Built(c, mem, mem') && c.paddrBase <= pa < c.paddrTop
    ensures AttributesOf(ViewAt(FORMAT, mem', c.pgdPage, pa - c.paddrBase + c.pptrBase).word) ==
            Attributes(4, false, false, if c.smp then 3 else 0, true, false, !c.hypervisor)
  {
    var va := pa - c.paddrBase + c.pptrBase;
    InRegion(c, va);
    IndicesOf(c, va);
    WindowSeen(c, mem, mem', va, pa, PtIndex(va, 2), PtIndex(va, 1));
  }

  lemma WindowSeen(c: Layout, mem: Memory, mem': Memory, va: nat, pa: nat, j: Entry, k: Entry)
    requires c.Separate() && c.Inside(mem) && Built(c, mem, mem') && c.FirstPud() <= j < c.TopPud()
    requires c.pptrBase % MEGA == 0 && c.paddrBase % MEGA == 0 && c.pptrBase <= va < c.End() && pa == va - c.Shift()
    requires PtIndex(va, 3) == c.PgdIndex() && PtIndex(va, 2) == j && PtIndex(va, 1) == k
    requires c.AddressOf(j, k) == va / MEGA * MEGA && pa < TOP_BITS
    ensures AttributesOf(ViewAt(FORMAT, mem', c.pgdPage, va).word) ==
            Attributes(4, false, false, if c.smp then 3 else 0, true, false, !c.hypervisor)
  {
    var start := BlockEntry(c, mem, mem', va, pa, j, k);
    WindowStop(c, mem, mem', va, j, k, start);
    AtStop(mem', c.pgdPage, va, 512 * (c.pdsPage + j) + k);
    BlockAttributes(c, start);
  }

  lemma AtStop(mem: Memory, r: nat, va: nat, s: nat)
    requires StopOf(mem, r, va) == Stop(1, s) && s < |mem|
    ensures ViewAt(FORMAT, mem, r, va).word == mem[s]
  {
  }

  lemma BlockAttributes(c: Layout, addr: Word)
    ensures AttributesOf(NewBlock(c.BlockFields(), addr)) ==
            Attributes(4, false, false, if c.smp then 3 else 0, true, false, !c.hypervisor)
  {
    PageAttributes(c.BlockFields(), addr);
    NamedBlock(c);
  }

  lemma WindowStop(c: Layout, mem: Memory, mem': Memory, va: nat, j: Entry, k: Entry, start: Word)
    requires c.Separate() && c.Inside(mem) && Built(c, mem, mem') && PtIndex(va, 3) == c.PgdIndex()
    requires c.FirstPud() <= j < c.TopPud() && PtIndex(va, 2) == j && PtIndex(va, 1) == k
    requires mem'[512 * (c.pdsPage + j) + k] == NewBlock(c.BlockFields(), start)
    ensures StopOf(mem', c.pgdPage, va) == Stop(1, 512 * (c.pdsPage + j) + k)
  {
    ViaPgd(c, mem, mem', va);
    ViaPud(c, mem, mem', va, j);
    BlockStops(mem', c.pdsPage + j, va, k, c.BlockFields(), start);
  }

  lemma BlockStops(mem: Memory, p: nat, va: nat, k: Entry, x: Fields, start: Word)
    requires 512 * p + k < |mem| && mem[512 * p + k] == NewBlock(x, start) && PtIndex(va, 1) == k
    ensures Walk(FORMAT, mem, p, 1, va) == Stop(1, 512 * p + k)
  {
    BlockWord(x, start);
    WalkStops(FORMAT, mem, p, 1, va);
  }

  lemma ViaPgd(c: Layout, mem: Memory, mem': Memory, va: nat)
    requires c.Inside(mem) && Built(c, mem, mem') && PtIndex(va, 3) == c.PgdIndex()
    ensures StopOf(mem', c.pgdPage, va) == Walk(FORMAT, mem', c.pudPage, 2, va)
  {
    BuiltAt(c, mem, mem', c.pgdPage, c.PgdIndex());
    TableNames(c.pudPage);
    WalkDown(FORMAT, mem', c.pgdPage, 3, va, c.pudPage);
  }

  lemma ViaPud(c: Layout, mem: Memory, mem': Memory, va: nat, j: Entry)
    requires c.Separate() && c.Inside(mem) && Built(c, mem, mem')
    requires c.FirstPud() <= j < c.TopPud() && PtIndex(va, 2) == j
    ensures Walk(FORMAT, mem', c.pudPage, 2, va) == Walk(FORMAT, mem', c.pdsPage + j, 1, va)
  {
    BuiltAt(c, mem, mem', c.pudPage, j);
    TableNames(c.pdsPage + j);
    WalkDown(FORMAT, mem', c.pudPage, 2, va, c.pdsPage + j);
  }

  lemma TableNames(q: nat)
    requires q < 0x10_0000_0000
    ensures IsTable(NewTable(0x1000 * q)) && GetPage(NewTable(0x1000 * q)) == q
  {
    TableWord(0x1000 * q);
    assert GetPage(0x1000 * q) == q;
  }

  lemma NamedBlock(c: Layout)
    ensures Named(c.BlockFields()) == Attributes(4, false, false, if c.smp then 3 else 0, true, false, !c.hypervisor)
  {
  }
}
