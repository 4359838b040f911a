/** The RISC-V kernel window: the loops that build it and the linear map the
    hardware then sees. */
module RiscvWindow {
  import opened Words
  import opened Options
  import opened PageTables
  import opened PageTableUpdates
  import opened VirtualAddresses
  import opened Hardware
  import opened RiscvPte
  import opened RiscvWalk
  import opened RiscvSpaces

  const GIB: nat := 0x4000_0000
  const MEGA: nat := 0x20_0000

  /** The platform's layout; the two kernel tables are pages of physical memory. */
  datatype Layout = Layout(
    pptrBase: nat, pptrTop: nat, paddrBase: nat, paddrTop: nat,
    elfBase: nat, elfPaddr: nat, rootPage: nat, level2Page: nat)
  {
    /** PPTR_BASE_OFFSET */
    function Shift(): int {
      pptrBase - paddrBase
    }

    /** The gigabyte of physical memory that holds the kernel image. */
    function ElfGib(): nat {
      elfPaddr / GIB * GIB
    }

    predicate Ok() {
      pptrBase % GIB == 0 && pptrTop % GIB == 0 && paddrBase % GIB == 0 &&
      0xffff_ffc0_0000_0000 <= pptrBase < pptrTop <= 0xffff_ffff_8000_0000 &&
      pptrTop - pptrBase == paddrTop - paddrBase &&
      paddrTop <= 0x100_0000_0000_0000 && paddrBase <= elfPaddr < paddrTop &&
      elfBase / GIB * GIB == pptrTop &&
      rootPage != level2Page && level2Page < PPN_LIMIT
    }

    /** Root index of the first window gigabyte, and the number of gigabytes. */
    function First(): nat { PtIndex(pptrBase, TOP) }
    function Count(): int { (pptrTop - pptrBase) / GIB }
    function ElfAlias(): int { First() + (elfPaddr - paddrBase) / GIB }
  }

  lemma IndexOfGib(c: Layout, n: nat)
    requires c.Ok() && n <= c.Count() + 1
    ensures PtIndex(c.pptrBase + n * GIB, TOP) == c.First() + n && c.pptrBase + n * GIB <= WORD_LIMIT - GIB
    ensures 256 <= c.First() && c.First() + c.Count() <= 510
  {
    var b, t := c.pptrBase / GIB, c.pptrTop / GIB;
    assert c.pptrBase == b * GIB && c.pptrTop == t * GIB;
    DivModUnique(c.pptrTop - c.pptrBase, GIB, t - b, 0);
    DivModUnique(c.pptrBase + n * GIB, GIB, b + n, 0);
    assert 0x3_ffff_ff00 <= b < t <= 0x3_ffff_fffe;
    assert c.First() == b - 0x3_ffff_fe00;
  }

  lemma AliasIndex(c: Layout)
    requires c.Ok()
    ensures c.elfPaddr + c.Shift() >= 0 && PtIndex(c.elfPaddr + c.Shift(), TOP) == c.ElfAlias()
    ensures c.First() <= c.ElfAlias() < c.First() + c.Count()
    ensures c.ElfGib() == c.paddrBase + (c.ElfAlias() - c.First()) * GIB
  {
    var g := (c.elfPaddr - c.paddrBase) / GIB;
    ElfGibs(c, g);
    IndexOfGib(c, 0);
    IndexOfGib(c, g);
  }

  /** The kernel image lies `g` gigabytes into physical memory and into the window. */
  lemma ElfGibs(c: Layout, g: nat)
    requires c.Ok() && g == (c.elfPaddr - c.paddrBase) / GIB
    ensures g < c.Count() && c.ElfGib() == c.paddrBase + g * GIB
    ensures (c.elfPaddr + c.Shift()) / GIB == (c.pptrBase + g * GIB) / GIB
  {
    var a, b, t := c.paddrBase / GIB, c.pptrBase / GIB, c.pptrTop / GIB;
    var r := (c.elfPaddr - c.paddrBase) % GIB;
    assert c.pptrBase == b * GIB && c.paddrBase == a * GIB && c.pptrTop == t * GIB;
    DivModUnique(c.elfPaddr + c.Shift(), GIB, b + g, r);
    DivModUnique(c.elfPaddr, GIB, a + g, r);
    DivModUnique(c.pptrBase + g * GIB, GIB, b + g, 0);
    DivModUnique(c.pptrTop - c.pptrBase, GIB, t - b, 0);
  }

  // ----- what the tables hold

  function Pspace(c: Layout, n: nat, w: Word, i: nat): Word
    requires c.Ok() && n <= c.Count()
  {
    if c.First() <= i < c.First() + n then NextTable(c.paddrBase + (i - c.First()) * GIB, true) else w
  }

  function RootEntry(c: Layout, w: Word, i: nat): Word
    requires c.Ok()
  {
    if i == c.ElfAlias() || i == c.First() + c.Count() then NextTable(0x1000 * c.level2Page, false)
    else Pspace(c, c.Count(), w, i)
  }

  function Level2Entry(c: Layout, j: nat): Word
    requires c.Ok() && j < 512
  {
    NextTable(c.ElfGib() + j * MEGA, true)
  }

  function PspaceWord(c: Layout, n: nat, s: nat, w: Word): Word
    requires c.Ok() && n <= c.Count()
  {
    if s / 512 == c.rootPage then Pspace(c, n, w, s % 512) else w
  }

  function Level2Word(c: Layout, n: nat, s: nat, w: Word): Word
    requires c.Ok() && n <= 512
  {
    if s / 512 == c.level2Page && s % 512 < n then Level2Entry(c, s % 512) else w
  }

  function BuiltWord(c: Layout, s: nat, w: Word): Word
    requires c.Ok()
  {
    if s / 512 == c.rootPage then RootEntry(c, w, s % 512) else Level2Word(c, 512, s, w)
  }

  /** Memory after the loops: the two kernel tables filled, all else as before. */
  ghost predicate Built(c: Layout, mem: Memory, mem': Memory)
    requires c.Ok()
  {
    |mem'| == |mem| && PageInside(mem, c.rootPage) && PageInside(mem, c.level2Page) &&
    forall s :: 0 <= s < |mem| ==> mem'[s] == BuiltWord(c, s, mem[s])
  }

  // ----- the loops

  lemma PspaceStep(c: Layout, n: nat, s: nat, w: Word)
    requires c.Ok() && n < c.Count() && c.First() + n < 512
    ensures PspaceWord(c, n + 1, s, w) ==
            if s == 512 * c.rootPage + (c.First() + n) then NextTable(c.paddrBase + n * GIB, true)
            else PspaceWord(c, n, s, w)
  {
  }

  /** The first `n` entries of the window are in the root. */
  ghost predicate PspaceFilled(c: Layout, n: nat, mem: Memory, mem': Memory)
    requires c.Ok() && n <= c.Count()
  {
    |mem'| == |mem| && forall s :: 0 <= s < |mem| ==> mem'[s] == PspaceWord(c, n, s, mem[s])
  }

  lemma FillOne(c: Layout, n: nat, mem: Memory, mem': Memory, s: nat)
    requires c.Ok() && n < c.Count() && c.First() + n < 512 && PspaceFilled(c, n, mem, mem')
    requires s == 512 * c.rootPage + (c.First() + n) && s < |mem|
    ensures PspaceFilled(c, n + 1, mem, mem'[s := NextTable(c.paddrBase + n * GIB, true)])
  {
    forall t | 0 <= t < |mem|
      ensures PspaceWord(c, n + 1, t, mem[t]) ==
              if t == s then NextTable(c.paddrBase + n * GIB, true) else mem'[t]
    {
      PspaceStep(c, n, t, mem[t]);
    }
  }

  /** Both loop conditions say that gigabytes are left. */
  lemma GibsLeft(c: Layout, n: nat)
    requires c.Ok()
    ensures c.pptrBase + n * GIB < c.pptrTop <==> n < c.Count()
    ensures c.paddrBase + n * GIB < c.paddrTop <==> n < c.Count()
  {
    DivModUnique(c.pptrTop - c.pptrBase, GIB, c.pptrTop / GIB - c.pptrBase / GIB, 0);
  }

  /** The direct map, one 1 GiB entry at a time. */
  method MapPspace(c: Layout, words: array<Word>)
    requires c.Ok() && PageInside(words[..], c.rootPage)
    modifies words
    ensures forall s :: 0 <= s < words.Length ==> words[s] == PspaceWord(c, c.Count(), s, old(words[s]))
  {
    ghost var mem := words[..];
    var pptr, paddr := c.pptrBase, c.paddrBase;
    ghost var n: nat := 0;
    while pptr < c.pptrTop && paddr < c.paddrTop
      invariant n <= c.Count() && pptr == c.pptrBase + n * GIB && paddr == c.paddrBase + n * GIB
      invariant PspaceFilled(c, n, mem, words[..])
      decreases c.pptrTop - pptr
    {
      GibsLeft(c, n);
      IndexOfGib(c, n);
      FillOne(c, n, mem, words[..], 512 * c.rootPage + PtIndex(pptr, TOP));
      words[512 * c.rootPage + PtIndex(pptr, TOP)] := NextTable(paddr, true);
      pptr, paddr, n := pptr + GIB, paddr + GIB, n + 1;
    }
    GibsLeft(c, n);
  }

  /** The level-2 table, one 2 MiB entry at a time; `index` is used from 0 to 511. */
  method MapElf(c: Layout, words: array<Word>)
    requires c.Ok() && PageInside(words[..], c.level2Page)
    modifies words
    ensures forall s :: 0 <= s < words.Length ==> words[s] == Level2Word(c, 512, s, old(words[s]))
  {
    var pptr, paddr := c.elfBase / GIB * GIB, c.elfPaddr / GIB * GIB;
    var index: nat := 0;
    while pptr < c.pptrTop + GIB
      invariant index <= 512 && pptr == c.pptrTop + index * MEGA && paddr == c.ElfGib() + index * MEGA
      invariant forall s :: 0 <= s < words.Length ==> words[s] == Level2Word(c, index, s, old(words[s]))
      decreases c.pptrTop + GIB - pptr
    {
      words[512 * c.level2Page + index] := NextTable(paddr, true);
      pptr, paddr, index := pptr + MEGA, paddr + MEGA, index + 1;
    }
  }

  /** The two root entries that lead to the level-2 table. */
  method PatchRoot(c: Layout, words: array<Word>)
    requires c.Ok() && PageInside(words[..], c.rootPage)
    modifies words
    ensures words[..] == old(words[..])[512 * c.rootPage + c.ElfAlias() := NextTable(0x1000 * c.level2Page, false)]
                                       [512 * c.rootPage + (c.First() +
                                         c.Count()) := NextTable(0x1000 * c.level2Page, false)]
  {
    AliasIndex(c);
    TopIndex(c);
    words[512 * c.rootPage + PtIndex(c.elfPaddr + c.Shift(), TOP)] := NextTable(0x1000 * c.level2Page, false);
    words[512 * c.rootPage + PtIndex(c.elfBase / GIB * GIB, TOP)] := NextTable(0x1000 * c.level2Page, false);
  }

  lemma TopIndex(c: Layout)
    requires c.Ok()
    ensures PtIndex(c.elfBase / GIB * GIB, TOP) == c.First() + c.Count() < 512
    ensures c.First() <= c.ElfAlias() < c.First() + c.Count()
  {
    AliasIndex(c);
    IndexOfGib(c, c.Count());
    WindowTop(c);
  }

  lemma WindowTop(c: Layout)
    requires c.Ok()
    ensures c.pptrBase + c.Count() * GIB == c.pptrTop == c.elfBase / GIB * GIB
  {
    DivModUnique(c.pptrTop - c.pptrBase, GIB, c.pptrTop / GIB - c.pptrBase / GIB, 0);
  }

  /** `rust_map_kernel_window`, up to the device frames. */
  method MapKernelWindow(c: Layout, words: array<Word>)
    requires c.Ok() && PageInside(words[..], c.rootPage) && PageInside(words[..], c.level2Page)
    modifies words
    ensures Built(c, old(words[..]), words[..])
  {
    ghost var m0 := words[..];
    MapPspace(c, words);
    ghost var m1 := words[..];
    TopIndex(c);
    PatchRoot(c, words);
    ghost var m2 := words[..];
    MapElf(c, words);
    ghost var m3 := words[..];
    forall s | 0 <= s < |m0|
      ensures m3[s] == BuiltWord(c, s, m0[s])
    {
      assert m1[s] == PspaceWord(c, c.Count(), s, m0[s]);
      Patched(c, m0, m1, m2, s);
      assert m3[s] == Level2Word(c, 512, s, m2[s]);
    }
  }

  lemma Patched(c: Layout, m0: Memory, m1: Memory, m2: Memory, s: nat)
    requires c.Ok() && s < |m0| == |m1| == |m2| && PageInside(m0, c.rootPage)
    requires m1[s] == PspaceWord(c, c.Count(), s, m0[s])
    requires c.First() <= c.ElfAlias() < c.First() + c.Count() < 512
    requires m2 == m1[512 * c.rootPage + c.ElfAlias() := NextTable(0x1000 * c.level2Page, false)]
                     [512 * c.rootPage + (c.First() + c.Count()) := NextTable(0x1000 * c.level2Page, false)]
    ensures m2[s] == if s / 512 == c.rootPage then RootEntry(c, m0[s], s % 512) else m0[s]
  {
  }

  // ----- the map

  lemma BuiltEntries(c: Layout, mem: Memory, mem': Memory, i: nat)
    requires c.Ok() && Built(c, mem, mem') && i < 512
    ensures mem'[512 * c.rootPage + i] == RootEntry(c, mem[512 * c.rootPage + i], i)
    ensures mem'[512 * c.level2Page + i] == Level2Entry(c, i)
  {
    var s, t := 512 * c.rootPage + i, 512 * c.level2Page + i;
    assert s / 512 == c.rootPage && s % 512 == i && t / 512 == c.level2Page && t % 512 == i;
    assert mem'[s] == BuiltWord(c, s, mem[s]) && mem'[t] == BuiltWord(c, t, mem[t]);
  }

  lemma InGib(c: Layout, va: nat, g: nat)
    requires c.Ok() && g <= c.Count() && c.pptrBase + g * GIB <= va < c.pptrBase + g * GIB + GIB
    ensures VpnField(va, TOP) == c.First() + g && Canonical(va) && Offset(va, TOP) == va - c.pptrBase - g * GIB
    ensures c.First() + g < 512
  {
    IndexOfGib(c, g);
    var b := c.pptrBase / GIB;
    assert c.pptrBase == b * GIB;
    assert va / GIB == b + g && (c.pptrBase + g * GIB) / GIB == b + g;
  }

  lemma GibLeaf(c: Layout, mem: Memory, mem': Memory, va: nat, g: nat)
    requires c.Ok() && Built(c, mem, mem') && g < c.Count() && c.First() + g < 512
    requires c.First() + g != c.ElfAlias() && VpnField(va, TOP) == c.First() + g
    ensures HwWalk(SV39, mem', c.rootPage, TOP, va) == Some(c.paddrBase + g * GIB + Offset(va, TOP))
  {
    BuiltEntries(c, mem, mem', c.First() + g);
    GibAligned(c, g);
    WalkLeaf(mem', c.rootPage, TOP, va, c.paddrBase + g * GIB);
  }

  lemma GibAligned(c: Layout, g: nat)
    requires c.Ok() && g < c.Count()
    ensures var paddr := c.paddrBase + g * GIB;
            paddr % Span(TOP) == 0 && paddr % 0x1000 == 0 && paddr < 0x100_0000_0000_0000
  {
  }

  lemma ToLevel2(c: Layout, mem: Memory, mem': Memory, va: nat, i: nat)
    requires c.Ok() && Built(c, mem, mem') && i < 512 && (i == c.ElfAlias() || i == c.First() + c.Count())
    requires VpnField(va, TOP) == i
    ensures HwWalk(SV39, mem', c.rootPage, TOP, va) == HwWalk(SV39, mem', c.level2Page, 1, va)
  {
    BuiltEntries(c, mem, mem', i);
    WalkPointer(mem', c.rootPage, TOP, va, c.level2Page);
  }

  lemma InLevel2(c: Layout, mem: Memory, mem': Memory, va: nat)
    requires c.Ok() && Built(c, mem, mem')
    ensures HwWalk(SV39, mem', c.level2Page, 1, va) == Some(c.ElfGib() + Offset(va, TOP))
  {
    InMega(c, mem, mem', va, VpnField(va, 1));
    MegaInGib(va);
  }

  lemma InMega(c: Layout, mem: Memory, mem': Memory, va: nat, j: nat)
    requires c.Ok() && Built(c, mem, mem') && VpnField(va, 1) == j
    ensures HwWalk(SV39, mem', c.level2Page, 1, va) == Some(c.ElfGib() + j * MEGA + Offset(va, 1))
  {
    BuiltEntries(c, mem, mem', j);
    MegaAligned(c, j);
    MegaWalk(mem', c.level2Page, va, j, c.ElfGib() + j * MEGA);
  }

  lemma MegaWalk(mem: Memory, p: nat, va: nat, j: Entry, paddr: Word)
    requires PageInside(mem, p) && mem[512 * p + j] == NextTable(paddr, true) && VpnField(va, 1) == j
    requires paddr % Span(1) == 0 && paddr % 0x1000 == 0 && paddr < 0x100_0000_0000_0000
    ensures HwWalk(SV39, mem, p, 1, va) == Some(paddr + Offset(va, 1))
  {
    WalkLeaf(mem, p, 1, va, paddr);
  }

  lemma MegaAligned(c: Layout, j: nat)
    requires c.Ok() && j < 512
    ensures var paddr := c.ElfGib() + j * MEGA;
            paddr % Span(1) == 0 && paddr % 0x1000 == 0 && paddr < 0x100_0000_0000_0000
  {
    ElfRoom(c);
    var e := c.ElfGib() / MEGA;
    DivModUnique(c.ElfGib() + j * MEGA, MEGA, e + j, 0);
    DivModUnique(c.ElfGib() + j * MEGA, 0x1000, (e + j) * 0x200, 0);
  }

  lemma ElfRoom(c: Layout)
    requires c.Ok()
    ensures c.ElfGib() % MEGA == 0 && c.ElfGib() + GIB <= 0x100_0000_0000_0000
  {
    AliasIndex(c);
  }

  lemma MegaInGib(va: nat)
    ensures Offset(va, TOP) == VpnField(va, 1) * MEGA + Offset(va, 1)
  {
  }

  lemma CountSpans(c: Layout)
    requires c.Ok()
    ensures c.Count() > 0 && c.pptrBase + c.Count() * GIB == c.pptrTop
  {
  }

  /** Every window address translates to its fixed-offset physical address, also in
      the gigabyte whose entry was replaced by the level-2 table. */
  lemma WindowLinear(c: Layout, mem: Memory, mem': Memory, va: nat)
    requires c.Ok() && Built(c, mem, mem') && c.pptrBase <= va < c.pptrTop
    ensures Translate(mem', c.rootPage, va) == Some(va - c.pptrBase + c.paddrBase)
  {
    var g := (va - c.pptrBase) / GIB;
    CountSpans(c);
    assert g < c.Count();
    InGib(c, va, g);
    WindowWalk(c, mem, mem', va, g);
  }

  lemma WindowWalk(c: Layout, mem: Memory, mem': Memory, va: nat, g: nat)
    requires c.Ok() && Built(c, mem, mem') && g < c.Count() && c.First() + g < 512
    requires VpnField(va, TOP) == c.First() + g
    ensures HwWalk(SV39, mem', c.rootPage, TOP, va) == Some(c.paddrBase + g * GIB + Offset(va, TOP))
  {
    if c.First() + g == c.ElfAlias() {
      AliasIndex(c);
      ToLevel2(c, mem, mem', va, c.First() + g);
      InLevel2(c, mem, mem', va);
    } else {
      GibLeaf(c, mem, mem', va, g);
    }
  }

  /** The kernel image's own gigabyte maps to the gigabyte that holds it. */
  lemma ElfLinear(c: Layout, mem: Memory, mem': Memory, va: nat)
    requires c.Ok() && Built(c, mem, mem') && c.pptrTop <= va < c.pptrTop + GIB
    ensures Translate(mem', c.rootPage, va) == Some(c.elfPaddr / 0x4000_0000 * 0x4000_0000 + (va - c.pptrTop))
  {
    CountSpans(c);
    InGib(c, va, c.Count());
    ToLevel2(c, mem, mem', va, c.First() + c.Count());
    InLevel2(c, mem, mem', va);
  }

  lemma WindowIndex(c: Layout, va: nat)
    requires c.Ok() && Canonical(va) && c.First() <= VpnField(va, TOP) <= c.First() + c.Count()
    ensures c.pptrBase <= va < c.pptrTop + GIB
  {
    IndexOfGib(c, 0);
    CountSpans(c);
    var b := c.pptrBase / GIB;
    assert c.pptrBase == b * GIB && b == 0x3_ffff_fe00 + c.First();
    var v := va / GIB;
    assert v >= 0x3_ffff_fe00 && v == 0x3_ffff_fe00 + VpnField(va, TOP);
  }

  /** On a root that was zero, nothing else is mapped. */
  lemma NothingElse(c: Layout, mem: Memory, mem': Memory, va: nat)
    requires c.Ok() && Built(c, mem, mem') && ZeroPage(mem, c.rootPage)
    requires !(c.pptrBase <= va < c.pptrTop + GIB)
    ensures Translate(mem', c.rootPage, va) == None
  {
    if Canonical(va) {
      var i: nat := VpnField(va, TOP);
      BuiltEntries(c, mem, mem', i);
      AliasIndex(c);
      if c.First() <= i <= c.First() + c.Count() {
        WindowIndex(c, va);
      }
      assert mem'[512 * c.rootPage + i] == 0;
    }
  }

  /** Every address of the window and of the image's gigabyte is mapped for the kernel
      alone: readable, writable, executable and global. */
  lemma WindowPerms(c: Layout, mem: Memory, mem': Memory, va: nat)
    requires c.Ok() && Built(c, mem, mem') && c.pptrBase <= va < c.pptrTop + GIB
    ensures PermsOf(ViewAt(FORMAT, mem', c.rootPage, va).word) ==
            Perms(true, true, true, true, false, true, true, true)
  {
    var g := (va - c.pptrBase) / GIB;
    CountSpans(c);
    assert g <= c.Count();
    InGib(c, va, g);
    if c.First() + g == c.ElfAlias() || g == c.Count() {
      Level2Stop(c, mem, mem', va, c.First() + g);
      Level2Perms(c, mem, mem', PtIndex(va, 1));
    } else {
      RootStop(c, mem, mem', va, g);
      RootPerms(c, mem, mem', g);
    }
  }

  lemma RootStop(c: Layout, mem: Memory, mem': Memory, va: nat, g: nat)
    requires c.Ok() && Built(c, mem, mem') && g < c.Count() && c.First() + g != c.ElfAlias()
    requires VpnField(va, TOP) == c.First() + g
    ensures StopOf(mem', c.rootPage, va) == Stop(TOP, 512 * c.rootPage + (c.First() + g))
  {
    BuiltEntries(c, mem, mem', c.First() + g);
    GibAligned(c, g);
    LeafIsClean(TOP, c.paddrBase + g * GIB);
    PtIndexIs(va, TOP);
    WalkStops(FORMAT, mem', c.rootPage, TOP, va);
  }

  lemma RootPerms(c: Layout, mem: Memory, mem': Memory, g: nat)
    requires c.Ok() && Built(c, mem, mem') && g < c.Count() && c.First() + g != c.ElfAlias() && c.First() + g < 512
    ensures PermsOf(mem'[512 * c.rootPage + (c.First() + g)]) == Perms(true, true, true, true, false, true, true, true)
  {
    var i := c.First() + g;
    BuiltEntries(c, mem, mem', i);
    GibAligned(c, g);
    var paddr := c.paddrBase + g * GIB;
    assert RootEntry(c, mem[512 * c.rootPage + i], i) == NextTable(paddr, true);
    MappedPerms(0, paddr);
  }

  lemma Level2Stop(c: Layout, mem: Memory, mem': Memory, va: nat, i: nat)
    requires c.Ok() && Built(c, mem, mem') && i < 512 && (i == c.ElfAlias() || i == c.First() + c.Count())
    requires VpnField(va, TOP) == i
    ensures StopOf(mem', c.rootPage, va) == Stop(1, 512 * c.level2Page + PtIndex(va, 1))
  {
    BuiltEntries(c, mem, mem', i);
    NewTableIsClean(TOP, c.level2Page);
    NamedByRoot(c.level2Page);
    PtIndexIs(va, TOP);
    WalkDown(FORMAT, mem', c.rootPage, TOP, va, c.level2Page);
    LastStop(c, mem, mem', va);
  }

  lemma NamedByRoot(page: nat)
    requires page < PPN_LIMIT
    ensures IsPteTable(NextTable(0x1000 * page, false)) && GetPpn(NextTable(0x1000 * page, false)) == page
  {
    WrittenEntries(page);
    HardwareAgrees(NextTable(0x1000 * page, false));
  }

  lemma LastStop(c: Layout, mem: Memory, mem': Memory, va: nat)
    requires c.Ok() && Built(c, mem, mem')
    ensures Walk(FORMAT, mem', c.level2Page, 1, va) == Stop(1, 512 * c.level2Page + PtIndex(va, 1))
  {
    var j := PtIndex(va, 1);
    BuiltEntries(c, mem, mem', j);
    MegaAligned(c, j);
    LeafIsClean(1, c.ElfGib() + j * MEGA);
    WalkStops(FORMAT, mem', c.level2Page, 1, va);
  }

  lemma Level2Perms(c: Layout, mem: Memory, mem': Memory, j: Entry)
    requires c.Ok() && Built(c, mem, mem')
    ensures PermsOf(mem'[512 * c.level2Page + j]) == Perms(true, true, true, true, false, true, true, true)
  {
    BuiltEntries(c, mem, mem', j);
    MegaAligned(c, j);
    MappedPerms(0, c.ElfGib() + j * MEGA);
  }

  /** No word outside the two tables changes, nor a root entry for an address outside the
      window and the image's gigabyte. */
  lemma OtherWords(c: Layout, mem: Memory, mem': Memory, s: nat)
    requires c.Ok() && Built(c, mem, mem') && s < |mem| && s / 512 != c.level2Page
    requires s / 512 == c.rootPage ==> s % 512 < PtIndex(c.pptrBase, TOP) || s % 512 > PtIndex(c.pptrTop, TOP)
    ensures mem'[s] == mem[s]
  {
    assert mem'[s] == BuiltWord(c, s, mem[s]);
    IndexOfGib(c, c.Count());
    WindowTop(c);
    AliasIndex(c);
  }

  function BootTables(c: Layout): Labels {
    map[c.level2Page := Shared(1), c.rootPage := Own(c.rootPage, [])]
  }

  /** A kernel root entry that is a table names the shared table, and is clean. */
  predicate RootEntryOk(root: nat, level2: nat, mem: Memory, i: Entry) {
    PageInside(mem, root) &&
    (IsPteTable(mem[512 * root + i]) ==> GetPpn(mem[512 * root + i]) == level2) &&
    CleanWord(SV39, FORMAT, TOP, mem[512 * root + i])
  }

  predicate Level2EntryOk(level2: nat, mem: Memory, i: Entry) {
    PageInside(mem, level2) && !IsPteTable(mem[512 * level2 + i]) && CleanWord(SV39, FORMAT, 1, mem[512 * level2 + i])
  }

  lemma TwoTables(root: nat, level2: nat, mem: Memory, tab: Labels)
    requires root != level2 && tab == map[level2 := Shared(1), root := Own(root, [])]
    requires forall i: Entry :: RootEntryOk(root, level2, mem, i) && Level2EntryOk(level2, mem, i)
    ensures Labelled(FORMAT, mem, tab) && IsRoot(tab, root)
    ensures forall p, i: Entry :: p in tab ==> SharingOk(root, mem, tab, p, i)
  {
    assert RootEntryOk(root, level2, mem, 0) && Level2EntryOk(level2, mem, 0);
    forall p | p in tab
      ensures PlaceOk(FORMAT, tab[p]) && PageInside(mem, p) && forall i: Entry :: EntryOk(FORMAT, mem, tab, p, i)
      ensures forall i: Entry :: SharingOk(root, mem, tab, p, i)
    {
      forall i: Entry
        ensures EntryOk(FORMAT, mem, tab, p, i) && SharingOk(root, mem, tab, p, i)
      {
        assert RootEntryOk(root, level2, mem, i) && Level2EntryOk(level2, mem, i);
      }
    }
  }

  lemma TwoCleanTables(root: nat, level2: nat, mem: Memory, tab: Labels)
    requires root != level2 && tab == map[level2 := Shared(1), root := Own(root, [])]
    requires forall i: Entry :: RootEntryOk(root, level2, mem, i) && Level2EntryOk(level2, mem, i)
    ensures Clean(SV39, FORMAT, mem, tab)
  {
    forall p | p in tab
      ensures PlaceOk(FORMAT, tab[p]) && CleanPage(SV39, FORMAT, mem, p, LevelOf(FORMAT, tab[p]))
    {
      assert RootEntryOk(root, level2, mem, 0) && Level2EntryOk(level2, mem, 0);
      forall s | 512 * p <= s < 512 * p + 512
        ensures CleanWord(SV39, FORMAT, LevelOf(FORMAT, tab[p]), mem[s])
      {
        assert RootEntryOk(root, level2, mem, s - 512 * p) && Level2EntryOk(level2, mem, s - 512 * p);
      }
    }
  }

  /** The finished kernel tables are where every run of mapping operations can
      start: a forest with the level-2 table shared. */
  lemma BootInvariant(c: Layout, mem: Memory, mem': Memory)
    requires c.Ok() && Built(c, mem, mem') && ZeroPage(mem, c.rootPage)
    ensures Inv(c.rootPage, mem', BootTables(c))
  {
    forall i: Entry
      ensures RootEntryOk(c.rootPage, c.level2Page, mem', i) && Level2EntryOk(c.level2Page, mem', i)
    {
      RootEntryMeans(c, mem, mem', i);
      Level2EntryMeans(c, mem, mem', i);
    }
    TwoTables(c.rootPage, c.level2Page, mem', BootTables(c));
    TwoCleanTables(c.rootPage, c.level2Page, mem', BootTables(c));
  }

  lemma RootEntryMeans(c: Layout, mem: Memory, mem': Memory, i: Entry)
    requires c.Ok() && Built(c, mem, mem') && ZeroPage(mem, c.rootPage)
    ensures RootEntryOk(c.rootPage, c.level2Page, mem', i)
  {
    BuiltEntries(c, mem, mem', i);
    assert mem[512 * c.rootPage + i] == 0;
    RootWordOk(c, i);
  }

  lemma RootWordOk(c: Layout, i: Entry)
    requires c.Ok()
    ensures var w := RootEntry(c, 0, i);
            (IsPteTable(w) ==> GetPpn(w) == c.level2Page) && CleanWord(SV39, FORMAT, TOP, w)
  {
    if i == c.ElfAlias() || i == c.First() + c.Count() {
      SharedIsClean(c.level2Page);
    } else if c.First() <= i < c.First() + c.Count() {
      GibIsClean(c, i - c.First());
    } else {
      NonTableIsClean(TOP, 0);
    }
  }

  lemma GibIsClean(c: Layout, g: nat)
    requires c.Ok() && g < c.Count()
    ensures var w := NextTable(c.paddrBase + g * GIB, true); !IsPteTable(w) && CleanWord(SV39, FORMAT, TOP, w)
  {
    GibAligned(c, g);
    LeafIsClean(TOP, c.paddrBase + g * GIB);
  }

  lemma SharedIsClean(page: nat)
    requires page < PPN_LIMIT
    ensures var w := NextTable(0x1000 * page, false);
            (IsPteTable(w) ==> GetPpn(w) == page) && CleanWord(SV39, FORMAT, TOP, w)
  {
    WrittenEntries(page);
    NewTableIsClean(TOP, page);
    HardwareAgrees(NextTable(0x1000 * page, false));
  }

  lemma Level2EntryMeans(c: Layout, mem: Memory, mem': Memory, i: Entry)
    requires c.Ok() && Built(c, mem, mem')
    ensures Level2EntryOk(c.level2Page, mem', i)
  {
    BuiltEntries(c, mem, mem', i);
    MegaAligned(c, i);
    LeafIsClean(1, c.ElfGib() + i * MEGA);
  }

  lemma LeafIsClean(l: nat, paddr: nat)
    requires paddr % 0x1000 == 0 && paddr < 0x100_0000_0000_0000
    ensures !IsPteTable(NextTable(paddr, true)) && CleanWord(SV39, FORMAT, l, NextTable(paddr, true))
  {
    var page := paddr / 0x1000;
    assert paddr == 0x1000 * page;
    WrittenEntries(page);
    HardwareAgrees(NextTable(paddr, true));
    NonTableIsClean(l, NextTable(paddr, true));
  }
}
