/** Sv39 translation (RISC-V Privileged Architecture 20211203, 4.3.2 and 4.4)
    against the walk the kernel makes over the same tables. */
module RiscvWalk {
  import opened Words
  import opened Options
  import opened PageTables
  import opened PageTableUpdates
  import opened VirtualAddresses
  import opened Hardware
  import opened RiscvPte

  const TOP: nat := 2

  const FORMAT: Format := Format(TOP, PtIndex, IsPteTable, GetPpn)

  const SV39: Scheme := Scheme(VpnField, Offset, DecodeAt)

  predicate Canonical(va: nat) {
    va < 0x40_0000_0000 || 0xffff_ffc0_0000_0000 <= va < WORD_LIMIT
  }

  /** A leaf whose page number is not aligned to its level faults, and so does a
      pointer at level 0. */
  function DecodeAt(l: nat, w: Word): HwEntry {
    match Decode(w)
    case Faulting => Fault
    case Page(page) => if 0x1000 * page % Span(l) != 0 then Fault else Leaf(0x1000 * page)
    case Next(page) => if l == 0 then Fault else Pointer(page)
  }

  /** Sv39 translation of a 64-bit address. */
  function Translate(mem: Memory, root: nat, va: nat): Option<nat> {
    if Canonical(va) then HwWalk(SV39, mem, root, TOP, va) else None
  }

  lemma SameIndices()
    ensures SameIndex(SV39, FORMAT)
  {
    forall va: nat, l: nat | l <= TOP
      ensures SV39.index(va, l) == FORMAT.index(va, l)
    {
      PtIndexIs(va, l);
    }
  }

  lemma LeafDecodes(l: nat, paddr: nat)
    requires paddr % Span(l) == 0 && paddr % 0x1000 == 0 && paddr < 0x100_0000_0000_0000
    ensures DecodeAt(l, NextTable(paddr, true)) == Leaf(paddr)
  {
    var page := paddr / 0x1000;
    assert paddr == 0x1000 * page;
    WrittenEntries(page);
  }

  lemma PointerDecodes(l: nat, page: nat)
    requires l > 0 && page < PPN_LIMIT
    ensures DecodeAt(l, NextTable(0x1000 * page, false)) == Pointer(page)
  {
    WrittenEntries(page);
  }

  lemma WalkLeaf(mem: Memory, p: nat, l: nat, va: nat, paddr: Word)
    requires 512 * p + 512 <= |mem| && mem[512 * p + VpnField(va, l)] == NextTable(paddr, true)
    requires paddr % Span(l) == 0 && paddr % 0x1000 == 0 && paddr < 0x100_0000_0000_0000
    ensures HwWalk(SV39, mem, p, l, va) == Some(paddr + Offset(va, l))
  {
    LeafDecodes(l, paddr);
    LeafHere(SV39, mem, p, l, va, paddr);
  }

  lemma WalkPointer(mem: Memory, p: nat, l: nat, va: nat, q: nat)
    requires l > 0 && q < PPN_LIMIT
    requires 512 * p + 512 <= |mem| && mem[512 * p + VpnField(va, l)] == NextTable(0x1000 * q, false)
    ensures HwWalk(SV39, mem, p, l, va) == HwWalk(SV39, mem, q, l - 1, va)
  {
    PointerDecodes(l, q);
    PointerHere(SV39, mem, p, l, va, q);
  }

  lemma NonTableIsClean(l: nat, w: Word)
    requires !IsPteTable(w)
    ensures CleanWord(SV39, FORMAT, l, w)
  {
    HardwareAgrees(w);
  }

  lemma NewTableIsClean(l: nat, page: nat)
    requires l > 0 && page < PPN_LIMIT
    ensures CleanWord(SV39, FORMAT, l, New(page, V)) && CleanWord(SV39, FORMAT, l, NextTable(0x1000 * page, false))
    ensures IsPteTable(New(page, V)) && GetPpn(New(page, V)) == page
  {
    WrittenEntries(page);
    HardwareAgrees(New(page, V));
    HardwareAgrees(NextTable(0x1000 * page, false));
  }

  // ----- aligned ranges of 64-bit addresses

  lemma IndexOfLow(va: nat, k: nat)
    requires k <= TOP
    ensures PtIndex(va, k) == PtIndex(va % 0x80_0000_0000, k)
  {
    PtIndexIs(va, k);
    PtIndexIs(va % 0x80_0000_0000, k);
    DropHigh(va, Span(k), 0x4000_0000 / Span(k));
  }

  lemma DropHigh(va: nat, s: nat, m: nat)
    requires s > 0 && s * m == 0x4000_0000
    ensures va / s % 512 == va % 0x80_0000_0000 / s % 512
  {
    var q, low := va / 0x80_0000_0000, va % 0x80_0000_0000;
    var x := m * q;
    assert (512 * x) * s == 0x80_0000_0000 * q by { assert s * x == (s * m) * q; }
    DivModUnique(va, s, 512 * x + low / s, low % s);
    DivModUnique(512 * x + low / s, 512, x + low / s / 512, low / s % 512);
  }

  lemma AgreeOnLow(va: nat, vb: nat, l: nat)
    requires l <= TOP
    ensures Agree(FORMAT, va, vb, l) <==> Agree(FORMAT, va % 0x80_0000_0000, vb % 0x80_0000_0000, l)
  {
    var x, y := va % 0x80_0000_0000, vb % 0x80_0000_0000;
    forall k | 0 <= k <= TOP
      ensures FORMAT.index(va, k) == FORMAT.index(x, k) && FORMAT.index(vb, k) == FORMAT.index(y, k)
    {
      IndexOfLow(va, k);
      IndexOfLow(vb, k);
    }
    AgreeByIndex(FORMAT, va, x, l);
    AgreeByIndex(FORMAT, vb, y, l);
  }

  /** Two canonical addresses reach the same entry at level `l` exactly when they
      lie in the same aligned range of Span(l) bytes. */
  lemma AgreeIsRange(va: nat, vb: nat, l: nat)
    requires l <= TOP && Canonical(va) && Canonical(vb)
    ensures Agree(FORMAT, va, vb, l) <==> va / Span(l) == vb / Span(l)
  {
    var x, y := va % 0x80_0000_0000, vb % 0x80_0000_0000;
    AgreeOnLow(va, vb, l);
    AgreeIsSameRange(FORMAT, x, y, l);
    LowRange(va, l);
    LowRange(vb, l);
  }

  lemma LowRange(va: nat, l: nat)
    requires l <= TOP && Canonical(va)
    ensures var x := va % 0x80_0000_0000;
            va / Span(l) == x / Span(l) + (if va < 0x40_0000_0000 then 0 else 0xffff_ff80_0000_0000 / Span(l))
    ensures va < 0x40_0000_0000 <==> va % 0x80_0000_0000 / Span(l) < 0x40_0000_0000 / Span(l)
  {
    var m, c := 0x40_0000_0000 / Span(l), 0xffff_ff80_0000_0000 / Span(l);
    SpanDivides(l);
    LowHalf(va, Span(l), m, c);
  }

  lemma SpanDivides(l: nat)
    requires l <= TOP
    ensures 0x40_0000_0000 / Span(l) * Span(l) == 0x40_0000_0000
    ensures 0xffff_ff80_0000_0000 / Span(l) * Span(l) == 0xffff_ff80_0000_0000
  {
  }

  lemma LowHalf(va: nat, s: nat, m: nat, c: nat)
    requires Canonical(va) && s > 0 && m * s == 0x40_0000_0000 && c * s == 0xffff_ff80_0000_0000
    ensures var x := va % 0x80_0000_0000;
            va / s == x / s + (if va < 0x40_0000_0000 then 0 else c) && (va < 0x40_0000_0000 <==> x / s < m)
  {
    var x := va % 0x80_0000_0000;
    QuotientBelow(x, s, m);
    if va < 0x40_0000_0000 {
      assert x == va;
    } else {
      assert va == x + 0xffff_ff80_0000_0000;
      QuotientAbove(va, x, s, c);
    }
  }

  lemma QuotientBelow(x: nat, s: nat, m: nat)
    requires s > 0
    ensures x < m * s <==> x / s < m
  {
    var q := x / s;
    assert x == q * s + x % s by { assert x == s * q + x % s; }
    MulDistributes(q, m, s);
    MulDistributes(m, q, s);
    if q < m {
      MulAtLeast(m - q, s);
    } else {
      assert (q - m) * s >= 0;
    }
  }

  lemma QuotientAbove(va: nat, x: nat, s: nat, m: nat)
    requires s > 0 && va == x + m * s
    ensures va / s == x / s + m
  {
    var q := x / s;
    assert x == q * s + x % s by { assert x == s * q + x % s; }
    assert (q + m) * s == q * s + m * s;
    DivModUnique(va, s, q + m, x % s);
  }
}
