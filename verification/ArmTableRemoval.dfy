/** AArch64 `unmap_page_table` on a table that is not empty: the slot that named the
    table ends as the table's own first entry, which the hardware then reads one level
    higher than it was written for. */
module ArmTableRemoval {
  import opened Words
  import opened Options
  import opened PageTables
  import opened PageTableUpdates
  import opened VirtualAddresses
  import opened Hardware
  import opened ArmPte
  import opened ArmWalk
  import opened ArmSpaces
  import opened ArmTheorems

  /** What an address translates to once word `v` is its entry at level `l`. */
  function Through(mem: Memory, l: nat, v: Word, va: nat): Option<nat> {
    match Decode(l, v)
    case Fault => None
    case Leaf(base) => Some(base + Offset(va, l))
    case Pointer(y) => if l == 0 then None else HwWalk(VMSA, mem, y, l - 1, va)
  }

  lemma Entered(mem: Memory, tab: Labels, r0: nat, v0: nat, z: nat, k: nat) returns (q: nat)
    requires Inv(mem, tab) && IsRoot(tab, r0) && k < TOP && Uses(FORMAT, mem, r0, TOP, v0, z, k) && PageInside(mem, z)
    ensures var s := Slot(FORMAT, q, v0, k + 1);
            OwnedSlot(FORMAT, mem, tab, r0, v0, k + 1, q, s) && s < |mem| &&
            UnmapTable(mem, r0, v0, 0x1000 * z) == mem[s := mem[512 * z]]
  {
    UnmapTableIs(mem, tab, r0, v0, z);
    UsedOnPath(FORMAT, mem, tab, r0, r0, TOP, v0, z, k);
    q := ParentOf(FORMAT, mem, tab, r0, v0, z, k);
  }

  lemma InsideTranslates(mem: Memory, tab: Labels, r0: nat, v0: nat, l: nat, q: nat, v: Word, va: nat)
    requires Inv(mem, tab) && l <= TOP && Agree(FORMAT, va, v0, l)
    requires var s := Slot(FORMAT, q, v0, l); OwnedSlot(FORMAT, mem, tab, r0, v0, l, q, s) && s < |mem|
    ensures HwWalk(VMSA, mem[Slot(FORMAT, q, v0, l) := v], r0, TOP, va) ==
            Through(mem[Slot(FORMAT, q, v0, l) := v], l, v, va)
  {
    var s := Slot(FORMAT, q, v0, l);
    SameIndices();
    SharedSlot(FORMAT, mem, r0, TOP, v0, va, q, l);
    HwReaches(VMSA, FORMAT, mem, mem[s := v], tab, r0, r0, TOP, va, q, l, s);
    assert VpnField(va, l) == FORMAT.index(v0, l);
    ThroughHere(mem[s := v], q, l, v, va);
  }

  lemma ThroughHere(mem: Memory, q: nat, l: nat, v: Word, va: nat)
    requires 512 * q + VpnField(va, l) < |mem| && mem[512 * q + VpnField(va, l)] == v
    ensures HwWalk(VMSA, mem, q, l, va) == Through(mem, l, v, va)
  {
    WalkHere(VMSA, mem, q, l, va);
  }

  lemma OutsideTranslates(mem: Memory, tab: Labels, r0: nat, v0: nat, l: nat, q: nat, v: Word, r: nat, va: nat)
    requires Inv(mem, tab) && IsRoot(tab, r) && l <= TOP && !(r == r0 && Agree(FORMAT, va, v0, l))
    requires var s := Slot(FORMAT, q, v0, l); OwnedSlot(FORMAT, mem, tab, r0, v0, l, q, s) && s < |mem|
    ensures HwWalk(VMSA, mem[Slot(FORMAT, q, v0, l) := v], r, TOP, va) == HwWalk(VMSA, mem, r, TOP, va)
  {
    var s := Slot(FORMAT, q, v0, l);
    SameIndices();
    ReadsExactly(FORMAT, mem, tab, r0, v0, l, q, s, r, va);
    HwFrame(VMSA, FORMAT, mem, tab, r, r, TOP, va, s, v);
  }

  /** The exact translation afterwards of every address of every space: the removed
      table's range goes through its first entry, everything else is as before. */
  lemma RemovedTranslates(mem: Memory, tab: Labels, r0: nat, v0: nat, z: nat, k: nat, r: nat, va: nat)
    requires Inv(mem, tab) && IsRoot(tab, r0) && IsRoot(tab, r) && v0 < TOP_BITS && va < TOP_BITS
    requires k < TOP && Uses(FORMAT, mem, r0, TOP, v0, z, k) && PageInside(mem, z)
    ensures var mem' := UnmapTable(mem, r0, v0, 0x1000 * z);
            Translate(mem', r, va) ==
            if r == r0 && va / Span(k + 1) == v0 / Span(k + 1) then Through(mem', k + 1, mem[512 * z], va)
            else Translate(mem, r, va)
  {
    var q := Entered(mem, tab, r0, v0, z, k);
    AgreeIsRange(va, v0, k + 1);
    if r == r0 && Agree(FORMAT, va, v0, k + 1) {
      InsideTranslates(mem, tab, r0, v0, k + 1, q, mem[512 * z], va);
    } else {
      OutsideTranslates(mem, tab, r0, v0, k + 1, q, mem[512 * z], r, va);
    }
  }

  // ----- when the range stops translating

  /** No entry of page `p`, read as a table at level `l`, leads to memory. */
  ghost predicate Barren(mem: Memory, p: nat, l: nat)
    decreases l, 1, p
  {
    forall i: Entry :: BarrenEntry(mem, p, i, l)
  }

  ghost predicate BarrenEntry(mem: Memory, p: nat, i: Entry, l: nat)
    decreases l, 0, p
  {
    var s := 512 * p + i;
    s < |mem| ==> BarrenWord(mem, l, mem[s])
  }

  /** An entry with this word at level `l` leads to no memory. */
  ghost predicate BarrenWord(mem: Memory, l: nat, v: Word)
    decreases l, 0, -1
  {
    match Decode(l, v)
    case Fault => true
    case Leaf(_) => false
    case Pointer(n) => l == 0 || Barren(mem, n, l - 1)
  }

  lemma {:induction false} BarrenFaults(mem: Memory, p: nat, l: nat, va: nat)
    requires Barren(mem, p, l)
    ensures HwWalk(VMSA, mem, p, l, va) == None
    decreases l
  {
    var i := VpnField(va, l);
    assert BarrenEntry(mem, p, i, l);
    if 512 * p + i < |mem| {
      var w := mem[512 * p + i];
      assert BarrenWord(mem, l, w);
      WalkHere(VMSA, mem, p, l, va);
      if Decode(l, w).Pointer? && l > 0 {
        BarrenFaults(mem, Decode(l, w).page, l - 1, va);
      }
    }
  }

  /** Entry `i` of a level-`l` table is the one for the i-th stretch of its range. */
  lemma Stretch(base: nat, l: nat, i: Entry, va: nat)
    requires l <= 2 && base % (512 * Span(l)) == 0 && base + i * Span(l) <= va < base + i * Span(l) + Span(l)
    ensures VpnField(va, l) == i && (base + i * Span(l)) % Span(l) == 0
    ensures va < base + 512 * Span(l)
  {
    var b := base / (512 * Span(l));
    assert base == b * (512 * Span(l));
    DivModUnique(va, Span(l), 512 * b + i, va - base - i * Span(l));
    DivModUnique(base + i * Span(l), Span(l), 512 * b + i, 0);
  }

  lemma {:induction false} NotBarren(mem: Memory, p: nat, l: nat, base: nat) returns (va: nat)
    requires l <= 2 && base % (512 * Span(l)) == 0 && !Barren(mem, p, l)
    ensures base <= va < base + 512 * Span(l) && HwWalk(VMSA, mem, p, l, va).Some?
    decreases l
  {
    var i: Entry :| !BarrenEntry(mem, p, i, l);
    va := base + i * Span(l);
    Stretch(base, l, i, va);
    var w := mem[512 * p + i];
    assert !BarrenWord(mem, l, w);
    if Decode(l, w).Pointer? {
      va := NotBarren(mem, Decode(l, w).page, l - 1, va);
      Stretch(base, l, i, va);
    }
    WalkHere(VMSA, mem, p, l, va);
  }

  /** `unmap_page_table` makes the whole range of the removed table stop translating
      exactly when the table's first entry, read at the level of the slot that named the
      table, leads to no memory, in memory as the call leaves it. */
  lemma UnmapTableClears(mem: Memory, tab: Labels, r: nat, v0: nat, z: nat, k: nat)
    requires Inv(mem, tab) && IsRoot(tab, r) && v0 < TOP_BITS
    requires k < TOP && Uses(FORMAT, mem, r, TOP, v0, z, k) && PageInside(mem, z)
    ensures var mem' := UnmapTable(mem, r, v0, 0x1000 * z);
            (forall va: nat :: va < TOP_BITS && va / Span(k + 1) == v0 / Span(k + 1) ==> Translate(mem', r, va) == None)
            <==> BarrenWord(mem', k + 1, mem[512 * z])
  {
    var mem', v := UnmapTable(mem, r, v0, 0x1000 * z), mem[512 * z];
    if BarrenWord(mem', k + 1, v) {
      forall va: nat | va < TOP_BITS && va / Span(k + 1) == v0 / Span(k + 1)
        ensures Translate(mem', r, va) == None
      {
        RemovedTranslates(mem, tab, r, v0, z, k, r, va);
        if Decode(k + 1, v).Pointer? {
          BarrenFaults(mem', Decode(k + 1, v).page, k, va);
        }
      }
    } else {
      var va := Reached(mem', k + 1, v, v0);
      RemovedTranslates(mem, tab, r, v0, z, k, r, va);
    }
  }

  /** No table reached from page `p` at level `l` is page `q`. */
  ghost predicate Avoids(mem: Memory, p: nat, l: nat, q: nat)
    decreases l, 1, p
  {
    p != q && forall i: Entry :: EntryAvoids(mem, p, i, l, q)
  }

  ghost predicate EntryAvoids(mem: Memory, p: nat, i: Entry, l: nat, q: nat)
    decreases l, 0, p
  {
    var s := 512 * p + i;
    s < |mem| && l > 0 && Decode(l, mem[s]).Pointer? ==> Avoids(mem, Decode(l, mem[s]).page, l - 1, q)
  }

  lemma {:induction false} BarrenFrame(mem: Memory, s: nat, v: Word, p: nat, l: nat)
    requires s < |mem| && Avoids(mem, p, l, s / 512)
    ensures Barren(mem[s := v], p, l) <==> Barren(mem, p, l)
    decreases l
  {
    var mem' := mem[s := v];
    forall i: Entry
      ensures BarrenEntry(mem', p, i, l) <==> BarrenEntry(mem, p, i, l)
    {
      var t := 512 * p + i;
      assert EntryAvoids(mem, p, i, l, s / 512);
      if t < |mem| {
        assert mem'[t] == mem[t];
        var e := Decode(l, mem[t]);
        if e.Pointer? && l > 0 {
          BarrenFrame(mem, s, v, e.page, l - 1);
        }
        assert BarrenWord(mem', l, mem[t]) <==> BarrenWord(mem, l, mem[t]);
      }
    }
    SameBarren(mem, mem', p, l);
  }

  lemma SameBarren(mem: Memory, mem': Memory, p: nat, l: nat)
    requires forall i: Entry :: BarrenEntry(mem', p, i, l) <==> BarrenEntry(mem, p, i, l)
    ensures Barren(mem', p, l) <==> Barren(mem, p, l)
  {
    if Barren(mem, p, l) {
      forall i: Entry
        ensures BarrenEntry(mem', p, i, l)
      {
        assert BarrenEntry(mem, p, i, l);
      }
    }
    if Barren(mem', p, l) {
      forall i: Entry
        ensures BarrenEntry(mem, p, i, l)
      {
        assert BarrenEntry(mem', p, i, l);
      }
    }
  }

  /** The condition can be read off memory before the call, unless the page that holds
      the slot lies behind the first entry. */
  lemma ClearsBefore(mem: Memory, tab: Labels, r: nat, v0: nat, z: nat, k: nat, q: nat)
    requires Inv(mem, tab) && IsRoot(tab, r) && v0 < TOP_BITS
    requires k < TOP && Uses(FORMAT, mem, r, TOP, v0, z, k) && PageInside(mem, z)
    requires Uses(FORMAT, mem, r, TOP, v0, q, k + 1)
    requires var e := Decode(k + 1, mem[512 * z]); e.Pointer? ==> Avoids(mem, e.page, k, q)
    ensures (forall va: nat :: va < TOP_BITS && va / Span(k + 1) == v0 / Span(k + 1) ==>
               Translate(UnmapTable(mem, r, v0, 0x1000 * z), r, va) == None)
            <==> BarrenWord(mem, k + 1, mem[512 * z])
  {
    var v := mem[512 * z];
    UnmapTableClears(mem, tab, r, v0, z, k);
    var p := Entered(mem, tab, r, v0, z, k);
    OneTable(mem, r, v0, p, q, k + 1);
    var s := Slot(FORMAT, q, v0, k + 1);
    assert s / 512 == q;
    if Decode(k + 1, v).Pointer? {
      BarrenFrame(mem, s, v, Decode(k + 1, v).page, k);
    }
  }

  /** A walk uses one table at a level. */
  lemma OneTable(mem: Memory, r: nat, va: nat, p: nat, q: nat, l: nat)
    requires Uses(FORMAT, mem, r, TOP, va, p, l) && Uses(FORMAT, mem, r, TOP, va, q, l)
    ensures p == q
  {
    FollowUsed(FORMAT, mem, r, TOP, va, p, l);
    FollowUsed(FORMAT, mem, r, TOP, va, q, l);
  }

  lemma Reached(mem: Memory, l: nat, v: Word, v0: nat) returns (va: nat)
    requires 0 < l <= TOP && v0 < TOP_BITS && !BarrenWord(mem, l, v)
    ensures va < TOP_BITS && va / Span(l) == v0 / Span(l) && Through(mem, l, v, va).Some?
  {
    va := v0;
    if Decode(l, v).Pointer? {
      var base := v0 / Span(l) * Span(l);
      RangeOf(v0, l);
      va := NotBarren(mem, Decode(l, v).page, l - 1, base);
      DivModUnique(va, Span(l), v0 / Span(l), va - base);
    }
  }

  lemma RangeOf(v0: nat, l: nat)
    requires 0 < l <= TOP && v0 < TOP_BITS
    ensures var base := v0 / Span(l) * Span(l);
            base % (512 * Span(l - 1)) == 0 && Span(l) == 512 * Span(l - 1) && base + Span(l) <= TOP_BITS
  {
  }

  /** A faulting first entry is not needed: a directory whose first table is empty is
      removed without a trace too. */
  lemma EmptyFirstTable(mem: Memory, tab: Labels, r: nat, v0: nat, z: nat, k: nat, y: nat, va: nat)
    requires Inv(mem, tab) && IsRoot(tab, r) && v0 < TOP_BITS && va < TOP_BITS && va / Span(k + 1) == v0 / Span(k + 1)
    requires k < TOP && Uses(FORMAT, mem, r, TOP, v0, z, k) && PageInside(mem, z)
    requires IsTable(mem[512 * z]) && GetPage(mem[512 * z]) == y && AllInvalid(mem, y)
    ensures Decode(k + 1, mem[512 * z]) == Pointer(y)
    ensures Translate(UnmapTable(mem, r, v0, 0x1000 * z), r, va) == None
  {
    var mem', v := UnmapTable(mem, r, v0, 0x1000 * z), mem[512 * z];
    TypesDecode(k + 1, v);
    var q := Entered(mem, tab, r, v0, z, k);
    TablesApart(mem, tab, r, v0, z, k, q, y);
    assert Barren(mem', y, k) by {
      forall i: Entry
        ensures BarrenEntry(mem', y, i, k)
      {
        assert mem'[512 * y + i] == mem[512 * y + i];
        TypesDecode(k, mem[512 * y + i]);
      }
    }
    assert BarrenWord(mem', k + 1, v);
    UnmapTableClears(mem, tab, r, v0, z, k);
  }

  lemma TablesApart(mem: Memory, tab: Labels, r: nat, v0: nat, z: nat, k: nat, q: nat, y: nat)
    requires Inv(mem, tab) && IsRoot(tab, r) && k < TOP && PageInside(mem, z)
    requires Uses(FORMAT, mem, r, TOP, v0, z, k) && Uses(FORMAT, mem, r, TOP, v0, q, k + 1)
    requires IsTable(mem[512 * z]) && GetPage(mem[512 * z]) == y
    ensures q != y
  {
    UsedOnPath(FORMAT, mem, tab, r, r, TOP, v0, z, k);
    UsedOnPath(FORMAT, mem, tab, r, r, TOP, v0, q, k + 1);
    assert EntryOk(FORMAT, mem, tab, z, 0);
  }

  // ----- an input where the range does not stop translating

  /** A root, an upper directory and a directory in pages 0, 1 and 2, one entry each; the
      directory's is a 2 MiB block. */
  function OneBlock(): Memory {
    seq<Word>(1536, i => if i == 0 then 0x1003 else if i == 512 then 0x2003 else if i == 1024 then 0x4000_0001 else 0)
  }

  function OneBlockTables(): Labels {
    map[0 := Own(0, []), 1 := Own(0, [0]), 2 := Own(0, [0, 0])]
  }

  lemma OneBlockInv()
    ensures Inv(OneBlock(), OneBlockTables()) && IsRoot(OneBlockTables(), 0)
  {
    var mem, tab := OneBlock(), OneBlockTables();
    forall p, i: Entry | p in tab
      ensures PlaceOk(FORMAT, tab[p]) && PageInside(mem, p) && EntryOk(FORMAT, mem, tab, p, i)
    {
      OneBlockEntry(p, i);
    }
    forall p | p in tab
      ensures CleanPage(VMSA, FORMAT, mem, p, LevelOf(FORMAT, tab[p]))
    {
      forall s | 512 * p <= s < 512 * p + 512
        ensures CleanWord(VMSA, FORMAT, LevelOf(FORMAT, tab[p]), mem[s])
      {
        CleanIs(LevelOf(FORMAT, tab[p]), mem[s]);
      }
    }
  }

  lemma OneBlockEntry(p: nat, i: Entry)
    requires p in OneBlockTables()
    ensures PlaceOk(FORMAT, OneBlockTables()[p]) && PageInside(OneBlock(), p)
    ensures EntryOk(FORMAT, OneBlock(), OneBlockTables(), p, i)
  {
    var w := OneBlock()[512 * p + i];
    if p == 0 && i == 0 {
      assert GetPage(w) == 1;
    } else if p == 1 && i == 0 {
      assert GetPage(w) == 2;
    } else {
      assert !IsTable(w);
    }
  }

  /** The walk of address 0 uses table `z` at level 1, and its first entry is the block. */
  ghost predicate BlockFirst(mem: Memory, tab: Labels, r: nat, z: nat) {
    Inv(mem, tab) && IsRoot(tab, r) && Uses(FORMAT, mem, r, TOP, 0, z, 1) &&
    PageInside(mem, z) && mem[512 * z] == 0x4000_0001
  }

  /** Removing the directory makes its whole gigabyte a block: an address that had no
      translation gets one. */
  lemma RemovalMaps(root: nat, z: nat, va: nat)
    requires root == 0 && z == 2 && 0x20_0000 <= va < 0x40_0000
    ensures BlockFirst(OneBlock(), OneBlockTables(), root, z)
    ensures Translate(OneBlock(), root, va) == None
    ensures Translate(UnmapTable(OneBlock(), root, 0, 0x1000 * z), root, va) == Some(0x4000_0000 + va)
  {
    OneBlockFaults(root, va);
    OneBlockStart(root, z);
    BecomesBlock(OneBlock(), OneBlockTables(), root, z, va);
  }

  lemma OneBlockStart(root: nat, z: nat)
    requires root == 0 && z == 2
    ensures BlockFirst(OneBlock(), OneBlockTables(), root, z)
  {
    OneBlockInv();
    OneBlockUses();
    OneBlockFirst(z);
  }

  lemma OneBlockFirst(z: nat)
    requires z == 2
    ensures PageInside(OneBlock(), z) && OneBlock()[512 * z] == 0x4000_0001
  {
  }

  lemma LowGib(va: nat)
    requires va < 0x4000_0000
    ensures va / Span(2) == 0 && va % 0x4000_0000 == va && va < TOP_BITS
  {
  }

  lemma BecomesBlock(mem: Memory, tab: Labels, r: nat, z: nat, va: nat)
    requires BlockFirst(mem, tab, r, z) && va < 0x4000_0000
    ensures Translate(UnmapTable(mem, r, 0, 0x1000 * z), r, va) == Some(0x4000_0000 + va)
  {
    LowGib(va);
    RemovedTranslates(mem, tab, r, 0, z, 1, r, va);
    BlockAbove();
  }

  lemma BlockAbove()
    ensures Decode(2, 0x4000_0001) == Leaf(0x4000_0000)
  {
  }

  lemma OneBlockUses()
    ensures Uses(FORMAT, OneBlock(), 0, TOP, 0, 2, 1)
  {
    var mem := OneBlock();
    assert GetPage(0x1003) == 1 && GetPage(0x2003) == 2 && IsTable(0x1003) && IsTable(0x2003);
    assert mem[0] == 0x1003 && mem[512] == 0x2003;
    assert Uses(FORMAT, mem, 2, 1, 0, 2, 1);
    assert Uses(FORMAT, mem, 1, 2, 0, 2, 1);
  }

  lemma OneBlockFaults(root: nat, va: nat)
    requires root == 0 && 0x20_0000 <= va < 0x40_0000
    ensures HwWalk(VMSA, OneBlock(), root, TOP, va) == None
  {
    var mem := OneBlock();
    OneBlockReads(va);
    assert mem[0] == 0x1003 && mem[512] == 0x2003 && mem[1025] == 0;
    PointerHere(VMSA, mem, root, TOP, va, 1);
    PointerHere(VMSA, mem, 1, 2, va, 2);
    WalkHere(VMSA, mem, 2, 1, va);
  }

  lemma OneBlockReads(va: nat)
    requires 0x20_0000 <= va < 0x40_0000
    ensures Decode(3, 0x1003) == Pointer(1) && Decode(2, 0x2003) == Pointer(2)
    ensures VpnField(va, 3) == 0 && VpnField(va, 2) == 0 && VpnField(va, 1) == 1
  {
  }
}
