/** The AArch64 address-space operations as the kernel performs them: on memory
    through byte pointers, on the ASID table and pools, and on TTBR0. */
module ArmKernel {
  import opened Words
  import opened Options
  import opened PageTables
  import opened Pointers
  import opened PageTableUpdates
  import opened VirtualAddresses
  import opened ArmPte
  import opened ArmWalk
  import opened ArmSpaces
  import A = AsidPools

  /** An ASID pool entry. */
  datatype AsidMap = NoMap | VSpace(root: nat)

  function RootOf(e: AsidMap): Option<nat> {
    match e
    case NoMap => None
    case VSpace(root) => Some(root)
  }

  /** A capability that is a valid native root, or any other. */
  datatype Cap = VSpaceCap(basePtr: nat, mappedAsid: nat) | OtherCap

  /** What the kernel has done that hardware may notice. */
  datatype Event =
    | Stored(slot: nat, word: Word)
    | CleanedToPou(ptr: nat)
    | InvalidatedAsid(asid: nat)
    | InvalidatedRemoteAsid(asid: nat)
    | SlotSet(index: nat, pool: nat)
    | UserRootSet(ttbr: nat)

  /** `ttbr_new` */
  function TtbrNew(asid: nat, addr: nat): nat {
    asid % 0x1_0000 * TOP_BITS + addr % TOP_BITS
  }

  class Kernel {
    const words: array<Word>
    const offset: nat
    const globalUserRoot: nat
    const split: A.Split
    const asidTable: array<nat>
    const smp: bool
    var pools: map<nat, seq<AsidMap>>
    var userTtbr: nat
    ghost var log: seq<Event>

    constructor (words: array<Word>, offset: nat, globalUserRoot: nat, split: A.Split, asidTable: array<nat>, smp: bool)
      requires asidTable.Length == Pow2(split.high)
      ensures this.words == words && this.offset == offset && this.globalUserRoot == globalUserRoot &&
              this.split == split
      ensures this.asidTable == asidTable && this.smp == smp && pools == map[] && userTtbr == 0 && log == []
    {
      this.words, this.offset, this.globalUserRoot, this.split := words, offset, globalUserRoot, split;
      this.asidTable, this.smp := asidTable, smp;
      pools, userTtbr, log := map[], 0, [];
    }

    method StoreWord(ptr: nat, w: Word)
      requires WordPtr(words, offset, ptr)
      modifies words, `log
      ensures words[..] == old(words[..])[WordAt(offset, ptr) := w]
      ensures log == old(log) + [Stored(WordAt(offset, ptr), w)]
    {
      words[WordAt(offset, ptr)] := w;
      log := log + [Stored(WordAt(offset, ptr), w)];
    }

    // ----- the walk

    method LookupPtSlot(root: nat, vptr: nat) returns (ptSlot: nat, ptBitsLeft: nat)
      requires PagePtr(offset, root) && Safe(FORMAT, words[..], PageAt(offset, root), TOP, vptr)
      ensures var w := StopOf(words[..], PageAt(offset, root), vptr);
              ptSlot == SlotPtr(offset, w.slot) && ptBitsLeft == BitsLeft(w.level) &&
              w.slot < words.Length && WordPtr(words, offset, ptSlot) && WordAt(offset, ptSlot) == w.slot
    {
      ghost var mem := words[..];
      ghost var p := PageAt(offset, root);
      var level: nat := TOP;
      ptBitsLeft := INDEX_BITS * level + PAGE_BITS;
      var pt := SlotAt(FORMAT, words, offset, root, vptr, level, PtIndex(vptr, level));
      ptSlot := pt;
      var entry := Load(words, offset, ptSlot);
      while GetType(entry) == TABLE && level > 0
        invariant level <= TOP && ptBitsLeft == BitsLeft(level)
        invariant Safe(FORMAT, mem, p, level, vptr)
        invariant ptSlot == SlotPtr(offset, Slot(FORMAT, p, vptr, level)) && WordPtr(words, offset, ptSlot)
        invariant WordAt(offset, ptSlot) == Slot(FORMAT, p, vptr, level) && entry == mem[WordAt(offset, ptSlot)]
        invariant Walk(FORMAT, mem, p, level, vptr) == StopOf(mem, PageAt(offset, root), vptr)
        decreases level
      {
        level := level - 1;
        ptBitsLeft := ptBitsLeft - INDEX_BITS;
        pt := AddrField(entry) + offset;
        p := GetPage(entry);
        assert pt == TableOf(offset, p);
        pt := SlotAt(FORMAT, words, offset, pt, vptr, level, PtIndex(vptr, level));
        ptSlot := pt;
        entry := Load(words, offset, ptSlot);
      }
    }

    // ----- the boot mappings

    /** `next_level_slice` of the word at `ptr`. */
    method NextTable(ptr: nat) returns (table: nat)
      requires WordPtr(words, offset, ptr)
      ensures PagePtr(offset, table) && PageAt(offset, table) == GetPage(words[..][WordAt(offset, ptr)])
    {
      var w := Load(words, offset, ptr);
      table := AddrField(w) + offset;
      assert table == TableOf(offset, GetPage(w));
    }

    /** `next_level_slice` of the entry of `table` that `va` selects. */
    method Down(table: nat, va: nat, l: nat, ghost k: nat) returns (next: nat)
      requires PagePtr(offset, table) && l > k && FollowSafe(words[..], PageAt(offset, table), l, va, k)
      ensures PagePtr(offset, next) && FollowSafe(words[..], PageAt(offset, next), l - 1, va, k)
      ensures Follow(FORMAT, words[..], PageAt(offset, next), l - 1, va, k) ==
              Follow(FORMAT, words[..], PageAt(offset, table), l, va, k)
    {
      FollowStep(words[..], PageAt(offset, table), l, va, k);
      var ptr := SlotAt(FORMAT, words, offset, table, va, l, PtIndex(va, l));
      next := NextTable(ptr);
    }

    /** The entry of `table` that `va` selects. */
    method Here(table: nat, va: nat, l: nat) returns (ptr: nat)
      requires PagePtr(offset, table) && FollowSafe(words[..], PageAt(offset, table), l, va, l)
      ensures WordPtr(words, offset, ptr) && ptr == SlotPtr(offset, WordAt(offset, ptr))
      ensures WordAt(offset, ptr) == Follow(FORMAT, words[..], PageAt(offset, table), l, va, l)
    {
      FollowStep(words[..], PageAt(offset, table), l, va, l);
      ptr := SlotAt(FORMAT, words, offset, table, va, l, PtIndex(va, l));
    }

    /** `find_pt`: level 2 is a PUD entry, 1 a PD entry, 0 a page-table entry. */
    method FindPt(root: nat, va: nat, level: nat) returns (ptr: nat)
      requires PagePtr(offset, root) && level < TOP && FollowSafe(words[..], PageAt(offset, root), TOP, va, level)
      ensures WordPtr(words, offset, ptr) && WordAt(offset, ptr) == FindSlot(words[..], PageAt(offset, root), va, level)
      ensures ptr == SlotPtr(offset, WordAt(offset, ptr))
    {
      var pud := Down(root, va, TOP, level);
      if level == 2 {
        ptr := Here(pud, va, level);
        return;
      }
      var pd := Down(pud, va, 2, level);
      if level == 1 {
        ptr := Here(pd, va, level);
        return;
      }
      var pt := Down(pd, va, 1, level);
      ptr := Here(pt, va, level);
    }

    method MapItPudCap(root: nat, pudPtr: nat, va: nat)
      requires PagePtr(offset, root) && FollowSafe(words[..], PageAt(offset, root), TOP, va, 3) &&
               offset <= pudPtr < offset + WORD_LIMIT
      modifies words, `log
      ensures words[..] == MapPud(old(words[..]), PageAt(offset, root), pudPtr - offset, va)
      ensures log == old(log) +
                     [Stored(FindSlot(old(words[..]), PageAt(offset, root), va, 3), NewTable(pudPtr - offset))]
    {
      var slot := Here(root, va, TOP);
      StoreWord(slot, NewPage(pudPtr - offset, 3));
    }

    /** The source asserts that the root's entry has attribute bits 3. */
    method MapItPdCap(root: nat, pdPtr: nat, va: nat)
      requires PagePtr(offset, root) && FollowSafe(words[..], PageAt(offset, root), TOP, va, 2)
      requires offset <= pdPtr < offset + WORD_LIMIT
      requires AttrField(words[..][FindSlot(words[..], PageAt(offset, root), va, 3)]) == 3
      modifies words, `log
      ensures words[..] == MapPd(old(words[..]), PageAt(offset, root), pdPtr - offset, va)
      ensures log == old(log) +
                     [Stored(FindSlot(old(words[..]), PageAt(offset, root), va, 2), NewTable(pdPtr - offset))]
    {
      var pud := Down(root, va, TOP, 2);
      var slot := Here(pud, va, 2);
      StoreWord(slot, NewPage(pdPtr - offset, 3));
    }

    method MapItPtCap(root: nat, ptPtr: nat, va: nat)
      requires PagePtr(offset, root) && FollowSafe(words[..], PageAt(offset, root), TOP, va, 1)
      requires offset <= ptPtr < offset + WORD_LIMIT
      modifies words, `log
      ensures words[..] == MapPt(old(words[..]), PageAt(offset, root), ptPtr - offset, va)
      ensures var s := FindSlot(old(words[..]), PageAt(offset, root), va, 1);
              s < words.Length &&
              log == old(log) +
                     [Stored(s, SetNextLevel(old(words[..])[s], ptPtr - offset)), Stored(s, NewTable(ptPtr - offset))]
    {
      ghost var mem := words[..];
      var slot := FindPt(root, va, 1);
      var w := Load(words, offset, slot);
      StoreWord(slot, SetNextLevel(w, ptPtr - offset));
      var w' := Load(words, offset, slot);
      StoreWord(slot, SetAttr(w', 3));
      BootTableWord(w, ptPtr - offset);
      StoredTwice(mem, WordAt(offset, slot), w', NewTable(ptPtr - offset));
    }

    method MapItFrameCap(root: nat, framePtr: nat, va: nat, exec: bool)
      requires PagePtr(offset, root) && FollowSafe(words[..], PageAt(offset, root), TOP, va, 0) &&
               offset <= framePtr < offset + WORD_LIMIT
      modifies words, `log
      ensures words[..] == MapFrame(old(words[..]), PageAt(offset, root), framePtr - offset, va, exec, smp)
      ensures var s, x := FindSlot(old(words[..]), PageAt(offset, root), va, 0), BootFields(exec, smp);
              s < words.Length &&
              log == old(log) +
                     [Stored(s, SetAttr(old(words[..])[s], New4kPage(x, 0))),
                      Stored(s, New4kPage(x, framePtr - offset))]
    {
      ghost var mem := words[..];
      var slot := FindPt(root, va, 0);
      var w := Load(words, offset, slot);
      StoreWord(slot, SetAttr(w, New4kPage(BootFields(exec, smp), 0)));
      var w' := Load(words, offset, slot);
      StoreWord(slot, SetNextLevel(w', framePtr - offset));
      BootPageWord(w, framePtr - offset, exec, smp);
      StoredTwice(mem, WordAt(offset, slot), w', New4kPage(BootFields(exec, smp), framePtr - offset));
    }

    // ----- the ASID table

    function Asids(): A.State<AsidMap>
      reads this`pools, asidTable
    {
      A.State(asidTable[..], pools)
    }

    /** The table and its pools have their sizes, and slots hold pools or null. */
    ghost predicate PoolsOk()
      reads this`pools, asidTable
    {
      asidTable.Length == Pow2(split.high) &&
      (forall p :: p in pools ==> |pools[p]| == Pow2(split.low)) &&
      (forall i :: 0 <= i < asidTable.Length && asidTable[i] != 0 ==> asidTable[i] in pools)
    }

    /** `asid` is one the table can hold and a TLB invalidation accepts. */
    ghost predicate AsidOk(asid: nat) {
      A.InRange(split, asid) && asid < 0x1_0000
    }

    method FindMapForAsid(asid: nat) returns (m: Option<AsidMap>)
      requires PoolsOk() && A.InRange(split, asid)
      ensures A.Hi(split, asid) < asidTable.Length
      ensures var p := asidTable[A.Hi(split, asid)];
              if p == 0 then m.None?
              else A.Lo(split, asid) < |pools[p]| && m == Some(pools[p][A.Lo(split, asid)])
    {
      A.SplitAsid(split, asid);
      var p := asidTable[A.Hi(split, asid)];
      if p != 0 {
        return Some(pools[p][A.Lo(split, asid)]);
      }
      m := None;
    }

    method FindVspaceForAsid(asid: nat) returns (root: Option<nat>)
      requires PoolsOk() && A.InRange(split, asid)
      ensures root == A.Find(split, Asids(), RootOf, asid)
    {
      var m := FindMapForAsid(asid);
      root := None;
      if m.Some? && m.value.VSpace? {
        root := Some(m.value.root);
      }
    }

    method SetAsidPoolByIndex(index: nat, pool: nat)
      requires index < asidTable.Length
      modifies asidTable, `log
      ensures asidTable[..] == old(asidTable[..])[index := pool] && log == old(log) + [SlotSet(index, pool)]
    {
      asidTable[index] := pool;
      log := log + [SlotSet(index, pool)];
    }

    method WriteItAsidPool(ap: nat, root: nat, itAsid: nat)
      requires PoolsOk() && A.InRange(split, itAsid) && ap in pools && itAsid < Pow2(split.low)
      modifies this`pools, asidTable, `log
      ensures pools == old(pools)[ap := old(pools)[ap][itAsid := VSpace(root)]]
      ensures A.Hi(split, itAsid) < asidTable.Length
      ensures asidTable[..] == old(asidTable[..])[A.Hi(split, itAsid) := ap]
    {
      A.SplitAsid(split, itAsid);
      pools := pools[ap := pools[ap][itAsid := VSpace(root)]];
      SetAsidPoolByIndex(A.Hi(split, itAsid), ap);
    }

    // ----- the user root and the TLB

    method SetCurrentUserVspaceRoot(ttbr: nat)
      modifies `userTtbr, `log
      ensures userTtbr == ttbr && log == old(log) + [UserRootSet(ttbr)]
    {
      userTtbr := ttbr;
      log := log + [UserRootSet(ttbr)];
    }

    /** The global root is installed only when the ASID is bound to another root; if
        the lookup finds nothing, the thread's root is installed all the same. */
    method SetVmRoot(root: Cap)
      requires PoolsOk()
      requires root.VSpaceCap? ==> root.basePtr >= offset && A.InRange(split, root.mappedAsid)
      modifies `userTtbr, `log
      ensures userTtbr == VmRootTtbr(split, Asids(), offset, globalUserRoot, root)
      ensures log == old(log) + [UserRootSet(userTtbr)]
    {
      if root.OtherCap? {
        SetCurrentUserVspaceRoot(TtbrNew(0, globalUserRoot));
        return;
      }
      var found := FindVspaceForAsid(root.mappedAsid);
      if found.Some? {
        if found.value != root.basePtr {
          SetCurrentUserVspaceRoot(TtbrNew(0, globalUserRoot));
          return;
        }
      }
      SetCurrentUserVspaceRoot(root.basePtr - offset);
    }

    method InvalidateTlbByAsid(asid: nat)
      requires asid < 0x1_0000
      modifies `log
      ensures log == old(log) + TlbLog(asid, smp)
    {
      log := log + [InvalidatedAsid(asid)];
      if smp {
        log := log + [InvalidatedRemoteAsid(asid)];
      }
    }

    method DeleteAsid(asid: nat, vspace: nat, defaultCap: Cap)
      requires PoolsOk() && AsidOk(asid)
      requires defaultCap.VSpaceCap? ==> defaultCap.basePtr >= offset && A.InRange(split, defaultCap.mappedAsid)
      modifies this`pools, `userTtbr, `log
      ensures Asids() == A.DeleteAsid(split, old(Asids()), RootOf, asid, vspace, NoMap)
      ensures if A.Find(split, old(Asids()), RootOf, asid) == Some(vspace)
              then userTtbr == VmRootTtbr(split, Asids(), offset, globalUserRoot, defaultCap) &&
                   log == old(log) + [InvalidatedAsid(asid), UserRootSet(userTtbr)]
              else userTtbr == old(userTtbr) && log == old(log)
    {
      A.SplitAsid(split, asid);
      var p := asidTable[A.Hi(split, asid)];
      if p != 0 {
        var m := pools[p][A.Lo(split, asid)];
        if m.VSpace? && m.root == vspace {
          log := log + [InvalidatedAsid(asid)];
          pools := pools[p := pools[p][A.Lo(split, asid) := NoMap]];
          SetVmRoot(defaultCap);
        }
      }
    }

    /** Every bound entry of the pool is invalidated in turn, then the slot cleared. */
    method DeleteAsidPool(asidBase: nat, pool: nat, defaultCap: Cap)
      requires PoolsOk() && A.InRange(split, asidBase) && pool != 0
      requires asidBase + Pow2(split.low) <= 0x1_0000
      requires defaultCap.VSpaceCap? ==> defaultCap.basePtr >= offset && A.InRange(split, defaultCap.mappedAsid)
      modifies asidTable, `userTtbr, `log
      ensures A.Hi(split, asidBase) < asidTable.Length
      ensures Asids() == A.DeletePool(split, old(Asids()), asidBase, pool)
      ensures if old(asidTable[..])[A.Hi(split, asidBase)] == pool
              then pool in pools && |pools[pool]| == Pow2(split.low) &&
                   userTtbr == VmRootTtbr(split, Asids(), offset, globalUserRoot, defaultCap) &&
                   log == old(log) + PoolLog(pools[pool], asidBase, Pow2(split.low)) +
                          [SlotSet(A.Hi(split, asidBase), 0), UserRootSet(userTtbr)]
              else userTtbr == old(userTtbr) && log == old(log)
    {
      A.SplitAsid(split, asidBase);
      var poolInTable := asidTable[A.Hi(split, asidBase)];
      if pool == poolInTable {
        var entries := pools[pool];
        var offset' := 0;
        while offset' < Pow2(split.low)
          invariant offset' <= Pow2(split.low) && asidTable[..] == old(asidTable[..]) && userTtbr == old(userTtbr)
          invariant log == old(log) + PoolLog(entries, asidBase, offset')
        {
          if entries[offset'].VSpace? {
            log := log + [InvalidatedAsid(asidBase + offset')];
          }
          offset' := offset' + 1;
        }
        SetAsidPoolByIndex(A.Hi(split, asidBase), 0);
        assert forall i :: 0 <= i < asidTable.Length ==> asidTable[i] == asidTable[..][i];
        SetVmRoot(defaultCap);
      }
    }

    // ----- unmapping

    method Update(ptSlot: nat, pte: Word)
      requires WordPtr(words, offset, ptSlot)
      modifies words, `log
      ensures words[..] == old(words[..])[WordAt(offset, ptSlot) := pte]
      ensures log == old(log) + [Stored(WordAt(offset, ptSlot), pte), CleanedToPou(ptSlot)]
    {
      StoreWord(ptSlot, pte);
      log := log + [CleanedToPou(ptSlot)];
    }

    /** Zeroes the slot, then stores through `update` what `from` then holds. */
    method ClearAndUpdate(ptSlot: nat, from: nat)
      requires WordPtr(words, offset, ptSlot) && WordPtr(words, offset, from)
      modifies words, `log
      ensures var s := WordAt(offset, ptSlot);
              var w := old(words[..])[s := 0][WordAt(offset, from)];
              words[..] == old(words[..])[s := w] && log == old(log) + ClearLog(s, ptSlot, w)
    {
      ghost var mem := words[..];
      StoreWord(ptSlot, 0);
      var pte := Load(words, offset, from);
      Update(ptSlot, pte);
      StoredTwice(mem, WordAt(offset, ptSlot), 0, pte);
    }

    /** `pageBits` is what `pageBitsForSize` gives for the caller's page size. */
    method UnmapPage(pageBits: nat, asid: nat, vptr: nat, pptr: nat)
      requires PoolsOk() && AsidOk(asid) && pptr >= offset
      requires A.Find(split, Asids(), RootOf, asid).Some? ==>
                 var root := A.Find(split, Asids(), RootOf, asid).value;
                 PagePtr(offset, root) && Safe(FORMAT, words[..], PageAt(offset, root), TOP, vptr)
      modifies words, `log
      ensures match A.Find(split, old(Asids()), RootOf, asid)
              case None => words[..] == old(words[..]) && log == old(log)
              case Some(root) =>
                words[..] == Unmap(old(words[..]), pageBits, PageAt(offset, root), vptr, pptr - offset) &&
                log == old(log) +
                  if Unmappable(ViewAt(FORMAT, old(words[..]), PageAt(offset, root), vptr), pageBits, pptr - offset)
                  then var s := StopOf(old(words[..]), PageAt(offset, root), vptr).slot;
                       ClearLog(s, SlotPtr(offset, s), 0) + TlbLog(asid, smp)
                  else []
    {
      var found := FindVspaceForAsid(asid);
      if found.None? {
        return;
      }
      var ptSlot, ptBitsLeft := LookupPtSlot(found.value, vptr);
      if ptBitsLeft != pageBits {
        return;
      }
      var pte := Load(words, offset, ptSlot);
      if !(GetType(pte) == PAGE_4K || GetType(pte) == BLOCK) {
        return;
      }
      if AddrField(pte) != pptr - offset {
        return;
      }
      ClearAndUpdate(ptSlot, ptSlot);
      InvalidateTlbByAsid(asid);
    }

    /** The slot that names `pt` on the walk of `vaddr`, if there is one. */
    ghost function ParentOf(mem: Memory, root: nat, vaddr: nat, pt: nat): Option<nat>
      requires PagePtr(offset, root)
    {
      ParentFrom(mem, PageAt(offset, root), TOP, vaddr, pt)
    }

    /** The loop of `unmap_page_table`: the entry it stops behind, if it arrives at `pt`. */
    method FindParent(root: nat, vaddr: nat, pt: nat) returns (ptSlot: Option<nat>)
      requires PagePtr(offset, root) && pt != root && Safe(FORMAT, words[..], PageAt(offset, root), TOP, vaddr)
      ensures match ParentOf(words[..], root, vaddr, pt)
              case None => ptSlot.None?
              case Some(s) =>
                ptSlot.Some? && WordPtr(words, offset, ptSlot.value) && WordAt(offset, ptSlot.value) == s &&
                ptSlot.value == SlotPtr(offset, s)
    {
      ghost var mem, parent := words[..], ParentOf(words[..], root, vaddr, pt);
      var pte := root;
      ghost var p := PageAt(offset, pte);
      var level: nat := 0;
      var slot := 0;
      ghost var s: nat := 0;
      AtPage(root, pt);
      while level < TOP && pte != pt
        invariant level <= TOP && PagePtr(offset, pte) && PageAt(offset, pte) == p
        invariant Safe(FORMAT, mem, p, TOP - level, vaddr)
        invariant (pte == pt <==> PointsTo(pt, p)) && (level == 0 ==> pte != pt)
        invariant pte != pt ==> ParentFrom(mem, p, TOP - level, vaddr, pt) == parent
        invariant pte == pt ==> slot == SlotPtr(offset, s) && s < words.Length && parent == Some(s)
      {
        StepFrom(mem, p, TOP - level, vaddr, pt);
        s := Slot(FORMAT, p, vaddr, TOP - level);
        slot := SlotAt(FORMAT, words, offset, pte, vaddr, TOP - level, PtIndex(vaddr, TOP - level));
        var entry := Load(words, offset, slot);
        if GetType(entry) != TABLE {
          return None;
        }
        pte := NextTable(slot);
        p := PageAt(offset, pte);
        AtPage(pte, pt);
        level := level + 1;
      }
      SlotPtrOf(words, offset, s);
      ptSlot := if pte != pt then None else Some(slot);
    }

    predicate PointsTo(pt: nat, p: nat) {
      PagePtr(offset, pt) && PageAt(offset, pt) == p
    }

    lemma AtPage(table: nat, pt: nat)
      requires PagePtr(offset, table)
      ensures table == pt <==> PointsTo(pt, PageAt(offset, table))
    {
      if PagePtr(offset, pt) {
        SamePtr(offset, table, pt);
      }
    }

    /** The slot that names `pt` on the walk of `vaddr` from table `p` at level `l`. */
    ghost function ParentFrom(mem: Memory, p: nat, l: nat, vaddr: nat, pt: nat): Option<nat> {
      if PagePtr(offset, pt) then ParentSlot(FORMAT, mem, p, l, vaddr, PageAt(offset, pt)) else None
    }

    lemma StepFrom(mem: Memory, p: nat, l: nat, vaddr: nat, pt: nat)
      requires l > 0 && Safe(FORMAT, mem, p, l, vaddr)
      ensures var s := Slot(FORMAT, p, vaddr, l);
              s < |mem| &&
              (!IsTable(mem[s]) ==> ParentFrom(mem, p, l, vaddr, pt) == None) &&
              (IsTable(mem[s]) ==>
                 Safe(FORMAT, mem, GetPage(mem[s]), l - 1, vaddr) &&
                 ParentFrom(mem, p, l, vaddr, pt) ==
                   if PointsTo(pt, GetPage(mem[s])) then Some(s)
                   else ParentFrom(mem, GetPage(mem[s]), l - 1, vaddr, pt))
    {
      if PagePtr(offset, pt) {
        ParentStep(FORMAT, mem, p, l, vaddr, PageAt(offset, pt));
      } else {
        ParentStep(FORMAT, mem, p, l, vaddr, 0);
      }
    }

    /** `pt` must not be the root itself: the source asserts it. */
    method UnmapPageTable(asid: nat, vaddr: nat, pt: nat)
      requires PoolsOk() && AsidOk(asid) && WordPtr(words, offset, pt)
      requires A.Find(split, Asids(), RootOf, asid).Some? ==>
                 var root := A.Find(split, Asids(), RootOf, asid).value;
                 PagePtr(offset, root) && pt != root && Safe(FORMAT, words[..], PageAt(offset, root), TOP, vaddr)
      modifies words, `log
      ensures match A.Find(split, old(Asids()), RootOf, asid)
              case None => words[..] == old(words[..]) && log == old(log)
              case Some(root) =>
                var parent := ParentOf(old(words[..]), root, vaddr, pt);
                words[..] == UnmapTable(old(words[..]), PageAt(offset, root), vaddr, pt - offset) &&
                log == old(log) +
                  if parent.Some?
                  then var s := parent.value;
                       ClearLog(s, SlotPtr(offset, s), Store(old(words[..]), s, 0)[WordAt(offset, pt)]) +
                       TlbLog(asid, smp)
                  else []
    {
      var found := FindVspaceForAsid(asid);
      if found.None? {
        return;
      }
      var ptSlot := FindParent(found.value, vaddr, pt);
      if ptSlot.None? {
        return;
      }
      ClearAndUpdate(ptSlot.value, pt);
      InvalidateTlbByAsid(asid);
    }
  }

  /** What TTBR0 holds after `set_vm_root`. */
  function VmRootTtbr(b: A.Split, st: A.State<AsidMap>, offset: nat, globalUserRoot: nat, root: Cap): nat
    requires root.VSpaceCap? ==> root.basePtr >= offset
  {
    match root
    case OtherCap => TtbrNew(0, globalUserRoot)
    case VSpaceCap(base, asid) =>
      var found := A.Find(b, st, RootOf, asid);
      if found.Some? && found.value != base then TtbrNew(0, globalUserRoot) else base - offset
  }

  function TlbLog(asid: nat, smp: bool): seq<Event> {
    [InvalidatedAsid(asid)] + if smp then [InvalidatedRemoteAsid(asid)] else []
  }

  function ClearLog(s: nat, ptr: nat, w: Word): seq<Event> {
    [Stored(s, 0), Stored(s, w), CleanedToPou(ptr)]
  }

  /** The invalidations for the first n entries of a pool. */
  function PoolLog(entries: seq<AsidMap>, base: nat, n: nat): seq<Event>
    requires n <= |entries|
  {
    if n == 0 then []
    else PoolLog(entries, base, n - 1) + if entries[n - 1].VSpace? then [InvalidatedAsid(base + (n - 1))] else []
  }

  lemma StoredTwice(mem: Memory, s: nat, v: Word, w: Word)
    requires s < |mem|
    ensures mem[s := v][s := w] == mem[s := w]
  {
  }

  // ----- the ASID table

  lemma {:induction false} PoolLogHolds(entries: seq<AsidMap>, base: nat, n: nat, a: nat)
    requires n <= |entries|
    ensures InvalidatedAsid(a) in PoolLog(entries, base, n) <==> base <= a < base + n && entries[a - base].VSpace?
  {
    if n > 0 {
      PoolLogHolds(entries, base, n - 1, a);
    }
  }

  lemma {:induction false} PoolLogDistinct(entries: seq<AsidMap>, base: nat, n: nat)
    requires n <= |entries|
    ensures var l := PoolLog(entries, base, n); forall i, j :: 0 <= i < j < |l| ==> l[i] != l[j]
    ensures forall e :: e in PoolLog(entries, base, n) ==> e.InvalidatedAsid?
  {
    if n > 0 {
      PoolLogDistinct(entries, base, n - 1);
      PoolLogHolds(entries, base, n - 1, base + (n - 1));
    }
  }

  /** Deleting a pool at an aligned base invalidates each ASID that was bound through
      it once, and no other; afterwards none of the base's ASIDs is bound, and every
      other binding is as it was. */
  lemma PoolInvalidated(b: A.Split, st: A.State<AsidMap>, base: nat, pool: nat, a: nat)
    requires A.Valid(b, st) && A.InRange(b, base) && A.Lo(b, base) == 0 && pool != 0 && A.InRange(b, a)
    requires A.Hi(b, base) < |st.table| && st.table[A.Hi(b, base)] == pool
    ensures pool in st.pools && |st.pools[pool]| == Pow2(b.low)
    ensures InvalidatedAsid(a) in PoolLog(st.pools[pool], base, Pow2(b.low)) <==>
            A.Hi(b, a) == A.Hi(b, base) && A.Find(b, st, RootOf, a).Some?
    ensures A.Find(b, A.DeletePool(b, st, base, pool), RootOf, a) ==
            if A.Hi(b, a) == A.Hi(b, base) then None else A.Find(b, st, RootOf, a)
  {
    PoolLogHolds(st.pools[pool], base, Pow2(b.low), a);
    A.SplitAsid(b, base);
    A.SplitAsid(b, a);
    if base <= a < base + Pow2(b.low) {
      A.JoinAsid(b, A.Hi(b, base), a - base);
      assert a == A.Join(b, A.Hi(b, base), a - base);
    }
  }

  /** `ttbr_new` as the source's masks and shift. */
  lemma SourceTtbr(asid: nat, addr: nat)
    ensures TtbrNew(asid, addr) == Or(Shl(And(asid, Pow2(16) - 1), 48), And(addr, Pow2(48) - 1))
  {
    Powers();
    assert Pow2(16) == 16 * Pow2(12);
    MaskShift(asid, 16, 48);
    AndOnes(addr, 48);
    LowIsMod(addr, 48);
    var h := asid % 0x1_0000;
    DivModUnique(h * TOP_BITS, Pow2(48), h, 0);
    OrBelow(h * TOP_BITS, addr % TOP_BITS, 48);
  }

  /** `set_vm_root` installs the global root exactly when the capability is no native root
      or its ASID is bound to a different root, and else the thread's, also when the lookup
      finds nothing. The ASID field is zero in every case. */
  lemma VmRootInstalled(b: A.Split, st: A.State<AsidMap>, offset: nat, globalUserRoot: nat, root: Cap)
    requires root.VSpaceCap? ==> offset <= root.basePtr < offset + TOP_BITS
    requires globalUserRoot < TOP_BITS
    ensures var ttbr := VmRootTtbr(b, st, offset, globalUserRoot, root);
            ttbr / 0x1_0000_0000_0000 == 0 &&
            ttbr == if root.OtherCap? || (A.Find(b, st, RootOf, root.mappedAsid).Some? &&
                                          A.Find(b, st, RootOf, root.mappedAsid).value != root.basePtr)
                    then globalUserRoot else root.basePtr - offset
  {
  }
}
