/** The RISC-V address-space operations as the kernel performs them: on memory
    through byte pointers, on the ASID table and pools, and on satp. */
module RiscvKernel {
  import opened Words
  import opened Options
  import opened PageTables
  import opened Pointers
  import opened PageTableUpdates
  import opened VirtualAddresses
  import opened RiscvPte
  import opened RiscvWalk
  import opened RiscvSpaces
  import A = AsidPools
  import T = Tlb

  datatype LookupFault = InvalidRoot
  datatype Outcome = Ok | Err(fault: LookupFault)

  /** `findVSpaceForASID_ret`; the status is a lookup fault exactly when there is
      no root. */
  datatype Found = Found(root: Option<nat>, fault: Option<LookupFault>)

  datatype Cap = PageTableCap(basePtr: nat, mappedAsid: nat) | OtherCap

  /** `satp_t::new` */
  function SatpNew(mode: nat, asid: nat, ppn: nat): Word {
    mode % 0x10 * 0x1000_0000_0000_0000 + asid % 0x1_0000 * 0x1000_0000_0000 + ppn % PPN_LIMIT
  }

  /** A pool entry is a root pointer, null for none. */
  function RootOf(entry: nat): Option<nat> {
    if entry == 0 then None else Some(entry)
  }

  /** `sfence`: the hart's own fence, then one on every other hart. */
  function Sfence(me: nat, harts: nat): seq<T.Step> {
    [T.LocalFence(me)] + RemoteFences(me, harts)
  }

  function RemoteFences(me: nat, harts: nat): seq<T.Step> {
    if harts == 0 then []
    else RemoteFences(me, harts - 1) + (if harts - 1 == me then [] else [T.RemoteFence(me, harts - 1)])
  }

  /** A store and the fences after it. */
  function Sfenced(me: nat, harts: nat, s: nat, w: Word): seq<T.Step> {
    [T.Store(me, s, w)] + Sfence(me, harts)
  }

  class Kernel {
    const words: array<Word>
    const offset: nat
    const rootPage: nat
    const split: A.Split
    const asidTable: array<nat>
    var pools: map<nat, seq<nat>>
    var satp: Word
    const hart: nat
    const harts: nat
    /** What this hart has done that others may notice, oldest first. */
    ghost var log: seq<T.Step>
    /** The ASIDs this hart has flushed from its own TLB, oldest first. */
    ghost var asidFlushes: seq<nat>

    constructor (words: array<Word>, offset: nat, rootPage: nat, split: A.Split, asidTable: array<nat>, hart: nat,
        harts: nat)
      requires asidTable.Length == Pow2(split.high)
      ensures this.words == words && this.offset == offset && this.rootPage == rootPage && this.split == split
      ensures this.asidTable == asidTable && this.hart == hart && this.harts == harts
      ensures pools == map[] && satp == 0 && log == [] && asidFlushes == []
    {
      this.words, this.offset, this.rootPage, this.split := words, offset, rootPage, split;
      this.asidTable, this.hart, this.harts := asidTable, hart, harts;
      pools, satp, log, asidFlushes := map[], 0, [], [];
    }

    // ----- the walk

    method LookupPtSlot(root: nat, vptr: nat) returns (ptSlot: nat, ptBitsLeft: nat)
      requires PagePtr(offset, root) && Safe(FORMAT, words[..], PageAt(offset, root), TOP, vptr)
      ensures var w := StopOf(words[..], PageAt(offset, root), vptr);
              ptSlot == SlotPtr(offset, w.slot) && ptBitsLeft == BitsLeft(w.level) &&
              w.slot < words.Length && WordPtr(words, offset, ptSlot) && WordAt(offset, ptSlot) == w.slot
    {
      ghost var mem := words[..];
      ghost var p := PageAt(offset, root);
      var level: nat := TOP;
      var pt := root;
      ptBitsLeft := INDEX_BITS * level + PAGE_BITS;
      ptSlot := SlotAt(FORMAT, words, offset, pt, vptr, level, PtIndex(vptr, level));
      var entry := Load(words, offset, ptSlot);
      while IsPteTable(entry) && level > 0
        invariant level <= TOP && ptBitsLeft == BitsLeft(level)
        invariant Safe(FORMAT, mem, p, level, vptr)
        invariant ptSlot == SlotPtr(offset, Slot(FORMAT, p, vptr, level)) && WordPtr(words, offset, ptSlot)
        invariant WordAt(offset, ptSlot) == Slot(FORMAT, p, vptr, level) && entry == mem[WordAt(offset, ptSlot)]
        invariant Walk(FORMAT, mem, p, level, vptr) == StopOf(mem, PageAt(offset, root), vptr)
        decreases level
      {
        level := level - 1;
        ptBitsLeft := ptBitsLeft - INDEX_BITS;
        pt := TableOf(offset, GetPpn(entry));
        p := GetPpn(entry);
        ptSlot := SlotAt(FORMAT, words, offset, pt, vptr, level, PtIndex(vptr, level));
        entry := Load(words, offset, ptSlot);
      }
    }

    // ----- stores and fences

    method Update(ptSlot: nat, pte: Word)
      requires WordPtr(words, offset, ptSlot)
      modifies words, `log
      ensures words[..] == old(words[..])[WordAt(offset, ptSlot) := pte]
      ensures log == old(log) + Sfenced(hart, harts, WordAt(offset, ptSlot), pte)
    {
      words[WordAt(offset, ptSlot)] := pte;
      log := log + Sfenced(hart, harts, WordAt(offset, ptSlot), pte);
    }

    method MapItPtCap(vspaceRoot: nat, ptPtr: nat, vptr: nat)
      requires PagePtr(offset, vspaceRoot) && Safe(FORMAT, words[..], PageAt(offset, vspaceRoot), TOP, vptr)
      requires ptPtr >= offset
      modifies words, `log
      ensures words[..] == MapPt(old(words[..]), PageAt(offset, vspaceRoot), ptPtr - offset, vptr)
      ensures log == old(log) +
                Sfenced(hart, harts, StopOf(old(words[..]), PageAt(offset, vspaceRoot), vptr).slot,
                        New((ptPtr - offset) / 0x1000, V))
    {
      var slot, bits := LookupPtSlot(vspaceRoot, vptr);
      Update(slot, New((ptPtr - offset) / 0x1000, V));
    }

    method MapItFrameCap(vspaceRoot: nat, framePtr: nat, vptr: nat)
      requires PagePtr(offset, vspaceRoot) && Safe(FORMAT, words[..], PageAt(offset, vspaceRoot), TOP, vptr)
      requires framePtr >= offset
      modifies words, `log
      ensures words[..] == MapFrame(old(words[..]), PageAt(offset, vspaceRoot), framePtr - offset, vptr)
      ensures log == old(log) +
                Sfenced(hart, harts, StopOf(old(words[..]), PageAt(offset, vspaceRoot), vptr).slot,
                        New((framePtr - offset) / 0x1000, ADUVRWX))
    {
      var slot, bits := LookupPtSlot(vspaceRoot, vptr);
      Update(slot, New((framePtr - offset) / 0x1000, ADUVRWX));
    }

    method StoreUnused(ptr: nat, w: Word)
      requires WordPtr(words, offset, ptr)
      modifies words, `log
      ensures words[..] == old(words[..])[WordAt(offset, ptr) := w]
      ensures log == old(log) + [T.StoreUnused(hart, WordAt(offset, ptr), w)]
    {
      words[WordAt(offset, ptr)] := w;
      log := log + [T.StoreUnused(hart, WordAt(offset, ptr), w)];
    }

    method CopyEntry(lvl1pt: nat, i: Entry)
      requires PagePtr(offset, lvl1pt) && PageInside(words[..], PageAt(offset, lvl1pt))
      requires PageInside(words[..], rootPage)
      modifies words, `log
      ensures var mem, z := old(words[..]), PageAt(offset, lvl1pt);
              words[..] == mem[512 * z + i := mem[512 * rootPage + i]] &&
              log == old(log) + [T.StoreUnused(hart, 512 * z + i, mem[512 * rootPage + i])]
    {
      var from := EntryPtr(words, offset, TableOf(offset, rootPage), i);
      var to := EntryPtr(words, offset, lvl1pt, i);
      var w := Load(words, offset, from);
      StoreUnused(to, w);
    }

    /** Stores the kernel's entries from the one for 0x8000_0000 on into a root no
        hart uses yet; there is no fence. */
    method CopyGlobalMappings(lvl1pt: nat)
      requires PagePtr(offset, lvl1pt) && PageInside(words[..], PageAt(offset, lvl1pt))
      requires PageInside(words[..], rootPage)
      modifies words, `log
      ensures words[..] == CopyGlobal(old(words[..]), rootPage, PageAt(offset, lvl1pt))
      ensures log == old(log) + CopyLog(hart, old(words[..]), rootPage, PageAt(offset, lvl1pt), 512)
    {
      ghost var mem, z := words[..], PageAt(offset, lvl1pt);
      var i: nat := PtIndex(0x8000_0000, TOP);
      while i < 512
        invariant FIRST_GLOBAL <= i <= 512
        invariant words[..] == CopyUpTo(mem, rootPage, z, i)
        invariant log == old(log) + CopyLog(hart, mem, rootPage, z, i)
      {
        CopyStep(lvl1pt, i, mem, old(log));
        i := i + 1;
      }
      CopiedGlobal(mem, rootPage, z);
    }

    method CopyStep(lvl1pt: nat, i: Entry, ghost mem: Memory, ghost before: seq<T.Step>)
      requires PagePtr(offset, lvl1pt) && PageInside(mem, PageAt(offset, lvl1pt)) && PageInside(mem, rootPage)
      requires FIRST_GLOBAL <= i && words[..] == CopyUpTo(mem, rootPage, PageAt(offset, lvl1pt), i)
      requires log == before + CopyLog(hart, mem, rootPage, PageAt(offset, lvl1pt), i)
      modifies words, `log
      ensures words[..] == CopyUpTo(mem, rootPage, PageAt(offset, lvl1pt), i + 1)
      ensures log == before + CopyLog(hart, mem, rootPage, PageAt(offset, lvl1pt), i + 1)
    {
      CopyNext(hart, mem, rootPage, PageAt(offset, lvl1pt), i);
      CopyEntry(lvl1pt, i);
    }

    // ----- the ASID table

    function Asids(): A.State<nat>
      reads this`pools, asidTable
    {
      A.State(asidTable[..], pools)
    }

    /** The table and its pools have their sizes, and slots hold pools or null. */
    ghost predicate PoolsOk()
      reads this`pools, asidTable
    {
      asidTable.Length == Pow2(split.high) &&
      (forall p :: p in pools ==> |pools[p]| == Pow2(split.low)) &&
      (forall i :: 0 <= i < asidTable.Length && asidTable[i] != 0 ==> asidTable[i] in pools)
    }

    method FindVspaceForAsid(asid: nat) returns (ret: Found)
      requires PoolsOk() && A.InRange(split, asid)
      ensures ret.root == A.Find(split, Asids(), RootOf, asid)
      ensures ret.fault == if ret.root.None? then Some(InvalidRoot) else None
    {
      A.SplitAsid(split, asid);
      var poolPtr := asidTable[A.Hi(split, asid)];
      if poolPtr == 0 {
        return Found(None, Some(InvalidRoot));
      }
      var vspaceRoot := pools[poolPtr][A.Lo(split, asid)];
      if vspaceRoot == 0 {
        return Found(None, Some(InvalidRoot));
      }
      return Found(Some(vspaceRoot), None);
    }

    method SetAsidPoolByIndex(index: nat, poolPtr: nat)
      requires index < asidTable.Length
      modifies asidTable
      ensures asidTable[..] == old(asidTable[..])[index := poolPtr]
    {
      asidTable[index] := poolPtr;
    }

    /** The boot thread's pool: one entry written, then the pool installed. */
    method WriteItAsidPool(ap: nat, root: nat, itAsid: nat)
      requires PoolsOk() && A.InRange(split, itAsid) && ap in pools && itAsid < Pow2(split.low)
      modifies this`pools, asidTable
      ensures pools == PoolWith(old(pools), ap, itAsid, root)
      ensures A.Hi(split, itAsid) < asidTable.Length
      ensures asidTable[..] == old(asidTable[..])[A.Hi(split, itAsid) := ap]
    {
      A.SplitAsid(split, itAsid);
      pools := PoolWith(pools, ap, itAsid, root);
      asidTable[A.Hi(split, itAsid)] := ap;
    }

    // ----- satp

    method SetVspaceRoot(addr: nat, asid: nat)
      modifies `satp, `log
      ensures satp == SatpNew(8, asid, addr / 0x1000)
      ensures log == old(log) + SwitchLog(hart, addr)
    {
      satp := SatpNew(8, asid, addr / 0x1000);
      log := log + [T.SetRoot(hart, addr / 0x1000 % PPN_LIMIT), T.LocalFence(hart)];
    }

    ghost predicate CapOk(root: Cap) {
      root.PageTableCap? ==> root.basePtr >= offset && A.InRange(split, root.mappedAsid)
    }

    /** The thread's own root is installed last whether or not the lookup bears it
        out; the result tells only that the lookup found nothing. */
    method SetVmRoot(root: Cap) returns (ret: Outcome)
      requires PoolsOk() && CapOk(root)
      modifies `satp, `log
      ensures satp == VmRootSatp(offset, rootPage, root)
      ensures ret == VmRootOutcome(split, Asids(), root)
      ensures log == old(log) + VmRootLog(split, Asids(), offset, hart, rootPage, root)
    {
      if !root.PageTableCap? {
        SetVspaceRoot(0x1000 * rootPage, 0);
        return Ok;
      }
      var lvl1pt, asid := root.basePtr, root.mappedAsid;
      var found := FindVspaceForAsid(asid);
      ret := Ok;
      if found.fault.Some? || found.root.None? || found.root.value != lvl1pt {
        if found.fault.Some? {
          ret := Err(found.fault.value);
        }
        SetVspaceRoot(0x1000 * rootPage, 0);
      }
      SetVspaceRoot(lvl1pt - offset, asid);
    }

    method HwAsidFlush(asid: nat)
      modifies `asidFlushes
      ensures asidFlushes == old(asidFlushes) + [asid]
    {
      asidFlushes := asidFlushes + [asid];
    }

    method DeleteAsid(asid: nat, vspace: nat, defaultCap: Cap) returns (ret: Outcome)
      requires PoolsOk() && A.InRange(split, asid) && CapOk(defaultCap)
      modifies this`pools, `satp, `log, `asidFlushes
      ensures Asids() == A.DeleteAsid(split, old(Asids()), RootOf, asid, vspace, 0)
      ensures if HoldsEntry(split, old(Asids()), asid, vspace)
              then satp == VmRootSatp(offset, rootPage, defaultCap) &&
                ret == VmRootOutcome(split, Asids(), defaultCap) &&
                   log == old(log) + VmRootLog(split, Asids(), offset, hart, rootPage, defaultCap) &&
                   asidFlushes == old(asidFlushes) + [asid]
              else satp == old(satp) && ret == Ok && log == old(log) && asidFlushes == old(asidFlushes)
    {
      A.SplitAsid(split, asid);
      var poolPtr := asidTable[A.Hi(split, asid)];
      if poolPtr != 0 && pools[poolPtr][A.Lo(split, asid)] == vspace {
        HwAsidFlush(asid);
        if vspace == 0 {
          assert pools[poolPtr] == pools[poolPtr][A.Lo(split, asid) := 0];
        }
        pools := pools[poolPtr := pools[poolPtr][A.Lo(split, asid) := 0]];
        ret := SetVmRoot(defaultCap);
      } else {
        ret := Ok;
      }
    }

    method DeleteAsidPool(asidBase: nat, pool: nat, defaultCap: Cap) returns (ret: Outcome)
      requires PoolsOk() && A.InRange(split, asidBase) && CapOk(defaultCap)
      modifies asidTable, `satp, `log
      ensures Asids() == A.DeletePool(split, old(Asids()), asidBase, pool)
      ensures A.Hi(split, asidBase) < asidTable.Length
      ensures if old(asidTable[..])[A.Hi(split, asidBase)] == pool
              then satp == VmRootSatp(offset, rootPage, defaultCap) &&
                ret == VmRootOutcome(split, Asids(), defaultCap) &&
                   log == old(log) + VmRootLog(split, Asids(), offset, hart, rootPage, defaultCap)
              else satp == old(satp) && ret == Ok && log == old(log)
    {
      A.SplitAsid(split, asidBase);
      if asidTable[A.Hi(split, asidBase)] == pool {
        asidTable[A.Hi(split, asidBase)] := 0;
        ret := SetVmRoot(defaultCap);
      } else {
        ret := Ok;
      }
    }

    // ----- unmapping

    /** The loop of `unmap_page_table`: the entry it stops behind, if it arrives at
        `target`. */
    method TakeParent(root: nat, vptr: nat, target: nat) returns (ptSlot: Option<nat>)
      requires PagePtr(offset, root) && PagePtr(offset, target) && root != target
      requires LooksInside(words[..], PageAt(offset, root), TOP, vptr, PageAt(offset, target))
      ensures match TakenForParent(words[..], PageAt(offset, root), TOP, vptr, PageAt(offset, target))
              case None => ptSlot.None?
              case Some(s) => ptSlot.Some? && WordPtr(words, offset, ptSlot.value) && WordAt(offset, ptSlot.value) == s
    {
      ghost var mem, z := words[..], PageAt(offset, target);
      var pt: nat := root;
      ghost var p := PageAt(offset, pt);
      ghost var taken := TakenForParent(mem, p, TOP, vptr, z);
      SamePtr(offset, root, target);
      var slot: nat := 0;
      ghost var s: nat := 0;
      var i: nat := 0;
      while i < TOP && pt != target
        invariant i <= TOP && PagePtr(offset, pt) && PageAt(offset, pt) == p
        invariant (pt == target <==> p == z) && (i == 0 ==> p != z)
        invariant p != z ==> LooksInside(mem, p, TOP - i, vptr, z) && TakenForParent(mem, p, TOP - i, vptr, z) == taken
        invariant p == z ==> slot == SlotPtr(offset, s) && s < words.Length && taken == Some(s)
      {
        TakenStep(mem, p, TOP - i, vptr, z);
        s := Slot(FORMAT, p, vptr, TOP - i);
        slot := SlotAt(FORMAT, words, offset, pt, vptr, TOP - i, PtIndex(vptr, TOP - i));
        var entry := Load(words, offset, slot);
        if IsPteTable(entry) {
          return None;
        }
        pt := TableOf(offset, GetPpn(entry));
        p := GetPpn(entry);
        SamePtr(offset, pt, target);
        i := i + 1;
      }
      SlotPtrOf(words, offset, s);
      ptSlot := if pt != target then None else Some(slot);
    }

    /** `target` must not be the root itself: the source asserts it. */
    method UnmapPageTable(asid: nat, vptr: nat, target: nat)
      requires PoolsOk() && A.InRange(split, asid) && PagePtr(offset, target)
      requires A.Find(split, Asids(), RootOf, asid).Some? ==>
                 var root := A.Find(split, Asids(), RootOf, asid).value;
                 PagePtr(offset, root) && root != target &&
                 LooksInside(words[..], PageAt(offset, root), TOP, vptr, PageAt(offset, target))
      modifies words, `log
      ensures match A.Find(split, old(Asids()), RootOf, asid)
              case None => words[..] == old(words[..]) && log == old(log)
              case Some(root) =>
                var slot := TakenForParent(old(words[..]), PageAt(offset, root), TOP, vptr, PageAt(offset, target));
                words[..] == UnmapTable(old(words[..]), PageAt(offset, root), vptr, PageAt(offset, target)) &&
                log == old(log) + if slot.Some? then Sfenced(hart, harts, slot.value, 0) else []
    {
      var found := FindVspaceForAsid(asid);
      if found.root.None? {
        return;
      }
      var ptSlot := TakeParent(found.root.value, vptr, target);
      if ptSlot.None? {
        return;
      }
      Update(ptSlot.value, 0);
    }

    /** `pageBits` is what `pageBitsForSize` gives for the caller's page size. */
    method UnmapPage(pageBits: nat, asid: nat, vptr: nat, pptr: nat) returns (ret: Outcome)
      requires PoolsOk() && A.InRange(split, asid) && pptr >= offset
      requires A.Find(split, Asids(), RootOf, asid).Some? ==>
                 var root := A.Find(split, Asids(), RootOf, asid).value;
                 PagePtr(offset, root) && Safe(FORMAT, words[..], PageAt(offset, root), TOP, vptr)
      modifies words, `log
      ensures match A.Find(split, old(Asids()), RootOf, asid)
              case None => ret == Err(InvalidRoot) && words[..] == old(words[..]) && log == old(log)
              case Some(root) =>
                ret == Ok && words[..] == Unmap(old(words[..]), pageBits, PageAt(offset, root), vptr, pptr - offset) &&
                log == old(log) +
                  if Unmappable(ViewAt(FORMAT, old(words[..]), PageAt(offset, root), vptr), pageBits, pptr - offset)
                  then Sfenced(hart, harts, StopOf(old(words[..]), PageAt(offset, root), vptr).slot, 0) else []
    {
      var found := FindVspaceForAsid(asid);
      if found.root.None? {
        return Err(found.fault.value);
      }
      var ptSlot, ptBitsLeft := LookupPtSlot(found.root.value, vptr);
      if ptBitsLeft != pageBits {
        return Ok;
      }
      var entry := Load(words, offset, ptSlot);
      if GetValid(entry) == 0 || IsPteTable(entry) || 0x1000 * GetPpn(entry) != pptr - offset {
        return Ok;
      }
      Update(ptSlot, 0);
      ret := Ok;
    }
  }

  /** The test of `delete_asid`; a null `vspace` passes it on an unbound entry. */
  predicate HoldsEntry(b: A.Split, st: A.State<nat>, asid: nat, vspace: nat) {
    A.Hi(b, asid) < |st.table| &&
    var p := st.table[A.Hi(b, asid)];
    p != 0 && p in st.pools && A.Lo(b, asid) < |st.pools[p]| && st.pools[p][A.Lo(b, asid)] == vspace
  }

  lemma HoldsEntryIsFind(b: A.Split, st: A.State<nat>, asid: nat, vspace: nat)
    requires vspace != 0
    ensures HoldsEntry(b, st, asid, vspace) <==> A.Find(b, st, RootOf, asid) == Some(vspace)
  {
  }

  /** A null `vspace` passes exactly on an unbound entry of a pool in use. */
  lemma HoldsNull(b: A.Split, st: A.State<nat>, asid: nat, i: nat, j: nat)
    requires A.Sized(b, st) && A.InRange(b, asid) && asid == i * Pow2(b.low) + j && j < Pow2(b.low)
    ensures i < |st.table| && (HoldsEntry(b, st, asid, 0) <==> st.table[i] != 0 && A.Find(b, st, RootOf, asid) == None)
  {
    A.SplitBySize(b, asid, i, j);
  }

  /** The lookup of entry `j` of slot `i` gives a root exactly when slot and entry are
      both non-null, and then that entry. */
  lemma FoundExactly(b: A.Split, st: A.State<nat>, asid: nat, i: nat, j: nat)
    requires A.Sized(b, st) && A.InRange(b, asid) && asid == i * Pow2(b.low) + j && j < Pow2(b.low)
    ensures i < |st.table| && (st.table[i] != 0 ==> st.table[i] in st.pools && j < |st.pools[st.table[i]]|)
    ensures A.Find(b, st, RootOf, asid) ==
            if st.table[i] != 0 && st.pools[st.table[i]][j] != 0 then Some(st.pools[st.table[i]][j]) else None
  {
    A.SplitBySize(b, asid, i, j);
  }

  function PoolWith(pools: map<nat, seq<nat>>, p: nat, i: nat, e: nat): map<nat, seq<nat>>
    requires p in pools && i < |pools[p]|
  {
    var entries: seq<nat> := pools[p][..i] + [e] + pools[p][i + 1..];
    pools[p := entries]
  }

  function KernelSatp(rootPage: nat): Word {
    SatpNew(8, 0, rootPage)
  }

  /** What satp holds after `set_vm_root`. */
  function VmRootSatp(offset: nat, rootPage: nat, root: Cap): Word
    requires root.PageTableCap? ==> root.basePtr >= offset
  {
    match root
    case OtherCap => KernelSatp(rootPage)
    case PageTableCap(base, asid) => SatpNew(8, asid, (base - offset) / 0x1000)
  }

  function VmRootOutcome(b: A.Split, st: A.State<nat>, root: Cap): Outcome {
    if root.PageTableCap? && A.Find(b, st, RootOf, root.mappedAsid).None? then Err(InvalidRoot) else Ok
  }

  /** The root changes of `set_vm_root`, each followed by the hart's own fence. */
  function VmRootLog(b: A.Split, st: A.State<nat>, offset: nat, me: nat, rootPage: nat, root: Cap): seq<T.Step>
    requires root.PageTableCap? ==> root.basePtr >= offset
  {
    if root.OtherCap? then SwitchLog(me, 0x1000 * rootPage)
    else
      (if A.Find(b, st, RootOf, root.mappedAsid) == Some(root.basePtr) then []
        else SwitchLog(me, 0x1000 * rootPage)) +
      SwitchLog(me, root.basePtr - offset)
  }

  function SwitchLog(me: nat, addr: nat): seq<T.Step> {
    [T.SetRoot(me, addr / 0x1000 % PPN_LIMIT), T.LocalFence(me)]
  }

  lemma CopyNext(me: nat, mem: Memory, k: nat, z: nat, i: nat)
    requires PageInside(mem, k) && PageInside(mem, z) && FIRST_GLOBAL <= i < 512
    ensures var m := CopyUpTo(mem, k, z, i);
            CopyUpTo(mem, k, z, i + 1) == m[512 * z + i := m[512 * k + i]] &&
            CopyLog(me, mem, k, z, i + 1) ==
              CopyLog(me, mem, k, z, i) + [T.StoreUnused(me, 512 * z + i, m[512 * k + i])]
  {
  }

  /** Memory after the copy has reached entry `i`. */
  function CopyUpTo(mem: Memory, k: nat, z: nat, i: nat): (m: Memory)
    requires PageInside(mem, k) && PageInside(mem, z) && i <= 512
    ensures |m| == |mem|
  {
    if i <= FIRST_GLOBAL then mem
    else var m := CopyUpTo(mem, k, z, i - 1); m[512 * z + (i - 1) := m[512 * k + (i - 1)]]
  }

  lemma {:induction false} CopiedWord(mem: Memory, k: nat, z: nat, i: nat, s: nat)
    requires PageInside(mem, k) && PageInside(mem, z) && i <= 512 && s < |mem|
    ensures CopyUpTo(mem, k, z, i)[s] ==
            if 512 * z + FIRST_GLOBAL <= s < 512 * z + i then mem[s - 512 * z + 512 * k] else mem[s]
    decreases i
  {
    if i > FIRST_GLOBAL {
      CopiedWord(mem, k, z, i - 1, s);
      CopiedWord(mem, k, z, i - 1, 512 * k + (i - 1));
    }
  }

  lemma CopiedGlobal(mem: Memory, k: nat, z: nat)
    requires PageInside(mem, k) && PageInside(mem, z)
    ensures CopyUpTo(mem, k, z, 512) == CopyGlobal(mem, k, z)
  {
    forall s | 0 <= s < |mem|
      ensures CopyUpTo(mem, k, z, 512)[s] == CopyGlobal(mem, k, z)[s]
    {
      CopiedWord(mem, k, z, 512, s);
    }
  }

  /** The stores of the copy, up to entry `i`. */
  function CopyLog(me: nat, mem: Memory, k: nat, z: nat, i: nat): seq<T.Step>
    requires PageInside(mem, k) && PageInside(mem, z) && i <= 512
  {
    if i <= FIRST_GLOBAL then []
    else CopyLog(me, mem, k, z, i - 1) +
         [T.StoreUnused(me, 512 * z + (i - 1), CopyUpTo(mem, k, z, i - 1)[512 * k + (i - 1)])]
  }
}
