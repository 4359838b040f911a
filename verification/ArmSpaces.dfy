/** The AArch64 mapping operations as updates of memory. */
module ArmSpaces {
  import opened Words
  import opened Options
  import opened PageTables
  import opened PageTableUpdates
  import opened VirtualAddresses
  import opened Hardware
  import opened BootMappings
  import opened ArmPte
  import opened ArmWalk

  function StopOf(mem: Memory, root: nat, vptr: nat): Stop {
    Walk(FORMAT, mem, root, TOP, vptr)
  }

  function Store(mem: Memory, s: nat, v: Word): Memory {
    if s < |mem| then mem[s := v] else mem
  }

  // ----- the boot mappings, by entries followed without a look at their type

  /** `find_pt`: the slot for `va` in the PUD (level 2), PD (1) or page table (0); for
      level 3 the root's own. */
  function FindSlot(mem: Memory, root: nat, va: nat, level: nat): nat {
    Follow(FORMAT, mem, root, TOP, va, level)
  }

  /** The entries `find_pt` follows down to level `k` lie in memory. */
  predicate FollowSafe(mem: Memory, p: nat, l: nat, va: nat, k: nat)
    decreases l, p
  {
    var s := Slot(FORMAT, p, va, l);
    s < |mem| && (l > k ==> FollowSafe(mem, GetPage(mem[s]), l - 1, va, k))
  }

  lemma FollowStep(mem: Memory, p: nat, l: nat, va: nat, k: nat)
    requires FollowSafe(mem, p, l, va, k)
    ensures var s := Slot(FORMAT, p, va, l);
            s < |mem| &&
            (l > k ==> FollowSafe(mem, GetPage(mem[s]), l - 1, va, k) &&
                       Follow(FORMAT, mem, p, l, va, k) == Follow(FORMAT, mem, GetPage(mem[s]), l - 1, va, k)) &&
            (l <= k ==> Follow(FORMAT, mem, p, l, va, k) == s)
  {
  }

  function MapPud(mem: Memory, root: nat, pud: Word, va: nat): Memory {
    Enter(FORMAT, mem, root, va, 3, NewTable(pud))
  }

  function MapPd(mem: Memory, root: nat, pd: Word, va: nat): Memory {
    Enter(FORMAT, mem, root, va, 2, NewTable(pd))
  }

  function MapPt(mem: Memory, root: nat, pt: Word, va: nat): Memory {
    Enter(FORMAT, mem, root, va, 1, NewTable(pt))
  }

  function MapFrame(mem: Memory, root: nat, frame: Word, va: nat, exec: bool, smp: bool): Memory {
    Enter(FORMAT, mem, root, va, 0, New4kPage(BootFields(exec, smp), frame))
  }

  // ----- unmapping

  /** The checks of `unmap_page`, on what the walk found. */
  predicate Unmappable(v: View, bits: nat, frame: nat) {
    BitsLeft(v.level) == bits && IsPage(v.word) && AddrField(v.word) == frame
  }

  function Unmap(mem: Memory, bits: nat, root: nat, vptr: nat, frame: nat): Memory {
    if Unmappable(ViewAt(FORMAT, mem, root, vptr), bits, frame) then Store(mem, StopOf(mem, root, vptr).slot, 0)
    else mem
  }

  /** `unmap_page_table` of the table at physical address `target`: the slot that
      names it is zeroed and then overwritten by what is then the table's first entry. */
  function UnmapTable(mem: Memory, root: nat, va: nat, target: nat): Memory {
    if target % 0x1000 != 0 || target / 8 >= |mem| then mem
    else match ParentSlot(FORMAT, mem, root, TOP, va, target / 0x1000)
         case None => mem
         case Some(s) => var cleared := Store(mem, s, 0); Store(cleared, s, cleared[target / 8])
  }

  // ----- the invariant

  ghost predicate Inv(mem: Memory, tab: Labels) {
    Labelled(FORMAT, mem, tab) && Clean(VMSA, FORMAT, mem, tab) && forall p :: p in tab ==> tab[p].Own?
  }

  lemma StopOwned(mem: Memory, tab: Labels, r: nat, va: nat) returns (q: nat)
    requires Inv(mem, tab) && IsRoot(tab, r)
    ensures var w := StopOf(mem, r, va);
            OwnedSlot(FORMAT, mem, tab, r, va, w.level, q, w.slot) && w.slot < |mem| &&
              512 * q <= w.slot < 512 * q + 512 &&
            PlaceOk(FORMAT, tab[q]) && LevelOf(FORMAT, tab[q]) == w.level && (w.level > 0 ==> !IsTable(mem[w.slot]))
  {
    q := WalkEndsLabelled(FORMAT, mem, tab, r, va);
  }

  lemma InvAfterLeaf(mem: Memory, tab: Labels, q: nat, s: nat, v: Word)
    requires Inv(mem, tab) && q in tab && 512 * q <= s < 512 * q + 512 && s < |mem| && !IsTable(v)
    requires CleanWord(VMSA, FORMAT, LevelOf(FORMAT, tab[q]), v)
    ensures Inv(mem[s := v], tab)
  {
    LabelledAfterLeaf(FORMAT, mem, tab, s, v);
    CleanAfterStore(VMSA, FORMAT, mem, tab, q, s, v);
  }

  predicate ZeroPage(mem: Memory, p: nat) {
    PageInside(mem, p) && forall s :: 512 * p <= s < 512 * p + 512 ==> mem[s] == 0
  }

  predicate Fresh(mem: Memory, tab: Labels, p: nat) {
    p !in tab && ZeroPage(mem, p) && p < 0x10_0000_0000
  }
}
