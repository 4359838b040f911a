/** The RISC-V mapping operations as updates of memory, and their refinement to
    updates of a flat table: for every root and address, the level where the walk
    stops and the word it finds. */
module RiscvSpaces {
  import opened Words
  import opened Options
  import opened PageTables
  import opened PageTableUpdates
  import opened VirtualAddresses
  import opened Hardware
  import opened RiscvPte
  import opened RiscvWalk

  // ----- memory after each operation (k is the page of the kernel's root table)

  function StopOf(mem: Memory, root: nat, vptr: nat): Stop {
    Walk(FORMAT, mem, root, TOP, vptr)
  }

  function Store(mem: Memory, s: nat, v: Word): Memory {
    if s < |mem| then mem[s := v] else mem
  }

  function MapPt(mem: Memory, root: nat, pt: nat, vptr: nat): Memory {
    Store(mem, StopOf(mem, root, vptr).slot, New(pt / 0x1000, V))
  }

  function MapFrame(mem: Memory, root: nat, frame: nat, vptr: nat): Memory {
    Store(mem, StopOf(mem, root, vptr).slot, New(frame / 0x1000, ADUVRWX))
  }

  /** The checks of `unmap_page`, on what the walk found. */
  predicate Unmappable(v: View, bits: nat, frame: nat) {
    BitsLeft(v.level) == bits && GetValid(v.word) != 0 && !IsPteTable(v.word) && 0x1000 * GetPpn(v.word) == frame
  }

  function Unmap(mem: Memory, bits: nat, root: nat, vptr: nat, frame: nat): Memory {
    if Unmappable(ViewAt(FORMAT, mem, root, vptr), bits, frame) then Store(mem, StopOf(mem, root, vptr).slot, 0)
    else mem
  }

  /** The entry `unmap_page_table` takes for the one that names page `z`: it follows
      page numbers of entries that are no tables, and gives up at a table. */
  function TakenForParent(mem: Memory, p: nat, l: nat, va: nat, z: nat): Option<nat>
    decreases l, p
  {
    var s := Slot(FORMAT, p, va, l);
    if l == 0 || s >= |mem| || IsPteTable(mem[s]) then None
    else if GetPpn(mem[s]) == z then Some(s)
    else TakenForParent(mem, GetPpn(mem[s]), l - 1, va, z)
  }

  /** Every entry it looks at lies in memory. */
  predicate LooksInside(mem: Memory, p: nat, l: nat, va: nat, z: nat)
    decreases l, p
  {
    var s := Slot(FORMAT, p, va, l);
    l == 0 ||
    (s < |mem| && (IsPteTable(mem[s]) || GetPpn(mem[s]) == z || LooksInside(mem, GetPpn(mem[s]), l - 1, va, z)))
  }

  lemma TakenStep(mem: Memory, p: nat, l: nat, va: nat, z: nat)
    requires l > 0 && LooksInside(mem, p, l, va, z)
    ensures var s := Slot(FORMAT, p, va, l);
            s < |mem| &&
            (IsPteTable(mem[s]) ==> TakenForParent(mem, p, l, va, z) == None) &&
            (!IsPteTable(mem[s]) && GetPpn(mem[s]) == z ==> TakenForParent(mem, p, l, va, z) == Some(s)) &&
            (!IsPteTable(mem[s]) && GetPpn(mem[s]) != z ==>
               LooksInside(mem, GetPpn(mem[s]), l - 1, va, z) &&
               TakenForParent(mem, p, l, va, z) == TakenForParent(mem, GetPpn(mem[s]), l - 1, va, z))
  {
  }

  function UnmapTable(mem: Memory, root: nat, va: nat, z: nat): Memory {
    match TakenForParent(mem, root, TOP, va, z)
    case None => mem
    case Some(s) => Store(mem, s, 0)
  }

  const FIRST_GLOBAL: nat := 2

  function CopyGlobal(mem: Memory, k: nat, z: nat): Memory
    requires PageInside(mem, k) && PageInside(mem, z)
  {
    mem[..512 * z + FIRST_GLOBAL] + mem[512 * k + FIRST_GLOBAL..512 * k + 512] + mem[512 * z + 512..]
  }

  // ----- the flat table

  type Flat = (nat, nat) -> View

  function FlatStore(a: Flat, root: nat, vptr: nat, w: Word): Flat {
    var l := a(root, vptr).level;
    (r: nat, va: nat) => if r == root && Agree(FORMAT, va, vptr, l) then View(l, w) else a(r, va)
  }

  function FlatSplit(a: Flat, root: nat, vptr: nat): Flat
    requires a(root, vptr).level > 0
  {
    var l := a(root, vptr).level;
    (r: nat, va: nat) => if r == root && Agree(FORMAT, va, vptr, l) then View(l - 1, 0) else a(r, va)
  }

  function FlatRoot(a: Flat, k: nat, z: nat): Flat {
    (r: nat, va: nat) =>
      if r == z then (if PtIndex(va, TOP) < FIRST_GLOBAL then View(TOP, 0) else a(k, va)) else a(r, va)
  }

  // ----- operations and runs

  datatype Op =
    | NewRoot(root: nat)
    | MapTable(root: nat, pt: nat, vptr: nat)
    | MapPage(root: nat, frame: nat, vptr: nat)
    | UnmapPage(bits: nat, root: nat, vptr: nat, frame: nat)

  predicate ZeroPage(mem: Memory, p: nat) {
    PageInside(mem, p) && forall s :: 512 * p <= s < 512 * p + 512 ==> mem[s] == 0
  }

  /** A fresh page is zeroed and not a page table. */
  predicate Fresh(mem: Memory, tab: Labels, p: nat) {
    p !in tab && ZeroPage(mem, p)
  }

  /** What the callers of each operation provide. An address is private when the
      kernel's root does not map its gigabyte through a table. */
  predicate Legal(k: nat, mem: Memory, tab: Labels, a: Flat, op: Op) {
    match op
    case NewRoot(z) => Fresh(mem, tab, z)
    case MapTable(r, pt, vptr) =>
      IsRoot(tab, r) && r != k && a(k, vptr).level == TOP && a(r, vptr).level > 0 &&
      pt % 0x1000 == 0 && pt / 0x1000 < PPN_LIMIT && Fresh(mem, tab, pt / 0x1000)
    case MapPage(r, frame, vptr) =>
      IsRoot(tab, r) && r != k && a(k, vptr).level == TOP && frame / 0x1000 < PPN_LIMIT
    case UnmapPage(bits, r, vptr, frame) =>
      IsRoot(tab, r) && r != k && a(k, vptr).level == TOP
  }

  function NextMem(k: nat, mem: Memory, op: Op): Memory {
    match op
    case NewRoot(z) => if PageInside(mem, k) && PageInside(mem, z) then CopyGlobal(mem, k, z) else mem
    case MapTable(r, pt, vptr) => MapPt(mem, r, pt, vptr)
    case MapPage(r, frame, vptr) => MapFrame(mem, r, frame, vptr)
    case UnmapPage(bits, r, vptr, frame) => Unmap(mem, bits, r, vptr, frame)
  }

  function NextFlat(k: nat, a: Flat, op: Op): Flat {
    match op
    case NewRoot(z) => FlatRoot(a, k, z)
    case MapTable(r, pt, vptr) => if a(r, vptr).level > 0 then FlatSplit(a, r, vptr) else a
    case MapPage(r, frame, vptr) => FlatStore(a, r, vptr, New(frame / 0x1000, ADUVRWX))
    case UnmapPage(bits, r, vptr, frame) =>
      if Unmappable(a(r, vptr), bits, frame) then FlatStore(a, r, vptr, 0) else a
  }

  ghost function NextTab(a: Flat, tab: Labels, op: Op): Labels {
    match op
    case NewRoot(z) => tab[z := Own(z, [])]
    case MapTable(r, pt, vptr) =>
      if a(r, vptr).level > 0 then tab[pt / 0x1000 := Own(r, Path(FORMAT, vptr, a(r, vptr).level - 1))] else tab
    case _ => tab
  }

  // ----- the invariant

  /** Entry `i` of an owned table leads to a shared table only in a root, and only
      where the kernel's root does. */
  predicate SharingOk(k: nat, mem: Memory, tab: Labels, p: nat, i: Entry) {
    PageInside(mem, p) && PageInside(mem, k) && p in tab &&
    var w := mem[512 * p + i];
    (IsPteTable(w) && GetPpn(w) in tab && tab[GetPpn(w)].Shared? && tab[p].Own? ==>
       tab[p].path == [] && IsPteTable(mem[512 * k + i])) &&
    (IsPteTable(w) && GetPpn(w) in tab && p == k ==> tab[GetPpn(w)].Shared?)
  }

  ghost predicate Inv(k: nat, mem: Memory, tab: Labels) {
    Labelled(FORMAT, mem, tab) && Clean(SV39, FORMAT, mem, tab) && IsRoot(tab, k) && Sharing(k, mem, tab)
  }

  ghost predicate Sharing(k: nat, mem: Memory, tab: Labels) {
    forall p, i: Entry :: p in tab ==> SharingOk(k, mem, tab, p, i)
  }

  /** The tables in memory show every address of every space the flat table's view. */
  ghost predicate Refines(mem: Memory, tab: Labels, a: Flat) {
    forall r: nat, va: nat :: IsRoot(tab, r) ==> ViewAt(FORMAT, mem, r, va) == a(r, va)
  }

  /** A private address of a user root has its walk stop in a table of its own. */
  lemma {:induction false} PrivateWalk(k: nat, mem: Memory, tab: Labels, p: nat, r: nat, l: nat, vptr: nat, q: nat,
      j: nat)
    requires Inv(k, mem, tab) && l <= TOP && r != k
    requires OnPath(FORMAT, tab, p, r, l, vptr) && tab[p].Own? && Uses(FORMAT, mem, p, l, vptr, q, j)
    requires !IsPteTable(mem[512 * k + PtIndex(vptr, TOP)])
    ensures q in tab && tab[q].Own?
    decreases l
  {
    if !(q == p && j == l) {
      var n := GetPpn(mem[512 * p + PtIndex(vptr, l)]);
      PrivateStep(k, mem, tab, p, r, l, vptr);
      PrivateWalk(k, mem, tab, n, r, l - 1, vptr, q, j);
    }
  }

  lemma PrivateStep(k: nat, mem: Memory, tab: Labels, p: nat, r: nat, l: nat, vptr: nat)
    requires Inv(k, mem, tab) && 0 < l <= TOP && OnPath(FORMAT, tab, p, r, l, vptr) && tab[p].Own?
    requires PageInside(mem, p) && IsPteTable(mem[512 * p + PtIndex(vptr, l)])
    requires !IsPteTable(mem[512 * k + PtIndex(vptr, TOP)])
    ensures var n := GetPpn(mem[512 * p + PtIndex(vptr, l)]);
            OnPath(FORMAT, tab, n, r, l - 1, vptr) && tab[n].Own?
  {
    var i := PtIndex(vptr, l);
    assert EntryOk(FORMAT, mem, tab, p, i) && SharingOk(k, mem, tab, p, i);
    var n := GetPpn(mem[512 * p + i]);
    assert Below(FORMAT, tab[p], i, tab[n]);
    assert tab[p].path == [] ==> l == TOP;
  }

  lemma PrivateStop(k: nat, mem: Memory, tab: Labels, a: Flat, r: nat, vptr: nat) returns (q: nat)
    requires Inv(k, mem, tab) && Refines(mem, tab, a) && IsRoot(tab, r) && r != k && a(k, vptr).level == TOP
    ensures var w := StopOf(mem, r, vptr);
            OwnedSlot(FORMAT, mem, tab, r, vptr, w.level, q, w.slot) && w.slot < |mem| &&
              512 * q <= w.slot < 512 * q + 512 &&
            a(r, vptr) == View(w.level, mem[w.slot]) && PlaceOk(FORMAT, tab[q]) && LevelOf(FORMAT, tab[q]) == w.level &&
            q != k && (w.level > 0 ==> !IsPteTable(mem[w.slot]))
  {
    q := WalkEndsLabelled(FORMAT, mem, tab, r, vptr);
    assert ViewAt(FORMAT, mem, k, vptr).level == TOP;
    var i := PtIndex(vptr, TOP);
    assert !IsPteTable(mem[512 * k + i]) by {
      assert Slot(FORMAT, k, vptr, TOP) == 512 * k + i;
    }
    var w := StopOf(mem, r, vptr);
    PrivateWalk(k, mem, tab, r, r, TOP, vptr, q, w.level);
    assert ViewAt(FORMAT, mem, r, vptr) == a(r, vptr);
  }

  // ----- one step of each kind

  lemma InvAfterLeaf(k: nat, mem: Memory, tab: Labels, q: nat, s: nat, v: Word)
    requires Inv(k, mem, tab) && q in tab && q != k && 512 * q <= s < 512 * q + 512 && s < |mem| && !IsPteTable(v)
    ensures Inv(k, mem[s := v], tab)
  {
    LabelledAfterLeaf(FORMAT, mem, tab, s, v);
    assert PlaceOk(FORMAT, tab[q]);
    NonTableIsClean(LevelOf(FORMAT, tab[q]), v);
    CleanAfterStore(SV39, FORMAT, mem, tab, q, s, v);
    var mem' := mem[s := v];
    forall p, i: Entry | p in tab
      ensures SharingOk(k, mem', tab, p, i)
    {
      assert SharingOk(k, mem, tab, p, i);
    }
  }

  lemma LeafStep(k: nat, mem: Memory, tab: Labels, a: Flat, r0: nat, vptr: nat, v: Word)
    requires Inv(k, mem, tab) && Refines(mem, tab, a)
    requires IsRoot(tab, r0) && r0 != k && a(k, vptr).level == TOP && !IsPteTable(v)
    ensures var mem' := Store(mem, StopOf(mem, r0, vptr).slot, v);
            Inv(k, mem', tab) && Refines(mem', tab, FlatStore(a, r0, vptr, v))
  {
    var q := PrivateStop(k, mem, tab, a, r0, vptr);
    var w := StopOf(mem, r0, vptr);
    InvAfterLeaf(k, mem, tab, q, w.slot, v);
    forall r: nat, va: nat | IsRoot(tab, r)
      ensures ViewAt(FORMAT, mem[w.slot := v], r, va) == FlatStore(a, r0, vptr, v)(r, va)
    {
      StoreLeaf(FORMAT, mem, tab, r0, vptr, w.level, q, w.slot, v, r, va);
    }
  }

  lemma InvAfterTable(k: nat, mem: Memory, tab: Labels, r0: nat, vptr: nat, l: nat, q: nat, s: nat, z: nat)
    requires Inv(k, mem, tab) && OwnedSlot(FORMAT, mem, tab, r0, vptr, l, q, s) && s < |mem| && 0 < l <= TOP
    requires q != k && PlaceOk(FORMAT, tab[q]) && LevelOf(FORMAT, tab[q]) == l
    requires Fresh(mem, tab, z) && z < PPN_LIMIT
    ensures Inv(k, mem[s := New(z, V)], tab[z := Own(r0, Path(FORMAT, vptr, l - 1))])
  {
    var v, a := New(z, V), Own(r0, Path(FORMAT, vptr, l - 1));
    NewTableIsClean(l, z);
    LabelledAfterTable(FORMAT, mem, tab, r0, vptr, l, q, s, v);
    CleanAfterNew(mem, tab, q, s, v, z, a);
    AllSharing(k, mem, tab, q, s, v, z, a);
  }

  lemma AllSharing(k: nat, mem: Memory, tab: Labels, q: nat, s: nat, v: Word, z: nat, a: Place)
    requires Inv(k, mem, tab) && Fresh(mem, tab, z) && a.Own? && q in tab && q != k
    requires 512 * q <= s < 512 * q + 512 && s < |mem| && IsPteTable(v) && GetPpn(v) == z
    ensures Sharing(k, mem[s := v], tab[z := a])
  {
    var mem', tab' := mem[s := v], tab[z := a];
    assert s / 512 == q;
    forall p, i: Entry | p in tab'
      ensures SharingOk(k, mem', tab', p, i)
    {
      SharingAfterNew(k, mem, tab, s, v, z, a, p, i);
    }
  }

  lemma CleanAfterNew(mem: Memory, tab: Labels, q: nat, s: nat, v: Word, z: nat, a: Place)
    requires Clean(SV39, FORMAT, mem, tab) && q in tab && 512 * q <= s < 512 * q + 512 && s < |mem|
    requires CleanWord(SV39, FORMAT, LevelOf(FORMAT, tab[q]), v) && Fresh(mem, tab, z) && PlaceOk(FORMAT, a)
    ensures Clean(SV39, FORMAT, mem[s := v], tab[z := a])
  {
    CleanAfterStore(SV39, FORMAT, mem, tab, q, s, v);
    var mem', tab' := mem[s := v], tab[z := a];
    forall p | p in tab'
      ensures PlaceOk(FORMAT, tab'[p]) && CleanPage(SV39, FORMAT, mem', p, LevelOf(FORMAT, tab'[p]))
    {
      if p == z {
        NonTableIsClean(LevelOf(FORMAT, a), 0);
      } else {
        assert CleanPage(SV39, FORMAT, mem', p, LevelOf(FORMAT, tab[p]));
      }
    }
  }

  lemma SharingAfterNew(k: nat, mem: Memory, tab: Labels, s: nat, v: Word, z: nat, a: Place, p: nat, i: Entry)
    requires Inv(k, mem, tab) && Fresh(mem, tab, z) && a.Own? && p in tab[z := a]
    requires s < |mem| && s / 512 != k && s / 512 != z && IsPteTable(v) && GetPpn(v) == z
    ensures SharingOk(k, mem[s := v], tab[z := a], p, i)
  {
    assert mem[s := v][512 * k + i] == mem[512 * k + i];
    if p == z {
      assert mem[s := v][512 * z + i] == 0;
    } else {
      assert SharingOk(k, mem, tab, p, i) && EntryOk(FORMAT, mem, tab, p, i);
    }
  }

  lemma TableStep(k: nat, mem: Memory, tab: Labels, a: Flat, r0: nat, vptr: nat, z: nat)
    requires Inv(k, mem, tab) && Refines(mem, tab, a)
    requires IsRoot(tab, r0) && r0 != k && a(k, vptr).level == TOP && a(r0, vptr).level > 0
    requires Fresh(mem, tab, z) && z < PPN_LIMIT
    ensures var mem' := Store(mem, StopOf(mem, r0, vptr).slot, New(z, V));
            var tab' := tab[z := Own(r0, Path(FORMAT, vptr, a(r0, vptr).level - 1))];
            Inv(k, mem', tab') && Refines(mem', tab', FlatSplit(a, r0, vptr))
  {
    var q := PrivateStop(k, mem, tab, a, r0, vptr);
    var w := StopOf(mem, r0, vptr);
    InvAfterTable(k, mem, tab, r0, vptr, w.level, q, w.slot, z);
    var v := New(z, V);
    var tab' := tab[z := Own(r0, Path(FORMAT, vptr, w.level - 1))];
    NewTableIsClean(w.level, z);
    forall r: nat, va: nat | IsRoot(tab', r)
      ensures ViewAt(FORMAT, mem[w.slot := v], r, va) == FlatSplit(a, r0, vptr)(r, va)
    {
      StoreTable(FORMAT, mem, tab, r0, vptr, w.level, q, w.slot, v, r, va);
    }
  }

  lemma CopyEntries(mem: Memory, k: nat, z: nat)
    requires PageInside(mem, k) && PageInside(mem, z) && k != z
    ensures var mem' := CopyGlobal(mem, k, z);
            |mem'| == |mem| && (forall s :: 0 <= s < |mem| && !(512 * z <= s < 512 * z + 512) ==> mem'[s] == mem[s]) &&
            (forall s :: 512 * z <= s < 512 * z + 512 ==>
               mem'[s] == if s < 512 * z + FIRST_GLOBAL then mem[s] else mem[s - 512 * z + 512 * k])
  {
  }

  lemma CopyKeeps(mem: Memory, tab: Labels, k: nat, z: nat)
    requires Labelled(FORMAT, mem, tab) && k in tab && z !in tab && PageInside(mem, z) && PageInside(mem, k)
    ensures forall p :: p in tab ==> SamePage(mem, CopyGlobal(mem, k, z), p)
  {
    CopyEntries(mem, k, z);
    forall p | p in tab
      ensures SamePage(mem, CopyGlobal(mem, k, z), p)
    {
      assert PageInside(mem, p);
      SameButOne(mem, CopyGlobal(mem, k, z), z, p);
    }
  }

  lemma InvAfterRoot(k: nat, mem: Memory, tab: Labels, z: nat)
    requires Inv(k, mem, tab) && Fresh(mem, tab, z)
    ensures Inv(k, CopyGlobal(mem, k, z), tab[z := Own(z, [])])
  {
    LabelledAfterRoot(k, mem, tab, z);
    SharingAfterRoot(k, mem, tab, z);
    CleanAfterRoot(k, mem, tab, z);
  }

  lemma LabelledAfterRoot(k: nat, mem: Memory, tab: Labels, z: nat)
    requires Inv(k, mem, tab) && Fresh(mem, tab, z)
    ensures Labelled(FORMAT, CopyGlobal(mem, k, z), tab[z := Own(z, [])])
  {
    var mem', tab' := CopyGlobal(mem, k, z), tab[z := Own(z, [])];
    forall p, i: Entry | p in tab'
      ensures PlaceOk(FORMAT, tab'[p]) && PageInside(mem', p) && EntryOk(FORMAT, mem', tab', p, i)
    {
      EntryAfterRoot(k, mem, tab, z, p, i);
    }
  }

  lemma EntryAfterRoot(k: nat, mem: Memory, tab: Labels, z: nat, p: nat, i: Entry)
    requires Inv(k, mem, tab) && Fresh(mem, tab, z) && (p == z || p in tab)
    ensures var mem', tab' := CopyGlobal(mem, k, z), tab[z := Own(z, [])];
            PlaceOk(FORMAT, tab'[p]) && PageInside(mem', p) && EntryOk(FORMAT, mem', tab', p, i)
  {
    CopyEntries(mem, k, z);
    var c: nat := if p == z then k else p;
    assert EntryOk(FORMAT, mem, tab, c, i) && SharingOk(k, mem, tab, c, i);
  }

  lemma SharingAfterRoot(k: nat, mem: Memory, tab: Labels, z: nat)
    requires Inv(k, mem, tab) && Fresh(mem, tab, z)
    ensures Sharing(k, CopyGlobal(mem, k, z), tab[z := Own(z, [])])
  {
    var mem', tab' := CopyGlobal(mem, k, z), tab[z := Own(z, [])];
    forall p, i: Entry | p in tab'
      ensures SharingOk(k, mem', tab', p, i)
    {
      SharedEntryAfterRoot(k, mem, tab, z, p, i);
    }
  }

  lemma SharedEntryAfterRoot(k: nat, mem: Memory, tab: Labels, z: nat, p: nat, i: Entry)
    requires Inv(k, mem, tab) && Fresh(mem, tab, z) && (p == z || p in tab)
    ensures SharingOk(k, CopyGlobal(mem, k, z), tab[z := Own(z, [])], p, i)
  {
    CopyEntries(mem, k, z);
    var c: nat := if p == z then k else p;
    assert EntryOk(FORMAT, mem, tab, c, i) && SharingOk(k, mem, tab, c, i);
  }

  lemma CleanAfterRoot(k: nat, mem: Memory, tab: Labels, z: nat)
    requires Inv(k, mem, tab) && Fresh(mem, tab, z)
    ensures Clean(SV39, FORMAT, CopyGlobal(mem, k, z), tab[z := Own(z, [])])
  {
    var mem', tab' := CopyGlobal(mem, k, z), tab[z := Own(z, [])];
    CopyEntries(mem, k, z);
    forall p | p in tab'
      ensures PlaceOk(FORMAT, tab'[p]) && CleanPage(SV39, FORMAT, mem', p, LevelOf(FORMAT, tab'[p]))
    {
      var c: nat := if p == z then k else p;
      assert CleanPage(SV39, FORMAT, mem, c, LevelOf(FORMAT, tab[c]));
      NonTableIsClean(TOP, 0);
      forall s | 512 * p <= s < 512 * p + 512
        ensures CleanWord(SV39, FORMAT, LevelOf(FORMAT, tab'[p]), mem'[s])
      {
        var i: Entry := s - 512 * p;
        assert CleanWord(SV39, FORMAT, LevelOf(FORMAT, tab[c]), mem[512 * c + i]);
      }
    }
  }

  lemma RootStep(k: nat, mem: Memory, tab: Labels, a: Flat, z: nat)
    requires Inv(k, mem, tab) && Refines(mem, tab, a) && Fresh(mem, tab, z)
    ensures Inv(k, CopyGlobal(mem, k, z), tab[z := Own(z, [])])
    ensures Refines(CopyGlobal(mem, k, z), tab[z := Own(z, [])], FlatRoot(a, k, z))
  {
    var mem', tab' := CopyGlobal(mem, k, z), tab[z := Own(z, [])];
    CopyEntries(mem, k, z);
    InvAfterRoot(k, mem, tab, z);
    CopyKeeps(mem, tab, k, z);
    forall r: nat, va: nat | IsRoot(tab', r)
      ensures ViewAt(FORMAT, mem', r, va) == FlatRoot(a, k, z)(r, va)
    {
      if r != z {
        WalkOutside(FORMAT, mem, mem', tab, r, r, TOP, va);
        assert ViewAt(FORMAT, mem, r, va) == a(r, va);
      } else {
        NewRootView(k, mem, tab, z, va);
        assert ViewAt(FORMAT, mem, k, va) == a(k, va);
      }
    }
  }

  lemma NewRootView(k: nat, mem: Memory, tab: Labels, z: nat, va: nat)
    requires Inv(k, mem, tab) && Fresh(mem, tab, z)
    ensures ViewAt(FORMAT, CopyGlobal(mem, k, z), z, va) ==
            if PtIndex(va, TOP) < FIRST_GLOBAL then View(TOP, 0) else ViewAt(FORMAT, mem, k, va)
  {
    var mem' := CopyGlobal(mem, k, z);
    CopyEntries(mem, k, z);
    CopyKeeps(mem, tab, k, z);
    var i := PtIndex(va, TOP);
    if i >= FIRST_GLOBAL {
      assert EntryOk(FORMAT, mem, tab, k, i) && SharingOk(k, mem, tab, k, i);
      CopiedEntry(FORMAT, mem, mem', tab, k, z, va);
    }
  }

  /** Every operation keeps the invariant and does to the flat table just what its
      flat counterpart says. */
  lemma Step(k: nat, mem: Memory, tab: Labels, a: Flat, op: Op)
    requires Inv(k, mem, tab) && Refines(mem, tab, a) && Legal(k, mem, tab, a, op)
    ensures Inv(k, NextMem(k, mem, op), NextTab(a, tab, op))
    ensures Refines(NextMem(k, mem, op), NextTab(a, tab, op), NextFlat(k, a, op))
  {
    match op
    case NewRoot(z) =>
      RootStep(k, mem, tab, a, z);
    case MapTable(r, pt, vptr) =>
      TableStep(k, mem, tab, a, r, vptr, pt / 0x1000);
    case MapPage(r, frame, vptr) =>
      WrittenEntries(frame / 0x1000);
      HardwareAgrees(New(frame / 0x1000, ADUVRWX));
      LeafStep(k, mem, tab, a, r, vptr, New(frame / 0x1000, ADUVRWX));
    case UnmapPage(bits, r, vptr, frame) =>
      assert ViewAt(FORMAT, mem, r, vptr) == a(r, vptr);
      if Unmappable(a(r, vptr), bits, frame) {
        LeafStep(k, mem, tab, a, r, vptr, 0);
      }
  }

  // ----- runs

  ghost predicate LegalRun(k: nat, mem: Memory, tab: Labels, a: Flat, ops: seq<Op>)
    decreases |ops|
  {
    ops == [] ||
    (Legal(k, mem, tab, a, ops[0]) &&
     LegalRun(k, NextMem(k, mem, ops[0]), NextTab(a, tab, ops[0]), NextFlat(k, a, ops[0]), ops[1..]))
  }

  function RunMem(k: nat, mem: Memory, ops: seq<Op>): Memory
    decreases |ops|
  {
    if ops == [] then mem else RunMem(k, NextMem(k, mem, ops[0]), ops[1..])
  }

  function RunFlat(k: nat, a: Flat, ops: seq<Op>): Flat
    decreases |ops|
  {
    if ops == [] then a else RunFlat(k, NextFlat(k, a, ops[0]), ops[1..])
  }

  ghost function RunTab(k: nat, a: Flat, tab: Labels, ops: seq<Op>): Labels
    decreases |ops|
  {
    if ops == [] then tab else RunTab(k, NextFlat(k, a, ops[0]), NextTab(a, tab, ops[0]), ops[1..])
  }

  /** Over every run the tables stay a forest of depth three, and the hardware
      translates every address of every space as the flat table says. */
  lemma {:induction false} EveryRun(k: nat, mem: Memory, tab: Labels, a: Flat, ops: seq<Op>)
    requires Inv(k, mem, tab) && Refines(mem, tab, a) && LegalRun(k, mem, tab, a, ops)
    ensures Inv(k, RunMem(k, mem, ops), RunTab(k, a, tab, ops))
    ensures Refines(RunMem(k, mem, ops), RunTab(k, a, tab, ops), RunFlat(k, a, ops))
    ensures forall r: nat, va: nat :: IsRoot(RunTab(k, a, tab, ops), r) && Canonical(va) ==>
              Translate(RunMem(k, mem, ops), r, va) == Deliver(SV39, RunFlat(k, a, ops)(r, va), va)
    decreases |ops|
  {
    if ops == [] {
      SameIndices();
      forall r: nat, va: nat | IsRoot(tab, r) && Canonical(va)
        ensures Translate(mem, r, va) == Deliver(SV39, a(r, va), va)
      {
        HwIsDeliver(SV39, FORMAT, mem, tab, r, va);
      }
    } else {
      Step(k, mem, tab, a, ops[0]);
      EveryRun(k, NextMem(k, mem, ops[0]), NextTab(a, tab, ops[0]), NextFlat(k, a, ops[0]), ops[1..]);
    }
  }
}
