/** The hardware's own page-table walk, for any architecture, and when it
    delivers what the software walk over the same tables predicts. */
module Hardware {
  import opened Words
  import opened Options
  import opened PageTables
  import opened PageTableUpdates
  import opened VirtualAddresses

  datatype HwEntry = Fault | Pointer(page: nat) | Leaf(base: nat)

  /** A translation scheme: the index and the offset an address has at a level,
      and how an entry at a level is read. */
  datatype Scheme = Scheme(
    index: (nat, nat) -> Entry,
    offset: (nat, nat) -> nat,
    decode: (nat, Word) -> HwEntry)

  /** The index and offset fields of both architectures' addresses. */
  function VpnField(va: nat, l: nat): Entry { va / Span(l) % 512 }
  function Offset(va: nat, l: nat): nat { va % Span(l) }

  /** Hardware and software index the tables alike. */
  ghost predicate SameIndex(h: Scheme, f: Format) {
    forall va: nat, l: nat :: l <= f.top ==> h.index(va, l) == f.index(va, l)
  }

  /** Where the hardware's walk ends and what it finds there. */
  datatype End = End(level: nat, entry: HwEntry)

  function HwEnd(h: Scheme, mem: Memory, p: nat, l: nat, va: nat): End
    decreases l, p
  {
    var s := 512 * p + h.index(va, l);
    if s >= |mem| then End(l, Fault) else
    match h.decode(l, mem[s])
    case Fault => End(l, Fault)
    case Leaf(base) => End(l, Leaf(base))
    case Pointer(page) => if l == 0 then End(l, Fault) else HwEnd(h, mem, page, l - 1, va)
  }

  function Physical(h: Scheme, e: End, va: nat): Option<nat> {
    match e.entry
    case Leaf(base) => Some(base + h.offset(va, e.level))
    case _ => None
  }

  /** The physical address the hardware gives for `va`, or none where it faults.
      Access permissions play no part. */
  function HwWalk(h: Scheme, mem: Memory, p: nat, l: nat, va: nat): Option<nat> {
    Physical(h, HwEnd(h, mem, p, l, va), va)
  }

  /** What a stopped software walk means to the hardware. */
  function Deliver(h: Scheme, v: View, va: nat): Option<nat> {
    Physical(h, End(v.level, h.decode(v.level, v.word)), va)
  }

  lemma LeafHere(h: Scheme, mem: Memory, p: nat, l: nat, va: nat, base: nat)
    requires var s := 512 * p + h.index(va, l); s < |mem| && h.decode(l, mem[s]) == Leaf(base)
    ensures HwWalk(h, mem, p, l, va) == Some(base + h.offset(va, l))
  {
  }

  lemma PointerHere(h: Scheme, mem: Memory, p: nat, l: nat, va: nat, q: nat)
    requires var s := 512 * p + h.index(va, l); l > 0 && s < |mem| && h.decode(l, mem[s]) == Pointer(q)
    ensures HwWalk(h, mem, p, l, va) == HwWalk(h, mem, q, l - 1, va)
  {
  }

  /** One step of the hardware's walk. */
  lemma WalkHere(h: Scheme, mem: Memory, p: nat, l: nat, va: nat)
    requires 512 * p + h.index(va, l) < |mem|
    ensures HwWalk(h, mem, p, l, va) ==
            match h.decode(l, mem[512 * p + h.index(va, l)])
            case Fault => None
            case Leaf(base) => Some(base + h.offset(va, l))
            case Pointer(q) => if l == 0 then None else HwWalk(h, mem, q, l - 1, va)
  {
  }

  /** Hardware and software take a word at level `l` for the same table. */
  predicate CleanWord(h: Scheme, f: Format, l: nat, w: Word) {
    (h.decode(l, w).Pointer? <==> l > 0 && f.isTable(w)) &&
    (h.decode(l, w).Pointer? ==> h.decode(l, w).page == f.next(w))
  }

  ghost predicate CleanPage(h: Scheme, f: Format, mem: Memory, p: nat, l: nat) {
    PageInside(mem, p) && forall s :: 512 * p <= s < 512 * p + 512 ==> CleanWord(h, f, l, mem[s])
  }

  ghost predicate Clean(h: Scheme, f: Format, mem: Memory, tab: Labels) {
    forall p :: p in tab ==> PlaceOk(f, tab[p]) && CleanPage(h, f, mem, p, LevelOf(f, tab[p]))
  }

  lemma {:induction false} HwFollowsWalk(h: Scheme, f: Format, mem: Memory, tab: Labels, p: nat, r: nat, l: nat,
      va: nat)
    requires Labelled(f, mem, tab) && Clean(h, f, mem, tab) && l <= f.top && SameIndex(h, f)
    requires OnPath(f, tab, p, r, l, va)
    ensures var w := Walk(f, mem, p, l, va);
            w.slot < |mem| && HwWalk(h, mem, p, l, va) == Deliver(h, View(w.level, mem[w.slot]), va)
    decreases l
  {
    var i := f.index(va, l);
    assert EntryOk(f, mem, tab, p, i) && CleanWord(h, f, l, mem[512 * p + i]) && h.index(va, l) == i;
    WalkHere(h, mem, p, l, va);
    if l > 0 && f.isTable(mem[512 * p + i]) {
      HwFollowsWalk(h, f, mem, tab, f.next(mem[512 * p + i]), r, l - 1, va);
    }
  }

  /** On clean labelled tables the hardware translates every address of every
      space exactly as the software's walk says. */
  lemma HwIsDeliver(h: Scheme, f: Format, mem: Memory, tab: Labels, r: nat, va: nat)
    requires Labelled(f, mem, tab) && Clean(h, f, mem, tab) && IsRoot(tab, r) && SameIndex(h, f)
    ensures HwWalk(h, mem, r, f.top, va) == Deliver(h, ViewAt(f, mem, r, va), va)
  {
    HwFollowsWalk(h, f, mem, tab, r, r, f.top, va);
  }

  /** A store keeps the tables clean if the word is clean at the level of its slot. */
  lemma CleanAfterStore(h: Scheme, f: Format, mem: Memory, tab: Labels, q: nat, s: nat, v: Word)
    requires Clean(h, f, mem, tab) && q in tab && 512 * q <= s < 512 * q + 512 && s < |mem|
    requires CleanWord(h, f, LevelOf(f, tab[q]), v)
    ensures Clean(h, f, mem[s := v], tab)
  {
    forall p | p in tab
      ensures CleanPage(h, f, mem[s := v], p, LevelOf(f, tab[p]))
    {
      assert CleanPage(h, f, mem, p, LevelOf(f, tab[p]));
    }
  }

  /** A non-table word stored in an owned slot is what exactly the walks of its range
      now end with. */
  lemma StoreLeafSeen(h: Scheme, f: Format, mem: Memory, tab: Labels, r0: nat, v0: nat, l: nat, q: nat, s: nat,
      v: Word, r: nat, va: nat)
    requires Labelled(f, mem, tab) && Clean(h, f, mem, tab) && SameIndex(h, f) && IsRoot(tab, r)
    requires OwnedSlot(f, mem, tab, r0, v0, l, q, s) && s < |mem| && !f.isTable(v)
    requires Clean(h, f, mem[s := v], tab)
    ensures HwWalk(h, mem[s := v], r, f.top, va) ==
            if r == r0 && Agree(f, va, v0, l) then Physical(h, End(l, h.decode(l, v)), va)
              else HwWalk(h, mem, r, f.top, va)
  {
    StoreLeaf(f, mem, tab, r0, v0, l, q, s, v, r, va);
    HwIsDeliver(h, f, mem, tab, r, va);
    HwIsDeliver(h, f, mem[s := v], tab, r, va);
  }

  /** A store to a slot the software's walk does not read changes nothing for the
      hardware, whatever the word. */
  lemma {:induction false} HwFrame(h: Scheme, f: Format, mem: Memory, tab: Labels, p: nat, r: nat, l: nat, va: nat,
      s: nat, v: Word)
    requires Labelled(f, mem, tab) && Clean(h, f, mem, tab) && SameIndex(h, f) && l <= f.top
    requires OnPath(f, tab, p, r, l, va) && s < |mem| && !Reads(f, mem, p, l, va, s)
    ensures HwEnd(h, mem[s := v], p, l, va) == HwEnd(h, mem, p, l, va)
    decreases l
  {
    var i := f.index(va, l);
    var t := 512 * p + i;
    assert EntryOk(f, mem, tab, p, i) && CleanWord(h, f, l, mem[t]) && h.index(va, l) == i && t != s;
    if l > 0 && f.isTable(mem[t]) {
      HwFrame(h, f, mem, tab, f.next(mem[t]), r, l - 1, va, s, v);
    }
  }

  // ----- removing a table

  /** No entry of page `z` is a table, and all fault at level `k`. */
  predicate AllFault(h: Scheme, f: Format, mem: Memory, z: nat, k: nat) {
    PageInside(mem, z) &&
    forall s :: 512 * z <= s < 512 * z + 512 ==> !f.isTable(mem[s]) && h.decode(k, mem[s]) == Fault
  }

  lemma AllFaultStop(h: Scheme, f: Format, mem: Memory, r: nat, va: nat, z: nat, k: nat)
    requires Uses(f, mem, r, f.top, va, z, k) && AllFault(h, f, mem, z, k)
    ensures Walk(f, mem, r, f.top, va) == Stop(k, Slot(f, z, va, k))
    ensures Deliver(h, ViewAt(f, mem, r, va), va) == None
  {
    StopsAt(f, mem, r, va, z, k);
  }

  /** Overwriting the entry for a table whose entries all fault by a word that faults
      too changes no translation. */
  lemma DropEmptyTable(h: Scheme, f: Format, mem: Memory, tab: Labels, r0: nat, v0: nat, k: nat, q: nat, s: nat,
      z: nat, v: Word, r: nat, va: nat)
    requires Labelled(f, mem, tab) && Clean(h, f, mem, tab) && SameIndex(h, f) && IsRoot(tab, r)
    requires OwnedSlot(f, mem, tab, r0, v0, k + 1, q, s) && Descends(f, mem, s) && f.next(mem[s]) == z
    requires AllFault(h, f, mem, z, k) && !f.isTable(v) && h.decode(k + 1, v) == Fault && Clean(h, f, mem[s := v], tab)
    ensures HwWalk(h, mem[s := v], r, f.top, va) == HwWalk(h, mem, r, f.top, va)
  {
    StoreLeafSeen(h, f, mem, tab, r0, v0, k + 1, q, s, v, r, va);
    UsedOnPath(f, mem, tab, r0, r0, f.top, v0, q, k + 1);
    if r == r0 && Agree(f, va, v0, k + 1) {
      SharedSlot(f, mem, r0, f.top, v0, va, q, k + 1);
      UsesBelow(f, mem, r0, f.top, va, q, k + 1);
      AllFaultStop(h, f, mem, r0, va, z, k);
      HwIsDeliver(h, f, mem, tab, r, va);
    }
  }

  /** The walk that stopped in the table now stops at the slot that named it. */
  lemma DropTableStops(h: Scheme, f: Format, mem: Memory, tab: Labels, r0: nat, v0: nat, k: nat, q: nat, s: nat,
      z: nat, v: Word)
    requires Labelled(f, mem, tab) && OwnedSlot(f, mem, tab, r0, v0, k + 1, q, s) && Descends(f, mem, s) &&
             f.next(mem[s]) == z
    requires AllFault(h, f, mem, z, k) && !f.isTable(v)
    ensures Walk(f, mem, r0, f.top, v0).level == k && Walk(f, mem[s := v], r0, f.top, v0) == Stop(k + 1, s)
  {
    StoreLeaf(f, mem, tab, r0, v0, k + 1, q, s, v, r0, v0);
    UsesBelow(f, mem, r0, f.top, v0, q, k + 1);
    AllFaultStop(h, f, mem, r0, v0, z, k);
  }

  lemma EndPointer(h: Scheme, mem: Memory, s: nat, p: nat, l: nat, va: nat, q: nat)
    requires s == 512 * p + h.index(va, l) && s < |mem| && l > 0 && h.decode(l, mem[s]) == Pointer(q)
    ensures HwEnd(h, mem, p, l, va) == HwEnd(h, mem, q, l - 1, va)
  {
  }

  /** On clean tables the hardware passes every table above a changed slot that the
      software walk does. */
  lemma {:induction false} HwReaches(h: Scheme, f: Format, mem: Memory, mem': Memory, tab: Labels, p: nat, r: nat,
      l: nat, va: nat, q: nat, k: nat, s: nat)
    requires Labelled(f, mem, tab) && Clean(h, f, mem, tab) && SameIndex(h, f) && l <= f.top &&
             OnPath(f, tab, p, r, l, va)
    requires Uses(f, mem, p, l, va, q, k) && s == Slot(f, q, va, k) && |mem'| == |mem|
    requires forall t :: 0 <= t < |mem| && t != s ==> mem'[t] == mem[t]
    ensures HwEnd(h, mem', p, l, va) == HwEnd(h, mem', q, k, va)
    decreases l
  {
    if !(q == p && k == l) {
      var i := f.index(va, l);
      var t := 512 * p + i;
      assert EntryOk(f, mem, tab, p, i) && CleanWord(h, f, l, mem[t]) && h.index(va, l) == i;
      var n := f.next(mem[t]);
      UsedOnPath(f, mem, tab, n, r, l - 1, va, q, k);
      assert Below(f, tab[p], i, tab[n]) && OnPath(f, tab, n, r, l - 1, va);
      assert p != q;
      assert t != s && mem'[t] == mem[t];
      EndPointer(h, mem', t, p, l, va, n);
      HwReaches(h, f, mem, mem', tab, n, r, l - 1, va, q, k, s);
    }
  }

  /** Entering a table whose entries all fault over a word that faults changes no
      translation. */
  lemma AddEmptyTable(h: Scheme, f: Format, mem: Memory, tab: Labels, r0: nat, v0: nat, l: nat, q: nat, s: nat,
      v: Word, r: nat, va: nat)
    requires Labelled(f, mem, tab) && Clean(h, f, mem, tab) && SameIndex(h, f) && IsRoot(tab, r)
    requires OwnedSlot(f, mem, tab, r0, v0, l, q, s) && s < |mem| && l > 0 && h.decode(l, mem[s]) == Fault &&
             !f.isTable(mem[s])
    requires f.isTable(v) && f.next(v) !in tab && AllFault(h, f, mem, f.next(v), l - 1)
    requires Clean(h, f, mem[s := v], tab[f.next(v) := Own(r0, Path(f, v0, l - 1))])
    ensures HwWalk(h, mem[s := v], r, f.top, va) == HwWalk(h, mem, r, f.top, va)
  {
    StoreTable(f, mem, tab, r0, v0, l, q, s, v, r, va);
    HwIsDeliver(h, f, mem, tab, r, va);
    HwIsDeliver(h, f, mem[s := v], tab[f.next(v) := Own(r0, Path(f, v0, l - 1))], r, va);
    if r == r0 && Agree(f, va, v0, l) {
      SharedSlot(f, mem, r0, f.top, v0, va, q, l);
      StopsAt(f, mem, r0, va, q, l);
    }
  }
}
