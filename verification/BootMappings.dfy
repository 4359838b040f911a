/** Building one path of tables down to a page, one entry after the other, for any
    architecture. */
module BootMappings {
  import opened Words
  import opened PageTables
  import opened PageTableUpdates
  import opened Hardware

  ghost predicate Sound(h: Scheme, f: Format, mem: Memory, tab: Labels) {
    Labelled(f, mem, tab) && Clean(h, f, mem, tab) && SameIndex(h, f)
  }

  /** Table `q` is where `va` arrives at level `l`, and its entry there faults. */
  ghost predicate Ready(h: Scheme, f: Format, mem: Memory, tab: Labels, r0: nat, va: nat, l: nat, q: nat) {
    var s := Slot(f, q, va, l);
    l <= f.top && OwnedSlot(f, mem, tab, r0, va, l, q, s) && s < |mem| &&
    PlaceOk(f, tab[q]) && LevelOf(f, tab[q]) == l && !f.isTable(mem[s]) && h.decode(l, mem[s]) == Fault
  }

  /** A page in no use whose words all fault at level `k` and are read alike. */
  ghost predicate Empty(h: Scheme, f: Format, mem: Memory, tab: Labels, z: nat, k: nat) {
    z !in tab && AllFault(h, f, mem, z, k) && CleanPage(h, f, mem, z, k)
  }

  predicate TableFor(h: Scheme, f: Format, l: nat, v: Word, z: nat) {
    f.isTable(v) && f.next(v) == z && CleanWord(h, f, l, v)
  }

  lemma CleanAfterTable(h: Scheme, f: Format, mem: Memory, tab: Labels, r0: nat, va: nat, l: nat, q: nat, z: nat,
      v: Word)
    requires Sound(h, f, mem, tab) && Ready(h, f, mem, tab, r0, va, l, q) && 0 < l
    requires Empty(h, f, mem, tab, z, l - 1) && TableFor(h, f, l, v, z)
    ensures Clean(h, f, mem[Slot(f, q, va, l) := v], tab[z := Own(r0, Path(f, va, l - 1))])
  {
    var s := Slot(f, q, va, l);
    CleanAfterStore(h, f, mem, tab, q, s, v);
    var tab' := tab[z := Own(r0, Path(f, va, l - 1))];
    forall p | p in tab'
      ensures PlaceOk(f, tab'[p]) && CleanPage(h, f, mem[s := v], p, LevelOf(f, tab'[p]))
    {
      if p != z {
        assert CleanPage(h, f, mem[s := v], p, LevelOf(f, tab[p]));
      }
    }
  }

  /** Entering an empty table: the next level is ready in it, and no address of any
      space translates differently. */
  lemma EnterTable(h: Scheme, f: Format, mem: Memory, tab: Labels, r0: nat, va: nat, l: nat, q: nat, z: nat, v: Word,
      r: nat, vb: nat)
    returns (mem': Memory, tab': Labels)
    requires Sound(h, f, mem, tab) && Ready(h, f, mem, tab, r0, va, l, q) && 0 < l && IsRoot(tab, r)
    requires Empty(h, f, mem, tab, z, l - 1) && TableFor(h, f, l, v, z)
    ensures mem' == mem[Slot(f, q, va, l) := v] && tab' == tab[z := Own(r0, Path(f, va, l - 1))]
    ensures Sound(h, f, mem', tab') && Ready(h, f, mem', tab', r0, va, l - 1, z) && IsRoot(tab', r)
    ensures Follow(f, mem, r0, f.top, va, l) == Slot(f, q, va, l)
    ensures HwWalk(h, mem', r, f.top, vb) == HwWalk(h, mem, r, f.top, vb)
  {
    var s := Slot(f, q, va, l);
    mem', tab' := mem[s := v], tab[z := Own(r0, Path(f, va, l - 1))];
    CleanAfterTable(h, f, mem, tab, r0, va, l, q, z, v);
    StoreTable(f, mem, tab, r0, va, l, q, s, v, r0, va);
    FollowUsed(f, mem, r0, f.top, va, q, l);
    AddEmptyTable(h, f, mem, tab, r0, va, l, q, s, v, r, vb);
  }

  lemma EmptyKept(h: Scheme, f: Format, mem: Memory, tab: Labels, z: nat, k: nat, s: nat, v: Word, y: nat, a: Place)
    requires Empty(h, f, mem, tab, z, k) && s < |mem| && !(512 * z <= s < 512 * z + 512) && y != z
    ensures Empty(h, f, mem[s := v], tab[y := a], z, k)
  {
  }

  /** Memory after entries for levels 3, 2 and 1 of `va`. */
  function Entered(f: Format, mem: Memory, r0: nat, va: nat, v3: Word, v2: Word, v1: Word): Memory {
    var m1 := Enter(f, mem, r0, va, 3, v3);
    Enter(f, Enter(f, m1, r0, va, 2, v2), r0, va, 1, v1)
  }

  function Enter(f: Format, mem: Memory, r0: nat, va: nat, l: nat, v: Word): Memory {
    var s := Follow(f, mem, r0, f.top, va, l);
    if s < |mem| then mem[s := v] else mem
  }

  /** The labels once three tables hang below the root entry for `va`. */
  function PathTables(f: Format, tab: Labels, r0: nat, va: nat, d2: nat, d1: nat, d0: nat): Labels {
    tab[d2 := Own(r0, Path(f, va, 2))][d1 := Own(r0, Path(f, va, 1))][d0 := Own(r0, Path(f, va, 0))]
  }

  lemma EnterTwo(h: Scheme, f: Format, mem: Memory, tab: Labels, r0: nat, va: nat,
                 d2: nat, d1: nat, d0: nat, v2: Word, v1: Word, r: nat, vb: nat)
    returns (m2: Memory, t2: Labels)
    requires f.top == 3 && Sound(h, f, mem, tab) && Ready(h, f, mem, tab, r0, va, 2, d2) && IsRoot(tab, r)
    requires Empty(h, f, mem, tab, d1, 1) && Empty(h, f, mem, tab, d0, 0) && d1 != d0
    requires TableFor(h, f, 2, v2, d1) && TableFor(h, f, 1, v1, d0)
    ensures m2 == Enter(f, Enter(f, mem, r0, va, 2, v2), r0, va, 1, v1)
    ensures t2 == tab[d1 := Own(r0, Path(f, va, 1))][d0 := Own(r0, Path(f, va, 0))]
    ensures Sound(h, f, m2, t2) && Ready(h, f, m2, t2, r0, va, 0, d0) && IsRoot(t2, r)
    ensures HwWalk(h, m2, r, f.top, vb) == HwWalk(h, mem, r, f.top, vb)
  {
    var m1, t1 := EnterTable(h, f, mem, tab, r0, va, 2, d2, d1, v2, r, vb);
    EmptyKept(h, f, mem, tab, d0, 0, Slot(f, d2, va, 2), v2, d1, t1[d1]);
    m2, t2 := EnterTable(h, f, m1, t1, r0, va, 1, d1, d0, v1, r, vb);
  }

  lemma EnterChain(h: Scheme, f: Format, mem: Memory, tab: Labels, r0: nat, va: nat,
                   d2: nat, d1: nat, d0: nat, v3: Word, v2: Word, v1: Word, r: nat, vb: nat)
    returns (m3: Memory, t3: Labels)
    requires f.top == 3 && Sound(h, f, mem, tab) && Ready(h, f, mem, tab, r0, va, 3, r0) && IsRoot(tab, r)
    requires Empty(h, f, mem, tab, d2, 2) && Empty(h, f, mem, tab, d1, 1) && Empty(h, f, mem, tab, d0, 0)
    requires d2 != d1 && d1 != d0 && d2 != d0
    requires TableFor(h, f, 3, v3, d2) && TableFor(h, f, 2, v2, d1) && TableFor(h, f, 1, v1, d0)
    ensures m3 == Entered(f, mem, r0, va, v3, v2, v1)
    ensures t3 == PathTables(f, tab, r0, va, d2, d1, d0)
    ensures Sound(h, f, m3, t3) && Ready(h, f, m3, t3, r0, va, 0, d0) && IsRoot(t3, r)
    ensures HwWalk(h, m3, r, f.top, vb) == HwWalk(h, mem, r, f.top, vb)
  {
    var m1, t1 := EnterTable(h, f, mem, tab, r0, va, 3, r0, d2, v3, r, vb);
    EmptyKept(h, f, mem, tab, d1, 1, Slot(f, r0, va, 3), v3, d2, t1[d2]);
    EmptyKept(h, f, mem, tab, d0, 0, Slot(f, r0, va, 3), v3, d2, t1[d2]);
    m3, t3 := EnterTwo(h, f, m1, t1, r0, va, d2, d1, d0, v2, v1, r, vb);
  }

  /** Entering a page or block: the range of `va` at that level ends with it, for
      exactly one address space, and the walk of `va` stops at its slot. */
  lemma EnterLeaf(h: Scheme, f: Format, mem: Memory, tab: Labels, r0: nat, va: nat, l: nat, q: nat, v: Word, r: nat,
      vb: nat)
    requires Sound(h, f, mem, tab) && Ready(h, f, mem, tab, r0, va, l, q) && IsRoot(tab, r)
    requires !f.isTable(v) && CleanWord(h, f, l, v)
    ensures var m := Enter(f, mem, r0, va, l, v);
            m == mem[Slot(f, q, va, l) := v] && Sound(h, f, m, tab) &&
            Walk(f, m, r0, f.top, va) == Stop(l, Slot(f, q, va, l)) &&
              Follow(f, m, r0, f.top, va, l) == Slot(f, q, va, l)
    ensures HwWalk(h, Enter(f, mem, r0, va, l, v), r, f.top, vb) ==
            if r == r0 && Agree(f, vb, va, l) then Physical(h, End(l, h.decode(l, v)), vb)
              else HwWalk(h, mem, r, f.top, vb)
  {
    var s := Slot(f, q, va, l);
    FollowUsed(f, mem, r0, f.top, va, q, l);
    LabelledAfterLeaf(f, mem, tab, s, v);
    CleanAfterStore(h, f, mem, tab, q, s, v);
    UsedAfterStore(f, mem, tab, r0, r0, f.top, va, q, l, v);
    FollowUsed(f, mem[s := v], r0, f.top, va, q, l);
    StopsAt(f, mem[s := v], r0, va, q, l);
    StoreLeafSeen(h, f, mem, tab, r0, va, l, q, s, v, r, vb);
  }

  /** Tables at levels 3, 2 and 1 and a page at level 0, entered one after the other. */
  lemma EnterPath(h: Scheme, f: Format, mem: Memory, tab: Labels, r0: nat, va: nat,
                  d2: nat, d1: nat, d0: nat, v3: Word, v2: Word, v1: Word, v: Word, r: nat, vb: nat)
    requires f.top == 3 && Sound(h, f, mem, tab) && Ready(h, f, mem, tab, r0, va, 3, r0) && IsRoot(tab, r)
    requires Empty(h, f, mem, tab, d2, 2) && Empty(h, f, mem, tab, d1, 1) && Empty(h, f, mem, tab, d0, 0)
    requires d2 != d1 && d1 != d0 && d2 != d0
    requires TableFor(h, f, 3, v3, d2) && TableFor(h, f, 2, v2, d1) && TableFor(h, f, 1, v1, d0)
    requires !f.isTable(v) && CleanWord(h, f, 0, v)
    ensures var m := Enter(f, Entered(f, mem, r0, va, v3, v2, v1), r0, va, 0, v);
            var s := Follow(f, m, r0, f.top, va, 0);
            Sound(h, f, m, PathTables(f, tab, r0, va, d2, d1, d0)) &&
            s == Slot(f, d0, va, 0) && s < |m| && m[s] == v && Walk(f, m, r0, f.top, va) == Stop(0, s) &&
            HwWalk(h, m, r, f.top, vb) ==
            if r == r0 && Agree(f, vb, va, 0) then Physical(h, End(0, h.decode(0, v)), vb)
              else HwWalk(h, mem, r, f.top, vb)
  {
    var m3, t3 := EnterChain(h, f, mem, tab, r0, va, d2, d1, d0, v3, v2, v1, r, vb);
    EnterLeaf(h, f, m3, t3, r0, va, 0, d0, v, r, vb);
  }
}
