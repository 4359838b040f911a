/** What one store to a page table does to every walk in every address space. */
module PageTableUpdates {
  import opened Words
  import opened Options
  import opened PageTables

  /** What software sees of an address: the level its walk stops at and the word
      there. */
  datatype View = View(level: nat, word: Word)

  function ViewAt(f: Format, mem: Memory, r: nat, va: nat): View {
    var w := Walk(f, mem, r, f.top, va);
    View(w.level, if w.slot < |mem| then mem[w.slot] else 0)
  }

  /** Slot `s` is entry `i` of an owned table that the walk of `va` from `r`
      uses at level `l`. */
  ghost predicate OwnedSlot(f: Format, mem: Memory, tab: Labels, r: nat, va: nat, l: nat, q: nat, s: nat) {
    IsRoot(tab, r) && Uses(f, mem, r, f.top, va, q, l) && q in tab && tab[q].Own? && s == Slot(f, q, va, l)
  }

  /** An owned slot is read by exactly the walks from its own root that agree
      with it at its level and above: one aligned range of one address space. */
  lemma ReadsExactly(f: Format, mem: Memory, tab: Labels, r0: nat, v0: nat, l: nat, q: nat, s: nat, r: nat, va: nat)
    requires Labelled(f, mem, tab) && IsRoot(tab, r)
    requires OwnedSlot(f, mem, tab, r0, v0, l, q, s)
    ensures l <= f.top
    ensures Reads(f, mem, r, f.top, va, s) <==> r == r0 && Agree(f, va, v0, l)
  {
    UsedOnPath(f, mem, tab, r0, r0, f.top, v0, q, l);
    if Reads(f, mem, r, f.top, va, s) {
      ReadsUses(f, mem, r, f.top, va, s);
      var p: nat, k: nat :| k <= f.top && Uses(f, mem, r, f.top, va, p, k) && s == Slot(f, p, va, k);
      assert p == q;
      UsedOnPath(f, mem, tab, r, r, f.top, va, q, k);
    }
    if r == r0 && Agree(f, va, v0, l) {
      SharedSlot(f, mem, r, f.top, v0, va, q, l);
      WalkFromUsed(f, mem, r, f.top, va, q, l);
    }
  }

  /** A store to a slot of table `q` does not disturb the way down to `q`. */
  lemma {:induction false} UsedAfterStore(f: Format, mem: Memory, tab: Labels, p: nat, r: nat, m: nat, va: nat,
      q: nat, l: nat, v: Word)
    requires Labelled(f, mem, tab) && m <= f.top && OnPath(f, tab, p, r, m, va)
    requires Uses(f, mem, p, m, va, q, l) && q in tab && tab[q].Own? && Slot(f, q, va, l) < |mem|
    ensures Uses(f, mem[Slot(f, q, va, l) := v], p, m, va, q, l)
    decreases m
  {
    UsedOnPath(f, mem, tab, p, r, m, va, q, l);
    if !(p == q && m == l) {
      var i := f.index(va, m);
      assert EntryOk(f, mem, tab, p, i);
      UsedAfterStore(f, mem, tab, f.next(mem[512 * p + i]), r, m - 1, va, q, l, v);
    }
  }

  lemma LabelledAfterLeaf(f: Format, mem: Memory, tab: Labels, s: nat, v: Word)
    requires Labelled(f, mem, tab) && s < |mem| && !f.isTable(v)
    ensures Labelled(f, mem[s := v], tab)
  {
    var mem' := mem[s := v];
    forall p, i: Entry | p in tab
      ensures PageInside(mem', p) && EntryOk(f, mem', tab, p, i)
    {
      assert EntryOk(f, mem, tab, p, i);
    }
  }

  /** A walk that reaches an owned table and meets a non-table there stops there. */
  lemma StopsAt(f: Format, mem: Memory, r: nat, va: nat, q: nat, l: nat)
    requires Uses(f, mem, r, f.top, va, q, l)
    requires l == 0 || !Descends(f, mem, Slot(f, q, va, l))
    ensures Walk(f, mem, r, f.top, va) == Stop(l, Slot(f, q, va, l))
  {
    WalkFromUsed(f, mem, r, f.top, va, q, l);
  }

  /** Storing a non-table word in an owned slot: the walks of one range of one
      address space now stop at that slot; every other walk is unchanged and
      does not end there. The tables stay a forest. */
  lemma StoreLeaf(f: Format, mem: Memory, tab: Labels, r0: nat, v0: nat, l: nat, q: nat, s: nat, v: Word, r: nat,
      va: nat)
    requires Labelled(f, mem, tab) && IsRoot(tab, r)
    requires OwnedSlot(f, mem, tab, r0, v0, l, q, s) && s < |mem| && !f.isTable(v)
    ensures Labelled(f, mem[s := v], tab)
    ensures Walk(f, mem[s := v], r, f.top, va) ==
            if r == r0 && Agree(f, va, v0, l) then Stop(l, s) else Walk(f, mem, r, f.top, va)
    ensures ViewAt(f, mem[s := v], r, va) ==
            if r == r0 && Agree(f, va, v0, l) then View(l, v) else ViewAt(f, mem, r, va)
  {
    ReadsExactly(f, mem, tab, r0, v0, l, q, s, r, va);
    LabelledAfterLeaf(f, mem, tab, s, v);
    if r == r0 && Agree(f, va, v0, l) {
      SharedSlot(f, mem, r, f.top, v0, va, q, l);
      UsedAfterStore(f, mem, tab, r, r, f.top, va, q, l, v);
      StopsAt(f, mem[s := v], r, va, q, l);
    } else {
      WalkFrame(f, mem, r, f.top, va, s, v);
    }
  }

  predicate NoTables(f: Format, mem: Memory, p: nat) {
    PageInside(mem, p) && forall s :: 512 * p <= s < 512 * p + 512 ==> !f.isTable(mem[s])
  }

  lemma LabelledAfterTable(f: Format, mem: Memory, tab: Labels, r0: nat, v0: nat, l: nat, q: nat, s: nat, v: Word)
    requires Labelled(f, mem, tab) && OwnedSlot(f, mem, tab, r0, v0, l, q, s) && s < |mem| && l > 0
    requires f.isTable(v) && f.next(v) !in tab && NoTables(f, mem, f.next(v))
    ensures Labelled(f, mem[s := v], tab[f.next(v) := Own(r0, Path(f, v0, l - 1))])
  {
    UsedOnPath(f, mem, tab, r0, r0, f.top, v0, q, l);
    var z := f.next(v);
    var mem', tab' := mem[s := v], tab[z := Own(r0, Path(f, v0, l - 1))];
    forall p, i: Entry | p in tab'
      ensures PlaceOk(f, tab'[p]) && PageInside(mem', p) && EntryOk(f, mem', tab', p, i)
    {
      if p != z {
        assert EntryOk(f, mem, tab, p, i);
      }
    }
  }

  /** Storing in an owned slot a table entry that names a page without tables:
      the walks of one range now end one level lower, in that page; every other
      walk is unchanged. The tables stay a forest, one table larger. */
  lemma StoreTable(f: Format, mem: Memory, tab: Labels, r0: nat, v0: nat, l: nat, q: nat, s: nat, v: Word, r: nat,
      va: nat)
    requires Labelled(f, mem, tab) && IsRoot(tab, r)
    requires OwnedSlot(f, mem, tab, r0, v0, l, q, s) && s < |mem| && l > 0
    requires f.isTable(v) && f.next(v) !in tab && NoTables(f, mem, f.next(v))
    ensures Labelled(f, mem[s := v], tab[f.next(v) := Own(r0, Path(f, v0, l - 1))])
    ensures Walk(f, mem[s := v], r, f.top, va) ==
            if r == r0 && Agree(f, va, v0, l) then Stop(l - 1, Slot(f, f.next(v), va, l - 1))
            else Walk(f, mem, r, f.top, va)
    ensures ViewAt(f, mem[s := v], r, va) ==
            if r == r0 && Agree(f, va, v0, l) then View(l - 1, mem[Slot(f, f.next(v), va, l - 1)])
            else ViewAt(f, mem, r, va)
    ensures r == r0 && Agree(f, va, v0, l) ==> Uses(f, mem[s := v], r, f.top, va, f.next(v), l - 1)
  {
    ReadsExactly(f, mem, tab, r0, v0, l, q, s, r, va);
    LabelledAfterTable(f, mem, tab, r0, v0, l, q, s, v);
    if r == r0 && Agree(f, va, v0, l) {
      SharedSlot(f, mem, r, f.top, v0, va, q, l);
      UsedAfterStore(f, mem, tab, r, r, f.top, va, q, l, v);
      UsesBelow(f, mem[s := v], r, f.top, va, q, l);
      StopsAt(f, mem[s := v], r, va, f.next(v), l - 1);
    } else {
      WalkFrame(f, mem, r, f.top, va, s, v);
    }
  }

  lemma {:induction false} UsesBelow(f: Format, mem: Memory, p: nat, m: nat, va: nat, q: nat, l: nat)
    requires Uses(f, mem, p, m, va, q, l) && l > 0 && Descends(f, mem, Slot(f, q, va, l))
    ensures Uses(f, mem, p, m, va, f.next(mem[Slot(f, q, va, l)]), l - 1)
    decreases m
  {
    if q == p && l == m {
      assert Uses(f, mem, f.next(mem[Slot(f, q, va, l)]), l - 1, va, f.next(mem[Slot(f, q, va, l)]), l - 1);
    } else {
      UsesBelow(f, mem, f.next(mem[Slot(f, p, va, m)]), m - 1, va, q, l);
    }
  }

  predicate SamePage(mem: Memory, mem': Memory, p: nat) {
    512 * p + 512 <= |mem| == |mem'| && mem'[512 * p..512 * p + 512] == mem[512 * p..512 * p + 512]
  }

  lemma SamePageByWord(mem: Memory, mem': Memory, p: nat)
    requires PageInside(mem, p) && |mem'| == |mem|
    requires forall s :: 512 * p <= s < 512 * p + 512 ==> mem'[s] == mem[s]
    ensures SamePage(mem, mem', p)
  {
  }

  /** Memories that differ only in page `z` agree on every other page. */
  lemma SameButOne(mem: Memory, mem': Memory, z: nat, p: nat)
    requires PageInside(mem, p) && |mem'| == |mem| && p != z
    requires forall s :: 0 <= s < |mem| && !(512 * z <= s < 512 * z + 512) ==> mem'[s] == mem[s]
    ensures SamePage(mem, mem', p)
  {
    SamePageByWord(mem, mem', p);
  }

  lemma SameEntry(mem: Memory, mem': Memory, p: nat, i: Entry)
    requires SamePage(mem, mem', p)
    ensures mem'[512 * p + i] == mem[512 * p + i]
  {
    assert mem'[512 * p..512 * p + 512][i] == mem[512 * p..512 * p + 512][i];
  }

  /** Memories that agree on every labelled table give every labelled walk the
      same result. */
  lemma {:induction false} WalkOutside(f: Format, mem: Memory, mem': Memory, tab: Labels, p: nat, r: nat, l: nat,
      va: nat)
    requires Labelled(f, mem, tab) && l <= f.top && OnPath(f, tab, p, r, l, va)
    requires forall z :: z in tab ==> SamePage(mem, mem', z)
    ensures Walk(f, mem', p, l, va) == Walk(f, mem, p, l, va)
    ensures Walk(f, mem, p, l, va).slot < |mem| == |mem'|
    ensures mem'[Walk(f, mem, p, l, va).slot] == mem[Walk(f, mem, p, l, va).slot]
    decreases l
  {
    var i := f.index(va, l);
    assert EntryOk(f, mem, tab, p, i);
    SameEntry(mem, mem', p, i);
    if l > 0 && Descends(f, mem, Slot(f, p, va, l)) {
      WalkOutside(f, mem, mem', tab, f.next(mem[512 * p + i]), r, l - 1, va);
    }
  }

  /** A page whose entry for `va` is a copy of the one in root `k`, leading at most
      to a shared table, shows `va` the way `k` does. */
  lemma CopiedEntry(f: Format, mem: Memory, mem': Memory, tab: Labels, k: nat, z: nat, va: nat)
    requires Labelled(f, mem, tab) && IsRoot(tab, k) && forall p :: p in tab ==> SamePage(mem, mem', p)
    requires PageInside(mem', z) && |mem'| == |mem|
    requires var i := f.index(va, f.top);
             mem'[512 * z + i] == mem[512 * k + i] &&
             (f.isTable(mem[512 * k + i]) ==> f.next(mem[512 * k + i]) in tab && tab[f.next(mem[512 * k + i])].Shared?)
    ensures ViewAt(f, mem', z, va) == ViewAt(f, mem, k, va)
  {
    var i := f.index(va, f.top);
    assert EntryOk(f, mem, tab, k, i);
    if f.isTable(mem[512 * k + i]) {
      WalkOutside(f, mem, mem', tab, f.next(mem[512 * k + i]), k, f.top - 1, va);
    }
  }

  // ----- finding the entry for a table

  /** The slot, on the walk of `va` from table `p` at level `l`, that names table `z`. */
  function ParentSlot(f: Format, mem: Memory, p: nat, l: nat, va: nat, z: nat): Option<nat>
    decreases l, p
  {
    var s := Slot(f, p, va, l);
    if l == 0 || !Descends(f, mem, s) then None
    else if f.next(mem[s]) == z then Some(s)
    else ParentSlot(f, mem, f.next(mem[s]), l - 1, va, z)
  }

  /** One step of the search. */
  lemma ParentStep(f: Format, mem: Memory, p: nat, l: nat, va: nat, z: nat)
    requires l > 0 && Safe(f, mem, p, l, va)
    ensures var s := Slot(f, p, va, l);
            s < |mem| &&
            (!f.isTable(mem[s]) ==> ParentSlot(f, mem, p, l, va, z) == None) &&
            (f.isTable(mem[s]) ==>
               Safe(f, mem, f.next(mem[s]), l - 1, va) &&
               ParentSlot(f, mem, p, l, va, z) ==
                 if f.next(mem[s]) == z then Some(s) else ParentSlot(f, mem, f.next(mem[s]), l - 1, va, z))
  {
  }

  /** A slot that is found is on the walk and names the table. */
  lemma {:induction false} FoundIsParent(f: Format, mem: Memory, p: nat, l: nat, va: nat, z: nat)
    returns (q: nat, k: nat)
    requires ParentSlot(f, mem, p, l, va, z).Some?
    ensures k < l && Uses(f, mem, p, l, va, q, k + 1) && Uses(f, mem, p, l, va, z, k)
    ensures var s := ParentSlot(f, mem, p, l, va, z).value;
            s == Slot(f, q, va, k + 1) && Descends(f, mem, s) && f.next(mem[s]) == z
    decreases l
  {
    var n := f.next(mem[Slot(f, p, va, l)]);
    if n == z {
      q, k := p, l - 1;
      assert Uses(f, mem, n, l - 1, va, z, k);
    } else {
      q, k := FoundIsParent(f, mem, n, l - 1, va, z);
      assert Uses(f, mem, p, l, va, q, k + 1) && Uses(f, mem, p, l, va, z, k);
    }
  }

  lemma OnlyStart(f: Format, mem: Memory, p: nat, l: nat, va: nat, q: nat)
    requires Uses(f, mem, p, l, va, q, l)
    ensures q == p
  {
    if q != p {
      WalkFromUsed(f, mem, f.next(mem[Slot(f, p, va, l)]), l - 1, va, q, l);
    }
  }

  lemma {:induction false} ParentIsFound(f: Format, mem: Memory, tab: Labels, p: nat, r: nat, l: nat, va: nat,
      z: nat, k: nat)
    requires Labelled(f, mem, tab) && l <= f.top && OnPath(f, tab, p, r, l, va)
    requires k < l && Uses(f, mem, p, l, va, z, k)
    ensures ParentSlot(f, mem, p, l, va, z).Some?
    decreases l
  {
    var s := Slot(f, p, va, l);
    assert EntryOk(f, mem, tab, p, f.index(va, l));
    var n := f.next(mem[s]);
    if n != z {
      WalkFromUsed(f, mem, n, l - 1, va, z, k);
      if k == l - 1 {
        OnlyStart(f, mem, n, l - 1, va, z);
      }
      ParentIsFound(f, mem, tab, n, r, l - 1, va, z, k);
    }
  }

  /** Every table an address uses below its root has one parent slot on the walk. */
  lemma ParentOf(f: Format, mem: Memory, tab: Labels, r: nat, va: nat, z: nat, k: nat) returns (q: nat)
    requires Labelled(f, mem, tab) && IsRoot(tab, r) && k < f.top && Uses(f, mem, r, f.top, va, z, k)
    requires z in tab && tab[z].Own?
    ensures Uses(f, mem, r, f.top, va, q, k + 1) && q in tab && PlaceOk(f, tab[q]) && LevelOf(f, tab[q]) == k + 1 &&
            tab[q].Own?
    ensures var s := Slot(f, q, va, k + 1);
            ParentSlot(f, mem, r, f.top, va, z) == Some(s) && Descends(f, mem, s) && f.next(mem[s]) == z
  {
    ParentIsFound(f, mem, tab, r, r, f.top, va, z, k);
    var j;
    q, j := FoundIsParent(f, mem, r, f.top, va, z);
    UsedOnPath(f, mem, tab, r, r, f.top, va, z, k);
    UsedOnPath(f, mem, tab, r, r, f.top, va, z, j);
    UsedOnPath(f, mem, tab, r, r, f.top, va, q, k + 1);
    assert EntryOk(f, mem, tab, q, f.index(va, k + 1));
  }

  /** No entry of a labelled table names the table itself. */
  lemma NoSelfEntry(f: Format, mem: Memory, tab: Labels, z: nat, i: Entry, w: Word)
    requires Labelled(f, mem, tab) && z in tab && f.isTable(w) && f.next(w) == z
    ensures mem[512 * z + i] != w
  {
    assert EntryOk(f, mem, tab, z, i);
  }

  /** The entry for `z` is found exactly when `z` lies below the root on the walk of
      `va`; and it never equals an entry of `z` itself. */
  lemma ParentExactly(f: Format, mem: Memory, tab: Labels, r: nat, va: nat, z: nat)
    requires Labelled(f, mem, tab) && IsRoot(tab, r) && PageInside(mem, z)
    ensures ParentSlot(f, mem, r, f.top, va, z).Some? <==>
            exists k: nat :: k < f.top && Uses(f, mem, r, f.top, va, z, k)
    ensures ParentSlot(f, mem, r, f.top, va, z).Some? ==>
              var s := ParentSlot(f, mem, r, f.top, va, z).value;
              Descends(f, mem, s) && f.next(mem[s]) == z && Reads(f, mem, r, f.top, va, s) && mem[512 * z] != mem[s]
  {
    var t := f.top;
    if j: nat :| j < t && Uses(f, mem, r, t, va, z, j) {
      ParentIsFound(f, mem, tab, r, r, t, va, z, j);
    }
    if ParentSlot(f, mem, r, f.top, va, z).Some? {
      var q, k := FoundIsParent(f, mem, r, t, va, z);
      assert exists j: nat :: j < t && Uses(f, mem, r, t, va, z, j);
      WalkFromUsed(f, mem, r, f.top, va, q, k + 1);
      UsedOnPath(f, mem, tab, r, r, f.top, va, z, k);
      NoSelfEntry(f, mem, tab, z, 0, mem[Slot(f, q, va, k + 1)]);
    }
  }

  /** After a table in no use is entered in a slot on the walk, that slot is its
      parent's. */
  lemma {:induction false} ParentAfterStore(f: Format, mem: Memory, tab: Labels, p: nat, r: nat, l: nat, va: nat,
      q: nat, k: nat, v: Word)
    requires Labelled(f, mem, tab) && l <= f.top && OnPath(f, tab, p, r, l, va)
    requires Uses(f, mem, p, l, va, q, k) && k > 0 && q in tab && tab[q].Own? && Slot(f, q, va, k) < |mem|
    requires f.isTable(v) && f.next(v) !in tab
    ensures ParentSlot(f, mem[Slot(f, q, va, k) := v], p, l, va, f.next(v)) == Some(Slot(f, q, va, k))
    decreases l
  {
    UsedOnPath(f, mem, tab, p, r, l, va, q, k);
    if !(q == p && k == l) {
      assert EntryOk(f, mem, tab, p, f.index(va, l));
      var n := f.next(mem[Slot(f, p, va, l)]);
      ParentAfterStore(f, mem, tab, n, r, l - 1, va, q, k, v);
    }
  }
}
