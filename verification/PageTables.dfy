/** Multi-level page tables held in raw memory, for any entry format: the walk
    the software makes, which words it depends on, and the labelling that makes
    the tables a forest. Memory is the sequence of its 64-bit words; page p is
    the 512 words from 512 * p on. */
module PageTables {
  import opened Words

  type Memory = seq<Word>
  type Entry = i: nat | i < 512

  /** What distinguishes one architecture from another: the level of the root
      (leaf tables are level 0), the index a virtual address selects at a level,
      and how an entry is recognised as a table and which page it names. */
  datatype Format = Format(
    top: nat,
    index: (nat, nat) -> Entry,
    isTable: Word -> bool,
    next: Word -> nat)

  datatype Stop = Stop(level: nat, slot: nat)

  function Slot(f: Format, p: nat, va: nat, l: nat): nat {
    512 * p + f.index(va, l)
  }

  predicate Descends(f: Format, mem: Memory, s: nat) {
    s < |mem| && f.isTable(mem[s])
  }

  /** Where the walk of `va` from table `p` at level `l` stops: the first entry
      that is not a table, or level 0. */
  function Walk(f: Format, mem: Memory, p: nat, l: nat, va: nat): (r: Stop)
    ensures r.level <= l
    decreases l, p
  {
    var s := Slot(f, p, va, l);
    if l > 0 && Descends(f, mem, s) then Walk(f, mem, f.next(mem[s]), l - 1, va)
    else Stop(l, s)
  }

  /** The walk of `va` from table `p` at level `l` uses table `q` at level `k`. */
  predicate Uses(f: Format, mem: Memory, p: nat, l: nat, va: nat, q: nat, k: nat)
    decreases l, p
  {
    var s := Slot(f, p, va, l);
    (q == p && k == l) ||
    (l > 0 && Descends(f, mem, s) && Uses(f, mem, f.next(mem[s]), l - 1, va, q, k))
  }

  /** The walk of `va` from table `p` at level `l` reads slot `s`. */
  predicate Reads(f: Format, mem: Memory, p: nat, l: nat, va: nat, s: nat)
    decreases l, p
  {
    var t := Slot(f, p, va, l);
    t == s ||
    (l > 0 && Descends(f, mem, t) && Reads(f, mem, f.next(mem[t]), l - 1, va, s))
  }

  // ----- general facts, for any memory contents

  /** A store to a slot the walk does not read changes neither where it stops
      nor which tables it uses. */
  lemma {:induction false} WalkFrame(f: Format, mem: Memory, p: nat, l: nat, va: nat, s: nat, v: Word)
    requires s < |mem| && !Reads(f, mem, p, l, va, s)
    ensures Walk(f, mem[s := v], p, l, va) == Walk(f, mem, p, l, va)
    ensures Walk(f, mem, p, l, va).slot != s
    ensures forall q, k :: Uses(f, mem[s := v], p, l, va, q, k) == Uses(f, mem, p, l, va, q, k)
    decreases l
  {
    var t := Slot(f, p, va, l);
    if l > 0 && Descends(f, mem, t) {
      WalkFrame(f, mem, f.next(mem[t]), l - 1, va, s, v);
    }
  }

  /** A read slot belongs to a used table. */
  lemma {:induction false} ReadsUses(f: Format, mem: Memory, p: nat, l: nat, va: nat, s: nat)
    requires Reads(f, mem, p, l, va, s)
    ensures exists q: nat, k: nat :: k <= l && Uses(f, mem, p, l, va, q, k) && s == Slot(f, q, va, k)
    decreases l
  {
    var t := Slot(f, p, va, l);
    if t == s {
      assert Uses(f, mem, p, l, va, p, l);
    } else {
      var n := f.next(mem[t]);
      ReadsUses(f, mem, n, l - 1, va, s);
      var q: nat, k: nat :| k <= l - 1 && Uses(f, mem, n, l - 1, va, q, k) && s == Slot(f, q, va, k);
      assert Uses(f, mem, p, l, va, q, k);
    }
  }

  /** The walk from a used table is the rest of the whole walk. */
  lemma {:induction false} WalkFromUsed(f: Format, mem: Memory, p: nat, l: nat, va: nat, q: nat, k: nat)
    requires Uses(f, mem, p, l, va, q, k)
    ensures k <= l
    ensures Walk(f, mem, q, k, va) == Walk(f, mem, p, l, va)
    ensures Reads(f, mem, p, l, va, Slot(f, q, va, k))
    decreases l
  {
    var t := Slot(f, p, va, l);
    if !(q == p && k == l) {
      WalkFromUsed(f, mem, f.next(mem[t]), l - 1, va, q, k);
    }
  }

  /** A walk stops in a table it uses. */
  lemma {:induction false} StopIsUsed(f: Format, mem: Memory, p: nat, l: nat, va: nat)
    ensures var r := Walk(f, mem, p, l, va);
            exists q: nat :: Uses(f, mem, p, l, va, q, r.level) && r.slot == Slot(f, q, va, r.level)
    ensures var r := Walk(f, mem, p, l, va); r.level > 0 ==> !Descends(f, mem, r.slot)
    decreases l
  {
    var t := Slot(f, p, va, l);
    if l > 0 && Descends(f, mem, t) {
      var n := f.next(mem[t]);
      StopIsUsed(f, mem, n, l - 1, va);
      var r := Walk(f, mem, n, l - 1, va);
      var q: nat :| Uses(f, mem, n, l - 1, va, q, r.level) && r.slot == Slot(f, q, va, r.level);
      assert r == Walk(f, mem, p, l, va);
      assert Uses(f, mem, p, l, va, q, r.level);
    } else {
      assert Uses(f, mem, p, l, va, p, l) && Walk(f, mem, p, l, va) == Stop(l, t);
    }
  }

  lemma WalkDown(f: Format, mem: Memory, p: nat, l: nat, va: nat, q: nat)
    requires l > 0 && Descends(f, mem, Slot(f, p, va, l)) && f.next(mem[Slot(f, p, va, l)]) == q
    ensures Walk(f, mem, p, l, va) == Walk(f, mem, q, l - 1, va)
  {
  }

  lemma WalkStops(f: Format, mem: Memory, p: nat, l: nat, va: nat)
    requires l == 0 || !Descends(f, mem, Slot(f, p, va, l))
    ensures Walk(f, mem, p, l, va) == Stop(l, Slot(f, p, va, l))
  {
  }

  /** Storing a non-table word to any slot, in any memory: exactly the walks
      that read the slot now stop there, all others are as before. */
  lemma {:induction false} StoreLeafAnywhere(f: Format, mem: Memory, p: nat, l: nat, va: nat, s: nat, v: Word)
    requires s < |mem| && !f.isTable(v)
    ensures var r := Walk(f, mem[s := v], p, l, va);
            if Reads(f, mem, p, l, va, s) then r.slot == s else r == Walk(f, mem, p, l, va) && r.slot != s
    decreases l
  {
    var t := Slot(f, p, va, l);
    if !Reads(f, mem, p, l, va, s) {
      WalkFrame(f, mem, p, l, va, s, v);
    } else if t != s {
      StoreLeafAnywhere(f, mem, f.next(mem[t]), l - 1, va, s, v);
    }
  }

  // ----- the labelling

  /** Which part of which address space a table translates: the indices that
      lead to it from a root, or one of the kernel's tables that every address
      space may share. */
  datatype Place = Own(root: nat, path: seq<Entry>) | Shared(level: nat)

  type Labels = map<nat, Place>

  predicate PlaceOk(f: Format, a: Place) {
    a.Own? ==> |a.path| <= f.top
  }

  function LevelOf(f: Format, a: Place): nat
    requires PlaceOk(f, a)
  {
    match a
    case Own(_, path) => f.top - |path|
    case Shared(level) => level
  }

  /** `b` may label the table named by entry `i` of a table labelled `a`. */
  predicate Below(f: Format, a: Place, i: Entry, b: Place)
    requires PlaceOk(f, a)
  {
    LevelOf(f, a) > 0 &&
    (b == Shared(LevelOf(f, a) - 1) || (a.Own? && b == Own(a.root, a.path + [i])))
  }

  predicate PageInside(mem: Memory, p: nat) {
    512 * p + 512 <= |mem|
  }

  /** If entry `i` of page `p` is a table, it names a table labelled for `i`. */
  predicate EntryOk(f: Format, mem: Memory, tab: Labels, p: nat, i: Entry)
    requires p in tab && PlaceOk(f, tab[p]) && PageInside(mem, p)
  {
    var w := mem[512 * p + i];
    f.isTable(w) ==> f.next(w) in tab && Below(f, tab[p], i, tab[f.next(w)])
  }

  /** The tables form a forest of depth at most `f.top` with only shared tables
      in common: every table entry leads to the table its own label predicts. */
  ghost predicate Labelled(f: Format, mem: Memory, tab: Labels) {
    forall p :: p in tab ==>
      PlaceOk(f, tab[p]) && PageInside(mem, p) && forall i: Entry :: EntryOk(f, mem, tab, p, i)
  }

  predicate IsRoot(tab: Labels, r: nat) {
    r in tab && tab[r] == Own(r, [])
  }

  /** The indices `va` selects at the levels above `l`, root first. */
  function Path(f: Format, va: nat, l: nat): (s: seq<Entry>)
    ensures l <= f.top ==> |s| == f.top - l
    decreases f.top - l
  {
    if l >= f.top then [] else Path(f, va, l + 1) + [f.index(va, l + 1)]
  }

  /** `va` and `vb` select the same indices at level `l` and above. */
  predicate Agree(f: Format, va: nat, vb: nat, l: nat) {
    Path(f, va, l) == Path(f, vb, l) && f.index(va, l) == f.index(vb, l)
  }

  lemma {:induction false} AgreeUp(f: Format, va: nat, vb: nat, l: nat, k: nat)
    requires Agree(f, va, vb, l) && l <= k <= f.top
    ensures Agree(f, va, vb, k)
    decreases k - l
  {
    if l < k {
      var pa, pb := Path(f, va, l + 1), Path(f, vb, l + 1);
      assert Path(f, va, l)[..|pa|] == pa && Path(f, vb, l)[..|pb|] == pb;
      assert Path(f, va, l)[|pa|] == f.index(va, l + 1) && Path(f, vb, l)[|pb|] == f.index(vb, l + 1);
      AgreeUp(f, va, vb, l + 1, k);
    }
  }

  /** Label of the table that the walk of `va` from root `r` uses at level `l`. */
  predicate OnPath(f: Format, tab: Labels, p: nat, r: nat, l: nat, va: nat) {
    p in tab && (tab[p] == Own(r, Path(f, va, l)) || tab[p] == Shared(l))
  }

  lemma {:induction false} UsedOnPath(f: Format, mem: Memory, tab: Labels, p: nat, r: nat, l: nat, va: nat, q: nat,
      k: nat)
    requires Labelled(f, mem, tab) && l <= f.top
    requires OnPath(f, tab, p, r, l, va) && Uses(f, mem, p, l, va, q, k)
    ensures k <= l && OnPath(f, tab, q, r, k, va) && PageInside(mem, q)
    ensures tab[q].Own? ==> tab[p].Own?
    decreases l
  {
    if !(q == p && k == l) {
      var i := f.index(va, l);
      assert EntryOk(f, mem, tab, p, i);
      var n := f.next(mem[512 * p + i]);
      assert Below(f, tab[p], i, tab[n]);
      UsedOnPath(f, mem, tab, n, r, l - 1, va, q, k);
    }
  }

  /** The walk of every address from a root stays inside memory and ends in a
      labelled table. */
  lemma {:induction false} WalkEndsLabelled(f: Format, mem: Memory, tab: Labels, r: nat, va: nat) returns (q: nat)
    requires Labelled(f, mem, tab) && IsRoot(tab, r)
    ensures var w := Walk(f, mem, r, f.top, va);
            Uses(f, mem, r, f.top, va, q, w.level) && OnPath(f, tab, q, r, w.level, va) &&
            w.slot == Slot(f, q, va, w.level) && w.slot < |mem| && !(w.level > 0 && f.isTable(mem[w.slot]))
  {
    StopIsUsed(f, mem, r, f.top, va);
    var w := Walk(f, mem, r, f.top, va);
    q :| Uses(f, mem, r, f.top, va, q, w.level) && w.slot == Slot(f, q, va, w.level);
    UsedOnPath(f, mem, tab, r, r, f.top, va, q, w.level);
  }

  /** The forest property: an owned table is used by one root only, at one
      level, through one chain of entries. */
  lemma Forest(f: Format, mem: Memory, tab: Labels, ra: nat, va: nat, ka: nat, rb: nat, vb: nat, kb: nat, q: nat)
    requires Labelled(f, mem, tab) && IsRoot(tab, ra) && IsRoot(tab, rb)
    requires q in tab && tab[q].Own?
    requires Uses(f, mem, ra, f.top, va, q, ka) && Uses(f, mem, rb, f.top, vb, q, kb)
    ensures ra == rb && ka == kb && Path(f, va, ka) == Path(f, vb, kb)
  {
    UsedOnPath(f, mem, tab, ra, ra, f.top, va, q, ka);
    UsedOnPath(f, mem, tab, rb, rb, f.top, vb, q, kb);
  }

  /** Two addresses that agree from level `l` up make the same walk down to
      level `l`. */
  lemma {:induction false} SharedSlot(f: Format, mem: Memory, p: nat, m: nat, va: nat, vb: nat, q: nat, l: nat)
    requires l <= m <= f.top && Agree(f, va, vb, l)
    requires Uses(f, mem, p, m, va, q, l)
    ensures Uses(f, mem, p, m, vb, q, l) && Slot(f, q, va, l) == Slot(f, q, vb, l)
    decreases m
  {
    AgreeUp(f, va, vb, l, m);
    var t := Slot(f, p, va, m);
    if !(q == p && l == m) {
      WalkFromUsed(f, mem, f.next(mem[t]), m - 1, va, q, l);
      SharedSlot(f, mem, f.next(mem[t]), m - 1, va, vb, q, l);
    }
  }

  /** Every entry the walk reads lies in memory. */
  predicate Safe(f: Format, mem: Memory, p: nat, l: nat, va: nat)
    decreases l, p
  {
    var s := Slot(f, p, va, l);
    s < |mem| && (l > 0 && f.isTable(mem[s]) ==> Safe(f, mem, f.next(mem[s]), l - 1, va))
  }

  lemma {:induction false} LabelledIsSafe(f: Format, mem: Memory, tab: Labels, p: nat, r: nat, l: nat, va: nat)
    requires Labelled(f, mem, tab) && l <= f.top && OnPath(f, tab, p, r, l, va)
    ensures Safe(f, mem, p, l, va)
    decreases l
  {
    var i := f.index(va, l);
    assert EntryOk(f, mem, tab, p, i);
    if l > 0 && f.isTable(mem[512 * p + i]) {
      LabelledIsSafe(f, mem, tab, f.next(mem[512 * p + i]), r, l - 1, va);
    }
  }

  /** Two addresses that agree from where one walk stops up make the same walk. */
  lemma {:induction false} SameStop(f: Format, mem: Memory, p: nat, l: nat, va: nat, vb: nat)
    requires l <= f.top && Agree(f, va, vb, Walk(f, mem, p, l, va).level)
    ensures Walk(f, mem, p, l, vb) == Walk(f, mem, p, l, va)
    decreases l
  {
    var s := Slot(f, p, va, l);
    AgreeUp(f, va, vb, Walk(f, mem, p, l, va).level, l);
    if l > 0 && Descends(f, mem, s) {
      SameStop(f, mem, f.next(mem[s]), l - 1, va, vb);
    }
  }

  /** Replacing the non-table word a walk stops at by another leaves the walk. */
  lemma {:induction false} StoreAtStop(f: Format, mem: Memory, p: nat, l: nat, va: nat, v: Word)
    requires var w := Walk(f, mem, p, l, va); w.slot < |mem| && !f.isTable(mem[w.slot]) && !f.isTable(v)
    ensures Walk(f, mem[Walk(f, mem, p, l, va).slot := v], p, l, va) == Walk(f, mem, p, l, va)
    decreases l
  {
    var s := Slot(f, p, va, l);
    if l > 0 && Descends(f, mem, s) {
      StoreAtStop(f, mem, f.next(mem[s]), l - 1, va, v);
    }
  }

  /** The slot for `va` at level `k` that following entries from table `p` at level
      `l` leads to, without looking at their type. */
  function Follow(f: Format, mem: Memory, p: nat, l: nat, va: nat, k: nat): nat
    decreases l, p
  {
    var s := Slot(f, p, va, l);
    if l <= k || s >= |mem| then s else Follow(f, mem, f.next(mem[s]), l - 1, va, k)
  }

  /** Along tables, it is the walk's own slot at that level. */
  lemma {:induction false} FollowUsed(f: Format, mem: Memory, p: nat, l: nat, va: nat, q: nat, k: nat)
    requires Uses(f, mem, p, l, va, q, k)
    ensures Follow(f, mem, p, l, va, k) == Slot(f, q, va, k)
    decreases l
  {
    WalkFromUsed(f, mem, p, l, va, q, k);
    if !(q == p && k == l) {
      WalkFromUsed(f, mem, f.next(mem[Slot(f, p, va, l)]), l - 1, va, q, k);
      FollowUsed(f, mem, f.next(mem[Slot(f, p, va, l)]), l - 1, va, q, k);
    }
  }
}
