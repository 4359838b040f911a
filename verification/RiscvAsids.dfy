/** The RISC-V ASID table as its callers see it: lookups after bindings and deletions. */
module RiscvAsids {
  import opened Words
  import opened Options
  import opened RiscvKernel
  import A = AsidPools

  /** Pool entries are root pointers and 0 clears one, so the table shows its abstract
      counterpart over every run. */
  lemma EveryRun(b: A.Split, st: A.State<nat>, x: A.Abstract, ops: seq<A.Op<nat>>, a: nat)
    requires A.Valid(b, st) && A.LegalRun(b, st, RootOf, 0, ops) && A.Shows(st, RootOf, x)
    ensures A.Valid(b, A.Run(b, st, RootOf, 0, ops))
    ensures A.Find(b, A.Run(b, st, RootOf, 0, ops), RootOf, a) == A.Lookup(b, A.RunAbstract(b, RootOf, x, ops), a)
  {
    A.EveryRun(b, st, RootOf, x, 0, ops);
  }

  /** Deletion removes the key exactly if it is bound to a non-null root `vspace`. */
  lemma DeleteUnbinds(b: A.Split, st: A.State<nat>, asid: nat, vspace: nat)
    requires A.Valid(b, st) && A.InRange(b, asid)
    ensures A.Valid(b, A.DeleteAsid(b, st, RootOf, asid, vspace, 0))
    ensures var m := A.Bindings(b, st, RootOf);
            A.Bindings(b, A.DeleteAsid(b, st, RootOf, asid, vspace, 0), RootOf) ==
            if asid in m && m[asid] == vspace then A.Without(m, asid) else m
  {
    A.DeleteAsidRemoves(b, st, RootOf, asid, vspace, 0);
  }

  lemma DeletedFind(b: A.Split, st: A.State<nat>, asid: nat, vspace: nat, a: nat)
    requires A.Valid(b, st) && A.InRange(b, asid) && A.InRange(b, a) && A.Find(b, st, RootOf, asid) == Some(vspace)
    ensures A.Valid(b, A.DeleteAsid(b, st, RootOf, asid, vspace, 0))
    ensures A.Find(b, A.DeleteAsid(b, st, RootOf, asid, vspace, 0), RootOf, a) ==
            if a == asid then None else A.Find(b, st, RootOf, a)
  {
    DeleteUnbinds(b, st, asid, vspace);
    A.SplitAsid(b, asid);
    A.SetEntryFind(b, st, RootOf, asid, 0, a);
  }

  /** After a bound ASID is deleted its lookup faults; that of any other is as before. */
  method DeleteThenFind(k: Kernel, asid: nat, vspace: nat, cap: Cap, a: nat) returns (ret: Outcome, found: Found)
    requires A.Valid(k.split, k.Asids()) && A.InRange(k.split, asid) && A.InRange(k.split, a) && k.CapOk(cap)
    requires A.Find(k.split, k.Asids(), RootOf, asid) == Some(vspace)
    modifies k`pools, k`satp, k`log, k`asidFlushes
    ensures a == asid ==> found == Found(None, Some(InvalidRoot))
    ensures a != asid ==> found.root == A.Find(k.split, old(k.Asids()), RootOf, a)
    ensures A.Valid(k.split, k.Asids())
  {
    DeletedFind(k.split, k.Asids(), asid, vspace, a);
    assert k.PoolsOk();
    ret := k.DeleteAsid(asid, vspace, cap);
    found := k.FindVspaceForAsid(a);
  }

  lemma PoolGone(b: A.Split, st: A.State<nat>, base: nat, pool: nat, a: nat)
    requires A.Valid(b, st) && A.InRange(b, base) && A.InRange(b, a) && base / Pow2(b.low) * Pow2(b.low) == base
    requires A.Hi(b, base) < |st.table| && st.table[A.Hi(b, base)] == pool
    ensures A.Valid(b, A.DeletePool(b, st, base, pool))
    ensures A.Find(b, A.DeletePool(b, st, base, pool), RootOf, a) ==
            if base <= a < base + Pow2(b.low) then None else A.Find(b, st, RootOf, a)
  {
    A.SamePool(b, base, a);
    A.ClearSlotValid(b, st, A.Hi(b, base));
    A.ClearSlotFind(b, st, RootOf, A.Hi(b, base), a);
  }

  /** After the pool in use at `base` is deleted, the lookup of each of its 2^low ASIDs
      faults; that of any other is as before. */
  method DeletePoolThenFind(k: Kernel, base: nat, pool: nat, cap: Cap, a: nat) returns (ret: Outcome, found: Found)
    requires A.Valid(k.split, k.Asids()) && A.InRange(k.split, base) && A.InRange(k.split, a) && k.CapOk(cap)
    requires base / Pow2(k.split.low) * Pow2(k.split.low) == base
    requires A.Hi(k.split, base) < k.asidTable.Length && k.asidTable[A.Hi(k.split, base)] == pool
    modifies k.asidTable, k`satp, k`log
    ensures base <= a < base + Pow2(k.split.low) ==> found == Found(None, Some(InvalidRoot))
    ensures !(base <= a < base + Pow2(k.split.low)) ==> found.root == A.Find(k.split, old(k.Asids()), RootOf, a)
    ensures A.Valid(k.split, k.Asids())
  {
    PoolGone(k.split, k.Asids(), base, pool, a);
    assert k.PoolsOk();
    ret := k.DeleteAsidPool(base, pool, cap);
    found := k.FindVspaceForAsid(a);
  }

  lemma BootBinds(b: A.Split, st: A.State<nat>, ap: nat, root: nat, asid: nat, a: nat)
    requires A.Valid(b, st) && A.InRange(b, asid) && asid < Pow2(b.low) && ap in st.pools && ap !in st.table
    requires root != 0 && A.InRange(b, a)
    ensures A.Hi(b, asid) < |st.table| && |st.pools[ap]| == Pow2(b.low)
    ensures var st' := A.State(st.table[A.Hi(b, asid) := ap], PoolWith(st.pools, ap, asid, root));
            A.Valid(b, st') && A.Find(b, st', RootOf, asid) == Some(root) &&
            (a >= Pow2(b.low) ==> A.Find(b, st', RootOf, a) == A.Find(b, st, RootOf, a))
  {
    A.WriteThenInstall(b, st, RootOf, ap, asid, root, a);
    var entries: seq<nat> := st.pools[ap][asid := root];
    assert PoolWith(st.pools, ap, asid, root)[ap] == entries;
    A.SamePool(b, 0, asid);
    A.SamePool(b, 0, a);
    A.SplitBySize(b, 0, 0, 0);
  }

  /** Once the boot thread's pool is written its ASID is found with its root; ASIDs of
      other pools are found as before. */
  method BootThenFind(k: Kernel, ap: nat, root: nat, asid: nat, a: nat) returns (found: Found)
    requires A.Valid(k.split, k.Asids()) && A.InRange(k.split, asid) && asid < Pow2(k.split.low)
    requires ap in k.pools && ap !in k.asidTable[..] && root != 0 && A.InRange(k.split, a)
    requires a == asid || a >= Pow2(k.split.low)
    modifies k`pools, k.asidTable
    ensures found.root == if a == asid then Some(root) else A.Find(k.split, old(k.Asids()), RootOf, a)
    ensures A.Valid(k.split, k.Asids())
  {
    BootBinds(k.split, k.Asids(), ap, root, asid, a);
    assert k.PoolsOk();
    k.WriteItAsidPool(ap, root, asid);
    found := k.FindVspaceForAsid(a);
  }
}
