/** The AArch64 ASID table as its callers see it: lookups after bindings and deletions. */
module ArmAsids {
  import opened Words
  import opened Options
  import opened ArmKernel
  import A = AsidPools

  /** The lookup of entry `j` of slot `i` gives a root exactly when the slot holds a pool
      and the entry is a vspace, and then its root. */
  lemma FoundExactly(b: A.Split, st: A.State<AsidMap>, asid: nat, i: nat, j: nat)
    requires A.Sized(b, st) && A.InRange(b, asid) && asid == i * Pow2(b.low) + j && j < Pow2(b.low)
    ensures i < |st.table| && (st.table[i] != 0 ==> st.table[i] in st.pools && j < |st.pools[st.table[i]]|)
    ensures A.Find(b, st, RootOf, asid) ==
            if st.table[i] != 0 && st.pools[st.table[i]][j].VSpace? then Some(st.pools[st.table[i]][j].root) else None
  {
    A.SplitBySize(b, asid, i, j);
  }

  /** Over every run the table shows its abstract counterpart. */
  lemma EveryRun(b: A.Split, st: A.State<AsidMap>, x: A.Abstract, ops: seq<A.Op<AsidMap>>, a: nat)
    requires A.Valid(b, st) && A.LegalRun(b, st, RootOf, NoMap, ops) && A.Shows(st, RootOf, x)
    ensures A.Valid(b, A.Run(b, st, RootOf, NoMap, ops))
    ensures A.Find(b, A.Run(b, st, RootOf, NoMap, ops), RootOf, a) == A.Lookup(b, A.RunAbstract(b, RootOf, x, ops), a)
  {
    A.EveryRun(b, st, RootOf, x, NoMap, ops);
  }

  lemma DeletedFind(b: A.Split, st: A.State<AsidMap>, asid: nat, vspace: nat, a: nat)
    requires A.Valid(b, st) && A.InRange(b, asid) && A.InRange(b, a) && A.Find(b, st, RootOf, asid) == Some(vspace)
    ensures A.Valid(b, A.DeleteAsid(b, st, RootOf, asid, vspace, NoMap))
    ensures A.Find(b, A.DeleteAsid(b, st, RootOf, asid, vspace, NoMap), RootOf, a) ==
            if a == asid then None else A.Find(b, st, RootOf, a)
  {
    A.DeleteAsidRemoves(b, st, RootOf, asid, vspace, NoMap);
    A.SplitAsid(b, asid);
    A.SetEntryFind(b, st, RootOf, asid, NoMap, a);
  }

  /** After a bound ASID is deleted its lookup finds nothing; that of any other is as
      before. */
  method DeleteThenFind(k: Kernel, asid: nat, vspace: nat, cap: Cap, a: nat) returns (found: Option<nat>)
    requires A.Valid(k.split, k.Asids()) && k.AsidOk(asid) && A.InRange(k.split, a)
    requires cap.VSpaceCap? ==> cap.basePtr >= k.offset && A.InRange(k.split, cap.mappedAsid)
    requires A.Find(k.split, k.Asids(), RootOf, asid) == Some(vspace)
    modifies k`pools, k`userTtbr, k`log
    ensures found == if a == asid then None else A.Find(k.split, old(k.Asids()), RootOf, a)
    ensures A.Valid(k.split, k.Asids())
  {
    DeletedFind(k.split, k.Asids(), asid, vspace, a);
    assert k.PoolsOk();
    k.DeleteAsid(asid, vspace, cap);
    found := k.FindVspaceForAsid(a);
  }

  lemma PoolGone(b: A.Split, st: A.State<AsidMap>, base: nat, pool: nat, a: nat)
    requires A.Valid(b, st) && A.InRange(b, base) && A.InRange(b, a) && base / Pow2(b.low) * Pow2(b.low) == base
    requires A.Hi(b, base) < |st.table| && st.table[A.Hi(b, base)] == pool
    ensures A.Valid(b, A.DeletePool(b, st, base, pool))
    ensures A.Find(b, A.DeletePool(b, st, base, pool), RootOf, a) ==
            if base <= a < base + Pow2(b.low) then None else A.Find(b, st, RootOf, a)
  {
    A.SamePool(b, base, a);
    A.ClearSlotValid(b, st, A.Hi(b, base));
    A.ClearSlotFind(b, st, RootOf, A.Hi(b, base), a);
  }

  /** After the pool in use at `base` is deleted, the lookup of each of its 2^low ASIDs
      finds nothing; that of any other is as before. */
  method DeletePoolThenFind(k: Kernel, base: nat, pool: nat, cap: Cap, a: nat) returns (found: Option<nat>)
    requires A.Valid(k.split, k.Asids()) && A.InRange(k.split, base) && A.InRange(k.split, a) && pool != 0
    requires base + Pow2(k.split.low) <= 0x1_0000 && base / Pow2(k.split.low) * Pow2(k.split.low) == base
    requires cap.VSpaceCap? ==> cap.basePtr >= k.offset && A.InRange(k.split, cap.mappedAsid)
    requires A.Hi(k.split, base) < k.asidTable.Length && k.asidTable[A.Hi(k.split, base)] == pool
    modifies k.asidTable, k`userTtbr, k`log
    ensures found ==
            if base <= a < base + Pow2(k.split.low) then None else A.Find(k.split, old(k.Asids()), RootOf, a)
    ensures A.Valid(k.split, k.Asids())
  {
    PoolGone(k.split, k.Asids(), base, pool, a);
    assert k.PoolsOk();
    k.DeleteAsidPool(base, pool, cap);
    found := k.FindVspaceForAsid(a);
  }

  lemma BootBinds(b: A.Split, st: A.State<AsidMap>, ap: nat, root: nat, asid: nat, a: nat)
    requires A.Valid(b, st) && A.InRange(b, asid) && asid < Pow2(b.low) && ap in st.pools && ap !in st.table
    requires A.InRange(b, a)
    ensures A.Hi(b, asid) < |st.table| && |st.pools[ap]| == Pow2(b.low)
    ensures var st' := A.State(st.table[A.Hi(b, asid) := ap], st.pools[ap := st.pools[ap][asid := VSpace(root)]]);
            A.Valid(b, st') && A.Find(b, st', RootOf, asid) == Some(root) &&
            (a >= Pow2(b.low) ==> A.Find(b, st', RootOf, a) == A.Find(b, st, RootOf, a))
  {
    A.WriteThenInstall(b, st, RootOf, ap, asid, VSpace(root), a);
    A.SamePool(b, 0, asid);
    A.SamePool(b, 0, a);
    A.SplitBySize(b, 0, 0, 0);
  }

  /** Once the boot thread's pool is written its ASID is found with its root; ASIDs of
      other pools are found as before. */
  method BootThenFind(k: Kernel, ap: nat, root: nat, asid: nat, a: nat) returns (found: Option<nat>)
    requires A.Valid(k.split, k.Asids()) && A.InRange(k.split, asid) && asid < Pow2(k.split.low)
    requires ap in k.pools && ap !in k.asidTable[..] && A.InRange(k.split, a)
    requires a == asid || a >= Pow2(k.split.low)
    modifies k`pools, k.asidTable, k`log
    ensures found == if a == asid then Some(root) else A.Find(k.split, old(k.Asids()), RootOf, a)
    ensures A.Valid(k.split, k.Asids())
  {
    BootBinds(k.split, k.Asids(), ap, root, asid, a);
    assert k.PoolsOk();
    k.WriteItAsidPool(ap, root, asid);
    found := k.FindVspaceForAsid(a);
  }
}
