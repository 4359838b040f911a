/** What the AArch64 unmapping operations tell the hardware, read as a history: the words
    in memory after each store, the cleaning of its line, and the invalidations of the
    address space's translations. */
module ArmEvents {
  import opened Words
  import opened Options
  import opened PageTables
  import opened PageTableUpdates
  import opened Pointers
  import opened ArmPte
  import opened ArmWalk
  import opened ArmSpaces
  import A = AsidPools
  import K = ArmKernel

  function Applied(mem: Memory, e: K.Event): Memory {
    if e.Stored? then Store(mem, e.slot, e.word) else mem
  }

  /** Memory after the stores of a history. */
  function Replay(mem: Memory, es: seq<K.Event>): Memory
    decreases |es|
  {
    if es == [] then mem else Applied(Replay(mem, es[..|es| - 1]), es[|es| - 1])
  }

  ghost predicate After(es: seq<K.Event>, i: nat, e: K.Event) {
    exists j :: i < j < |es| && es[j] == e
  }

  /** Every store is followed by the cleaning of its line, and after that by the
      invalidation of the ASID on this core, and on the others if there are any. */
  ghost predicate Finished(es: seq<K.Event>, offset: nat, asid: nat, smp: bool) {
    forall i: nat :: i < |es| && es[i].Stored? ==>
      exists j: nat :: i < j < |es| && es[j] == K.CleanedToPou(SlotPtr(offset, es[i].slot)) &&
        After(es, j, K.InvalidatedAsid(asid)) && (smp ==> After(es, j, K.InvalidatedRemoteAsid(asid)))
  }

  /** Nothing but that ASID is invalidated, and on other cores only if there are any. */
  predicate Only(es: seq<K.Event>, asid: nat, smp: bool) {
    forall i :: 0 <= i < |es| ==>
      (es[i].InvalidatedAsid? || es[i].InvalidatedRemoteAsid? ==> es[i].asid == asid) &&
      (es[i].InvalidatedRemoteAsid? ==> smp)
  }

  /** A word other than zero goes only to a slot that was zeroed before. */
  predicate BreaksFirst(es: seq<K.Event>) {
    forall i :: 0 <= i < |es| && es[i].Stored? && es[i].word != 0 ==> K.Stored(es[i].slot, 0) in es[..i]
  }

  /** A history that takes memory from `mem` to `mem'` in this way; an empty one where
      nothing changes. */
  ghost predicate Complete(es: seq<K.Event>, mem: Memory, mem': Memory, offset: nat, asid: nat, smp: bool) {
    Replay(mem, es) == mem' && Finished(es, offset, asid, smp) && Only(es, asid, smp) && BreaksFirst(es)
  }

  lemma ReplayNext(mem: Memory, es: seq<K.Event>, e: K.Event)
    ensures Replay(mem, es + [e]) == Applied(Replay(mem, es), e)
  {
    assert (es + [e])[..|es + [e]| - 1] == es;
  }

  lemma {:induction false} ReplayQuiet(mem: Memory, es: seq<K.Event>, us: seq<K.Event>)
    requires forall e :: e in us ==> !e.Stored?
    ensures Replay(mem, es + us) == Replay(mem, es)
    decreases |us|
  {
    if us == [] {
      assert es + us == es;
    } else {
      var n := |us| - 1;
      ReplayQuiet(mem, es, us[..n]);
      ReplayNext(mem, es + us[..n], us[n]);
      assert es + us == es + us[..n] + [us[n]];
    }
  }

  lemma ReplayClear(mem: Memory, s: nat, w: Word, us: seq<K.Event>)
    requires s < |mem| && forall e :: e in us ==> !e.Stored?
    ensures Replay(mem, [K.Stored(s, 0), K.Stored(s, w)] + us) == mem[s := w]
  {
    assert [K.Stored(s, 0)] == [] + [K.Stored(s, 0)];
    ReplayNext(mem, [], K.Stored(s, 0));
    assert [K.Stored(s, 0), K.Stored(s, w)] == [K.Stored(s, 0)] + [K.Stored(s, w)];
    ReplayNext(mem, [K.Stored(s, 0)], K.Stored(s, w));
    ReplayQuiet(mem, [K.Stored(s, 0), K.Stored(s, w)], us);
  }

  lemma LocalComplete(mem: Memory, offset: nat, s: nat, w: Word, asid: nat)
    requires s < |mem|
    ensures Complete(K.ClearLog(s, SlotPtr(offset, s), w) + K.TlbLog(asid, false), mem, mem[s := w], offset, asid,
                     false)
  {
    var us := [K.CleanedToPou(SlotPtr(offset, s)), K.InvalidatedAsid(asid)];
    var es := [K.Stored(s, 0), K.Stored(s, w)] + us;
    ReplayClear(mem, s, w, us);
    assert K.ClearLog(s, SlotPtr(offset, s), w) + K.TlbLog(asid, false) == es;
    assert es[2] == K.CleanedToPou(SlotPtr(offset, s)) && es[3] == K.InvalidatedAsid(asid);
    assert After(es, 2, K.InvalidatedAsid(asid));
    assert es[..1][0] == K.Stored(s, 0);
  }

  lemma RemoteComplete(mem: Memory, offset: nat, s: nat, w: Word, asid: nat)
    requires s < |mem|
    ensures Complete(K.ClearLog(s, SlotPtr(offset, s), w) + K.TlbLog(asid, true), mem, mem[s := w], offset, asid,
                     true)
  {
    var us := [K.CleanedToPou(SlotPtr(offset, s)), K.InvalidatedAsid(asid), K.InvalidatedRemoteAsid(asid)];
    var es := [K.Stored(s, 0), K.Stored(s, w)] + us;
    ReplayClear(mem, s, w, us);
    assert K.ClearLog(s, SlotPtr(offset, s), w) + K.TlbLog(asid, true) == es;
    assert es[2] == K.CleanedToPou(SlotPtr(offset, s)) && es[3] == K.InvalidatedAsid(asid);
    assert es[4] == K.InvalidatedRemoteAsid(asid);
    assert After(es, 2, K.InvalidatedAsid(asid)) && After(es, 2, K.InvalidatedRemoteAsid(asid));
    assert es[..1][0] == K.Stored(s, 0);
  }

  /** A slot zeroed, rewritten and cleaned, and the ASID then invalidated. */
  lemma ClearComplete(mem: Memory, offset: nat, s: nat, w: Word, asid: nat, smp: bool)
    requires s < |mem|
    ensures Complete(K.ClearLog(s, SlotPtr(offset, s), w) + K.TlbLog(asid, smp), mem, mem[s := w], offset, asid, smp)
  {
    if smp {
      RemoteComplete(mem, offset, s, w, asid);
    } else {
      LocalComplete(mem, offset, s, w, asid);
    }
  }

  lemma NothingComplete(mem: Memory, offset: nat, asid: nat, smp: bool)
    ensures Complete([], mem, mem, offset, asid, smp)
  {
  }

  /** `unmap_page`: whatever it changes in memory is complete in this sense. */
  method UnmapPage(k: K.Kernel, pageBits: nat, asid: nat, vptr: nat, pptr: nat)
    requires k.PoolsOk() && k.AsidOk(asid) && pptr >= k.offset
    requires A.Find(k.split, k.Asids(), K.RootOf, asid).Some? ==>
               var root := A.Find(k.split, k.Asids(), K.RootOf, asid).value;
               PagePtr(k.offset, root) && Safe(FORMAT, k.words[..], PageAt(k.offset, root), TOP, vptr)
    modifies k.words, k`log
    ensures |k.log| >= |old(k.log)| && k.log[..|old(k.log)|] == old(k.log)
    ensures Complete(k.log[|old(k.log)|..], old(k.words[..]), k.words[..], k.offset, asid, k.smp)
  {
    ghost var mem, log := k.words[..], k.log;
    var found := k.FindVspaceForAsid(asid);
    NothingComplete(mem, k.offset, asid, k.smp);
    if found.Some? {
      ghost var s := StopOf(mem, PageAt(k.offset, found.value), vptr).slot;
      SafeStop(mem, PageAt(k.offset, found.value), TOP, vptr);
      ClearComplete(mem, k.offset, s, 0, asid, k.smp);
    }
    k.UnmapPage(pageBits, asid, vptr, pptr);
    assert k.log == log + k.log[|log|..];
  }

  lemma {:induction false} SafeStop(mem: Memory, p: nat, l: nat, va: nat)
    requires Safe(FORMAT, mem, p, l, va)
    ensures Walk(FORMAT, mem, p, l, va).slot < |mem|
    decreases l
  {
    var s := Slot(FORMAT, p, va, l);
    if l > 0 && IsTable(mem[s]) {
      SafeStop(mem, GetPage(mem[s]), l - 1, va);
    }
  }

  /** And so is what `unmap_page_table` changes. */
  method UnmapPageTable(k: K.Kernel, asid: nat, vaddr: nat, pt: nat)
    requires k.PoolsOk() && k.AsidOk(asid) && WordPtr(k.words, k.offset, pt)
    requires A.Find(k.split, k.Asids(), K.RootOf, asid).Some? ==>
               var root := A.Find(k.split, k.Asids(), K.RootOf, asid).value;
               PagePtr(k.offset, root) && pt != root &&
               Safe(FORMAT, k.words[..], PageAt(k.offset, root), TOP, vaddr)
    modifies k.words, k`log
    ensures |k.log| >= |old(k.log)| && k.log[..|old(k.log)|] == old(k.log)
    ensures Complete(k.log[|old(k.log)|..], old(k.words[..]), k.words[..], k.offset, asid, k.smp)
  {
    ghost var mem, log := k.words[..], k.log;
    var found := k.FindVspaceForAsid(asid);
    if found.Some? {
      RemovalComplete(k, mem, found.value, asid, vaddr, pt);
    } else {
      NothingComplete(mem, k.offset, asid, k.smp);
    }
    k.UnmapPageTable(asid, vaddr, pt);
    assert k.log == log + k.log[|log|..];
  }

  /** The steps of a removal, if the table has a parent on the walk. */
  ghost function RemovalLog(k: K.Kernel, mem: Memory, root: nat, asid: nat, vaddr: nat, pt: nat): seq<K.Event>
    requires PagePtr(k.offset, root) && pt >= k.offset && WordAt(k.offset, pt) < |mem|
  {
    match k.ParentOf(mem, root, vaddr, pt)
    case None => []
    case Some(s) =>
      K.ClearLog(s, SlotPtr(k.offset, s), Store(mem, s, 0)[WordAt(k.offset, pt)]) + K.TlbLog(asid, k.smp)
  }

  lemma RemovalComplete(k: K.Kernel, mem: Memory, root: nat, asid: nat, vaddr: nat, pt: nat)
    requires PagePtr(k.offset, root) && pt >= k.offset && (pt - k.offset) % 8 == 0 && WordAt(k.offset, pt) < |mem|
    ensures Complete(RemovalLog(k, mem, root, asid, vaddr, pt), mem,
                     UnmapTable(mem, PageAt(k.offset, root), vaddr, pt - k.offset), k.offset, asid, k.smp)
  {
    var parent := k.ParentOf(mem, root, vaddr, pt);
    if parent.Some? {
      var s := parent.value;
      ParentInside(mem, PageAt(k.offset, root), TOP, vaddr, PageAt(k.offset, pt));
      ClearComplete(mem, k.offset, s, Store(mem, s, 0)[WordAt(k.offset, pt)], asid, k.smp);
      assert UnmapTable(mem, PageAt(k.offset, root), vaddr, pt - k.offset) ==
             mem[s := 0][s := mem[s := 0][WordAt(k.offset, pt)]];
      K.StoredTwice(mem, s, 0, mem[s := 0][WordAt(k.offset, pt)]);
    } else {
      NothingComplete(mem, k.offset, asid, k.smp);
    }
  }

  lemma {:induction false} ParentInside(mem: Memory, p: nat, l: nat, va: nat, z: nat)
    requires ParentSlot(FORMAT, mem, p, l, va, z).Some?
    ensures ParentSlot(FORMAT, mem, p, l, va, z).value < |mem|
    decreases l
  {
    var s := Slot(FORMAT, p, va, l);
    if GetPage(mem[s]) != z {
      ParentInside(mem, GetPage(mem[s]), l - 1, va, z);
    }
  }
}
