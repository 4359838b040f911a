/** The two-level ASID table as a partial map from ASIDs to address-space roots.
    The table and the pools are values here; `E` is a pool entry and `root` reads
    it. Pools are named by their address and 0 is the null pointer. */
module AsidPools {
  import opened Words
  import opened Options

  /** Low bits select an entry of a pool, high bits a slot of the table. */
  datatype Split = Split(low: nat, high: nat)

  function Hi(b: Split, asid: nat): nat { Shr(asid, b.low) }
  function Lo(b: Split, asid: nat): nat { Low(asid, b.low) }
  function Join(b: Split, hi: nat, lo: nat): nat { Shl(hi, b.low) + lo }

  predicate InRange(b: Split, asid: nat) { asid < Pow2(b.low + b.high) }

  datatype State<E> = State(table: seq<nat>, pools: map<nat, seq<E>>)

  /** Every non-null slot holds a pool of its own. */
  ghost predicate Valid<E>(b: Split, st: State<E>) {
    |st.table| == Pow2(b.high) &&
    0 !in st.pools &&
    (forall p :: p in st.pools ==> |st.pools[p]| == Pow2(b.low)) &&
    (forall i :: 0 <= i < |st.table| && st.table[i] != 0 ==> st.table[i] in st.pools) &&
    (forall i, j :: 0 <= i < j < |st.table| && st.table[i] != 0 ==> st.table[i] != st.table[j])
  }

  lemma {:induction false} SplitAsid(b: Split, asid: nat)
    ensures asid == Join(b, Hi(b, asid), Lo(b, asid))
    ensures Lo(b, asid) < Pow2(b.low)
    ensures InRange(b, asid) ==> Hi(b, asid) < Pow2(b.high)
    decreases b.low
  {
    if b.low > 0 {
      var c := Split(b.low - 1, b.high);
      SplitAsid(c, asid / 2);
      assert Hi(b, asid) == Hi(c, asid / 2) && Lo(b, asid) == asid % 2 + 2 * Lo(c, asid / 2);
      assert InRange(b, asid) ==> InRange(c, asid / 2);
    }
  }

  /** ASID `i * 2^low + j` is entry `j` of slot `i`. */
  lemma SplitBySize(b: Split, asid: nat, i: nat, j: nat)
    requires asid == i * Pow2(b.low) + j && j < Pow2(b.low)
    ensures Hi(b, asid) == i && Lo(b, asid) == j
    ensures InRange(b, asid) ==> i < Pow2(b.high)
  {
    ShlIsMul(i, b.low);
    JoinAsid(b, i, j);
    SplitAsid(b, asid);
  }

  /** Table and pools have their sizes, and slots hold pools or null. */
  ghost predicate Sized<E>(b: Split, st: State<E>) {
    |st.table| == Pow2(b.high) &&
    (forall p :: p in st.pools ==> |st.pools[p]| == Pow2(b.low)) &&
    (forall i :: 0 <= i < |st.table| && st.table[i] != 0 ==> st.table[i] in st.pools)
  }

  lemma {:induction false} JoinAsid(b: Split, hi: nat, lo: nat)
    requires lo < Pow2(b.low)
    ensures Hi(b, Join(b, hi, lo)) == hi && Lo(b, Join(b, hi, lo)) == lo
    ensures hi < Pow2(b.high) ==> InRange(b, Join(b, hi, lo))
    decreases b.low
  {
    if b.low > 0 {
      var c := Split(b.low - 1, b.high);
      JoinAsid(c, hi, lo / 2);
      assert Join(b, hi, lo) == 2 * Join(c, hi, lo / 2) + lo % 2;
    }
  }

  /** The root bound to an ASID, as the lookups compute it. */
  function Find<E>(b: Split, st: State<E>, root: E -> Option<nat>, asid: nat): Option<nat> {
    if Hi(b, asid) < |st.table| then
      var p := st.table[Hi(b, asid)];
      if p != 0 && p in st.pools && Lo(b, asid) < |st.pools[p]| then root(st.pools[p][Lo(b, asid)]) else None
    else None
  }

  /** The table as a partial map. */
  function Bindings<E>(b: Split, st: State<E>, root: E -> Option<nat>): (m: map<nat, nat>)
    ensures forall a :: a in m <==> InRange(b, a) && Find(b, st, root, a).Some?
    ensures forall a :: a in m ==> m[a] == Find(b, st, root, a).value
  {
    map a: nat | a < Pow2(b.low + b.high) && Find(b, st, root, a).Some? :: Find(b, st, root, a).value
  }

  // ----- the updates the source makes, on the table and pools

  function SetEntry<E>(b: Split, st: State<E>, asid: nat, e: E): State<E>
    requires Hi(b, asid) < |st.table| && st.table[Hi(b, asid)] in st.pools
    requires Lo(b, asid) < |st.pools[st.table[Hi(b, asid)]]|
  {
    var p := st.table[Hi(b, asid)];
    st.(pools := st.pools[p := st.pools[p][Lo(b, asid) := e]])
  }

  function SetSlot<E>(st: State<E>, i: nat, p: nat): State<E>
    requires i < |st.table|
  {
    st.(table := st.table[i := p])
  }

  // ----- and on the map

  function Without(m: map<nat, nat>, a: nat): map<nat, nat> {
    m - {a}
  }

  function WithoutHigh(b: Split, m: map<nat, nat>, hi: nat): map<nat, nat> {
    map a | a in m && Hi(b, a) != hi :: m[a]
  }

  lemma SetEntryFind<E>(b: Split, st: State<E>, root: E -> Option<nat>, asid: nat, e: E, a: nat)
    requires Valid(b, st) && InRange(b, asid) && InRange(b, a)
    requires Hi(b, asid) < |st.table| && st.table[Hi(b, asid)] != 0 && Lo(b, asid) < Pow2(b.low)
    ensures Find(b, SetEntry(b, st, asid, e), root, a) == if a == asid then root(e) else Find(b, st, root, a)
  {
    SplitAsid(b, a);
    SplitAsid(b, asid);
    if Hi(b, a) == Hi(b, asid) {
      assert Lo(b, a) == Lo(b, asid) ==> a == asid;
    } else {
      assert st.table[Hi(b, a)] != st.table[Hi(b, asid)];
    }
  }

  lemma SetEntryValid<E>(b: Split, st: State<E>, asid: nat, e: E)
    requires Valid(b, st) && InRange(b, asid)
    requires Hi(b, asid) < |st.table| && st.table[Hi(b, asid)] != 0 && Lo(b, asid) < Pow2(b.low)
    ensures Valid(b, SetEntry(b, st, asid, e))
  {
  }

  /** Rewriting one entry of an installed pool rebinds one ASID and no other. */
  lemma SetEntryRebinds<E>(b: Split, st: State<E>, root: E -> Option<nat>, asid: nat, e: E)
    requires Valid(b, st) && InRange(b, asid)
    requires Hi(b, asid) < |st.table| && st.table[Hi(b, asid)] != 0 && Lo(b, asid) < Pow2(b.low)
    ensures Valid(b, SetEntry(b, st, asid, e))
    ensures Bindings(b, SetEntry(b, st, asid, e), root) ==
            match root(e) case None => Without(Bindings(b, st, root), asid)
                          case Some(r) => Bindings(b, st, root)[asid := r]
  {
    SetEntryValid(b, st, asid, e);
    var st' := SetEntry(b, st, asid, e);
    forall a: nat | InRange(b, a)
      ensures Find(b, st', root, a) == if a == asid then root(e) else Find(b, st, root, a)
    {
      SetEntryFind(b, st, root, asid, e, a);
    }
    Rebound(b, st, st', root, asid, root(e));
  }

  /** Two states that differ in what one ASID finds. */
  lemma Rebound<E>(b: Split, st: State<E>, st': State<E>, root: E -> Option<nat>, asid: nat, v: Option<nat>)
    requires InRange(b, asid)
    requires forall a: nat :: InRange(b, a) ==> Find(b, st', root, a) == if a == asid then v else Find(b, st, root, a)
    ensures Bindings(b, st', root) ==
            match v case None => Without(Bindings(b, st, root), asid)
                    case Some(r) => Bindings(b, st, root)[asid := r]
  {
    OneKey(Bindings(b, st, root), Bindings(b, st', root), asid, v);
  }

  lemma OneKey(m: map<nat, nat>, m': map<nat, nat>, k: nat, v: Option<nat>)
    requires forall a: nat :: a in m' <==> if a == k then v.Some? else a in m
    requires forall a: nat :: a in m' ==> m'[a] == if a == k then v.value else m[a]
    ensures m' == match v case None => Without(m, k) case Some(r) => m[k := r]
  {
  }

  /** Clearing a slot unbinds exactly the ASIDs with those high bits. */
  lemma ClearSlotUnbinds<E>(b: Split, st: State<E>, root: E -> Option<nat>, i: nat)
    requires Valid(b, st) && i < |st.table|
    ensures Valid(b, SetSlot(st, i, 0))
    ensures Bindings(b, SetSlot(st, i, 0), root) == WithoutHigh(b, Bindings(b, st, root), i)
  {
    ClearSlotValid(b, st, i);
    var m, m' := Bindings(b, st, root), Bindings(b, SetSlot(st, i, 0), root);
    forall a: nat
      ensures a in m' <==> a in m && Hi(b, a) != i
      ensures a in m' ==> m'[a] == m[a]
    {
      if InRange(b, a) {
        ClearSlotFind(b, st, root, i, a);
      }
    }
    assert m' == WithoutHigh(b, m, i);
  }

  lemma ClearSlotValid<E>(b: Split, st: State<E>, i: nat)
    requires Valid(b, st) && i < |st.table|
    ensures Valid(b, SetSlot(st, i, 0))
  {
  }

  lemma ClearSlotFind<E>(b: Split, st: State<E>, root: E -> Option<nat>, i: nat, a: nat)
    requires Valid(b, st) && i < |st.table| && InRange(b, a)
    ensures Find(b, SetSlot(st, i, 0), root, a) == if Hi(b, a) == i then None else Find(b, st, root, a)
  {
  }

  /** The ASIDs with the high part of an aligned base are the 2^low from it on. */
  lemma SamePool(b: Split, base: nat, a: nat)
    requires base / Pow2(b.low) * Pow2(b.low) == base
    ensures Hi(b, a) == Hi(b, base) <==> base <= a < base + Pow2(b.low)
  {
    var n := Pow2(b.low);
    ShrIsDiv(base, b.low);
    ShrIsDiv(a, b.low);
    var i, j := base / n, a / n;
    assert a == j * n + a % n by { assert a == n * j + a % n; }
    if base <= a < base + n {
      DivModUnique(a, n, i, a - base);
    }
  }

  // ----- the operations

  /** Clear the entry of `asid` if it is bound to `vspace`. */
  function DeleteAsid<E>(b: Split, st: State<E>, root: E -> Option<nat>, asid: nat, vspace: nat, cleared: E): State<E> {
    if Find(b, st, root, asid) == Some(vspace) then SetEntry(b, st, asid, cleared) else st
  }

  /** Clear the slot of `base` if it holds `pool`. */
  function DeletePool<E>(b: Split, st: State<E>, base: nat, pool: nat): State<E> {
    if Hi(b, base) < |st.table| && st.table[Hi(b, base)] == pool then SetSlot(st, Hi(b, base), 0) else st
  }

  /** Deleting an ASID removes that one key, and only if it is bound to `vspace`. */
  lemma DeleteAsidRemoves<E>(b: Split, st: State<E>, root: E -> Option<nat>, asid: nat, vspace: nat, cleared: E)
    requires Valid(b, st) && InRange(b, asid) && root(cleared) == None
    ensures Valid(b, DeleteAsid(b, st, root, asid, vspace, cleared))
    ensures var m := Bindings(b, st, root);
            Bindings(b, DeleteAsid(b, st, root, asid, vspace, cleared), root) ==
            if asid in m && m[asid] == vspace then Without(m, asid) else m
  {
    if Find(b, st, root, asid) == Some(vspace) {
      SplitAsid(b, asid);
      SetEntryRebinds(b, st, root, asid, cleared);
    }
  }

  lemma DeletePoolRemoves<E>(b: Split, st: State<E>, root: E -> Option<nat>, base: nat, pool: nat)
    requires Valid(b, st) && InRange(b, base)
    ensures Valid(b, DeletePool(b, st, base, pool)) && Hi(b, base) < |st.table|
    ensures Bindings(b, DeletePool(b, st, base, pool), root) ==
            if st.table[Hi(b, base)] == pool then WithoutHigh(b, Bindings(b, st, root), Hi(b, base))
            else Bindings(b, st, root)
  {
    SplitAsid(b, base);
    if st.table[Hi(b, base)] == pool {
      ClearSlotUnbinds(b, st, root, Hi(b, base));
    }
  }

  /** Writing one entry of a pool not yet installed, then installing it: its ASID is
      bound, and no ASID of another slot is touched. */
  lemma WriteThenInstall<E>(b: Split, st: State<E>, root: E -> Option<nat>, p: nat, asid: nat, e: E, a: nat)
    requires Valid(b, st) && InRange(b, asid) && asid < Pow2(b.low) && p in st.pools && p !in st.table
    ensures Hi(b, asid) < |st.table| && |st.pools[p]| == Pow2(b.low)
    ensures var st' := State(st.table[Hi(b, asid) := p], st.pools[p := st.pools[p][asid := e]]);
            Valid(b, st') && Find(b, st', root, asid) == root(e) &&
            (Hi(b, a) != Hi(b, asid) ==> Find(b, st', root, a) == Find(b, st, root, a))
  {
    SplitAsid(b, asid);
    JoinAsid(b, 0, asid);
    assert Join(b, 0, asid) == asid by { ShlIsMul(0, b.low); }
  }

  // ----- installing a pool

  function PoolMap<E>(b: Split, st: State<E>, root: E -> Option<nat>, i: nat, p: nat): map<nat, nat> {
    map a: nat | a < Pow2(b.low + b.high) && Hi(b, a) == i && p in st.pools && Lo(b, a) < |st.pools[p]| &&
                 root(st.pools[p][Lo(b, a)]).Some? :: root(st.pools[p][Lo(b, a)]).value
  }

  lemma InstallFind<E>(b: Split, st: State<E>, root: E -> Option<nat>, i: nat, p: nat, a: nat)
    requires Valid(b, st) && i < |st.table| && p in st.pools
    ensures var m := PoolMap(b, st, root, i, p);
            InRange(b, a) && Hi(b, a) == i ==>
              Find(b, SetSlot(st, i, p), root, a) == if a in m then Some(m[a]) else None
    ensures Hi(b, a) != i ==> Find(b, SetSlot(st, i, p), root, a) == Find(b, st, root, a)
  {
    SplitAsid(b, a);
  }

  lemma InstallValid<E>(b: Split, st: State<E>, i: nat, p: nat)
    requires Valid(b, st) && i < |st.table| && p in st.pools
    requires forall j :: 0 <= j < |st.table| && j != i ==> st.table[j] != p
    ensures Valid(b, SetSlot(st, i, p))
  {
  }

  lemma InstallBinds<E>(b: Split, st: State<E>, root: E -> Option<nat>, i: nat, p: nat)
    requires Valid(b, st) && i < |st.table| && p in st.pools
    requires forall j :: 0 <= j < |st.table| && j != i ==> st.table[j] != p
    ensures Valid(b, SetSlot(st, i, p))
    ensures Bindings(b, SetSlot(st, i, p), root) == WithoutHigh(b, Bindings(b, st, root), i) +
            PoolMap(b, st, root, i, p)
  {
    InstallValid(b, st, i, p);
    var m, n := Bindings(b, SetSlot(st, i, p), root), WithoutHigh(b, Bindings(b, st, root), i) +
      PoolMap(b, st, root, i, p);
    forall a: nat
      ensures a in m <==> a in n
      ensures a in m ==> m[a] == n[a]
    {
      InstallFind(b, st, root, i, p, a);
    }
    SameMap(m, n);
  }

  lemma SameMap(m: map<nat, nat>, n: map<nat, nat>)
    requires forall a: nat :: (a in m <==> a in n) && (a in m ==> m[a] == n[a])
    ensures m == n
  {
  }

  // ----- runs

  /** The table without arrays and null: the pool in each slot in use, and the root in
      each entry of a pool that has one. */
  datatype Abstract = Abstract(slot: nat -> Option<nat>, entry: (nat, nat) -> Option<nat>)

  function SlotOf<E>(st: State<E>, i: nat): Option<nat> {
    if i < |st.table| && st.table[i] != 0 then Some(st.table[i]) else None
  }

  function EntryOf<E>(st: State<E>, root: E -> Option<nat>, p: nat, lo: nat): Option<nat> {
    if p in st.pools && lo < |st.pools[p]| then root(st.pools[p][lo]) else None
  }

  ghost predicate Shows<E>(st: State<E>, root: E -> Option<nat>, x: Abstract) {
    (forall i: nat :: x.slot(i) == SlotOf(st, i)) &&
    (forall p: nat, lo: nat :: x.entry(p, lo) == EntryOf(st, root, p, lo))
  }

  /** The root bound to an ASID. */
  function Lookup(b: Split, x: Abstract, a: nat): Option<nat> {
    match x.slot(Hi(b, a))
    case None => None
    case Some(p) => x.entry(p, Lo(b, a))
  }

  lemma FindIsLookup<E>(b: Split, st: State<E>, root: E -> Option<nat>, x: Abstract, a: nat)
    requires Shows(st, root, x)
    ensures Find(b, st, root, a) == Lookup(b, x, a)
  {
  }

  datatype Op<E> =
    | Install(slot: nat, pool: nat)
    | Write(pool: nat, lo: nat, entry: E)
    | Remove(asid: nat, vspace: nat)
    | RemovePool(base: nat, pool: nat)

  ghost predicate Legal<E>(b: Split, st: State<E>, op: Op<E>) {
    match op
    case Install(i, p) =>
      i < |st.table| && p in st.pools && forall j :: 0 <= j < |st.table| && j != i ==> st.table[j] != p
    case Write(p, lo, _) => p in st.pools && lo < Pow2(b.low)
    case Remove(a, _) => InRange(b, a)
    case RemovePool(a, _) => InRange(b, a)
  }

  function WriteEntry<E>(st: State<E>, p: nat, lo: nat, e: E): State<E>
    requires p in st.pools && lo < |st.pools[p]|
  {
    st.(pools := st.pools[p := st.pools[p][lo := e]])
  }

  function Next<E>(b: Split, st: State<E>, root: E -> Option<nat>, cleared: E, op: Op<E>): State<E> {
    match op
    case Install(i, p) => if i < |st.table| then SetSlot(st, i, p) else st
    case Write(p, lo, e) => if p in st.pools && lo < |st.pools[p]| then WriteEntry(st, p, lo, e) else st
    case Remove(a, v) => DeleteAsid(b, st, root, a, v, cleared)
    case RemovePool(a, p) => DeletePool(b, st, a, p)
  }

  function NextAbstract<E>(b: Split, root: E -> Option<nat>, x: Abstract, op: Op<E>): Abstract {
    match op
    case Install(i, p) => SlotSet(x, i, Some(p))
    case Write(p, lo, e) => EntrySet(x, p, lo, root(e))
    case Remove(a, v) =>
      if Lookup(b, x, a) == Some(v) then EntrySet(x, x.slot(Hi(b, a)).value, Lo(b, a), None) else x
    case RemovePool(a, p) => if x.slot(Hi(b, a)) == Some(p) then SlotSet(x, Hi(b, a), None) else x
  }

  function SlotSet(x: Abstract, i: nat, p: Option<nat>): Abstract {
    x.(slot := (j: nat) => if j == i then p else x.slot(j))
  }

  function EntrySet(x: Abstract, p: nat, lo: nat, r: Option<nat>): Abstract {
    x.(entry := (q: nat, k: nat) => if q == p && k == lo then r else x.entry(q, k))
  }

  lemma SlotShows<E>(st: State<E>, root: E -> Option<nat>, x: Abstract, i: nat, p: nat)
    requires Shows(st, root, x) && i < |st.table|
    ensures Shows(SetSlot(st, i, p), root, SlotSet(x, i, if p == 0 then None else Some(p)))
  {
  }

  lemma WriteShows<E>(st: State<E>, root: E -> Option<nat>, x: Abstract, p: nat, lo: nat, e: E)
    requires Shows(st, root, x) && p in st.pools && lo < |st.pools[p]|
    ensures Shows(WriteEntry(st, p, lo, e), root, EntrySet(x, p, lo, root(e)))
  {
  }

  lemma RemoveShows<E>(b: Split, st: State<E>, root: E -> Option<nat>, x: Abstract, cleared: E, a: nat, v: nat)
    requires Valid(b, st) && InRange(b, a) && root(cleared) == None && Shows(st, root, x)
    ensures Shows(DeleteAsid(b, st, root, a, v, cleared), root, NextAbstract(b, root, x, Remove(a, v)))
  {
    SplitAsid(b, a);
    FindIsLookup(b, st, root, x, a);
    if Find(b, st, root, a) == Some(v) {
      WriteShows(st, root, x, st.table[Hi(b, a)], Lo(b, a), cleared);
    }
  }

  lemma RemovePoolShows<E>(b: Split, st: State<E>, root: E -> Option<nat>, x: Abstract, a: nat, p: nat)
    requires Valid(b, st) && InRange(b, a) && Shows(st, root, x)
    ensures Shows(DeletePool(b, st, a, p), root, NextAbstract(b, root, x, RemovePool(a, p)))
  {
    SplitAsid(b, a);
    if st.table[Hi(b, a)] == p {
      SlotShows(st, root, x, Hi(b, a), 0);
    }
  }

  lemma StepValid<E(!new)>(b: Split, st: State<E>, root: E -> Option<nat>, cleared: E, op: Op<E>)
    requires Valid(b, st) && root(cleared) == None && Legal(b, st, op)
    ensures Valid(b, Next(b, st, root, cleared, op))
  {
    match op
    case Remove(a, v) => DeleteAsidRemoves(b, st, root, a, v, cleared);
    case RemovePool(a, p) => DeletePoolRemoves(b, st, root, a, p);
    case _ =>
  }

  /** Each operation does to the abstract table what its abstract counterpart says. */
  lemma StepShows<E(!new)>(b: Split, st: State<E>, root: E -> Option<nat>, x: Abstract, cleared: E, op: Op<E>)
    requires Valid(b, st) && root(cleared) == None && Legal(b, st, op) && Shows(st, root, x)
    ensures Shows(Next(b, st, root, cleared, op), root, NextAbstract(b, root, x, op))
  {
    match op
    case Install(i, p) => SlotShows(st, root, x, i, p);
    case Write(p, lo, e) => WriteShows(st, root, x, p, lo, e);
    case Remove(a, v) => RemoveShows(b, st, root, x, cleared, a, v);
    case RemovePool(a, p) => RemovePoolShows(b, st, root, x, a, p);
  }

  ghost predicate LegalRun<E(!new)>(b: Split, st: State<E>, root: E -> Option<nat>, cleared: E, ops: seq<Op<E>>)
    decreases |ops|
  {
    ops == [] || (Legal(b, st, ops[0]) && LegalRun(b, Next(b, st, root, cleared, ops[0]), root, cleared, ops[1..]))
  }

  function Run<E>(b: Split, st: State<E>, root: E -> Option<nat>, cleared: E, ops: seq<Op<E>>): State<E>
    decreases |ops|
  {
    if ops == [] then st else Run(b, Next(b, st, root, cleared, ops[0]), root, cleared, ops[1..])
  }

  function RunAbstract<E>(b: Split, root: E -> Option<nat>, x: Abstract, ops: seq<Op<E>>): Abstract
    decreases |ops|
  {
    if ops == [] then x else RunAbstract(b, root, NextAbstract(b, root, x, ops[0]), ops[1..])
  }

  /** Over every run of installations, entry writes and deletions the table keeps one
      pool per slot and shows the abstract table the operations describe, and every
      lookup finds what is bound there. */
  lemma {:induction false} EveryRun<E(!new)>(b: Split, st: State<E>, root: E -> Option<nat>, x: Abstract, cleared: E,
      ops: seq<Op<E>>)
    requires Valid(b, st) && root(cleared) == None && LegalRun(b, st, root, cleared, ops) && Shows(st, root, x)
    ensures Valid(b, Run(b, st, root, cleared, ops))
    ensures Shows(Run(b, st, root, cleared, ops), root, RunAbstract(b, root, x, ops))
    ensures forall a: nat ::
              Find(b, Run(b, st, root, cleared, ops), root, a) == Lookup(b, RunAbstract(b, root, x, ops), a)
    decreases |ops|
  {
    if ops == [] {
      forall a: nat
        ensures Find(b, st, root, a) == Lookup(b, x, a)
      {
        FindIsLookup(b, st, root, x, a);
      }
    } else {
      var op := ops[0];
      StepValid(b, st, root, cleared, op);
      StepShows(b, st, root, x, cleared, op);
      EveryRun(b, Next(b, st, root, cleared, op), root, NextAbstract(b, root, x, op), cleared, ops[1..]);
    }
  }
}
