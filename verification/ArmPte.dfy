/** AArch64 page-table entries: the words the kernel builds and how it reads them
    back, against the descriptor format of VMSAv8-64. Fields are written with
    division and remainder; the Source lemmas prove that these are the masks and
    shifts of the source. */
module ArmPte {
  import opened Words

  const TABLE: nat := 3
  const BLOCK: nat := 1
  const PAGE_4K: nat := 7

  const PAGE_ADDR_MASK: nat := 0xffff_ffff_f000
  const TOP_BITS: nat := 0x1_0000_0000_0000
  const SOFT_4K: nat := 0x400_0000_0000_0000

  /** `get_type`: bits 1 and 0, and bit 58 as bit 2. */
  function GetType(w: Word): nat {
    w % 4 + w / SOFT_4K % 2 * 4
  }

  /** The page number in bits 47 to 12. */
  function GetPage(w: Word): nat {
    w / 0x1000 % 0x10_0000_0000
  }

  /** `w & PAGE_ADDR_MASK` */
  function AddrField(w: nat): nat {
    w / 0x1000 % 0x10_0000_0000 * 0x1000
  }

  /** `w & !PAGE_ADDR_MASK` */
  function AttrField(w: Word): nat {
    w % 0x1000 + w / TOP_BITS * TOP_BITS
  }

  predicate IsTable(w: Word) {
    GetType(w) == TABLE
  }

  predicate IsPage(w: Word) {
    GetType(w) == PAGE_4K || GetType(w) == BLOCK
  }

  /** `new_page` and, with sign 3, `pte_new_table`. */
  function NewPage(addr: Word, sign: Word): Word {
    FieldsAdd(addr);
    FieldsAdd(sign);
    AddrField(addr) + AttrField(sign)
  }

  function NewTable(addr: Word): Word {
    NewPage(addr, 3)
  }

  function SetNextLevel(w: Word, addr: Word): Word {
    NewPage(addr, w)
  }

  function SetAttr(w: Word, value: Word): Word {
    NewPage(w, value)
  }

  lemma FieldsAdd(w: Word)
    ensures AddrField(w) + AttrField(w) == w && AddrField(w) < TOP_BITS
    ensures AttrField(w) <= WORD_LIMIT - TOP_BITS + 0xfff
  {
    assert w / 0x1000 == w / TOP_BITS * 0x10_0000_0000 + w / 0x1000 % 0x10_0000_0000 by {
      var q, r := w / TOP_BITS, w % TOP_BITS;
      DivModUnique(w, 0x1000, q * 0x10_0000_0000 + r / 0x1000, r % 0x1000);
      DivModUnique(w / 0x1000, 0x10_0000_0000, q, r / 0x1000);
    }
  }

  datatype Fields = Fields(uxn: nat, ng: nat, af: nat, sh: nat, ap: nat, attrIndx: nat)

  function LowFields(x: Fields): (n: nat)
    ensures n < 0x1000 && n % 4 == 0
  {
    x.ng % 2 * 0x800 + x.af % 2 * 0x400 + x.sh % 4 * 0x100 + x.ap % 4 * 0x40 + x.attrIndx % 8 * 4
  }

  /** `pte_new_page` */
  function NewBlock(x: Fields, addr: Word): Word {
    x.uxn % 2 * 0x40_0000_0000_0000 + AddrField(addr) + LowFields(x) + 1
  }

  /** `pte_new_4k_page` */
  function New4kPage(x: Fields, addr: Word): Word {
    x.uxn % 2 * 0x40_0000_0000_0000 + AddrField(addr) + LowFields(x) + SOFT_4K + 3
  }

  // ----- the same as masks and shifts

  lemma SourceAddr(w: Word)
    ensures And(w, PAGE_ADDR_MASK) == AddrField(w)
  {
    Powers();
    AndField(w, 36, 12);
    ShlIsMul(0xf_ffff_ffff, 12);
    ShrIsDiv(w, 12);
    LowIsMod(Shr(w, 12), 36);
    ShlIsMul(Low(Shr(w, 12), 36), 12);
  }

  lemma SourceFields(w: Word)
    ensures And(w, PAGE_ADDR_MASK) == AddrField(w)
    ensures And(w, Not(PAGE_ADDR_MASK)) == AttrField(w)
    ensures Shr(And(w, Shl(1, 58)), 56) == w / SOFT_4K % 2 * 4
    ensures And(w, 3) == w % 4
  {
    Powers();
    SourceAddr(w);
    AndNot(w, PAGE_ADDR_MASK, Not(PAGE_ADDR_MASK), 64);
    FieldsAdd(w);
    AndOnes(w, 2);
    LowIsMod(w, 2);
    SourceBit58(w);
  }

  lemma SourceBit58(w: Word)
    ensures Shr(And(w, Shl(1, 58)), 56) == w / SOFT_4K % 2 * 4
  {
    Powers();
    MorePowers();
    AndField(w, 1, 58);
    ShrIsDiv(w, 58);
    LowIsMod(Shr(w, 58), 1);
    var b := w / SOFT_4K % 2;
    ShlIsMul(b, 58);
    ShrIsDiv(Shl(b, 58), 56);
  }

  lemma SourceNewPage(addr: Word, sign: Word)
    ensures NewPage(addr, sign) == Or(And(addr, PAGE_ADDR_MASK), And(sign, Not(PAGE_ADDR_MASK)))
  {
    Powers();
    SourceFields(addr);
    SourceFields(sign);
    OrMasked(addr, sign, PAGE_ADDR_MASK, Not(PAGE_ADDR_MASK), 64);
  }

  /** One more field of m bits at bit k, below everything that is there. */
  lemma AddField(h: nat, v: nat, m: nat, k: nat, pm: nat, pk: nat) returns (t: nat)
    requires pm == Pow2(m) && pk == Pow2(k) && pm * pk == Pow2(m + k) && h % (pm * pk) == 0
    ensures t == Or(h, Shl(And(v, pm - 1), k)) && t == h + v % pm * pk && t % pk == 0
  {
    AndOnes(v, m);
    LowIsMod(v, m);
    ShlIsMul(v % pm, k);
    var r := v % pm;
    FieldRoom(h, r, pm, pk);
    OrBelow(h, r * pk, m + k);
    t := h + r * pk;
  }

  lemma Distribute(x: nat, y: nat, z: nat)
    ensures (x + y) * z == x * z + y * z
  {
  }

  lemma FieldRoom(h: nat, r: nat, pm: nat, pk: nat)
    requires r < pm && pk > 0 && h % (pm * pk) == 0
    ensures r * pk < pm * pk && (h + r * pk) % pk == 0
  {
    MulDistributes(pm, r, pk);
    MulAtLeast(pm - r, pk);
    var q := h / (pm * pk);
    assert h == (q * pm) * pk by { assert h == (pm * pk) * q; }
    assert h + r * pk == (q * pm + r) * pk by { Distribute(q * pm, r, pk); }
    DivModUnique(h + r * pk, pk, q * pm + r, 0);
  }

  lemma MorePowers()
    ensures Pow2(5) == 0x20 && Pow2(6) == 0x40 && Pow2(8) == 0x100 && Pow2(11) == 0x800
    ensures Pow2(54) == 0x40_0000_0000_0000 && Pow2(56) == 0x100_0000_0000_0000
  {
    Powers();
    assert Pow2(54) == 64 * Pow2(48);
    assert Pow2(56) == 4 * Pow2(54);
  }

  lemma TopField(uxn: nat)
    ensures Shl(And(uxn, 1), 54) == uxn % 2 * 0x40_0000_0000_0000
  {
    MorePowers();
    assert Pow2(1) == 2;
    AndOnes(uxn, 1);
    LowIsMod(uxn, 1);
    ShlIsMul(uxn % 2, 54);
  }

  lemma OrTop(u: nat, a: nat)
    requires a < TOP_BITS
    ensures Or(u * 0x40_0000_0000_0000, a) == u * 0x40_0000_0000_0000 + a
  {
    MorePowers();
    Multiple(u * 0x40_0000_0000_0000, 0x40_0000_0000_0000, u);
    OrBelow(u * 0x40_0000_0000_0000, a, 54);
  }

  lemma OrTags(c: nat)
    requires c % 4 == 0 && c < 0x80_0000_0000_0000
    ensures Or(c, 1) == c + 1 && Or(c, 0x400_0000_0000_0003) == c + 0x400_0000_0000_0003
  {
    Powers();
    MorePowers();
    OrBelow(c, 1, 2);
    OrLowBits(c, 0x400_0000_0000_0003, c / 4, 0x100_0000_0000_0000, 3);
    ShlIsMul(1, 56);
    OrDisjoint(1, c / 4, 56);
  }

  // The page constructors as the source's chain of ORs: field after field joins
  // what is there already, then the type bits.

  function With1(x: Fields, addr: Word): nat { x.uxn % 2 * 0x40_0000_0000_0000 + AddrField(addr) }
  function With2(x: Fields, addr: Word): nat { With1(x, addr) + x.ng % 2 * 0x800 }
  function With3(x: Fields, addr: Word): nat { With2(x, addr) + x.af % 2 * 0x400 }
  function With4(x: Fields, addr: Word): nat { With3(x, addr) + x.sh % 4 * 0x100 }
  function With5(x: Fields, addr: Word): nat { With4(x, addr) + x.ap % 4 * 0x40 }
  function With6(x: Fields, addr: Word): nat { With5(x, addr) + x.attrIndx % 8 * 4 }

  lemma Multiple(v: nat, m: nat, q: nat)
    requires v == q * m && m > 0
    ensures v % m == 0
  {
    DivModUnique(v, m, q, 0);
  }

  lemma ChainAligned(x: Fields, addr: Word)
    ensures With1(x, addr) % 0x1000 == 0 && With2(x, addr) % 0x800 == 0 && With3(x, addr) % 0x400 == 0
    ensures With4(x, addr) % 0x100 == 0 && With5(x, addr) % 0x40 == 0 && With6(x, addr) % 4 == 0
    ensures With6(x, addr) < 0x80_0000_0000_0000
  {
    var a, u := addr / 0x1000 % 0x10_0000_0000, x.uxn % 2;
    var n, f, h, p, i := x.ng % 2, x.af % 2, x.sh % 4, x.ap % 4, x.attrIndx % 8;
    Multiple(With1(x, addr), 0x1000, u * 0x400_0000_0000 + a);
    Multiple(With2(x, addr), 0x800, u * 0x800_0000_0000 + 2 * a + n);
    Multiple(With3(x, addr), 0x400, u * 0x1000_0000_0000 + 4 * a + 2 * n + f);
    Multiple(With4(x, addr), 0x100, u * 0x4000_0000_0000 + 16 * a + 8 * n + 4 * f + h);
    Multiple(With5(x, addr), 0x40, u * 0x1_0000_0000_0000 + 64 * a + 32 * n + 16 * f + 4 * h + p);
    Multiple(With6(x, addr), 4, u * 0x10_0000_0000_0000 + 0x400 * a + 0x200 * n + 0x100 * f + 0x40 * h + 0x10 * p + i);
  }

  lemma SourceUxn(x: Fields, addr: Word)
    ensures With1(x, addr) == Or(Shl(And(x.uxn, 1), 54), And(addr, PAGE_ADDR_MASK))
  {
    SourceAddr(addr);
    TopField(x.uxn);
    OrTop(x.uxn % 2, AddrField(addr));
  }

  lemma SourceNgAf(x: Fields, addr: Word)
    ensures With2(x, addr) == Or(With1(x, addr), Shl(And(x.ng, 1), 11))
    ensures With3(x, addr) == Or(With2(x, addr), Shl(And(x.af, 1), 10))
  {
    Powers();
    MorePowers();
    ChainAligned(x, addr);
    var _ := AddField(With1(x, addr), x.ng, 1, 11, 2, 0x800);
    var _ := AddField(With2(x, addr), x.af, 1, 10, 2, 0x400);
  }

  lemma SourceShAp(x: Fields, addr: Word)
    ensures With4(x, addr) == Or(With3(x, addr), Shl(And(x.sh, 3), 8))
    ensures With5(x, addr) == Or(With4(x, addr), Shl(And(x.ap, 3), 6))
  {
    Powers();
    MorePowers();
    ChainAligned(x, addr);
    var _ := AddField(With3(x, addr), x.sh, 2, 8, 4, 0x100);
    var _ := AddField(With4(x, addr), x.ap, 2, 6, 4, 0x40);
  }

  lemma SourceAttr(x: Fields, addr: Word)
    ensures With6(x, addr) == Or(With5(x, addr), Shl(And(x.attrIndx, 7), 2))
  {
    Powers();
    MorePowers();
    ChainAligned(x, addr);
    var _ := AddField(With5(x, addr), x.attrIndx, 3, 2, 8, 4);
  }

  lemma SourcePages(x: Fields, addr: Word)
    ensures NewBlock(x, addr) == Or(With6(x, addr), 1)
    ensures New4kPage(x, addr) == Or(With6(x, addr), 0x400_0000_0000_0003)
  {
    ChainAligned(x, addr);
    OrTags(With6(x, addr));
  }

  // ----- reading back

  /** The address and attribute parts of a word are independent. */
  lemma NewPageParts(addr: Word, sign: Word)
    ensures AddrField(NewPage(addr, sign)) == AddrField(addr)
    ensures AttrField(NewPage(addr, sign)) == AttrField(sign)
    ensures GetPage(NewPage(addr, sign)) == GetPage(addr)
    ensures GetType(NewPage(addr, sign)) == GetType(sign)
  {
    var w := NewPage(addr, sign);
    var hi, lo, a := sign / TOP_BITS, sign % 0x1000, GetPage(addr);
    PartsOf(w, hi, a, lo);
    var a' := GetPage(sign);
    FieldsAdd(sign);
    PartsOf(sign, hi, a', lo);
  }

  lemma PartsOf(w: Word, hi: nat, a: nat, lo: nat)
    requires w == hi * TOP_BITS + a * 0x1000 + lo && a < 0x10_0000_0000 && lo < 0x1000
    ensures w % 0x1000 == lo && w / TOP_BITS == hi && GetPage(w) == a
    ensures GetType(w) == lo % 4 + hi / 0x400 % 2 * 4
    ensures w % 2 == lo % 2 && w % 4 == lo % 4
  {
    DivModUnique(w, 0x1000, hi * 0x10_0000_0000 + a, lo);
    DivModUnique(hi * 0x10_0000_0000 + a, 0x10_0000_0000, hi, a);
    DivModUnique(w, TOP_BITS, hi, a * 0x1000 + lo);
    TypeOf(w, hi, a * 0x1000 + lo, lo);
  }

  lemma TypeOf(w: Word, hi: nat, rest: nat, lo: nat)
    requires w == hi * TOP_BITS + rest && rest < TOP_BITS && rest % 0x1000 == lo
    ensures GetType(w) == lo % 4 + hi / 0x400 % 2 * 4
    ensures w % 2 == lo % 2 && w % 4 == lo % 4
  {
    DivModUnique(w, SOFT_4K, hi / 0x400, hi % 0x400 * TOP_BITS + rest);
    DivModUnique(w, 4, hi * 0x4000_0000_0000 + rest / 4, rest % 4);
    DivModUnique(rest, 4, rest / 0x1000 * 0x400 + lo / 4, lo % 4);
    Parity(w);
    Parity(lo);
  }

  lemma TableWord(addr: Word)
    ensures GetType(NewTable(addr)) == TABLE && GetPage(NewTable(addr)) == GetPage(addr)
    ensures NewTable(addr) % 4 == 3
  {
    PartsOf(NewTable(addr), 0, GetPage(addr), 3);
  }

  lemma BlockWord(x: Fields, addr: Word)
    ensures GetType(NewBlock(x, addr)) == BLOCK && AddrField(NewBlock(x, addr)) == AddrField(addr)
    ensures NewBlock(x, addr) % 4 == 1
  {
    PartsOf(NewBlock(x, addr), x.uxn % 2 * 0x40, GetPage(addr), LowFields(x) + 1);
  }

  lemma PageWord(x: Fields, addr: Word)
    ensures GetType(New4kPage(x, addr)) == PAGE_4K && AddrField(New4kPage(x, addr)) == AddrField(addr)
    ensures New4kPage(x, addr) % 4 == 3
    ensures AttrField(New4kPage(x, addr)) == New4kPage(x, 0)
  {
    PartsOf(New4kPage(x, addr), x.uxn % 2 * 0x40 + 0x400, GetPage(addr), LowFields(x) + 3);
  }

  // ----- user entries

  datatype Rights = KernelOnly | ReadWrite | ReadOnly

  /** `ap_from_vm_rights_t(..).bits() >> 6` */
  function Ap(r: Rights): nat {
    match r
    case KernelOnly => 0
    case ReadWrite => 1
    case ReadOnly => 3
  }

  const DEVICE_nGnRnE: nat := 0
  const NORMAL: nat := 4

  function Shareable(smp: bool): nat { if smp then 3 else 0 }

  function UserFields(rights: Rights, executeNever: bool, cacheable: bool, smp: bool): Fields {
    Fields(if executeNever then 1 else 0, 1, 1, Shareable(smp), Ap(rights), if cacheable then NORMAL else DEVICE_nGnRnE)
  }

  /** `make_user_pte`; size 0 is a small page. */
  function UserPte(paddr: Word, rights: Rights, executeNever: bool, cacheable: bool, pageSize: nat, smp: bool): Word {
    var x := UserFields(rights, executeNever, cacheable, smp);
    if pageSize == 0 then New4kPage(x, paddr) else NewBlock(x, paddr)
  }

  /** A user entry is always a page or block, never a table, whatever the rights,
      attributes and size, and gives back every page-aligned address below 2^48. */
  lemma UserPteIsPage(paddr: Word, rights: Rights, executeNever: bool, cacheable: bool, pageSize: nat, smp: bool)
    ensures var w := UserPte(paddr, rights, executeNever, cacheable, pageSize, smp);
            !IsTable(w) && GetType(w) == (if pageSize == 0 then PAGE_4K else BLOCK) &&
            (paddr % 0x1000 == 0 && paddr < TOP_BITS ==> AddrField(w) == paddr)
  {
    var x := UserFields(rights, executeNever, cacheable, smp);
    PageWord(x, paddr);
    BlockWord(x, paddr);
    WholePages(paddr);
  }

  lemma WholePages(paddr: Word)
    ensures paddr % 0x1000 == 0 && paddr < TOP_BITS ==> AddrField(paddr) == paddr
  {
  }

  // ----- the words of the boot mappings

  function BootFields(exec: bool, smp: bool): Fields {
    Fields(if exec then 0 else 1, 1, 1, Shareable(smp), 1, 0)
  }

  /** Address then attribute 3, over whatever was there. */
  function BootTable(was: Word, pt: Word): Word {
    SetAttr(SetNextLevel(was, pt), 3)
  }

  /** Attributes of a 4K page then its address, over whatever was there. */
  function BootPage(was: Word, frame: Word, exec: bool, smp: bool): Word {
    SetNextLevel(SetAttr(was, New4kPage(BootFields(exec, smp), 0)), frame)
  }

  /** Neither depends on the word it is written over. */
  lemma BootTableWord(was: Word, addr: Word)
    ensures BootTable(was, addr) == NewTable(addr)
  {
    NewPageParts(addr, was);
  }

  lemma BootPageWord(was: Word, addr: Word, exec: bool, smp: bool)
    ensures BootPage(was, addr, exec, smp) == New4kPage(BootFields(exec, smp), addr)
  {
    var v := New4kPage(BootFields(exec, smp), 0);
    PageWord(BootFields(exec, smp), 0);
    NewPageParts(was, v);
    NewPageParts(addr, SetAttr(was, v));
    PageWord(BootFields(exec, smp), addr);
    FieldsAdd(New4kPage(BootFields(exec, smp), addr));
  }

  // ----- attributes, as the processor reads them in bits 11 to 2 and 54

  datatype Attributes = Attributes(memType: nat, user: bool, readOnly: bool, share: nat, accessed: bool,
    notGlobal: bool, userExecNever: bool)

  function AttributesOf(w: nat): Attributes {
    Attributes(w / 4 % 8, w / 0x40 % 2 == 1, w / 0x80 % 2 == 1, w / 0x100 % 4, w / 0x400 % 2 == 1, w / 0x800 % 2 == 1,
               w / 0x40_0000_0000_0000 % 2 == 1)
  }

  lemma QuotientPlus(w: nat, c: nat, lo: nat, d: nat)
    requires d > 0 && w == c * d + lo
    ensures w / d == c + lo / d
  {
    var q := lo / d;
    assert lo == q * d + lo % d by { assert lo == d * q + lo % d; }
    assert (c + q) * d == c * d + q * d by { Distribute(c, q, d); }
    DivModUnique(w, d, c + q, lo % d);
  }

  lemma RemainderPlus(c: nat, m: nat, n: nat)
    requires n > 0
    ensures (c * n + m) % n == m % n
  {
    var q := m / n;
    assert m == q * n + m % n by { assert m == n * q + m % n; }
    assert (c + q) * n == c * n + q * n by { Distribute(c, q, n); }
    DivModUnique(c * n + m, n, c + q, m % n);
  }

  lemma LowField(w: nat, h: nat, lo: nat, d: nat, n: nat, r: nat)
    requires w == h * (r * n) * d + lo && d > 0 && n > 0
    ensures w / d % n == lo / d % n
  {
    QuotientPlus(w, h * (r * n), lo, d);
    assert h * (r * n) == (h * r) * n;
    RemainderPlus(h * r, lo / d, n);
  }

  lemma LowAttributes(w: nat, h: nat, lo: nat)
    requires w == h * 0x1000 + lo && lo < 0x1000
    ensures w / 4 % 8 == lo / 4 % 8 && w / 0x40 % 2 == lo / 0x40 % 2 && w / 0x80 % 2 == lo / 0x80 % 2
    ensures w / 0x100 % 4 == lo / 0x100 % 4 && w / 0x400 % 2 == lo / 0x400 % 2 && w / 0x800 % 2 == lo / 0x800 % 2
  {
    LowField(w, h, lo, 4, 8, 0x80);
    LowField(w, h, lo, 0x40, 2, 0x20);
    LowField(w, h, lo, 0x80, 2, 0x10);
    LowField(w, h, lo, 0x100, 4, 4);
    LowField(w, h, lo, 0x400, 2, 2);
    LowField(w, h, lo, 0x800, 2, 1);
  }

  lemma FieldsRead(n: nat, f: nat, h: nat, p: nat, i: nat, tag: nat, lo: nat)
    requires n < 2 && f < 2 && h < 4 && p < 4 && i < 8 && tag < 4
    requires lo == n * 0x800 + f * 0x400 + h * 0x100 + p * 0x40 + i * 4 + tag
    ensures lo / 4 % 8 == i && lo / 0x40 % 2 == p % 2 && lo / 0x80 % 2 == p / 2 && lo / 0x100 % 4 == h
    ensures lo / 0x400 % 2 == f && lo / 0x800 % 2 == n
  {
    UpperRead(n, f, h, p * 0x40 + i * 4 + tag, lo);
    LowerRead(n * 8 + f * 4 + h, p, i, tag, lo);
  }

  lemma UpperRead(n: nat, f: nat, h: nat, rest: nat, lo: nat)
    requires n < 2 && f < 2 && h < 4 && rest < 0x100 && lo == n * 0x800 + f * 0x400 + h * 0x100 + rest
    ensures lo / 0x100 % 4 == h && lo / 0x400 % 2 == f && lo / 0x800 % 2 == n
  {
    DivModUnique(lo, 0x800, n, f * 0x400 + h * 0x100 + rest);
    DivModUnique(lo, 0x400, n * 2 + f, h * 0x100 + rest);
    DivModUnique(lo, 0x100, n * 8 + f * 4 + h, rest);
  }

  lemma LowerRead(c: nat, p: nat, i: nat, tag: nat, lo: nat)
    requires p < 4 && i < 8 && tag < 4 && lo == c * 0x100 + p * 0x40 + i * 4 + tag
    ensures lo / 4 % 8 == i && lo / 0x40 % 2 == p % 2 && lo / 0x80 % 2 == p / 2
  {
    DivModUnique(lo, 0x80, c * 2 + p / 2, p % 2 * 0x40 + i * 4 + tag);
    DivModUnique(lo, 0x40, c * 4 + p, i * 4 + tag);
    DivModUnique(lo, 4, c * 0x40 + p * 0x10 + i, tag);
    DivModUnique(c * 2 + p / 2, 2, c, p / 2);
    DivModUnique(c * 4 + p, 2, c * 2 + p / 2, p % 2);
    DivModUnique(c * 0x40 + p * 0x10 + i, 8, c * 8 + p * 2, i);
  }

  function Named(x: Fields): Attributes {
    Attributes(x.attrIndx % 8, x.ap % 2 == 1, x.ap / 2 % 2 == 1, x.sh % 4, x.af % 2 == 1, x.ng % 2 == 1, x.uxn % 2 == 1)
  }

  /** A word built from fields above an address and a tag. */
  lemma AttributesBuilt(w: nat, x: Fields, a: nat, soft: nat, tag: nat)
    requires a < 0x10_0000_0000 && tag < 4 && soft < 2
    requires w == x.uxn % 2 * 0x40_0000_0000_0000 + a * 0x1000 + LowFields(x) + soft * SOFT_4K + tag
    ensures AttributesOf(w) == Named(x)
  {
    var lo, u := LowFields(x) + tag, x.uxn % 2;
    var h := soft * 0x4000_0000_0000 + u * 0x400_0000_0000 + a;
    LowAttributes(w, h, lo);
    FieldsRead(x.ng % 2, x.af % 2, x.sh % 4, x.ap % 4, x.attrIndx % 8, tag, lo);
    DivModUnique(w, 0x40_0000_0000_0000, soft * 0x10 + u, a * 0x1000 + lo);
    LowTwo(x.ap);
  }

  lemma LowTwo(p: nat)
    ensures p % 4 % 2 == p % 2 && p % 4 / 2 == p / 2 % 2
  {
  }

  /** The processor reads each field of a page or block where the constructor put it. */
  lemma PageAttributes(x: Fields, addr: Word)
    ensures AttributesOf(New4kPage(x, addr)) == Named(x) && AttributesOf(NewBlock(x, addr)) == Named(x)
  {
    AttributesBuilt(New4kPage(x, addr), x, GetPage(addr), 1, 3);
    AttributesBuilt(NewBlock(x, addr), x, GetPage(addr), 0, 1);
  }

  /** What a user entry allows: user access by the rights, cached or device memory and
      execution by the attributes; never global, always accessed, and shared just between
      several cores. */
  lemma UserAttributes(paddr: Word, rights: Rights, executeNever: bool, cacheable: bool, pageSize: nat, smp: bool)
    ensures AttributesOf(UserPte(paddr, rights, executeNever, cacheable, pageSize, smp)) ==
            Attributes(if cacheable then 4 else 0, !rights.KernelOnly?, rights.ReadOnly?, if smp then 3 else 0, true,
                       true, executeNever)
  {
    PageAttributes(UserFields(rights, executeNever, cacheable, smp), paddr);
    NamedRights(rights);
    NamedUser(rights, executeNever, cacheable, smp);
  }

  lemma NamedRights(rights: Rights)
    ensures (Ap(rights) % 2 == 1 <==> !rights.KernelOnly?) && (Ap(rights) / 2 % 2 == 1 <==> rights.ReadOnly?)
  {
  }

  lemma NamedUser(rights: Rights, executeNever: bool, cacheable: bool, smp: bool)
    ensures Named(UserFields(rights, executeNever, cacheable, smp)) ==
            Attributes(if cacheable then 4 else 0, Ap(rights) % 2 == 1, Ap(rights) / 2 % 2 == 1, if smp then 3 else 0,
                       true, true, executeNever)
  {
  }

  lemma NamedBoot(exec: bool, smp: bool)
    ensures Named(BootFields(exec, smp)) == Attributes(0, true, false, if smp then 3 else 0, true, true, !exec)
  {
  }

  /** A frame mapped at boot is writable by the user, with memory type 0. */
  lemma BootAttributes(frame: Word, exec: bool, smp: bool)
    ensures AttributesOf(New4kPage(BootFields(exec, smp), frame)) ==
            Attributes(0, true, false, if smp then 3 else 0, true, true, !exec)
  {
    PageAttributes(BootFields(exec, smp), frame);
    NamedBoot(exec, smp);
  }
}
