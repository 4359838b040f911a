/** RISC-V page-table entries: the words the kernel builds and how it reads them
    back, against the entry format of Sv39. Fields are written with division and
    remainder; SourceGetters and SourceNew prove that these are the masks and
    shifts of the source. */
module RiscvPte {
  import opened Words

  const V: nat := 0x01
  const X: nat := 0x08
  const W: nat := 0x04
  const R: nat := 0x02
  const DAUV: nat := 0xd1
  const ADUVRWX: nat := 0xdf
  const ADGVRWX: nat := 0xef
  const VG: nat := 0x21

  const PPN_LIMIT: nat := 0x1000_0000_0000

  function GetValid(w: Word): nat { w % 2 }
  function GetRead(w: Word): nat { w / 2 % 2 }
  function GetWrite(w: Word): nat { w / 4 % 2 }
  function GetExecute(w: Word): nat { w / 8 % 2 }
  function GetPpn(w: Word): nat { w / 0x400 % PPN_LIMIT }

  predicate IsPteTable(w: Word) {
    GetValid(w) != 0 && !(GetRead(w) != 0 || GetWrite(w) != 0 || GetExecute(w) != 0)
  }

  /** `PTE::new`; the shift by 10 drops the bits of `ppn` past bit 53. */
  function New(ppn: nat, flags: nat): Word
    requires flags < 0x400
  {
    flags + 0x400 * (ppn % 0x40_0000_0000_0000)
  }

  // ----- the same fields as masks and shifts

  lemma SourceGetters(w: Word)
    ensures GetValid(w) == Shr(And(w, 0x1), 0)
    ensures GetRead(w) == Shr(And(w, 0x2), 1)
    ensures GetWrite(w) == Shr(And(w, 0x4), 2)
    ensures GetExecute(w) == Shr(And(w, 0x8), 3)
    ensures GetPpn(w) == Shr(And(w, 0x3f_ffff_ffff_fc00), 10)
  {
    Powers();
    Field(w, 1, 0, 1);
    Field(w, 1, 1, 2);
    Field(w, 1, 2, 4);
    Field(w, 1, 3, 8);
    ShlIsMul(0xfff_ffff_ffff, 10);
    Field(w, 44, 10, 0x3f_ffff_ffff_fc00);
  }

  lemma SourceNew(ppn: nat, flags: nat)
    requires flags < 0x400
    ensures New(ppn, flags) == Or(flags, Shl(ppn, 10) % WORD_LIMIT)
  {
    var h := ppn % 0x40_0000_0000_0000;
    assert Pow2(10) == 0x400;
    ShlIsMul(ppn, 10);
    ShlIsMul(h, 10);
    ShiftDrops(ppn);
    OrDisjoint(h, flags, 10);
  }

  lemma ShiftDrops(ppn: nat)
    ensures ppn * 0x400 % WORD_LIMIT == ppn % 0x40_0000_0000_0000 * 0x400
  {
    var k, h := ppn / 0x40_0000_0000_0000, ppn % 0x40_0000_0000_0000;
    DivModUnique(ppn * 0x400, WORD_LIMIT, k, h * 0x400);
  }

  // ----- user entries

  datatype Rights = Rights(read: bool, write: bool)

  function Bit(b: bool, v: nat): nat {
    if b then v else 0
  }

  function UserFlags(executable: bool, rights: Rights): (flags: nat)
    ensures flags < 0x100
  {
    DAUV + Bit(executable, X) + Bit(rights.write, W) + Bit(rights.read, R)
  }

  function UserPte(paddr: Word, executable: bool, rights: Rights): Word {
    if !executable && !rights.read && !rights.write then 0
    else New(paddr / 0x1000, UserFlags(executable, rights))
  }

  lemma SetX(flags: nat)
    requires flags / 8 % 2 == 0
    ensures Or(flags, X) == flags + X
  {
    assert Pow2(3) == 8;
    OrFlag(flags, 3);
  }

  lemma SetW(flags: nat)
    requires flags / 4 % 2 == 0
    ensures Or(flags, W) == flags + W
  {
    assert Pow2(2) == 4;
    OrFlag(flags, 2);
  }

  lemma SetR(flags: nat)
    requires flags / 2 % 2 == 0
    ensures Or(flags, R) == flags + R
  {
    assert Pow2(1) == 2;
    OrFlag(flags, 1);
  }

  /** `make_user_pte`, which sets one permission after the other. */
  method MakeUserPte(paddr: Word, executable: bool, rights: Rights) returns (w: Word)
    ensures w == UserPte(paddr, executable, rights)
  {
    if !executable && !rights.read && !rights.write {
      return 0;
    }
    var flags := DAUV;
    if executable {
      SetX(flags);
      flags := Or(flags, X);
    }
    if rights.write {
      SetW(flags);
      flags := Or(flags, W);
    }
    if rights.read {
      SetR(flags);
      flags := Or(flags, R);
    }
    w := New(paddr / 0x1000, flags);
  }

  /** `pte_next_table`: a global kernel entry, a leaf with all permissions or a
      pointer to the next table. */
  function NextTable(paddr: Word, isLeaf: bool): Word {
    New(paddr / 0x1000, if isLeaf then ADGVRWX else VG)
  }

  /** Reading back an entry made from a page number and flags. */
  lemma NewFields(ppn: nat, flags: nat)
    requires flags < 0x100 && ppn < PPN_LIMIT
    ensures GetPpn(New(ppn, flags)) == ppn
    ensures GetValid(New(ppn, flags)) == flags % 2
    ensures GetRead(New(ppn, flags)) == flags / 2 % 2
    ensures GetWrite(New(ppn, flags)) == flags / 4 % 2
    ensures GetExecute(New(ppn, flags)) == flags / 8 % 2
  {
    NewDecodes(ppn, flags);
    PageField(New(ppn, flags), ppn);
  }

  lemma UserFlagBits(executable: bool, rights: Rights)
    ensures var f := UserFlags(executable, rights);
            f % 2 == 1 && f / 2 % 2 == Bit(rights.read, 1) && f / 4 % 2 == Bit(rights.write, 1) &&
            f / 8 % 2 == Bit(executable, 1) && f / 0x10 % 2 == 1 && f / 0x40 % 2 == 1 && f / 0x80 % 2 == 1
  {
  }

  /** A user entry is invalid or a leaf, never a table, whatever the rights; it
      is invalid exactly when no permission is asked for; and when valid it
      carries those permissions and gives back every page-aligned address below
      2^56. */
  lemma UserPteIsLeaf(paddr: Word, executable: bool, rights: Rights)
    requires paddr < 0x100_0000_0000_0000
    ensures var w := UserPte(paddr, executable, rights);
            !IsPteTable(w) &&
            (GetValid(w) == 0 <==> !executable && !rights.read && !rights.write) &&
            (GetExecute(w) != 0 <==> executable) && (GetRead(w) != 0 <==> rights.read) &&
            (GetWrite(w) != 0 <==> rights.write) &&
            (GetValid(w) != 0 && paddr % 0x1000 == 0 ==> 0x1000 * GetPpn(w) == paddr)
  {
    if executable || rights.read || rights.write {
      UserFlagBits(executable, rights);
      NewFields(paddr / 0x1000, UserFlags(executable, rights));
    }
  }

  // ----- the hardware's reading (RISC-V Privileged Architecture 20211203, 4.3 and 4.4)

  datatype Meaning = Faulting | Next(page: nat) | Page(page: nat)

  /** Invalid, write-only and reserved encodings fault; a readable or executable
      entry is a leaf; the rest point to the next table. Reserved are bits 63 to
      54 of any entry and D, A and U of a pointer. */
  function Decode(w: Word): Meaning {
    Classify(w % 2, w / 2 % 2, w / 4 % 2, w / 8 % 2, w / 0x10 % 2, w / 0x40 % 2, w / 0x80 % 2,
             w >= 0x40_0000_0000_0000, w / 0x400 % PPN_LIMIT)
  }

  function Classify(v: nat, r: nat, w: nat, x: nat, u: nat, a: nat, d: nat, reserved: bool, page: nat): Meaning {
    if v == 0 || (r == 0 && w == 1) || reserved then Faulting
    else if r == 1 || x == 1 then Page(page)
    else if u == 1 || a == 1 || d == 1 then Faulting
    else Next(page)
  }

  /** Every pointer the hardware follows is a table to the kernel, and both take
      it to name the same page; every leaf is a valid non-table. */
  lemma HardwareAgrees(w: Word)
    ensures Decode(w).Next? ==> IsPteTable(w) && GetPpn(w) == Decode(w).page
    ensures Decode(w).Page? ==> !IsPteTable(w) && GetValid(w) != 0 && GetPpn(w) == Decode(w).page
  {
  }

  /** The entries the kernel writes mean to the hardware what it intends. */
  lemma WrittenEntries(page: nat)
    requires page < PPN_LIMIT
    ensures Decode(New(page, V)) == Next(page)
    ensures Decode(New(page, ADUVRWX)) == Page(page)
    ensures Decode(NextTable(0x1000 * page, true)) == Page(page)
    ensures Decode(NextTable(0x1000 * page, false)) == Next(page)
  {
    PointerEntry(page, V);
    PointerEntry(page, VG);
    LeafEntry(page, ADUVRWX);
    LeafEntry(page, ADGVRWX);
    NextTableIs(page);
  }

  lemma NextTableIs(page: nat)
    requires page < PPN_LIMIT
    ensures NextTable(0x1000 * page, true) == New(page, ADGVRWX)
    ensures NextTable(0x1000 * page, false) == New(page, VG)
  {
    assert 0x1000 * page / 0x1000 == page;
  }

  lemma PointerEntry(page: nat, flags: nat)
    requires page < PPN_LIMIT && (flags == V || flags == VG)
    ensures Decode(New(page, flags)) == Next(page)
  {
    DecodeNew(page, flags);
  }

  lemma LeafEntry(page: nat, flags: nat)
    requires page < PPN_LIMIT && (flags == ADUVRWX || flags == ADGVRWX)
    ensures Decode(New(page, flags)) == Page(page)
  {
    DecodeNew(page, flags);
  }

  /** To the hardware a user entry is a page with its address, except that one with
      write permission but no read permission is a reserved encoding and faults. */
  lemma UserPteMeans(paddr: Word, executable: bool, rights: Rights)
    requires paddr < 0x100_0000_0000_0000
    ensures Decode(UserPte(paddr, executable, rights)) ==
            if rights.read || (executable && !rights.write) then Page(paddr / 0x1000) else Faulting
  {
    if executable || rights.read || rights.write {
      UserFlagBits(executable, rights);
      DecodeNew(paddr / 0x1000, UserFlags(executable, rights));
    }
  }

  lemma DecodeNew(page: nat, flags: nat)
    requires page < PPN_LIMIT && flags < 0x100
    ensures Decode(New(page, flags)) ==
            Classify(flags % 2, flags / 2 % 2, flags / 4 % 2, flags / 8 % 2, flags / 0x10 % 2, flags / 0x40 % 2,
                     flags / 0x80 % 2, false, page)
  {
    var w := New(page, flags);
    NewDecodes(page, flags);
    PageField(w, page);
  }

  lemma PageField(w: Word, page: nat)
    requires w / 0x400 == page < PPN_LIMIT
    ensures w / 0x400 % PPN_LIMIT == page && w < 0x40_0000_0000_0000
  {
  }

  lemma NewDecodes(page: nat, flags: nat)
    requires page < PPN_LIMIT && flags < 0x100
    ensures var w := New(page, flags);
            w < 0x40_0000_0000_0000 && w / 0x400 == page && w % 0x400 == flags
    ensures var w := New(page, flags);
            w % 2 == flags % 2 && w / 2 % 2 == flags / 2 % 2 && w / 4 % 2 == flags / 4 % 2 &&
            w / 8 % 2 == flags / 8 % 2 && w / 0x10 % 2 == flags / 0x10 % 2 &&
            w / 0x40 % 2 == flags / 0x40 % 2 && w / 0x80 % 2 == flags / 0x80 % 2
  {
    var w := New(page, flags);
    NewSum(page, flags);
    LowBit(w, page, flags, 1, 0x200);
    LowBit(w, page, flags, 2, 0x100);
    LowBit(w, page, flags, 4, 0x80);
    LowBit(w, page, flags, 8, 0x40);
    LowBit(w, page, flags, 0x10, 0x20);
    LowBit(w, page, flags, 0x40, 8);
    LowBit(w, page, flags, 0x80, 4);
  }

  lemma NewSum(page: nat, flags: nat)
    requires page < PPN_LIMIT && flags < 0x100
    ensures var w := New(page, flags);
            w == 0x400 * page + flags && w < 0x40_0000_0000_0000 && w / 0x400 == page && w % 0x400 == flags
  {
  }

  lemma LowBit(w: nat, page: nat, flags: nat, d: nat, m: nat)
    requires w == 0x400 * page + flags && d > 0 && d * m == 0x200
    ensures w / d % 2 == flags / d % 2
  {
    var q := 2 * (m * page) + flags / d;
    Scaled(d, m, page, flags / d);
    DivModUnique(w, d, q, flags % d);
  }

  lemma Scaled(d: nat, m: nat, page: nat, h: nat)
    requires d * m == 0x200
    ensures (2 * (m * page) + h) * d == 0x400 * page + h * d
  {
    assert d * (m * page) == (d * m) * page;
  }

  // ----- permissions, as the processor reads them in bits 0 to 7

  datatype Perms = Perms(valid: bool, read: bool, write: bool, exec: bool, user: bool, global: bool, accessed: bool,
    dirty: bool)

  function PermsOf(w: nat): Perms {
    Perms(w % 2 == 1, w / 2 % 2 == 1, w / 4 % 2 == 1, w / 8 % 2 == 1, w / 0x10 % 2 == 1, w / 0x20 % 2 == 1,
          w / 0x40 % 2 == 1, w / 0x80 % 2 == 1)
  }

  /** The flags of an entry are its permissions, whatever the page number. */
  lemma NewPerms(ppn: nat, flags: nat)
    requires flags < 0x100
    ensures PermsOf(New(ppn, flags)) == PermsOf(flags)
  {
    var w, page := New(ppn, flags), ppn % 0x40_0000_0000_0000;
    LowBit(w, page, flags, 1, 0x200);
    LowBit(w, page, flags, 2, 0x100);
    LowBit(w, page, flags, 4, 0x80);
    LowBit(w, page, flags, 8, 0x40);
    LowBit(w, page, flags, 0x10, 0x20);
    LowBit(w, page, flags, 0x20, 0x10);
    LowBit(w, page, flags, 0x40, 8);
    LowBit(w, page, flags, 0x80, 4);
  }

  /** A frame mapped at boot is a readable, writable and executable user page; the
      kernel's own leaves are the same, but global and not for users; pointers carry no
      permission. */
  lemma MappedPerms(page: nat, paddr: Word)
    ensures PermsOf(New(page, ADUVRWX)) == Perms(true, true, true, true, true, false, true, true)
    ensures PermsOf(New(page, V)) == Perms(true, false, false, false, false, false, false, false)
    ensures PermsOf(NextTable(paddr, true)) == Perms(true, true, true, true, false, true, true, true)
    ensures PermsOf(NextTable(paddr, false)) == Perms(true, false, false, false, false, true, false, false)
  {
    NewPerms(page, ADUVRWX);
    NewPerms(page, V);
    NewPerms(paddr / 0x1000, ADGVRWX);
    NewPerms(paddr / 0x1000, VG);
  }

  /** A user entry that asks for something carries exactly those rights. */
  lemma UserPerms(paddr: Word, executable: bool, rights: Rights)
    requires executable || rights.read || rights.write
    ensures PermsOf(UserPte(paddr, executable, rights)) ==
            Perms(true, rights.read, rights.write, executable, true, false, true, true)
  {
    NewPerms(paddr / 0x1000, UserFlags(executable, rights));
    UserFlagBits(executable, rights);
    NotGlobal(executable, rights);
  }

  lemma NotGlobal(executable: bool, rights: Rights)
    ensures UserFlags(executable, rights) / 0x20 % 2 == 0
  {
  }
}
