/** Page-table indices of a virtual address, as the source computes them and as
    the translation schemes define them. */
module VirtualAddresses {
  import opened Words
  import opened PageTables

  const PAGE_BITS: nat := 12
  const INDEX_BITS: nat := 9

  /** Bytes translated by one entry at level 0, 1, 2 and 3. */
  function Span(l: nat): (n: nat)
    ensures n >= 4096
  {
    if l == 0 then 0x1000 else if l == 1 then 0x20_0000 else if l == 2 then 0x4000_0000 else 0x80_0000_0000
  }

  function BitsLeft(l: nat): nat {
    INDEX_BITS * l + PAGE_BITS
  }

  /** The index `va` selects in a level-`l` table; SourceIndex proves it to be
      `(va >> BitsLeft(l)) & mask_bits!(9)`. */
  function PtIndex(va: nat, l: nat): Entry {
    if l == 0 then va / 0x1000 % 512
    else if l == 1 then va / 0x20_0000 % 512
    else if l == 2 then va / 0x4000_0000 % 512
    else va / 0x80_0000_0000 % 512
  }

  lemma SpanIsPow2(l: nat)
    requires l <= 3
    ensures Span(l) == Pow2(BitsLeft(l))
  {
    Powers();
  }

  lemma SourceIndex(va: nat, l: nat)
    requires l <= 3
    ensures PtIndex(va, l) == And(Shr(va, BitsLeft(l)), 0x1ff)
  {
    SpanIsPow2(l);
    ShrIsDiv(va, BitsLeft(l));
    AndOnes(Shr(va, BitsLeft(l)), 9);
    LowIsMod(Shr(va, BitsLeft(l)), 9);
    Powers();
  }

  lemma PtIndexIs(va: nat, l: nat)
    requires l <= 3
    ensures PtIndex(va, l) == va / Span(l) % 512
  {
  }

  /** Agreement is index equality at every level from `l` up. */
  lemma {:induction false} AgreeByIndex(f: Format, va: nat, vb: nat, l: nat)
    requires l <= f.top
    requires forall k :: l <= k <= f.top ==> f.index(va, k) == f.index(vb, k)
    ensures Agree(f, va, vb, l)
    decreases f.top - l
  {
    if l < f.top {
      AgreeByIndex(f, va, vb, l + 1);
    }
  }

  ghost predicate IndexedByPt(f: Format) {
    f.top <= 3 && forall va, l :: f.index(va, l) == PtIndex(va, l)
  }

  /** Addresses in the same aligned range of Span(l) bytes select the same indices from
      level `l` up, whatever their high bits. */
  lemma SameRangeAgrees(f: Format, va: nat, vb: nat, l: nat)
    requires l <= f.top && IndexedByPt(f) && va / Span(l) == vb / Span(l)
    ensures Agree(f, va, vb, l)
  {
    forall k | l <= k <= f.top
      ensures f.index(va, k) == f.index(vb, k)
    {
      Coarser(va, vb, l, k);
      PtIndexIs(va, k);
      PtIndexIs(vb, k);
    }
    AgreeByIndex(f, va, vb, l);
  }

  /** For formats indexed by PtIndex and addresses within reach of the root,
      agreeing down to level `l` is lying in the same aligned range of Span(l)
      bytes. */
  lemma AgreeIsSameRange(f: Format, va: nat, vb: nat, l: nat)
    requires l <= f.top && IndexedByPt(f)
    requires va < 512 * Span(f.top) && vb < 512 * Span(f.top)
    ensures Agree(f, va, vb, l) <==> va / Span(l) == vb / Span(l)
  {
    if va / Span(l) == vb / Span(l) {
      SameRangeAgrees(f, va, vb, l);
    }
    if Agree(f, va, vb, l) {
      forall k | l <= k <= f.top
        ensures va / Span(k) % 512 == vb / Span(k) % 512
      {
        PtIndexIs(va, k);
        PtIndexIs(vb, k);
        AgreeUp(f, va, vb, l, k);
        assert f.index(va, k) == PtIndex(va, k) && f.index(vb, k) == PtIndex(vb, k);
      }
      FromIndices(f.top, va, vb, l);
    }
  }

  lemma Coarser(va: nat, vb: nat, l: nat, k: nat)
    requires l <= k <= 3 && va / Span(l) == vb / Span(l)
    ensures va / Span(k) == vb / Span(k)
  {
    if l < k {
      Finer(va, k - 1);
      Finer(vb, k - 1);
      Coarser(va, vb, l, k - 1);
    }
  }

  lemma Finer(va: nat, l: nat)
    requires l < 3
    ensures va / Span(l) == va / Span(l + 1) * 512 + va / Span(l) % 512
  {
  }

  lemma Recompose(va: nat, vb: nat, l: nat)
    requires l < 3 && va / Span(l + 1) == vb / Span(l + 1) && va / Span(l) % 512 == vb / Span(l) % 512
    ensures va / Span(l) == vb / Span(l)
  {
    Finer(va, l);
    Finer(vb, l);
  }

  lemma {:induction false} FromIndices(top: nat, va: nat, vb: nat, l: nat)
    requires l <= top <= 3 && va < 512 * Span(top) && vb < 512 * Span(top)
    requires forall k :: l <= k <= top ==> va / Span(k) % 512 == vb / Span(k) % 512
    ensures va / Span(l) == vb / Span(l)
    decreases top - l
  {
    if l < top {
      FromIndices(top, va, vb, l + 1);
      Recompose(va, vb, l);
    } else {
      TopIndex(va, top);
      TopIndex(vb, top);
    }
  }

  lemma TopIndex(va: nat, top: nat)
    requires va < 512 * Span(top)
    ensures va / Span(top) < 512
  {
    var q := va / Span(top);
    assert va == q * Span(top) + va % Span(top) by { assert va == Span(top) * q + va % Span(top); }
    MulDistributes(q, 512, Span(top));
    if q > 512 {
      MulAtLeast(q - 512, Span(top));
    }
  }
}
