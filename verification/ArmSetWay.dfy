/** AArch64 maintenance of the data caches by set and way: the words the loops issue,
    and how the processor reads them (DC CISW, Arm DDI 0487, section C5.3). The cache
    level and size registers are parameters. */
module ArmSetWay {
  import opened Words

  /** `loc`, bits 26 to 24 of the cache level register. */
  function Loc(clidr: nat): nat {
    clidr / 0x100_0000 % 8
  }

  /** `ctype`: 0 none, 1 instruction only, 2 data only, 3 both, 4 unified. */
  function Ctype(clidr: nat, level: nat): nat {
    clidr / Pow2(level * 3) % 8
  }

  /** `line_bits`, log2 of the bytes in a line. */
  function LineBits(size: nat): nat {
    size % 8 + 4
  }

  function Assoc(size: nat): nat {
    size / 8 % 0x400 + 1
  }

  function Sets(size: nat): nat {
    size / 0x2000 % 0x8000 + 1
  }

  /** These fields are the shifts and masks of the source. */
  lemma SourceFields(x: nat, level: nat)
    ensures Loc(x) == And(Shr(x, 24), Pow2(3) - 1)
    ensures Ctype(x, level) == And(Shr(x, level * 3), Pow2(3) - 1)
    ensures LineBits(x) == And(x, Pow2(3) - 1) + 4
    ensures Assoc(x) == And(Shr(x, 3), Pow2(10) - 1) + 1
    ensures Sets(x) == And(Shr(x, 13), Pow2(15) - 1) + 1
  {
    FieldPowers();
    Masked(x, 24, 3);
    Masked(x, level * 3, 3);
    Masked(x, 3, 10);
    Masked(x, 13, 15);
    AndOnes(x, 3);
    LowIsMod(x, 3);
  }

  lemma FieldPowers()
    ensures Pow2(0) == 1 && Pow2(3) == 8 && Pow2(10) == 0x400 && Pow2(13) == 0x2000
    ensures Pow2(15) == 0x8000 && Pow2(24) == 0x100_0000
  {
    assert Pow2(6) == 0x40 && Pow2(12) == 0x1000 && Pow2(18) == 0x4_0000;
  }

  lemma Masked(x: nat, k: nat, n: nat)
    ensures And(Shr(x, k), Pow2(n) - 1) == x / Pow2(k) % Pow2(n)
  {
    ShrIsDiv(x, k);
    AndOnes(Shr(x, k), n);
    LowIsMod(Shr(x, k), n);
  }

  /** Zero bits above the highest one-bit of the low `width` bits. */
  function LeadingZeros(w: nat, width: nat): (z: nat)
    ensures z <= width
    decreases width, w
  {
    if width == 0 || w >= Pow2(width - 1) then 0 else 1 + LeadingZeros(w, width - 1)
  }

  /** `64 - (m - 1).leading_zeros()` */
  function BitsFor(m: nat): nat
    requires m > 0
  {
    64 - LeadingZeros(m - 1, 64)
  }

  function AssocBits(size: nat): (a: nat)
    ensures a <= 10
  {
    FieldPowers();
    FieldBits(Assoc(size), 10);
    BitsFor(Assoc(size))
  }

  /** `a` is log2 of `m`, rounded up. */
  predicate IsLog2(m: nat, a: nat) {
    m <= Pow2(a) && (a > 0 ==> Pow2(a - 1) < m)
  }

  lemma {:induction false} LeadingZerosLog2(w: nat, width: nat)
    requires w < Pow2(width)
    ensures IsLog2(w + 1, width - LeadingZeros(w, width))
    decreases width, w
  {
    if width > 0 && w < Pow2(width - 1) {
      LeadingZerosLog2(w, width - 1);
    }
  }

  lemma {:induction false} Pow2Add(a: nat, b: nat)
    ensures Pow2(a + b) == Pow2(a) * Pow2(b)
  {
    if a > 0 {
      Pow2Add(a - 1, b);
      MulAssociates(2, Pow2(a - 1), Pow2(b));
    }
  }

  lemma Pow2Monotone(a: nat, b: nat)
    requires a <= b
    ensures Pow2(a) <= Pow2(b)
  {
    Pow2Add(b - a, a);
    MulAtLeast(Pow2(b - a), Pow2(a));
  }

  lemma Log2Bound(m: nat, a: nat, n: nat)
    requires IsLog2(m, a) && m <= Pow2(n)
    ensures a <= n
  {
    if a > n {
      Pow2Monotone(n, a - 1);
    }
  }

  lemma FieldBits(m: nat, n: nat)
    requires 1 <= m <= Pow2(n) && n <= 64
    ensures IsLog2(m, BitsFor(m)) && BitsFor(m) <= n
  {
    Pow2Monotone(n, 64);
    LeadingZerosLog2(m - 1, 64);
    Log2Bound(m, BitsFor(m), n);
  }

  /** The number of way bits is log2 of the associativity, and 0 for a direct-mapped
      cache. */
  lemma AssocBitsAre(size: nat)
    ensures IsLog2(Assoc(size), AssocBits(size))
    ensures AssocBits(size) == 0 <==> Assoc(size) == 1
  {
    FieldPowers();
    FieldBits(Assoc(size), 10);
    if AssocBits(size) > 0 {
      Pow2Monotone(0, AssocBits(size) - 1);
    }
  }

  function SetBits(size: nat): nat {
    BitsFor(Sets(size))
  }

  lemma SetBitsAre(size: nat)
    ensures IsLog2(Sets(size), SetBits(size)) && SetBits(size) <= 15
  {
    FieldPowers();
    FieldBits(Sets(size), 15);
  }

  // ----- one word

  datatype Target = Target(level: nat, way: nat, index: nat)

  /** `(w << (32 - assoc_bits)) | (s << lbits) | (l << 1)` */
  function Packed(t: Target, wayShift: nat, lineBits: nat): nat {
    Or(Or(Shl(t.way, wayShift), Shl(t.index, lineBits)), Shl(t.level, 1))
  }

  function Encode(size: nat, t: Target): nat {
    Packed(t, 32 - AssocBits(size), LineBits(size))
  }

  function LevelOf(word: nat): nat {
    word / 2 % 8
  }

  /** How the processor reads a word for a cache with `a` way bits, `n` set bits and
      `k` line bits: way in the a bits below bit 32, set in the n bits from bit k. */
  function Unpacked(word: nat, a: nat, n: nat, k: nat): Target
    requires a <= 32
  {
    Target(LevelOf(word), word / Pow2(32 - a) % Pow2(a), word / Pow2(k) % Pow2(n))
  }

  function Decode(size: nat, word: nat): Target {
    Unpacked(word, AssocBits(size), SetBits(size), LineBits(size))
  }

  predicate Fits(size: nat) {
    LineBits(size) + SetBits(size) + AssocBits(size) <= 32
  }

  predicate InCache(size: nat, t: Target) {
    t.level < 8 && t.way < Assoc(size) && t.index < Sets(size)
  }

  lemma TopFields(t: Target, h: nat, k: nat, n: nat)
    requires k + n <= h && t.index < Pow2(n)
    ensures Or(Shl(t.way, h), Shl(t.index, k)) == Shl(t.way * Pow2(h - k) + t.index, k)
    ensures t.index * Pow2(k) < Pow2(h)
  {
    IndexBelow(t.index, h, k, n);
    ShlIsMul(t.way, h);
    ShlIsMul(t.index, k);
    OrDisjoint(t.way, Shl(t.index, k), h);
    SumForms(t, h, k);
    ShlIsMul(t.way * Pow2(h - k) + t.index, k);
  }

  lemma IndexBelow(index: nat, h: nat, k: nat, n: nat)
    requires k + n <= h && index < Pow2(n)
    ensures index * Pow2(k) < Pow2(h)
  {
    BelowField(index, k, n, 0);
    Pow2Monotone(k + n, h);
  }

  /** With room for all, the three fields lie side by side. */
  lemma PackedIsSum(t: Target, h: nat, k: nat, n: nat)
    requires t.level < 8 && 4 <= k && k + n <= h && t.index < Pow2(n)
    ensures Packed(t, h, k) == (t.way * Pow2(h - k) + t.index) * Pow2(k) + 2 * t.level
  {
    TopFields(t, h, k, n);
    LevelFits(t, k);
    var m := t.way * Pow2(h - k) + t.index;
    OrDisjoint(m, 2 * t.level, k);
    ShlIsMul(m, k);
    ShlIsMul(t.level, 1);
  }

  lemma SumForms(t: Target, h: nat, k: nat)
    requires k <= h
    ensures (t.way * Pow2(h - k) + t.index) * Pow2(k) == t.way * Pow2(h) + t.index * Pow2(k)
  {
    Pow2Add(h - k, k);
    MulAssociates(t.way, Pow2(h - k), Pow2(k));
    MulAdds(t.way * Pow2(h - k), t.index, Pow2(k));
  }

  lemma LevelFits(t: Target, k: nat)
    requires t.level < 8 && 4 <= k
    ensures 2 * t.level < Pow2(k)
  {
    Pow2Monotone(4, k);
    assert Pow2(4) == 16;
  }

  lemma BelowField(s: nat, k: nat, n: nat, low: nat)
    requires s < Pow2(n) && low < Pow2(k)
    ensures s * Pow2(k) + low < Pow2(k + n)
  {
    Pow2Add(n, k);
    MulDistributes(Pow2(n), s, Pow2(k));
    MulAtLeast(Pow2(n) - s, Pow2(k));
  }

  lemma MulAssociates(a: nat, b: nat, c: nat)
    ensures a * b * c == a * (b * c)
  {
  }

  lemma MulAdds(a: nat, b: nat, c: nat)
    ensures (a + b) * c == a * c + b * c
  {
  }

  lemma PackedHigh(t: Target, h: nat, k: nat, n: nat) returns (rest: nat)
    requires t.level < 8 && 4 <= k && k + n <= h && t.index < Pow2(n)
    ensures rest < Pow2(h) && Packed(t, h, k) == t.way * Pow2(h) + rest
  {
    PackedIsSum(t, h, k, n);
    SumForms(t, h, k);
    LevelFits(t, k);
    RestBelow(t.index, 2 * t.level, h, k, n);
    NatProduct(t.index, Pow2(k));
    rest := t.index * Pow2(k) + 2 * t.level;
  }

  lemma NatProduct(a: nat, b: nat)
    ensures a * b >= 0
  {
  }

  lemma RestBelow(index: nat, low: nat, h: nat, k: nat, n: nat)
    requires k + n <= h && index < Pow2(n) && low < Pow2(k)
    ensures index * Pow2(k) + low < Pow2(h)
  {
    BelowField(index, k, n, low);
    Pow2Monotone(k + n, h);
  }

  lemma UnpackHigh(t: Target, h: nat, k: nat, n: nat, a: nat, word: nat)
    requires t.level < 8 && 4 <= k && k + n <= h && t.index < Pow2(n) && t.way < Pow2(a)
    requires word == Packed(t, h, k)
    ensures word / Pow2(h) % Pow2(a) == t.way
  {
    var rest := PackedHigh(t, h, k, n);
    HighField(word, Pow2(h), Pow2(a), t.way, rest);
  }

  lemma HighField(word: nat, p: nat, q: nat, w: nat, rest: nat)
    requires rest < p && w < q && word == w * p + rest
    ensures word / p % q == w
  {
    DivModUnique(word, p, w, rest);
    DivModUnique(w, q, 0, w);
  }

  lemma UnpackLow(t: Target, h: nat, k: nat, n: nat)
    requires t.level < 8 && 4 <= k && k + n <= h && t.index < Pow2(n)
    ensures Packed(t, h, k) / Pow2(k) % Pow2(n) == t.index && LevelOf(Packed(t, h, k)) == t.level
  {
    PackedIsSum(t, h, k, n);
    SumUnpacks(Packed(t, h, k), t, h, k, n);
  }

  lemma SumUnpacks(word: nat, t: Target, h: nat, k: nat, n: nat)
    requires t.level < 8 && 4 <= k && k + n <= h && t.index < Pow2(n)
    requires word == (t.way * Pow2(h - k) + t.index) * Pow2(k) + 2 * t.level
    ensures word / Pow2(k) % Pow2(n) == t.index && LevelOf(word) == t.level
  {
    var m := t.way * Pow2(h - k) + t.index;
    LevelFits(t, k);
    DivModUnique(word, Pow2(k), m, 2 * t.level);
    LevelIs(word, m, k, t.level);
    Pow2Add(h - k - n, n);
    MulAssociates(t.way, Pow2(h - k - n), Pow2(n));
    DivModUnique(m, Pow2(n), t.way * Pow2(h - k - n), t.index);
  }

  /** Such a word reads back as what was packed. */
  lemma UnpackedIs(t: Target, h: nat, a: nat, n: nat, k: nat)
    requires h + a == 32 && 4 <= k && k + n <= h
    requires t.level < 8 && t.way < Pow2(a) && t.index < Pow2(n)
    ensures Unpacked(Packed(t, h, k), a, n, k) == t
  {
    UnpackHigh(t, h, k, n, a, Packed(t, h, k));
    UnpackLow(t, h, k, n);
  }

  lemma LevelIs(word: nat, m: nat, k: nat, level: nat)
    requires level < 8 && 4 <= k && word == m * Pow2(k) + 2 * level
    ensures LevelOf(word) == level
  {
    Pow2Add(k - 4, 4);
    assert Pow2(4) == 16;
    MulAssociates(m, Pow2(k - 4), 16);
    var c := m * Pow2(k - 4);
    assert word == 16 * c + 2 * level;
    assert word / 2 == 8 * c + level;
  }

  lemma {:induction false} OrSelf(a: nat)
    ensures Or(a, a) == a
  {
    if a > 0 {
      OrSelf(a / 2);
    }
  }

  /** The set number at the lowest way bit disappears in the way field. */
  lemma SameWord(level: nat, h: nat, k: nat)
    requires k <= h
    ensures Packed(Target(level, 1, Pow2(h - k)), h, k) == Packed(Target(level, 1, 0), h, k)
  {
    Pow2Add(h - k, k);
    ShlIsMul(Pow2(h - k), k);
    ShlIsMul(1, h);
    ShlIsMul(0, k);
    OrSelf(Pow2(h));
  }

  /** Without room for all bits there is a second way, and that set number exists. */
  lemma Overlap(size: nat)
    requires !Fits(size)
    ensures Assoc(size) > 1 && LineBits(size) <= 32 - AssocBits(size)
    ensures Pow2(32 - AssocBits(size) - LineBits(size)) < Sets(size)
  {
    AssocBitsAre(size);
    SetBitsAre(size);
    Pow2Monotone(32 - AssocBits(size) - LineBits(size), SetBits(size) - 1);
  }

  lemma Collision(size: nat, level: nat) returns (t: Target, u: Target)
    requires level < 8 && !Fits(size)
    ensures InCache(size, t) && InCache(size, u) && t != u
    ensures t.level == level == u.level && Encode(size, t) == Encode(size, u)
  {
    Overlap(size);
    var h, k := 32 - AssocBits(size), LineBits(size);
    SameWord(level, h, k);
    t, u := Target(level, 1, Pow2(h - k)), Target(level, 1, 0);
  }

  /** A word names its cache line for the processor, for every line of the cache, just
      when line, set and way bits fit in 32. */
  lemma DecodesIffFits(size: nat)
    ensures Fits(size) <==> forall t :: InCache(size, t) ==> Decode(size, Encode(size, t)) == t
  {
    if Fits(size) {
      forall t | InCache(size, t)
        ensures Decode(size, Encode(size, t)) == t
      {
        AssocBitsAre(size);
        SetBitsAre(size);
        UnpackedIs(t, 32 - AssocBits(size), AssocBits(size), SetBits(size), LineBits(size));
      }
    } else {
      var t, u := Collision(size, 0);
      assert Decode(size, Encode(size, t)) == Decode(size, Encode(size, u));
    }
  }

  /** And two lines then never share a word, else some do. */
  lemma DistinctIffFits(size: nat)
    ensures Fits(size) <==>
            forall t, u :: InCache(size, t) && InCache(size, u) && Encode(size, t) == Encode(size, u) ==> t == u
  {
    DecodesIffFits(size);
    if !Fits(size) {
      var t, u := Collision(size, 0);
    } else {
      forall t, u | InCache(size, t) && InCache(size, u) && Encode(size, t) == Encode(size, u)
        ensures t == u
      {
        assert Decode(size, Encode(size, t)) == t && Decode(size, Encode(size, u)) == u;
      }
    }
  }

  // ----- the sweep

  /** f(0), f(1), ..., f(n-1) one after the other. */
  function Concat(f: nat -> seq<Target>, n: nat): seq<Target> {
    if n == 0 then [] else Concat(f, n - 1) + f(n - 1)
  }

  function Way(level: nat, way: nat): nat -> seq<Target> {
    (s: nat) => [Target(level, way, s)]
  }

  function Ways(level: nat, sets: nat): nat -> seq<Target> {
    (w: nat) => Concat(Way(level, w), sets)
  }

  /** What the sweep knows of each level: whether to do it, its ways and sets, and the
      word for one line of it. */
  datatype Caches = Caches(data: nat -> bool, ways: nat -> nat, sets: nat -> nat, word: Target -> nat)

  function CachesOf(clidr: nat, sizes: nat -> nat): Caches {
    Caches((l: nat) => Ctype(clidr, l) > 1, (l: nat) => Assoc(sizes(l)), (l: nat) => Sets(sizes(l)),
           (t: Target) => Encode(sizes(t.level), t))
  }

  function Level(c: Caches): nat -> seq<Target> {
    (l: nat) => if c.data(l) then Concat(Ways(l, c.sets(l)), c.ways(l)) else []
  }

  /** The lines of the levels below n, in the order the loops visit them. */
  function Sweep(c: Caches, n: nat): seq<Target> {
    Concat(Level(c), n)
  }

  function Encoded(c: Caches, ts: seq<Target>): seq<nat> {
    seq<nat>(|ts|, i requires 0 <= i < |ts| => c.word(ts[i]))
  }

  lemma EncodedAppend(c: Caches, a: seq<Target>, b: seq<Target>)
    ensures Encoded(c, a + b) == Encoded(c, a) + Encoded(c, b)
  {
  }

  lemma EncodedNext(c: Caches, f: nat -> seq<Target>, n: nat)
    ensures Encoded(c, Concat(f, n + 1)) == Encoded(c, Concat(f, n)) + Encoded(c, f(n))
  {
    EncodedAppend(c, Concat(f, n), f(n));
  }

  /** The log after one more part. */
  lemma LogNext(c: Caches, f: nat -> seq<Target>, n: nat, before: seq<nat>, words: seq<nat>)
    requires words == before + Encoded(c, Concat(f, n))
    ensures words + Encoded(c, f(n)) == before + Encoded(c, Concat(f, n + 1))
  {
    EncodedNext(c, f, n);
    SeqAssociates(before, Encoded(c, Concat(f, n)), Encoded(c, f(n)));
  }

  lemma WordIs(clidr: nat, sizes: nat -> nat, l: nat, w: nat, s: nat, assocBits: nat, lineBits: nat, word: nat)
    requires assocBits == AssocBits(sizes(l)) <= 32 && lineBits == LineBits(sizes(l))
    requires word == Packed(Target(l, w, s), 32 - assocBits, lineBits)
    ensures Encoded(CachesOf(clidr, sizes), Way(l, w)(s)) == [word]
  {
    var c := CachesOf(clidr, sizes);
    assert c.word(Target(l, w, s)) == word;
  }

  lemma SeqAssociates(a: seq<nat>, b: seq<nat>, c: seq<nat>)
    ensures (a + b) + c == a + (b + c)
  {
  }

  /** The words `clean_invalidate_d_poc` issues. */
  function Issued(clidr: nat, sizes: nat -> nat): seq<nat> {
    var c := CachesOf(clidr, sizes);
    Encoded(c, Sweep(c, Loc(clidr)))
  }

  class Cpu {
    const clidr: nat
    /** The size register of each level. */
    const sizes: nat -> nat
    /** The words issued, oldest first. */
    ghost var words: seq<nat>

    constructor (clidr: nat, sizes: nat -> nat)
      ensures this.clidr == clidr && this.sizes == sizes && words == []
    {
      this.clidr := clidr;
      this.sizes := sizes;
      words := [];
    }

    method CleanInvalidateByWsl(word: nat)
      modifies `words
      ensures words == old(words) + [word]
    {
      words := words + [word];
    }

    /** The inner loop of `clean_invalidate_d_by_level`. */
    method CleanInvalidateWay(l: nat, w: nat, assocBits: nat, lineBits: nat, sets: nat)
      requires assocBits == AssocBits(sizes(l)) && lineBits == LineBits(sizes(l))
      modifies `words
      ensures words == old(words) + Encoded(CachesOf(clidr, sizes), Concat(Way(l, w), sets))
    {
      ghost var c := CachesOf(clidr, sizes);
      for s := 0 to sets
        invariant words == old(words) + Encoded(c, Concat(Way(l, w), s))
      {
        var word := Packed(Target(l, w, s), 32 - assocBits, lineBits);
        WordIs(clidr, sizes, l, w, s, assocBits, lineBits, word);
        LogNext(c, Way(l, w), s, old(words), words);
        CleanInvalidateByWsl(word);
      }
    }

    method CleanInvalidateDByLevel(l: nat)
      modifies `words
      ensures words == old(words) + Encoded(CachesOf(clidr, sizes), Concat(Ways(l, Sets(sizes(l))), Assoc(sizes(l))))
    {
      ghost var c := CachesOf(clidr, sizes);
      var size := sizes(l);
      var lineBits, assoc, assocBits, sets := LineBits(size), Assoc(size), AssocBits(size), Sets(size);
      for w := 0 to assoc
        invariant words == old(words) + Encoded(c, Concat(Ways(l, sets), w))
      {
        LogNext(c, Ways(l, sets), w, old(words), words);
        CleanInvalidateWay(l, w, assocBits, lineBits, sets);
      }
    }

    method CleanInvalidateDPoc()
      modifies `words
      ensures words == old(words) + Issued(clidr, sizes)
    {
      ghost var c := CachesOf(clidr, sizes);
      var loc := Loc(clidr);
      for l := 0 to loc
        invariant words == old(words) + Encoded(c, Sweep(c, l))
      {
        LogNext(c, Level(c), l, old(words), words);
        if Ctype(clidr, l) > 1 {
          CleanInvalidateDByLevel(l);
        }
      }
    }
  }

  // ----- every line, once

  /** How often `t` occurs in `ts`. */
  function Times(ts: seq<Target>, t: Target): nat
    decreases |ts|
  {
    if ts == [] then 0 else Times(ts[..|ts| - 1], t) + if ts[|ts| - 1] == t then 1 else 0
  }

  lemma {:induction false} TimesAppend(a: seq<Target>, b: seq<Target>, t: Target)
    ensures Times(a + b, t) == Times(a, t) + Times(b, t)
    decreases |b|
  {
    if b == [] {
      assert a + b == a;
    } else {
      TimesAppend(a, b[..|b| - 1], t);
      assert (a + b)[..|a + b| - 1] == a + b[..|b| - 1];
    }
  }

  /** A target of one part only is in the whole as often as there. */
  lemma {:induction false} ConcatTimes(f: nat -> seq<Target>, n: nat, t: Target, k: nat)
    requires forall i: nat :: i < n && i != k ==> Times(f(i), t) == 0
    ensures Times(Concat(f, n), t) == if k < n then Times(f(k), t) else 0
  {
    if n > 0 {
      ConcatTimes(f, n - 1, t, k);
      TimesAppend(Concat(f, n - 1), f(n - 1), t);
    }
  }

  lemma WayOnce(level: nat, way: nat, sets: nat, t: Target)
    ensures Times(Concat(Way(level, way), sets), t) ==
            if t.level == level && t.way == way && t.index < sets then 1 else 0
  {
    forall s: nat
      ensures Times(Way(level, way)(s), t) == if t == Target(level, way, s) then 1 else 0
    {
    }
    ConcatTimes(Way(level, way), sets, t, t.index);
  }

  lemma WaysOnce(level: nat, sets: nat, ways: nat, t: Target)
    ensures Times(Concat(Ways(level, sets), ways), t) ==
            if t.level == level && t.way < ways && t.index < sets then 1 else 0
  {
    forall w: nat
      ensures Times(Ways(level, sets)(w), t) == if t.level == level && t.way == w && t.index < sets then 1 else 0
    {
      WayOnce(level, w, sets, t);
    }
    ConcatTimes(Ways(level, sets), ways, t, t.way);
  }

  /** A line the sweep is for: in a data or unified cache below level n. */
  predicate Swept(c: Caches, n: nat, t: Target) {
    t.level < n && c.data(t.level) && t.way < c.ways(t.level) && t.index < c.sets(t.level)
  }

  lemma LevelOnce(c: Caches, l: nat, t: Target)
    ensures Times(Level(c)(l), t) == if t.level == l && Swept(c, l + 1, t) then 1 else 0
  {
    if c.data(l) {
      WaysOnce(l, c.sets(l), c.ways(l), t);
    }
  }

  lemma SweepOnce(c: Caches, n: nat, t: Target)
    ensures Times(Sweep(c, n), t) == if Swept(c, n, t) then 1 else 0
  {
    forall l: nat
      ensures Times(Level(c)(l), t) == if t.level == l && Swept(c, l + 1, t) then 1 else 0
    {
      LevelOnce(c, l, t);
    }
    ConcatTimes(Level(c), n, t, t.level);
  }

  /** Every line once, if each word is distinct on the lines of the sweep. */
  lemma OnceAndDistinct(c: Caches, n: nat, decode: nat -> Target)
    requires forall t :: Swept(c, n, t) ==> decode(c.word(t)) == t
    ensures Decoded(decode, Encoded(c, Sweep(c, n))) == Sweep(c, n)
    ensures forall i, j :: 0 <= i < j < |Sweep(c, n)| ==> Encoded(c, Sweep(c, n))[i] != Encoded(c, Sweep(c, n))[j]
  {
    var ts := Sweep(c, n);
    var words := Encoded(c, ts);
    forall i | 0 <= i < |ts|
      ensures decode(words[i]) == ts[i]
    {
      SweepOnce(c, n, ts[i]);
      Occurs(ts, i);
    }
    forall i, j | 0 <= i < j < |ts|
      ensures words[i] != words[j]
    {
      Different(ts, i, j);
      SweepOnce(c, n, ts[i]);
    }
  }

  function Decoded(decode: nat -> Target, words: seq<nat>): seq<Target> {
    seq<Target>(|words|, i requires 0 <= i < |words| => decode(words[i]))
  }

  /** What the processor makes of a word: the level field picks the cache whose
      geometry the rest is read with. */
  function Reader(sizes: nat -> nat): nat -> Target {
    (word: nat) => Decode(sizes(LevelOf(word)), word)
  }

  lemma ReadsBack(sizes: nat -> nat, t: Target)
    requires InCache(sizes(t.level), t) && Fits(sizes(t.level))
    ensures Reader(sizes)(Encode(sizes(t.level), t)) == t
  {
    DecodesIffFits(sizes(t.level));
    assert Decode(sizes(t.level), Encode(sizes(t.level), t)) == t;
  }

  /** Every data or unified cache below the level of coherency has room for its bits. */
  ghost predicate AllFit(clidr: nat, sizes: nat -> nat) {
    forall l: nat :: l < Loc(clidr) && Ctype(clidr, l) > 1 ==> Fits(sizes(l))
  }

  /** The lines of the sweep: those of each data or unified cache (bits 2 to 0 of its type
      above 1) at a level below the level of coherency, for all ways and sets. */
  lemma SweptIs(clidr: nat, sizes: nat -> nat, t: Target)
    ensures Swept(CachesOf(clidr, sizes), Loc(clidr), t) <==>
            t.level < And(Shr(clidr, 24), Pow2(3) - 1) && And(Shr(clidr, t.level * 3), Pow2(3) - 1) > 1 &&
            t.way <= And(Shr(sizes(t.level), 3), Pow2(10) - 1) && t.index <= And(Shr(sizes(t.level), 13), Pow2(15) - 1)
  {
    SourceFields(clidr, t.level);
    SourceFields(sizes(t.level), 0);
  }

  lemma FitOnce(clidr: nat, sizes: nat -> nat, t: Target)
    requires AllFit(clidr, sizes)
    ensures Times(Decoded(Reader(sizes), Issued(clidr, sizes)), t) ==
            if Swept(CachesOf(clidr, sizes), Loc(clidr), t) then 1 else 0
    ensures var words := Issued(clidr, sizes); forall i, j :: 0 <= i < j < |words| ==> words[i] != words[j]
  {
    var c, n := CachesOf(clidr, sizes), Loc(clidr);
    forall u | Swept(c, n, u)
      ensures Reader(sizes)(c.word(u)) == u
    {
      assert Ctype(clidr, u.level) > 1;
      ReadsBack(sizes, u);
    }
    OnceAndDistinct(c, n, Reader(sizes));
    SweepOnce(c, n, t);
  }

  lemma {:induction false} PlaceIn(ts: seq<Target>, t: Target) returns (i: nat)
    requires Times(ts, t) >= 1
    ensures i < |ts| && ts[i] == t
    decreases |ts|
  {
    if ts[|ts| - 1] == t {
      i := |ts| - 1;
    } else {
      i := PlaceIn(ts[..|ts| - 1], t);
    }
  }

  lemma SweptPlace(c: Caches, n: nat, t: Target) returns (i: nat)
    requires Swept(c, n, t)
    ensures i < |Sweep(c, n)| && Sweep(c, n)[i] == t
  {
    SweepOnce(c, n, t);
    i := PlaceIn(Sweep(c, n), t);
  }

  lemma SharedWord(c: Caches, n: nat, t: Target, u: Target) returns (i: nat, j: nat)
    requires Swept(c, n, t) && Swept(c, n, u) && t != u && c.word(t) == c.word(u)
    ensures i < j < |Encoded(c, Sweep(c, n))| && Encoded(c, Sweep(c, n))[i] == Encoded(c, Sweep(c, n))[j]
  {
    i := SweptPlace(c, n, t);
    j := SweptPlace(c, n, u);
    if j < i {
      i, j := j, i;
    }
  }

  lemma SharedInSweep(clidr: nat, sizes: nat -> nat, l: nat) returns (t: Target, u: Target)
    requires l < Loc(clidr) && Ctype(clidr, l) > 1 && !Fits(sizes(l))
    ensures var c, n := CachesOf(clidr, sizes), Loc(clidr);
            Swept(c, n, t) && Swept(c, n, u) && t != u && c.word(t) == c.word(u)
  {
    t, u := Collision(sizes(l), l);
  }

  /** A cache without room has two of its lines share a word, which is issued for both. */
  lemma IssuedTwice(clidr: nat, sizes: nat -> nat, l: nat) returns (i: nat, j: nat)
    requires l < Loc(clidr) && Ctype(clidr, l) > 1 && !Fits(sizes(l))
    ensures i < j < |Issued(clidr, sizes)| && Issued(clidr, sizes)[i] == Issued(clidr, sizes)[j]
  {
    var t, u := SharedInSweep(clidr, sizes, l);
    i, j := SharedWord(CachesOf(clidr, sizes), Loc(clidr), t, u);
  }

  lemma TwiceDecoded(decode: nat -> Target, words: seq<nat>, i: nat, j: nat)
    requires i < j < |words| && words[i] == words[j]
    ensures Times(Decoded(decode, words), decode(words[i])) >= 2
  {
    Different(Decoded(decode, words), i, j);
  }

  /** Decoded, the words name each line of the sweep once and nothing else. */
  ghost predicate OnceEach(c: Caches, n: nat, named: seq<Target>) {
    forall t :: Times(named, t) == if Swept(c, n, t) then 1 else 0
  }

  predicate Distinct(words: seq<nat>) {
    forall i, j :: 0 <= i < j < |words| ==> words[i] != words[j]
  }

  lemma FitNamesAll(clidr: nat, sizes: nat -> nat)
    requires AllFit(clidr, sizes)
    ensures OnceEach(CachesOf(clidr, sizes), Loc(clidr), Decoded(Reader(sizes), Issued(clidr, sizes)))
    ensures Distinct(Issued(clidr, sizes))
  {
    var c, n, named := CachesOf(clidr, sizes), Loc(clidr), Decoded(Reader(sizes), Issued(clidr, sizes));
    forall t
      ensures Times(named, t) == if Swept(c, n, t) then 1 else 0
    {
      FitOnce(clidr, sizes, t);
    }
    FitOnce(clidr, sizes, Target(0, 0, 0));
  }

  lemma RepeatsNotOnce(c: Caches, n: nat, decode: nat -> Target, words: seq<nat>, i: nat, j: nat)
    requires i < j < |words| && words[i] == words[j]
    ensures !OnceEach(c, n, Decoded(decode, words)) && !Distinct(words)
  {
    TwiceDecoded(decode, words, i, j);
  }

  /** The sweep cleans and invalidates every line of every data or unified cache below
      the level of coherency exactly once, and nothing else, exactly when each of these
      caches fits its words; and no word is issued twice exactly then. */
  lemma EveryLineOnce(clidr: nat, sizes: nat -> nat)
    ensures AllFit(clidr, sizes) <==>
            OnceEach(CachesOf(clidr, sizes), Loc(clidr), Decoded(Reader(sizes), Issued(clidr, sizes)))
    ensures AllFit(clidr, sizes) <==> Distinct(Issued(clidr, sizes))
  {
    if AllFit(clidr, sizes) {
      FitNamesAll(clidr, sizes);
    } else {
      var l: nat :| l < Loc(clidr) && Ctype(clidr, l) > 1 && !Fits(sizes(l));
      var i, j := IssuedTwice(clidr, sizes, l);
      RepeatsNotOnce(CachesOf(clidr, sizes), Loc(clidr), Reader(sizes), Issued(clidr, sizes), i, j);
    }
  }

  lemma Different(ts: seq<Target>, i: nat, j: nat)
    requires i < j < |ts|
    ensures ts[i] == ts[j] ==> Times(ts, ts[i]) >= 2
  {
    assert ts == ts[..j] + ts[j..];
    TimesAppend(ts[..j], ts[j..], ts[i]);
    assert ts[..j][i] == ts[i] && ts[j..][0] == ts[j];
    Occurs(ts[..j], i);
    Occurs(ts[j..], 0);
  }

  lemma {:induction false} Occurs(ts: seq<Target>, i: nat)
    requires i < |ts|
    ensures Times(ts, ts[i]) >= 1
    decreases |ts|
  {
    if i < |ts| - 1 {
      assert ts[..|ts| - 1][i] == ts[i];
      Occurs(ts[..|ts| - 1], i);
    }
  }
}
