/** 64-bit machine words as naturals, with the bit operators of the source
    defined bit by bit and tied once and for all to division and remainder. */
module Words {

  const WORD_LIMIT: nat := 0x1_0000_0000_0000_0000

  type Word = w: nat | w < 0x1_0000_0000_0000_0000

  function Pow2(n: nat): (p: nat)
    ensures p > 0
  {
    if n == 0 then 1 else 2 * Pow2(n - 1)
  }

  /** `a & b` */
  function And(a: nat, b: nat): (r: nat)
    ensures r <= a && r <= b
  {
    if a == 0 || b == 0 then 0
    else (if a % 2 == 1 && b % 2 == 1 then 1 else 0) + 2 * And(a / 2, b / 2)
  }

  /** `a | b` */
  function Or(a: nat, b: nat): (r: nat)
    ensures a <= r && b <= r <= a + b
  {
    if a == 0 then b
    else if b == 0 then a
    else (if a % 2 == 1 || b % 2 == 1 then 1 else 0) + 2 * Or(a / 2, b / 2)
  }

  /** `a >> n` */
  function Shr(a: nat, n: nat): (r: nat)
    ensures r <= a
  {
    if n == 0 then a else Shr(a / 2, n - 1)
  }

  /** `a << n` with no bit lost. */
  function Shl(a: nat, n: nat): nat {
    if n == 0 then a else 2 * Shl(a, n - 1)
  }

  /** The n low bits of `a`. */
  function Low(a: nat, n: nat): (r: nat)
    ensures r <= a
  {
    if n == 0 then 0 else a % 2 + 2 * Low(a / 2, n - 1)
  }

  /** `!a` on a 64-bit word. */
  function Not(a: Word): Word {
    WORD_LIMIT - 1 - a
  }

  lemma Powers()
    ensures Pow2(0) == 1 && Pow2(1) == 2 && Pow2(2) == 4 && Pow2(3) == 8 && Pow2(9) == 0x200
    ensures Pow2(10) == 0x400 && Pow2(12) == 0x1000 && Pow2(21) == 0x20_0000 && Pow2(30) == 0x4000_0000
    ensures Pow2(36) == 0x10_0000_0000 && Pow2(39) == 0x80_0000_0000 && Pow2(44) == 0x1000_0000_0000
    ensures Pow2(48) == 0x1_0000_0000_0000 && Pow2(58) == 0x400_0000_0000_0000
    ensures Pow2(64) == WORD_LIMIT
  {
    assert Pow2(6) == 0x40;
    assert Pow2(12) == 0x1000;
    assert Pow2(18) == 0x4_0000;
    assert Pow2(24) == 0x100_0000;
    assert Pow2(30) == 0x4000_0000;
    assert Pow2(36) == 0x10_0000_0000;
    assert Pow2(42) == 0x400_0000_0000;
    assert Pow2(48) == 0x1_0000_0000_0000;
    assert Pow2(54) == 0x40_0000_0000_0000;
    assert Pow2(60) == 0x1000_0000_0000_0000;
  }

  // ----- bit operators against each other

  lemma AndUnfold(a: nat, b: nat)
    ensures And(a, b) == (if a % 2 == 1 && b % 2 == 1 then 1 else 0) + 2 * And(a / 2, b / 2)
  {
  }

  lemma OrEven(x: nat, b: nat)
    ensures Or(2 * x, b) == b % 2 + 2 * Or(x, b / 2)
    ensures Or(b, 2 * x) == b % 2 + 2 * Or(b / 2, x)
  {
    assert (2 * x) / 2 == x && (2 * x) % 2 == 0;
  }

  /** Masking with n one-bits keeps the n low bits. */
  lemma {:induction false} AndOnes(a: nat, n: nat)
    ensures And(a, Pow2(n) - 1) == Low(a, n)
  {
    if n > 0 {
      AndOnes(a / 2, n - 1);
      AndUnfold(a, Pow2(n) - 1);
      OnesHalve(n);
    }
  }

  lemma OnesHalve(n: nat)
    requires n > 0
    ensures (Pow2(n) - 1) / 2 == Pow2(n - 1) - 1 && (Pow2(n) - 1) % 2 == 1
  {
  }

  /** Masking with n one-bits shifted left by k keeps the field [k, k+n). */
  lemma {:induction false} AndField(a: nat, n: nat, k: nat)
    ensures And(a, Shl(Pow2(n) - 1, k)) == Shl(Low(Shr(a, k), n), k)
  {
    AndShifted(a, Pow2(n) - 1, k);
    AndOnes(Shr(a, k), n);
  }

  lemma {:induction false} AndShifted(a: nat, m: nat, k: nat)
    ensures And(a, Shl(m, k)) == Shl(And(Shr(a, k), m), k)
  {
    if k > 0 {
      AndShifted(a / 2, m, k - 1);
      AndUnfold(a, 2 * Shl(m, k - 1));
    }
  }

  /** Or of a field at bit n and a value below bit n is their sum. */
  lemma {:induction false} OrDisjoint(h: nat, b: nat, n: nat)
    requires b < Pow2(n)
    ensures Or(Shl(h, n), b) == Shl(h, n) + b == Or(b, Shl(h, n))
  {
    if n > 0 {
      OrDisjoint(h, b / 2, n - 1);
      OrEven(Shl(h, n - 1), b);
    }
  }

  lemma OrUnfold(a: nat, b: nat)
    ensures Or(a, b) == (if a % 2 == 1 || b % 2 == 1 then 1 else 0) + 2 * Or(a / 2, b / 2)
  {
  }

  lemma OrBit(a: nat, b: nat, x: nat, y: nat, s: nat, t: nat)
    requires a == 2 * x + s && b == 2 * y + t && s + t < 2
    ensures Or(a, b) == 2 * Or(x, y) + s + t
  {
    OrUnfold(a, b);
    assert a / 2 == x && b / 2 == y;
  }

  /** Or with two more low bits where the other operand has none. */
  lemma OrLowBits(a: nat, b: nat, x: nat, y: nat, r: nat)
    requires a == 4 * x && b == 4 * y + r && r < 4
    ensures Or(a, b) == 4 * Or(x, y) + r
  {
    var u, v := 2 * x, 2 * y + r / 2;
    OrBit(a, b, u, v, 0, r % 2);
    OrBit(u, v, x, y, 0, r / 2);
  }

  lemma AndBit(a: nat, m: nat) returns (s: nat)
    ensures s == (if a % 2 == 1 && m % 2 == 1 then 1 else 0) && And(a, m) == 2 * And(a / 2, m / 2) + s
  {
    AndUnfold(a, m);
    s := if a % 2 == 1 && m % 2 == 1 then 1 else 0;
  }

  lemma HalfMask(m: nat, c: nat, p: nat)
    requires m + c == 2 * p - 1
    ensures m / 2 + c / 2 == p - 1 && m % 2 + c % 2 == 1
  {
  }

  /** The part of `a` under a mask and the part of `b` under its complement add up. */
  lemma {:induction false} OrMasked(a: nat, b: nat, m: nat, c: nat, n: nat)
    requires m + c == Pow2(n) - 1
    ensures Or(And(a, m), And(b, c)) == And(a, m) + And(b, c)
  {
    if n > 0 {
      HalfMask(m, c, Pow2(n - 1));
      OrMasked(a / 2, b / 2, m / 2, c / 2, n - 1);
      var s := AndBit(a, m);
      var t := AndBit(b, c);
      OrBit(And(a, m), And(b, c), And(a / 2, m / 2), And(b / 2, c / 2), s, t);
    }
  }

  /** A value is its part under a mask plus the part under the complement. */
  lemma {:induction false} AndNot(a: nat, m: nat, c: nat, n: nat)
    requires a < Pow2(n) && m + c == Pow2(n) - 1
    ensures And(a, m) + And(a, c) == a
  {
    if n > 0 {
      HalfMask(m, c, Pow2(n - 1));
      AndNot(a / 2, m / 2, c / 2, n - 1);
      var s := AndBit(a, m);
      var t := AndBit(a, c);
    }
  }

  // ----- bit operators against arithmetic

  lemma MulDistributes(x: int, y: int, z: int)
    ensures (x - y) * z == x * z - y * z
  {
  }

  lemma MulAtLeast(d: int, m: int)
    requires d >= 1 && m >= 0
    ensures d * m >= m
  {
    MulDistributes(d, 1, m);
    assert (d - 1) * m >= 0;
  }

  lemma DoubleMul(k: nat, q: nat)
    ensures k * (2 * q) == 2 * (k * q)
  {
  }

  /** Quotient and remainder are determined by a == k * m + r with 0 <= r < m. */
  lemma DivModUnique(a: int, m: int, k: int, r: int)
    requires a == k * m + r && 0 <= r < m
    ensures a / m == k && a % m == r
  {
    var k', r' := a / m, a % m;
    assert a == k' * m + r' by { assert a == m * k' + r'; }
    MulDistributes(k, k', m);
    MulDistributes(k', k, m);
    if k > k' { MulAtLeast(k - k', m); assert false; }
    if k < k' { MulAtLeast(k' - k, m); assert false; }
  }

  lemma Parity(w: nat)
    ensures w % 2 == w % 4 % 2
  {
    DivModUnique(w, 2, 2 * (w / 4) + w % 4 / 2, w % 4 % 2);
  }

  lemma Halve(a: nat, q: nat)
    requires q > 0
    ensures a / 2 / q == a / (2 * q)
    ensures a % (2 * q) == a % 2 + 2 * ((a / 2) % q)
  {
    var h := a / 2;
    var k, r := h / q, h % q;
    assert h == k * q + r by { assert h == q * k + r; }
    DoubleMul(k, q);
    DivModUnique(a, 2 * q, k, a % 2 + 2 * r);
  }

  lemma {:induction false} ShrIsDiv(a: nat, n: nat)
    ensures Shr(a, n) == a / Pow2(n)
  {
    if n > 0 {
      ShrIsDiv(a / 2, n - 1);
      Halve(a, Pow2(n - 1));
    }
  }

  lemma {:induction false} LowIsMod(a: nat, n: nat)
    ensures Low(a, n) == a % Pow2(n)
  {
    if n > 0 {
      LowIsMod(a / 2, n - 1);
      Halve(a, Pow2(n - 1));
    }
  }

  lemma {:induction false} ShlIsMul(a: nat, n: nat)
    ensures Shl(a, n) == a * Pow2(n)
  {
    if n > 0 {
      ShlIsMul(a, n - 1);
      DoubleMul(a, Pow2(n - 1));
    }
  }

  lemma {:induction false} ShrOfShl(a: nat, k: nat)
    ensures Shr(Shl(a, k), k) == a
  {
    if k > 0 {
      ShrOfShl(a, k - 1);
    }
  }

  /** Or of a multiple of 2^n and a value below it is their sum. */
  lemma OrBelow(h: nat, b: nat, n: nat)
    requires h % Pow2(n) == 0 && b < Pow2(n)
    ensures Or(h, b) == h + b
  {
    var p := Pow2(n);
    ShlIsMul(h / p, n);
    assert h == h / p * p by { assert h == p * (h / p) + h % p; }
    OrDisjoint(h / p, b, n);
  }

  /** Or with a bit that is clear adds it. */
  lemma {:induction false} OrFlag(a: nat, n: nat)
    requires a / Pow2(n) % 2 == 0
    ensures Or(a, Pow2(n)) == a + Pow2(n)
    decreases n
  {
    if n == 0 {
      OrUnfold(a, 1);
    } else {
      Halve(a, Pow2(n - 1));
      OrEven(Pow2(n - 1), a);
      OrFlag(a / 2, n - 1);
    }
  }

  /** Masking with n one-bits and shifting left by k. */
  lemma MaskShift(a: nat, n: nat, k: nat)
    ensures Shl(And(a, Pow2(n) - 1), k) == a % Pow2(n) * Pow2(k)
  {
    AndOnes(a, n);
    LowIsMod(a, n);
    ShlIsMul(Low(a, n), k);
  }

  /** Mask, then shift down: the field [k, k+n) of `a`. */
  lemma Field(a: nat, n: nat, k: nat, mask: nat)
    requires mask == Shl(Pow2(n) - 1, k)
    ensures Shr(And(a, mask), k) == a / Pow2(k) % Pow2(n)
  {
    AndField(a, n, k);
    ShrOfShl(Low(Shr(a, k), n), k);
    ShrIsDiv(a, k);
    LowIsMod(Shr(a, k), n);
  }
}
