/** Bitwise operators of unsigned machine words, defined bit by bit on the naturals.

    The kernel packs flags and addresses into words with `&`, `|`, `& ~` and shifts. Each operator recurses on
    the binary digits of its operands, so every law below is an induction on those digits. */
module Bits {

  function Digit(p: bool): nat {
    if p then 1 else 0
  }

  /** `a & b` */
  function And(a: nat, b: nat): nat {
    if a == 0 then 0 else 2 * And(a / 2, b / 2) + Digit(a % 2 == 1 && b % 2 == 1)
  }

  /** `a | b` */
  function Or(a: nat, b: nat): nat {
    if a == 0 then b else 2 * Or(a / 2, b / 2) + Digit(a % 2 == 1 || b % 2 == 1)
  }

  /** `a & ~b` */
  function AndNot(a: nat, b: nat): nat {
    if a == 0 then 0 else 2 * AndNot(a / 2, b / 2) + Digit(a % 2 == 1 && b % 2 == 0)
  }

  /** `a >> n` */
  function Shr(a: nat, n: nat): nat
    decreases n
  {
    if n == 0 then a else Shr(a / 2, n - 1)
  }

  /** `1 << n` */
  function Pow2(n: nat): (p: nat)
    ensures p > 0
  {
    if n == 0 then 1 else 2 * Pow2(n - 1)
  }

  /** Bit `n` of `a`, read as the kernel reads it: shift down, mask the lowest bit. */
  predicate Bit(a: nat, n: nat) {
    Shr(a, n) % 2 == 1
  }

  lemma {:induction false} ZeroHasNoBits(n: nat)
    ensures !Bit(0, n)
  {
    if n > 0 { ZeroHasNoBits(n - 1); }
  }

  lemma {:induction false} PowerHasOneBit(i: nat, n: nat)
    ensures Bit(Pow2(i), n) <==> i == n
  {
    if i == 0 {
      if n > 0 { ZeroHasNoBits(n - 1); }
    } else if n > 0 {
      PowerHasOneBit(i - 1, n - 1);
    }
  }

  lemma {:induction false} OrBits(a: nat, b: nat, n: nat)
    ensures Bit(Or(a, b), n) <==> Bit(a, n) || Bit(b, n)
    decreases n
  {
    if a == 0 { ZeroHasNoBits(n); }
    else if n > 0 { OrBits(a / 2, b / 2, n - 1); }
  }

  lemma {:induction false} AndNotBits(a: nat, b: nat, n: nat)
    ensures Bit(AndNot(a, b), n) <==> Bit(a, n) && !Bit(b, n)
    decreases n
  {
    if a == 0 { ZeroHasNoBits(n); }
    else if n > 0 { AndNotBits(a / 2, b / 2, n - 1); }
  }

  /** Testing a word against a one-bit mask reads that bit. */
  lemma {:induction false} MaskTestsBit(a: nat, i: nat)
    ensures And(a, Pow2(i)) != 0 <==> Bit(a, i)
  {
    if a == 0 { ZeroHasNoBits(i); }
    else if i == 0 { assert Pow2(0) == 1; AndZero(a / 2); }
    else { MaskTestsBit(a / 2, i - 1); }
  }

  lemma {:induction false} AndZero(a: nat)
    ensures And(a, 0) == 0
  {
    if a > 0 { AndZero(a / 2); }
  }

  /** The all-ones word of `k` bits has every bit below `k` set. */
  lemma {:induction false} OnesHaveAllBits(k: nat, n: nat)
    requires n < k
    ensures Bit(Pow2(k) - 1, n)
  {
    if n > 0 { OnesHaveAllBits(k - 1, n - 1); }
  }

  /** No operator leaves its `k`-bit word size. */
  lemma {:induction false} WordSize(a: nat, b: nat, k: nat)
    requires a < Pow2(k) && b < Pow2(k)
    ensures Or(a, b) < Pow2(k) && AndNot(a, b) < Pow2(k)
  {
    if a > 0 { WordSize(a / 2, b / 2, k - 1); }
  }

  lemma {:induction false} PowMonotone(i: nat, k: nat)
    requires i < k
    ensures 2 * Pow2(i) <= Pow2(k)
  {
    if i < k - 1 { PowMonotone(i, k - 1); }
  }

  lemma Pow2Values()
    ensures Pow2(5) == 32 && Pow2(12) == 4096 && Pow2(22) == 0x40_0000 && Pow2(32) == 0x1_0000_0000
  {
  }

  /** `a << n`, without truncation */
  function Shl(a: nat, n: nat): nat
    decreases n
  {
    if n == 0 then a else 2 * Shl(a, n - 1)
  }

  lemma {:induction false} MaskRoundsDown(v: nat, k: nat)
    ensures AndNot(v, Pow2(k) - 1) == Shl(Shr(v, k), k)
    decreases k
  {
    if k == 0 { ClearNothing(v); }
    else if v > 0 { MaskRoundsDown(v / 2, k - 1); }
    else { ZeroShifts(k); }
  }

  lemma {:induction false} ClearNothing(v: nat)
    ensures AndNot(v, 0) == v
  {
    if v > 0 { ClearNothing(v / 2); }
  }

  lemma {:induction false} ZeroShifts(k: nat)
    ensures Shr(0, k) == 0 == Shl(0, k)
  {
    if k > 0 { ZeroShifts(k - 1); }
  }

  lemma TwelveBits(v: nat)
    ensures Shr(v, 12) == v / 4096 && Shl(v, 12) == v * 4096
  {
  }

  /** Masking off the low twelve bits rounds down to a page boundary. */
  lemma RoundedDown(v: nat)
    ensures AndNot(v, 4095) == v / 4096 * 4096
  {
    Pow2Values();
    MaskRoundsDown(v, 12);
    TwelveBits(v);
    TwelveBits(v / 4096);
  }

  /** Masking off the low two bits rounds down to a multiple of four. */
  lemma RoundedDownToFour(v: nat)
    ensures AndNot(v, 3) == v / 4 * 4
  {
    assert Pow2(2) == 4;
    MaskRoundsDown(v, 2);
    assert Shr(v, 2) == v / 4 && Shl(v / 4, 2) == 4 * (v / 4);
  }

  lemma {:induction false} OrZero(a: nat)
    ensures Or(a, 0) == a
  {
    if a > 0 { OrZero(a / 2); }
  }

  /** OR-ing small bits into a shifted number adds them. */
  lemma {:induction false} OrAligned(a: nat, k: nat, b: nat)
    requires b < Pow2(k)
    ensures Or(Shl(a, k), b) == Shl(a, k) + b
    decreases k
  {
    if k == 0 { OrZero(a); } else { OrAligned(a, k - 1, b / 2); }
  }

  /** OR-ing in bit 2 adds four if the bit was clear. */
  lemma OrFour(a: nat)
    ensures Or(a, 4) == if a / 4 % 2 == 1 then a else a + 4
  {
    OrZero(a / 2 / 2 / 2);
    assert Or(a / 2 / 2, 1) == 2 * (a / 2 / 2 / 2) + 1;
    assert Or(a / 2, 2) == 2 * Or(a / 2 / 2, 1) + a / 2 % 2;
    assert Or(a, 4) == 2 * Or(a / 2, 2) + a % 2;
  }
}
