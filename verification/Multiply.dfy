/** The R2000 multiplier: a shift-and-add loop on 32-bit words (machine/mipssim.cc, Mult). */
module Multiply {
  import opened Basics
  import opened Words
  import opened Codec

  const DOUBLE_SIZE := 0x1_0000_0000_0000_0000

  /** The number held in a pair of words. */
  ghost function Double(hi: word, lo: word): (d: nat)
    ensures d < DOUBLE_SIZE
  {
    (hi as nat) * WORD_SIZE + lo as nat
  }

  /** -a in 32 bits: the least integer is its own negation. */
  function Negate(a: int32): int32 {
    if a == -0x8000_0000 then a else -a
  }

  /** hi:lo += bHi:bLo, with the carry detected as the code does. */
  function AddPair(hi: word, lo: word, bHi: word, bLo: word): (word, word) {
    var lo' := ((lo as int) + (bLo as int)) % WORD_SIZE;
    var hi' := (hi as int) + if lo' < bLo then 1 else 0;
    ((hi' % WORD_SIZE + (bHi as int)) % WORD_SIZE, lo')
  }

  lemma AddPairAdds(hi: word, lo: word, bHi: word, bLo: word)
    requires Double(hi, lo) + Double(bHi, bLo) < DOUBLE_SIZE
    ensures var (h, l) := AddPair(hi, lo, bHi, bLo);
      Double(h, l) == Double(hi, lo) + Double(bHi, bLo)
  {
    var sum: int := (lo as int) + (bLo as int);
    var l := sum % WORD_SIZE;
    if sum < WORD_SIZE {
      assert l == sum;
    } else {
      assert l == sum - WORD_SIZE;
    }
  }

  /** bHi:bLo <<= 1. */
  function ShiftPair(bHi: word, bLo: word): (word, word) {
    ((2 * (bHi as int)) % WORD_SIZE + (if bLo >= 0x8000_0000 then 1 else 0), (2 * (bLo as int)) % WORD_SIZE)
  }

  lemma ShiftPairDoubles(bHi: word, bLo: word)
    requires 2 * Double(bHi, bLo) < DOUBLE_SIZE
    ensures Double(ShiftPair(bHi, bLo).0, ShiftPair(bHi, bLo).1) == 2 * Double(bHi, bLo)
  {
  }

  /** ~ on both words, then + 1 with the carry into the high word. */
  function NegatePair(hi: word, lo: word): (word, word) {
    var l := (WORD_SIZE - 1 - (lo as int) + 1) % WORD_SIZE;
    var h := WORD_SIZE - 1 - (hi as int);
    (if l == 0 then (h + 1) % WORD_SIZE else h, l)
  }

  lemma NegatePairNegates(hi: word, lo: word)
    requires Double(hi, lo) > 0
    ensures Double(NegatePair(hi, lo).0, NegatePair(hi, lo).1) == DOUBLE_SIZE - Double(hi, lo)
  {
  }

  /** One turn of the loop moves a bit of the multiplier into the accumulated sum. */
  lemma TurnKeepsProduct(acc: nat, rem: nat, b: nat)
    ensures rem % 2 == 1 ==> acc + b + rem / 2 * (2 * b) == acc + rem * b
    ensures rem % 2 == 0 ==> acc + rem / 2 * (2 * b) == acc + rem * b
  {
    var h := rem / 2;
    assert rem == 2 * h + rem % 2;
    assert h * (2 * b) == 2 * h * b;
    if rem % 2 == 1 {
      assert (2 * h + 1) * b == 2 * h * b + b;
    }
  }

  lemma MulBound(a: nat, n: nat, b: nat, m: nat)
    requires a <= n && b <= m
    ensures a * b <= n * m
  {
    MulMonotone(b, a, n);
    MulMonotone(n, b, m);
  }

  lemma StillFits(acc: nat, rem: nat, b: nat, total: nat)
    requires acc + rem * b == total && rem > 0
    ensures acc + b <= total
  {
    MulMonotone(b, 1, rem);
  }

  /** The loop, before its i-th turn: `rem` is what is left of the multiplier as a word, and `a` is
      `rem`, or its sign-extended form when the multiplier is negative. */
  ghost predicate Turning(a: int, rem: nat, negative: bool, i: nat, acc: nat, mult: nat, total: nat) {
    && i <= 32 && rem < Pow2(32 - i)
    && a == (if negative then rem - Pow2(32 - i) else rem)
    && acc + rem * mult == total
    && mult < WORD_SIZE * Pow2(i)
  }

  lemma TurningShifts(a: int, rem: nat, negative: bool, i: nat, acc: nat, acc': nat, mult: nat, total: nat)
    requires Turning(a, rem, negative, i, acc, mult, total) && i < 32
    requires acc' == if a % 2 == 1 then acc + mult else acc
    ensures a % 2 == rem % 2
    ensures Turning(a / 2, rem / 2, negative, i + 1, acc', 2 * mult, total)
  {
    var p, q := Pow2(31 - i), Pow2(i);
    assert Pow2(32 - i) == 2 * p && Pow2(i + 1) == 2 * q;
    TurnKeepsProduct(acc, rem, mult);
  }

  lemma ShiftFits(mult: nat, i: nat)
    requires i < 32 && mult < WORD_SIZE * Pow2(i)
    ensures 2 * mult < DOUBLE_SIZE
  {
    Pow2Values();
    if i < 31 {
      Pow2Monotone(i, 31);
    }
    assert Pow2(32) == 2 * Pow2(31);
    MulBound(WORD_SIZE, WORD_SIZE, Pow2(i), Pow2(31));
  }

  lemma TurningStarts(a: int32, b: int32)
    ensures var total: nat := (ToWord(a) as int) * (ToWord(b) as int);
      && total < DOUBLE_SIZE
      && Turning(a, ToWord(a), a < 0, 0, 0, ToWord(b), total)
  {
    MulBound(ToWord(a), WORD_SIZE - 1, ToWord(b), WORD_SIZE - 1);
    Pow2Values();
  }

  lemma TurningEnds(a: int, rem: nat, negative: bool, acc: nat, mult: nat, total: nat)
    requires Turning(a, rem, negative, 32, acc, mult, total)
    ensures acc == total
  {
    assert Pow2(0) == 1;
    assert rem == 0;
  }

  /** The product of two words, by shifting and adding; `a` is shifted arithmetically. */
  method ShiftAndAdd(a0: int32, b: int32) returns (hi: word, lo: word)
    ensures Double(hi, lo) == (ToWord(a0) as int) * (ToWord(b) as int)
  {
    var a: int := a0;
    var bLo: word, bHi: word := ToWord(b), 0;
    hi, lo := 0, 0;
    ghost var total: nat, rem: nat, negative := (ToWord(a0) as int) * (ToWord(b) as int), ToWord(a0), a0 < 0;
    TurningStarts(a0, b);
    var i := 0;
    while i < 32
      invariant 0 <= i <= 32 && total < DOUBLE_SIZE
      invariant Turning(a, rem, negative, i, Double(hi, lo), Double(bHi, bLo), total)
    {
      ghost var acc, mult := Double(hi, lo), Double(bHi, bLo);
      TurningShifts(a, rem, negative, i, acc, if a % 2 == 1 then acc + mult else acc, mult, total);
      if a % 2 == 1 {
        StillFits(acc, rem, mult, total);
        hi, lo := AddOnce(hi, lo, bHi, bLo);
        if a == 1 {
          LastTurn(a, rem, negative, i, acc, mult, total);
          return;
        }
      }
      bHi, bLo := ShiftOnce(bHi, bLo, i);
      a, rem := a / 2, rem / 2;
      i := i + 1;
    }
    TurningEnds(a, rem, negative, Double(hi, lo), Double(bHi, bLo), total);
  }

  method ShiftOnce(bHi: word, bLo: word, ghost i: nat) returns (bHi': word, bLo': word)
    requires i < 32 && Double(bHi, bLo) < WORD_SIZE * Pow2(i)
    ensures Double(bHi', bLo') == 2 * Double(bHi, bLo)
  {
    ShiftFits(Double(bHi, bLo), i);
    ShiftPairDoubles(bHi, bLo);
    var (h, l) := ShiftPair(bHi, bLo);
    bHi', bLo' := h, l;
  }

  method AddOnce(hi: word, lo: word, bHi: word, bLo: word) returns (hi': word, lo': word)
    requires Double(hi, lo) + Double(bHi, bLo) < DOUBLE_SIZE
    ensures Double(hi', lo') == Double(hi, lo) + Double(bHi, bLo)
  {
    AddPairAdds(hi, lo, bHi, bLo);
    var (h, l) := AddPair(hi, lo, bHi, bLo);
    hi', lo' := h, l;
  }

  lemma LastTurn(a: int, rem: nat, negative: bool, i: nat, acc: nat, mult: nat, total: nat)
    requires Turning(a, rem, negative, i, acc, mult, total) && a == 1
    ensures acc + mult == total
  {
    assert rem == 1;
  }

  /** hi:lo is exactly the 64-bit product of the operands, signed or unsigned, for all operands. */
  method Mult(a0: int32, b0: int32, signedArith: bool) returns (hi: word, lo: word)
    ensures signedArith ==> (ToSigned(hi) as int) * WORD_SIZE + lo == (a0 as int) * (b0 as int)
    ensures !signedArith ==> Double(hi, lo) == (ToWord(a0) as int) * (ToWord(b0) as int)
  {
    if a0 == 0 || b0 == 0 {
      return 0, 0;
    }
    var a, b, negative := a0, b0, false;
    if signedArith {
      if a < 0 {
        negative := !negative;
        a := Negate(a);
      }
      if b < 0 {
        negative := !negative;
        b := Negate(b);
      }
    }
    hi, lo := ShiftAndAdd(a, b);
    if signedArith {
      SignedMagnitude(a0, b0, Double(hi, lo));
    }
    if negative {
      NegatePairNegates(hi, lo);
      var (h, l) := NegatePair(hi, lo);
      hi, lo := h, l;
    }
  }

  lemma SignedMagnitude(a: int, b: int, p: nat)
    requires a != 0 && b != 0 && p == Abs(a) * Abs(b)
    requires Abs(a) <= 0x8000_0000 && Abs(b) <= 0x8000_0000
    ensures 0 < p <= 0x4000_0000_0000_0000
    ensures a * b == if (a < 0) != (b < 0) then -(p as int) else p
  {
    MulBound(Abs(a), 0x8000_0000, Abs(b), 0x8000_0000);
    MulBound(1, Abs(a), 1, Abs(b));
  }
}
