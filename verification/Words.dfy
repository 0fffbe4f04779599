/** Bitwise operations of C's unsigned int, defined bit by bit on the natural
    number a word denotes, so that they mix with the byte codecs. */
module Words {

  const WORD_SIZE := 0x1_0000_0000

  type word = w: int | 0 <= w < 0x1_0000_0000

  function DivRoundUp(n: nat, s: nat): nat
    requires s > 0
  {
    n / s + if n % s > 0 then 1 else 0
  }

  /** 1 << k */
  function Pow2(k: nat): (p: nat)
    ensures p > 0
  {
    if k == 0 then 1 else 2 * Pow2(k - 1)
  }

  predicate Bit(w: nat, k: nat)
  {
    if k == 0 then w % 2 == 1 else Bit(w / 2, k - 1)
  }

  /** a | b */
  function Or(a: nat, b: nat): nat
  {
    if a == 0 then b
    else 2 * Or(a / 2, b / 2) + if a % 2 == 1 || b % 2 == 1 then 1 else 0
  }

  /** a & b */
  function And(a: nat, b: nat): nat
  {
    if a == 0 then 0
    else 2 * And(a / 2, b / 2) + if a % 2 == 1 && b % 2 == 1 then 1 else 0
  }

  /** a & ~b */
  function AndNot(a: nat, b: nat): nat
  {
    if a == 0 then 0
    else 2 * AndNot(a / 2, b / 2) + if a % 2 == 1 && b % 2 == 0 then 1 else 0
  }

  /** a ^ b */
  function Xor(a: nat, b: nat): nat
  {
    if a == 0 then b
    else 2 * Xor(a / 2, b / 2) + if a % 2 != b % 2 then 1 else 0
  }

  lemma {:induction false} BitZero(k: nat)
    ensures !Bit(0, k)
  {
    if k > 0 {
      BitZero(k - 1);
    }
  }

  lemma {:induction false} BitPow2(j: nat, k: nat)
    ensures Bit(Pow2(k), j) == (j == k)
  {
    if k == 0 {
      if j > 0 { BitZero(j - 1); }
    } else if j > 0 {
      BitPow2(j - 1, k - 1);
    }
  }

  /** The operations act on each bit separately. */
  lemma {:induction false} BitwiseBits(a: nat, b: nat, k: nat)
    ensures Bit(Or(a, b), k) == (Bit(a, k) || Bit(b, k))
    ensures Bit(And(a, b), k) == (Bit(a, k) && Bit(b, k))
    ensures Bit(AndNot(a, b), k) == (Bit(a, k) && !Bit(b, k))
    ensures Bit(Xor(a, b), k) == (Bit(a, k) != Bit(b, k))
  {
    if a == 0 {
      BitZero(k);
    } else if k > 0 {
      BitwiseBits(a / 2, b / 2, k - 1);
    }
  }

  /** The operations stay within the width of their operands. */
  lemma {:induction false} BitwiseRange(a: nat, b: nat, n: nat)
    requires a < Pow2(n) && b < Pow2(n)
    ensures Or(a, b) < Pow2(n) && And(a, b) < Pow2(n) && AndNot(a, b) < Pow2(n) && Xor(a, b) < Pow2(n)
  {
    if a != 0 {
      BitwiseRange(a / 2, b / 2, n - 1);
    }
  }

  lemma {:induction false} Pow2Monotone(j: nat, k: nat)
    requires j < k
    ensures Pow2(j) < Pow2(k)
  {
    if j + 1 < k {
      Pow2Monotone(j, k - 1);
    }
  }

  lemma Pow2Values()
    ensures Pow2(8) == 0x100 && Pow2(16) == 0x1_0000 && Pow2(32) == WORD_SIZE
  {
    assert Pow2(4) == 16;
    assert Pow2(8) == 0x100;
    assert Pow2(12) == 0x1000;
    assert Pow2(16) == 0x1_0000;
    assert Pow2(20) == 0x10_0000;
    assert Pow2(24) == 0x100_0000;
    assert Pow2(28) == 0x1000_0000;
  }

  /** w & (1 << k) is nonzero exactly when bit k of w is set. */
  lemma {:induction false} TestBit(w: nat, k: nat)
    ensures And(w, Pow2(k)) != 0 <==> Bit(w, k)
  {
    if w == 0 {
      BitZero(k);
    } else if k > 0 {
      TestBit(w / 2, k - 1);
    } else {
      AndZero(w / 2);
    }
  }

  lemma {:induction false} AndZero(w: nat)
    ensures And(w, 0) == 0
  {
    if w != 0 {
      AndZero(w / 2);
    }
  }

  /** Below bit m the bits of x, from there on those of y. */
  lemma {:induction false} BitSplit(x: nat, y: nat, m: nat, i: nat)
    requires x < Pow2(m)
    ensures Bit(x + Pow2(m) * y, i) == if i < m then Bit(x, i) else Bit(y, i - m)
    decreases m
  {
    if m > 0 {
      var half := Pow2(m - 1) * y;
      assert Pow2(m) * y == 2 * half;
      assert (x + 2 * half) / 2 == x / 2 + half && (x + 2 * half) % 2 == x % 2;
      if i > 0 {
        BitSplit(x / 2, y, m - 1, i - 1);
      }
    }
  }
}
