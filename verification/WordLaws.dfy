/** What the processor's logic, shift, divide and memory instructions compute, bit by bit and as numbers
    (machine/mipssim.cc); for OR and the logical right shifts, when they compute what their names say. */
module WordLaws {
  import opened Basics
  import opened Words
  import opened Codec
  import opened Decoder
  import opened Memory
  import opened Mips

  predicate BitW(a: int32, i: nat) {
    Bit(ToWord(a), i)
  }

  // ----- bits of sums and products

  lemma BitTooHigh(x: nat, m: nat, i: nat)
    requires x < Pow2(m) && m <= i
    ensures !Bit(x, i)
  {
    BitSplit(x, 0, m, i);
    BitZero(i - m);
  }

  lemma {:induction false} BitOfOnes(n: nat, i: nat)
    ensures Bit(Pow2(n) - 1, i) == (i < n)
  {
    if n == 0 {
      BitZero(i);
    } else if i > 0 {
      assert (Pow2(n) - 1) / 2 == Pow2(n - 1) - 1;
      BitOfOnes(n - 1, i - 1);
    }
  }

  lemma {:induction false} BitOfComplement(w: nat, n: nat, i: nat)
    requires w < Pow2(n) && i < n
    ensures Bit(Pow2(n) - 1 - w, i) == !Bit(w, i)
  {
    var c := Pow2(n) - 1 - w;
    assert c / 2 == Pow2(n - 1) - 1 - w / 2 && c % 2 != w % 2;
    if i > 0 {
      BitOfComplement(w / 2, n - 1, i - 1);
    }
  }

  // ----- logic

  lemma LogicBits(a: int32, b: int32, i: nat)
    ensures BitW(AndW(a, b), i) == (BitW(a, i) && BitW(b, i))
    ensures BitW(OrW(a, b), i) == (BitW(a, i) || BitW(b, i))
    ensures BitW(XorW(a, b), i) == (BitW(a, i) != BitW(b, i))
  {
    var x, y := ToWord(a), ToWord(b);
    BitwiseBits(x, y, i);
    Bits32(x, y);
    SignedRoundTrip(And(x, y));
    SignedRoundTrip(Or(x, y));
    SignedRoundTrip(Xor(x, y));
  }

  lemma SignedRoundTrip(w: word)
    ensures ToWord(ToSigned(w)) == w
  {
  }

  lemma NorBits(a: int32, b: int32, i: nat)
    requires i < 32
    ensures BitW(Wrap(-1 - OrW(a, b)), i) == !(BitW(a, i) || BitW(b, i))
  {
    var o := OrW(a, b);
    ComplementWord(o);
    LogicBits(a, b, i);
    Pow2Values();
    BitOfComplement(ToWord(o), 32, i);
  }

  lemma ComplementWord(o: int32)
    ensures ToWord(Wrap(-1 - o)) == WORD_SIZE - 1 - ToWord(o)
  {
  }

  lemma {:induction false} OrItself(w: nat)
    ensures Or(w, w) == w
  {
    if w != 0 {
      OrItself(w / 2);
    }
  }

  /** a | b is a exactly when b has no bit that a lacks. */
  lemma {:induction false} OrAbsorbs(a: nat, b: nat)
    ensures Or(a, b) == a <==> AndNot(b, a) == 0
  {
    if a == 0 {
      AndNotZero(b);
    } else if b != 0 {
      OrAbsorbs(a / 2, b / 2);
    } else {
      OrZero(a);
    }
  }

  lemma {:induction false} OrZero(a: nat)
    ensures Or(a, 0) == a
  {
    if a != 0 {
      OrZero(a / 2);
    }
  }

  lemma {:induction false} AndNotZero(b: nat)
    ensures AndNot(b, 0) == b
  {
    if b != 0 {
      AndNotZero(b / 2);
    }
  }

  /** OR leaves rs; that is the bitwise or exactly when every bit of rt is in rs. */
  lemma OrInstruction(r: Registers, ins: Instruction)
    requires ins.rs < 32 && ins.rt < 32 && ins.rd < 32 && ins.opCode == OR
    ensures Logic(r, ins) == Set(r, ins.rd, r[ins.rs])
    ensures Logic(r, ins) == Set(r, ins.rd, OrW(r[ins.rs], r[ins.rt])) <==>
      AndNot(ToWord(r[ins.rt]), ToWord(r[ins.rs])) == 0
  {
    var rs, rt := r[ins.rs], r[ins.rt];
    OrItself(ToWord(rs));
    OrAbsorbs(ToWord(rs), ToWord(rt));
    Bits32(ToWord(rs), ToWord(rt));
    assert Set(r, ins.rd, rs).writes[0].value == rs;
    assert Set(r, ins.rd, OrW(rs, rt)).writes[0].value == OrW(rs, rt);
  }

  /** It fails at rs = 0 and rt = 1, where the or is 1 and the instruction leaves 0. */
  lemma OrFails() returns (r: Registers, ins: Instruction)
    ensures ins.rs < 32 && ins.rt < 32 && ins.rd < 32 && ins.opCode == OR && r[ins.rs] == 0 && r[ins.rt] == 1
    ensures Logic(r, ins) == Set(r, ins.rd, 0) && OrW(r[ins.rs], r[ins.rt]) == 1
  {
    r, ins := seq(40, i => if i == 2 then 1 else 0), Instruction(OR, 1, 2, 3, 0);
    OrInstruction(r, ins);
  }

  // ----- shifts

  lemma Regroup(x: int, y: int)
    ensures 2 * x * y == 2 * (x * y)
  {
  }

  lemma {:induction false} Pow2Sum(m: nat, n: nat)
    ensures Pow2(m) * Pow2(n) == Pow2(m + n)
  {
    if m > 0 {
      Pow2Sum(m - 1, n);
      Regroup(Pow2(m - 1), Pow2(n));
    }
  }

  lemma SplitBy(x: int, p: nat)
    requires p > 0
    ensures x == p * (x / p) + x % p && 0 <= x % p < p
  {
  }

  lemma QuotientCompare(x: int, p: nat, k: int)
    requires p > 0
    ensures x / p >= k <==> x >= p * k
  {
    var q := x / p;
    SplitBy(x, p);
    if q >= k {
      MulMonotone(p, k, q);
    } else {
      MulMonotone(p, q, k - 1);
    }
  }

  lemma QuotientIs(x: int, p: nat, q: int, r: nat)
    requires x == p * q + r && r < p
    ensures x / p == q
  {
    QuotientCompare(x, p, q);
    QuotientCompare(x, p, q + 1);
    assert p * (q + 1) == p * q + p;
  }

  /** As words, a shift left multiplies by the power of two and drops what does not fit. */
  lemma ShiftLeftWord(a: int32, n: nat)
    ensures ToWord(ShiftLeft(a, n)) == ToWord(a) * Pow2(n) % WORD_SIZE
  {
    ScaledWord(a, Pow2(n));
    SignedRoundTrip(a * Pow2(n) % WORD_SIZE);
  }

  lemma ScaledWord(a: int32, p: nat)
    ensures a * p % WORD_SIZE == ToWord(a) * p % WORD_SIZE
  {
    if a < 0 {
      assert ToWord(a) * p == a * p + p * WORD_SIZE;
      SameRemainder(a * p, p);
    }
  }

  lemma SameRemainder(x: int, k: int)
    ensures (x + k * WORD_SIZE) % WORD_SIZE == x % WORD_SIZE
  {
  }

  lemma LowBits(y: nat, i: nat)
    requires i < 32
    ensures Bit(y % WORD_SIZE, i) == Bit(y, i)
  {
    SplitBy(y, WORD_SIZE);
    Pow2Values();
    BitSplit(y % WORD_SIZE, y / WORD_SIZE, 32, i);
  }

  lemma ShiftLeftBits(a: int32, n: nat, i: nat)
    requires i < 32
    ensures BitW(ShiftLeft(a, n), i) <==> n <= i && BitW(a, i - n)
  {
    var y := ToWord(a) * Pow2(n);
    BitOfScaled(ToWord(a), n, i, y);
    LowBits(y, i);
    ShiftLeftWord(a, n);
  }

  lemma BitOfScaled(w: nat, n: nat, i: nat, y: nat)
    requires y == w * Pow2(n)
    ensures Bit(y, i) <==> n <= i && Bit(w, i - n)
  {
    BitSplit(0, w, n, i);
    assert y == 0 + Pow2(n) * w;
    BitZero(i);
  }

  /** The quotient of a word, and what a signed shift makes of it: the same for a positive number, and
      with the n high bits set for a negative one. */
  lemma ShiftRightWord(a: int32, n: nat) returns (q: nat, r: nat)
    requires n < 32
    ensures ToWord(a) == r + Pow2(n) * q && r < Pow2(n) && q < Pow2(32 - n)
    ensures ToWord(ShiftRight(a, n)) == if a >= 0 then q else q + Pow2(32 - n) * (Pow2(n) - 1)
  {
    Pow2Sum(32 - n, n);
    Pow2Values();
    q, r := QuotientWord(a, Pow2(n), Pow2(32 - n));
  }

  lemma QuotientWord(a: int32, p: nat, high: nat) returns (q: nat, r: nat)
    requires p > 0 && high * p == WORD_SIZE
    ensures ToWord(a) == r + p * q && r < p && q < high
    ensures ToWord(Wrap(a / p)) == if a >= 0 then q else q + high * (p - 1)
  {
    var f := a / p;
    SplitBy(a, p);
    QuotientRange(a, p, high);
    r := a % p;
    q := if a >= 0 then f else f + high;
    Distribute(p, f, high);
    WrapWord(f);
  }

  lemma Distribute(p: nat, f: int, high: nat)
    ensures p * (f + high) == p * f + high * p && high * (p - 1) == high * p - high
  {
  }

  lemma WrapWord(f: int32)
    ensures ToWord(Wrap(f)) == if f >= 0 then f else f + WORD_SIZE
  {
  }

  lemma QuotientRange(a: int, p: nat, high: int)
    requires p > 0 && high * p == WORD_SIZE && -WORD_SIZE <= a < WORD_SIZE
    ensures if a >= 0 then 0 <= a / p < high && a / p <= a else -high <= a / p < 0 && a <= a / p
  {
    QuotientCompare(a, p, 0);
    QuotientCompare(a, p, high);
    QuotientCompare(a, p, -high);
    assert p * -high == -(high * p);
    if a >= 0 {
      QuotientCompare(a, p, a + 1);
      MulMonotone(a + 1, 1, p);
    } else {
      QuotientCompare(a, p, a);
      MulMonotone(-a, 1, p);
      assert p * a == -(-a * p);
    }
  }

  lemma ShiftRightBits(a: int32, n: nat, i: nat)
    requires n < 32 && i < 32
    ensures BitW(ShiftRight(a, n), i) <==> if i + n < 32 then BitW(a, i + n) else a < 0
  {
    var q, r := ShiftRightWord(a, n);
    BitSplit(r, q, n, i + n);
    if a >= 0 {
      if i + n >= 32 {
        BitTooHigh(q, 32 - n, i);
      }
    } else {
      BitSplit(q, Pow2(n) - 1, 32 - n, i);
      if i + n >= 32 {
        BitOfOnes(n, i - (32 - n));
      }
    }
  }

  /** A right shift of a signed number brings in zeros exactly when it is not negative or not shifted at all. */
  lemma LogicalShift(a: int32, n: nat) returns (q: nat)
    requires n < 32
    ensures q == ToWord(a) / Pow2(n) && q < WORD_SIZE
    ensures ToWord(ShiftRight(a, n)) == q <==> a >= 0 || n == 0
  {
    var r;
    q, r := ShiftRightWord(a, n);
    QuotientIs(ToWord(a), Pow2(n), q, r);
    ExtraIsZero(Pow2(32 - n), n);
    Pow2Values();
    if n > 0 {
      Pow2Monotone(32 - n, 32);
    }
  }

  function ShiftAmount(r: Registers, ins: Instruction): nat
    requires ins.rs < 32
  {
    if ins.opCode == SRLV then Low5(r[ins.rs]) else ToWord(ins.extra)
  }

  /** SRL and SRLV leave what a shift of the unsigned number would exactly under that condition; the decoder gives
      shift amounts below 32. */
  lemma LogicalShiftInstruction(r: Registers, ins: Instruction)
    requires ins.rs < 32 && ins.rt < 32 && ins.rd < 32 && ins.opCode in {SRL, SRLV} && ShiftAmount(r, ins) < 32
    ensures var a, n := r[ins.rt], ShiftAmount(r, ins);
      Shift(r, ins) == Set(r, ins.rd, Wrap(ToWord(a) / Pow2(n))) <==> a >= 0 || n == 0
  {
    var a, n := r[ins.rt], ShiftAmount(r, ins);
    ShiftsRight(r, ins);
    SetDiffers(r, ins.rd, ShiftRight(a, n), Wrap(ToWord(a) / Pow2(n)));
    LogicalShiftValue(a, n);
  }

  lemma ShiftsRight(r: Registers, ins: Instruction)
    requires ins.rs < 32 && ins.rt < 32 && ins.rd < 32 && ins.opCode in {SRL, SRLV}
    ensures Shift(r, ins) == Set(r, ins.rd, ShiftRight(r[ins.rt], ShiftAmount(r, ins)))
  {
  }

  lemma SetDiffers(r: Registers, reg: nat, x: int32, y: int32)
    ensures Set(r, reg, x) == Set(r, reg, y) <==> x == y
  {
    assert Set(r, reg, x).writes[0].value == x && Set(r, reg, y).writes[0].value == y;
  }

  lemma LogicalShiftValue(a: int32, n: nat)
    requires n < 32
    ensures ShiftRight(a, n) == Wrap(ToWord(a) / Pow2(n)) <==> a >= 0 || n == 0
  {
    var q := LogicalShift(a, n);
    IntOfWord(ShiftRight(a, n), q);
  }

  lemma IntOfWord(x: int32, w: int)
    requires 0 <= w < WORD_SIZE
    ensures x == Wrap(w) <==> ToWord(x) == w
  {
  }

  /** It fails for -1 shifted by 1, which stays -1. */
  lemma LogicalShiftFails() returns (r: Registers, ins: Instruction)
    ensures ins.rs < 32 && ins.rt < 32 && ins.rd < 32 && ins.opCode == SRL && r[ins.rt] == -1 && ins.extra == 1
    ensures Shift(r, ins) == Set(r, ins.rd, -1) && ToWord(r[ins.rt]) / Pow2(1) == 0x7fff_ffff
  {
    r, ins := seq(40, i => if i == 2 then -1 else 0), Instruction(SRL, 0, 2, 3, 1);
    assert Pow2(1) == 2 && ShiftRight(-1, 1) == -1;
  }

  lemma ExtraIsZero(high: nat, n: nat)
    requires high > 0
    ensures high * (Pow2(n) - 1) == 0 <==> n == 0
  {
    if n > 0 {
      assert Pow2(n) >= 2;
      MulMonotone(high, 1, Pow2(n) - 1);
    }
  }

  // ----- division

  /** The one quotient that is not an int. */
  predicate QuotientOverflows(a: int32, b: int32) {
    a == -0x8000_0000 && b == -1
  }

  /** DIV leaves a quotient and a remainder that has the dividend's sign and is smaller than the
      divisor, exactly when the quotient is an int. */
  lemma Division(r: Registers, ins: Instruction)
    requires ins.rs < 32 && ins.rt < 32 && ins.rd < 32 && ins.opCode == DIV && r[ins.rt] != 0
    ensures (exists lo: int32, hi: int32 :: HiLo(r, ins) == SetHiLo(r, hi, lo) && Divides(r[ins.rs], r[ins.rt], lo, hi))
      <==> !QuotientOverflows(r[ins.rs], r[ins.rt])
  {
    var a, b := r[ins.rs], r[ins.rt];
    if QuotientOverflows(a, b) {
      forall lo: int32, hi: int32 | HiLo(r, ins) == SetHiLo(r, hi, lo)
        ensures !Divides(a, b, lo, hi)
      {
        NoSuchQuotient(lo, hi);
      }
    } else {
      var lo, hi := DivisionOf(a, b);
      assert HiLo(r, ins) == SetHiLo(r, hi, lo);
    }
  }

  lemma NoSuchQuotient(q: int32, r: int32)
    ensures !Divides(-0x8000_0000, -1, q, r)
  {
  }

  predicate Divides(a: int, b: int, q: int, r: int) {
    a == b * q + r && (if b < 0 then b < r < -b else -b < r < b) && (a >= 0 ==> r >= 0) && (a <= 0 ==> r <= 0)
  }

  lemma DivisionOf(a: int32, b: int32) returns (q: int32, r: int32)
    requires b != 0 && !QuotientOverflows(a, b)
    ensures q == Wrap(Quotient(a, b)) && r == Wrap(a - Quotient(a, b) * b) && Divides(a, b, q, r)
  {
    Truncated(a, b);
    q, r := Quotient(a, b), a - Quotient(a, b) * b;
    WrapExact(q);
    WrapExact(r);
  }

  lemma Truncated(a: int, b: int)
    requires b != 0
    ensures Divides(a, b, Quotient(a, b), a - Quotient(a, b) * b)
    ensures var q: int, x: int := Quotient(a, b), Abs(a);
      -x <= q <= x && (b == -1 ==> q == -a) && (b != 1 && b != -1 ==> -x <= 2 * q <= x)
  {
    var x: int, y: int := Abs(a), Abs(b);
    var k := x / y;
    SplitBy(x, y);
    QuotientBound(x, y);
    Signs(y, k);
  }

  lemma Signs(y: int, k: int)
    ensures (-y) * k == -(y * k) && y * (-k) == -(y * k) && (-y) * (-k) == y * k && k * y == y * k
  {
  }

  lemma QuotientBound(x: nat, y: nat)
    requires y > 0
    ensures 0 <= x / y <= x && (y > 1 ==> 2 * (x / y) <= x) && (y == 1 ==> x / y == x)
  {
    var k := x / y;
    QuotientCompare(x, y, 0);
    QuotientCompare(x, y, k);
    MulMonotone(k, 1, y);
    if y > 1 {
      MulMonotone(k, 2, y);
    }
  }

  // ----- memory

  /** x is v with all but the low bits dropped, taken as a signed or as an unsigned number. */
  predicate IsLow(x: int, v: int, size: int, signed: bool)
    requires size > 0
  {
    (x - v) % size == 0 && if signed then -(size / 2) <= x < size / 2 else 0 <= x < size
  }

  /** Loading what a store of the same size put there gives its low bits, with the sign or without as the
      load asks. */
  lemma LoadAfterStore(mem: Memory, address: nat, size: nat, v: int32, before: int32)
    requires IsSize(size) && address + size <= MEMORY_SIZE
    ensures var x := Load(Store(mem, address, size, v), address, size);
      && (size == 1 ==> IsLow(Loaded(LB, x, before), v, 0x100, true) && IsLow(Loaded(LBU, x, before), v, 0x100, false))
      && (size == 2 ==> IsLow(Loaded(LH, x, before), v, 0x1_0000, true) && IsLow(Loaded(LHU, x, before), v, 0x1_0000, false))
      && (size == 4 ==> Loaded(LW, x, before) == v)
  {
    LoadStored(mem, address, size, v);
    if size == 1 {
      LowByte(v, before);
    } else if size == 2 {
      LowHalf(v, before);
    }
  }

  lemma LowPart(w: nat, v: int, size: nat)
    requires size == 0x100 || size == 0x1_0000
    requires w == v || w == v + WORD_SIZE
    ensures (w % size - v) % size == 0 && (w % size - size - v) % size == 0
  {
  }

  lemma LowByte(v: int32, before: int32)
    ensures var b := Truncate(1, v);
      IsLow(Loaded(LB, b, before), v, 0x100, true) && IsLow(Loaded(LBU, b, before), v, 0x100, false)
  {
    LowPart(ToWord(v), v, 0x100);
    assert ToWord(Truncate(1, v)) % 0x100 == ToWord(v) % 0x100;
  }

  lemma LowHalf(v: int32, before: int32)
    ensures var h := Truncate(2, v);
      IsLow(Loaded(LH, h, before), v, 0x1_0000, true) && IsLow(Loaded(LHU, h, before), v, 0x1_0000, false)
  {
    LowPart(ToWord(v), v, 0x1_0000);
    assert ToWord(Truncate(2, v)) % 0x1_0000 == ToWord(v) % 0x1_0000;
  }
}
