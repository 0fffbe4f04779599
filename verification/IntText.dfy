/** Integers as text: the PrintInt and ReadInt system calls (userprog/exception.cc). Characters are
    C's signed char values. */
module IntText {
  import opened Basics
  import opened Words
  import opened Codec
  import opened Mips

  type cchar = c: int | -128 <= c < 128

  const MINUS: cchar := 45
  const DOT: cchar := 46
  const ZERO: cchar := 48
  const MIN_INT: int32 := -0x8000_0000
  const BUFFER_SIZE := 256

  // ----- printing

  function Remainder10(m: int32): int {
    m - 10 * Quotient(m, 10)
  }

  /** The characters of m, each its C remainder by 10 plus 48: digits unless m is negative. */
  function Digits(m: int32): seq<cchar>
    decreases Abs(m)
  {
    if m == 0 then [] else Digits(Quotient(m, 10)) + [Remainder10(m) + 48]
  }

  /** What PrintInt writes. Negating the minimum leaves it as it is. */
  function Text(n: int32): seq<cchar> {
    if n == 0 then [ZERO] else if n > 0 then Digits(n) else [MINUS] + Digits(Wrap(-(n as int)))
  }

  function Pow10(k: nat): nat {
    if k == 0 then 1 else 10 * Pow10(k - 1)
  }

  lemma {:induction false} DigitsLength(m: int32, k: nat)
    requires Abs(m) < Pow10(k)
    ensures |Digits(m)| <= k
    decreases k
  {
    if m != 0 {
      DigitsLength(Quotient(m, 10), k - 1);
    }
  }

  lemma DigitsFit(m: int32)
    ensures |Digits(m)| <= 10
  {
    assert Pow10(5) == 100000;
    assert Pow10(10) == 10000000000;
    DigitsLength(m, 10);
  }

  method CountDigits(number: int32) returns (numLength: nat)
    ensures numLength == |Digits(number)|
  {
    numLength := 0;
    var tmp: int32 := number;
    while tmp != 0
      invariant numLength + |Digits(tmp)| == |Digits(number)|
      decreases Abs(tmp)
    {
      numLength := numLength + 1;
      tmp := Quotient(tmp, 10);
    }
  }

  /** Fills the buffer backwards, from the last digit. */
  method FillDigits(buffer: array<cchar>, firstIndex: nat, number0: int32, numLength: nat)
    requires numLength == |Digits(number0)| && firstIndex + numLength <= buffer.Length
    modifies buffer
    ensures buffer[firstIndex..firstIndex + numLength] == Digits(number0)
  {
    var number: int32 := number0;
    var i := firstIndex + numLength - 1;
    while i >= firstIndex
      invariant firstIndex - 1 <= i < firstIndex + numLength && |Digits(number)| == i + 1 - firstIndex
      invariant Digits(number) + buffer[i + 1..firstIndex + numLength] == Digits(number0)
    {
      buffer[i] := Remainder10(number) + 48;
      assert buffer[i..firstIndex + numLength] == [buffer[i]] + buffer[i + 1..firstIndex + numLength];
      number := Quotient(number, 10);
      i := i - 1;
    }
  }

  method PrintInt(number0: int32) returns (written: seq<cchar>)
    ensures written == Text(number0)
  {
    var number := number0;
    if number == 0 {
      return [ZERO];
    }
    var isNegative, firstIndex := false, 0;
    if number < 0 {
      isNegative, number, firstIndex := true, Wrap(number as int * -1), 1;
    }
    DigitsFit(number);
    var numLength := CountDigits(number);
    var buffer := new cchar[BUFFER_SIZE];
    FillDigits(buffer, firstIndex, number, numLength);
    if isNegative {
      buffer[0] := MINUS;
      assert buffer[..numLength + 1] == [MINUS] + buffer[1..numLength + 1];
      return buffer[..numLength + 1];
    }
    return buffer[..numLength];
  }

  // ----- reading

  /** The number a string of characters stands for, whatever the characters. */
  function Value(s: seq<cchar>): int {
    if s == [] then 0 else 10 * Value(s[..|s| - 1]) + s[|s| - 1] - 48
  }

  /** The first dot from i on, or n. */
  function FirstDot(buffer: seq<cchar>, i: nat, n: nat): (d: nat)
    requires n <= |buffer|
    ensures i <= n ==> i <= d <= n
    decreases n - i
  {
    if i >= n || buffer[i] == DOT then i else FirstDot(buffer, i + 1, n)
  }

  predicate AllZeros(s: seq<cchar>) {
    forall i :: 0 <= i < |s| ==> s[i] == ZERO
  }

  function First(buffer: seq<cchar>): nat
    requires |buffer| == BUFFER_SIZE
  {
    if buffer[0] == MINUS then 1 else 0
  }

  /** One past the last character taken as a digit; with nothing to scan that is one character all the same. */
  function End(buffer: seq<cchar>, n: nat): nat
    requires |buffer| == BUFFER_SIZE && n < BUFFER_SIZE
  {
    var first := First(buffer);
    if n <= first then first + 1 else FirstDot(buffer, first, n)
  }

  /** What ReadInt delivers for the n characters read into its buffer. */
  function Parse(buffer: seq<cchar>, n: nat): int32
    requires |buffer| == BUFFER_SIZE && n < BUFFER_SIZE
  {
    var first, end := First(buffer), End(buffer, n);
    if end < n && !AllZeros(buffer[end + 1..n]) then 0
    else
      var value := Value(buffer[first..end]);
      Wrap(if first == 1 then -value else value)
  }

  method OnlyZeros(buffer: seq<cchar>, start: nat, numbytes: nat) returns (zeros: bool)
    requires start <= numbytes <= |buffer|
    ensures zeros == AllZeros(buffer[start..numbytes])
  {
    for j := start to numbytes
      invariant AllZeros(buffer[start..j])
    {
      if buffer[j] != ZERO {
        assert buffer[start..numbytes][j - start] != ZERO;
        return false;
      }
      assert buffer[start..j + 1] == buffer[start..j] + [buffer[j]];
    }
    return true;
  }

  /** The test that rejects characters below '0' and above '9' at once never holds, so any character but
      a dot is taken for a digit. */
  method ReadInt(buffer: seq<cchar>, numbytes: nat) returns (number: int32)
    requires |buffer| == BUFFER_SIZE && numbytes < BUFFER_SIZE
    ensures number == Parse(buffer, numbytes)
  {
    var isNegative, firstIndex, lastIndex := false, 0, 0;
    if buffer[0] == MINUS {
      isNegative, firstIndex, lastIndex := true, 1, 1;
    }
    var i := firstIndex;
    while i < numbytes
      invariant firstIndex <= i && (i <= numbytes || i == firstIndex)
      invariant lastIndex == if i == firstIndex then firstIndex else i - 1
      invariant FirstDot(buffer, i, numbytes) == FirstDot(buffer, firstIndex, numbytes)
    {
      if buffer[i] == DOT {
        var zeros := OnlyZeros(buffer, i + 1, numbytes);
        if !zeros {
          return 0;
        }
        lastIndex := i - 1;
        break;
      }
      lastIndex := i;
      i := i + 1;
    }
    number := SumDigits(buffer, firstIndex, lastIndex);
    WrapNegated(Value(buffer[firstIndex..lastIndex + 1]));
    if isNegative {
      number := Wrap(number as int * -1);
    }
  }

  lemma WrapNegated(x: int)
    ensures Wrap(-(Wrap(x) as int)) == Wrap(-x)
  {
    var q := (x - Wrap(x)) / WORD_SIZE;
    var w: int := Wrap(x);
    assert -x == -w + (-q) * WORD_SIZE;
    WrapShift(-w, -q);
  }

  method SumDigits(buffer: seq<cchar>, firstIndex: nat, lastIndex: int) returns (number: int32)
    requires |buffer| == BUFFER_SIZE && firstIndex - 1 <= lastIndex < BUFFER_SIZE
    ensures number == Wrap(Value(buffer[firstIndex..lastIndex + 1]))
  {
    number := 0;
    for i := firstIndex to lastIndex + 1
      invariant number == Wrap(Value(buffer[firstIndex..i]))
    {
      WrapStep(Value(buffer[firstIndex..i]), buffer[i] as int - 48);
      assert buffer[firstIndex..i + 1][..i - firstIndex] == buffer[firstIndex..i];
      number := Wrap(number * 10 + buffer[i] - 48);
    }
  }

  // ----- reading back what was printed

  predicate IsDigits(s: seq<cchar>) {
    forall i :: 0 <= i < |s| ==> 48 <= s[i] <= 57
  }

  lemma {:induction false} DigitsValue(m: int32)
    ensures Value(Digits(m)) == m
    decreases Abs(m)
  {
    if m != 0 {
      DigitsValue(Quotient(m, 10));
      assert Digits(m)[..|Digits(m)| - 1] == Digits(Quotient(m, 10));
    }
  }

  lemma {:induction false} DigitsAreDigits(m: int32)
    requires m >= 0
    ensures IsDigits(Digits(m))
    decreases m
  {
    if m != 0 {
      DigitsAreDigits(Quotient(m, 10));
    }
  }

  lemma {:induction false} FirstDotIs(buffer: seq<cchar>, i: nat, d: nat, n: nat)
    requires i <= d <= n <= |buffer|
    requires forall k :: i <= k < d ==> buffer[k] != DOT
    requires d < n ==> buffer[d] == DOT
    ensures FirstDot(buffer, i, n) == d
    decreases d - i
  {
    if i < d {
      FirstDotIs(buffer, i + 1, d, n);
    }
  }

  lemma ParseAt(buffer: seq<cchar>, n: nat, end: nat, digits: seq<cchar>)
    requires |buffer| == BUFFER_SIZE && n < BUFFER_SIZE && First(buffer) < end <= n
    requires buffer[First(buffer)..end] == digits && IsDigits(digits)
    requires end < n ==> buffer[end] == DOT
    ensures Parse(buffer, n) ==
      if end < n && !AllZeros(buffer[end + 1..n]) then 0
      else Wrap(if First(buffer) == 1 then -Value(digits) else Value(digits))
  {
    var first := First(buffer);
    forall k | first <= k < end
      ensures buffer[k] != DOT
    {
      assert digits[k - first] >= 48;
    }
    FirstDotIs(buffer, first, end, n);
  }

  lemma ParseBetween(buffer: seq<cchar>, n: nat, end: nat, digits: seq<cchar>, i: int32)
    requires |buffer| == BUFFER_SIZE && n < BUFFER_SIZE && First(buffer) < end <= n
    requires buffer[First(buffer)..end] == digits && IsDigits(digits)
    requires Value(digits) == if First(buffer) == 1 then -(i as int) else i
    requires end < n ==> buffer[end] == DOT && AllZeros(buffer[end + 1..n])
    ensures Parse(buffer, n) == i
  {
    ParseAt(buffer, n, end, digits);
    WrapExact(i);
  }

  /** Any text of digits, after a minus or not and before a dot or not, is read as the int its digits stand for when
      nothing but zeros follows the dot, and as zero otherwise. */
  lemma ParseText(buffer: seq<cchar>, n: nat, minus: bool, digits: seq<cchar>, tail: seq<cchar>)
    requires |buffer| == BUFFER_SIZE && n < BUFFER_SIZE
    requires buffer[..n] == (if minus then [MINUS] else []) + digits + tail
    requires digits != [] && IsDigits(digits) && (tail != [] ==> tail[0] == DOT)
    ensures var zeros := forall i :: 0 < i < |tail| ==> tail[i] == 48;
      Parse(buffer, n) == if zeros then Wrap(if minus then -Value(digits) else Value(digits)) else 0
  {
    var sign, end := if minus then [MINUS] else [], One(minus) + |digits|;
    PartsOf(buffer, n, sign, digits, tail);
    assert buffer[0] == if minus then MINUS else digits[0];
    ParseAt(buffer, n, end, digits);
    TailZeros(tail);
  }

  /** With nothing to read, or nothing after the minus, the character the buffer happens to hold there is read. */
  lemma ParseNothing(buffer: seq<cchar>, n: nat)
    requires |buffer| == BUFFER_SIZE && n < BUFFER_SIZE
    ensures n == 0 && buffer[0] != 45 ==> Parse(buffer, n) == buffer[0] as int - 48
    ensures n <= 1 && buffer[0] == 45 ==> Parse(buffer, n) == 48 - buffer[1] as int
  {
    var first := First(buffer);
    if n <= first {
      OneCharacter(buffer[first]);
      assert buffer[first..first + 1] == [buffer[first]];
      WrapExact(buffer[first] as int - 48);
      WrapExact(48 - buffer[first] as int);
    }
  }

  lemma OneCharacter(c: cchar)
    ensures Value([c]) == c as int - 48
  {
    assert [c][..0] == [];
  }

  lemma PartsOf(buffer: seq<cchar>, n: nat, sign: seq<cchar>, digits: seq<cchar>, tail: seq<cchar>)
    requires n <= |buffer| && buffer[..n] == sign + digits + tail
    ensures var first, end := |sign|, |sign| + |digits|;
      && end <= n && sign <= buffer && buffer[first..end] == digits && buffer[end..n] == tail
      && (tail != [] ==> end < n && buffer[end] == tail[0] && buffer[end + 1..n] == tail[1..])
      && (tail == [] ==> end == n)
  {
    var text, first, end := buffer[..n], |sign|, |sign| + |digits|;
    assert buffer[..first] == text[..first] == sign;
    assert buffer[first..end] == text[first..end] == digits;
    assert buffer[end..n] == text[end..] == tail;
    if tail != [] {
      assert buffer[end + 1..n] == buffer[end..n][1..];
      assert buffer[end] == buffer[end..n][0];
    }
  }

  lemma TailZeros(tail: seq<cchar>)
    ensures tail != [] ==> (AllZeros(tail[1..]) <==> forall i :: 0 < i < |tail| ==> tail[i] == 48)
  {
    if tail != [] && AllZeros(tail[1..]) {
      forall i | 0 < i < |tail|
        ensures tail[i] == 48
      {
        assert tail[i] == tail[1..][i - 1];
      }
    }
  }

  predicate IsTail(tail: seq<cchar>) {
    tail == [] || (tail[0] == DOT && AllZeros(tail[1..]))
  }

  lemma TailAt(buffer: seq<cchar>, n: nat, head: seq<cchar>, tail: seq<cchar>)
    requires n <= |buffer| && buffer[..n] == head + tail && IsTail(tail)
    ensures |head| <= n && head <= buffer
    ensures |head| < n ==> buffer[|head|] == DOT && AllZeros(buffer[|head| + 1..n])
  {
    var end := |head|;
    assert buffer[..end] == buffer[..n][..end];
    if end < n {
      assert buffer[end] == buffer[..n][end] == tail[0];
      assert buffer[end + 1..n] == buffer[..n][end + 1..] == tail[1..];
    }
  }

  /** A minus if n is negative, then its digits. */
  ghost predicate Writes(n: int32, digits: seq<cchar>, text: seq<cchar>) {
    && digits != [] && IsDigits(digits) && Value(digits) == Abs(n)
    && text == (if n < 0 then [MINUS] else []) + digits
  }

  lemma TextWrites(n: int32) returns (digits: seq<cchar>)
    requires n != MIN_INT
    ensures Writes(n, digits, Text(n))
  {
    if n == 0 {
      digits := [ZERO];
      assert Text(0) == [] + [ZERO];
    } else {
      digits := Digits(Abs(n));
      WrapExact(-(n as int));
      PositiveDigits(Abs(n));
      assert Text(n) == (if n < 0 then [MINUS] else []) + digits;
    }
  }

  lemma PositiveDigits(m: int32)
    requires m > 0
    ensures Digits(m) != [] && IsDigits(Digits(m)) && Value(Digits(m)) == m
  {
    DigitsValue(m);
    DigitsAreDigits(m);
  }

  lemma HeadAt(buffer: seq<cchar>, n: int32, digits: seq<cchar>, head: seq<cchar>)
    requires |buffer| == BUFFER_SIZE && Writes(n, digits, head) && head <= buffer
    ensures First(buffer) == (if n < 0 then 1 else 0) < |head| && buffer[First(buffer)..|head|] == digits
  {
    assert buffer[0] == head[0];
    assert buffer[First(buffer)..|head|] == head[First(buffer)..];
  }

  lemma ParseWritten(n: int32, buffer: seq<cchar>, numbytes: nat, digits: seq<cchar>, head: seq<cchar>, tail: seq<cchar>)
    requires |buffer| == BUFFER_SIZE && numbytes < BUFFER_SIZE && Writes(n, digits, head)
    requires buffer[..numbytes] == head + tail && IsTail(tail)
    ensures Parse(buffer, numbytes) == n
  {
    TailAt(buffer, numbytes, head, tail);
    HeadAt(buffer, n, digits, head);
    ParseBetween(buffer, numbytes, |head|, digits, n);
  }

  lemma RoundTripSmallest(buffer: seq<cchar>, numbytes: nat, tail: seq<cchar>)
    requires |buffer| == BUFFER_SIZE && numbytes < BUFFER_SIZE && buffer[..numbytes] == Text(MIN_INT) + tail
    ensures Parse(buffer, numbytes) == 0
  {
    SmallestText();
    var text := buffer[..numbytes];
    assert buffer[0] == text[0] == MINUS && buffer[1] == text[1] == DOT && buffer[2] == text[2] == 47;
    assert buffer[2..numbytes][0] != ZERO;
  }

  /** ReadInt reads what PrintInt wrote, also with a dot and zeros after it, exactly for the ints that are
      not the smallest; that one comes back as zero. */
  lemma RoundTrip(n: int32, buffer: seq<cchar>, numbytes: nat, tail: seq<cchar>)
    requires |buffer| == BUFFER_SIZE && numbytes < BUFFER_SIZE && buffer[..numbytes] == Text(n) + tail && IsTail(tail)
    ensures Parse(buffer, numbytes) == n <==> n != MIN_INT
    ensures n == MIN_INT ==> Parse(buffer, numbytes) == 0
  {
    if n == MIN_INT {
      RoundTripSmallest(buffer, numbytes, tail);
    } else {
      var digits := TextWrites(n);
      ParseWritten(n, buffer, numbytes, digits, Text(n), tail);
    }
  }

  lemma NextDigit(q: int32, d: int, m: int32)
    requires q <= 0 && -9 <= d <= 0 && m == 10 * q + d && m != 0
    ensures Digits(m) == Digits(q) + [d + 48]
  {
  }

  /** The smallest int is written with the characters below the digits; the first of them is a dot. */
  lemma SmallestText()
    ensures Text(MIN_INT) == [MINUS, DOT, 47, 44, 41, 44, 40, 45, 42, 44, 40]
  {
    NextDigit(0, -2, -2);
    NextDigit(-2, -1, -21);
    NextDigit(-21, -4, -214);
    NextDigit(-214, -7, -2147);
    NextDigit(-2147, -4, -21474);
    NextDigit(-21474, -8, -214748);
    NextDigit(-214748, -3, -2147483);
    NextDigit(-2147483, -6, -21474836);
    NextDigit(-21474836, -4, -214748364);
    NextDigit(-214748364, -8, MIN_INT);
    assert Wrap(-(MIN_INT as int)) == MIN_INT;
  }
}
