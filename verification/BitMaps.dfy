/** The word-level bitmap of userprog/bitmap.cc, shared by the sector allocator
    and the frame allocator, and the sequence-of-bits view it is proved against. */
module BitMaps {

  import opened Words

  const BITS_IN_WORD := 32

  lemma MaskRange(k: nat)
    requires k < BITS_IN_WORD
    ensures Pow2(k) < WORD_SIZE
  {
    Pow2Monotone(k, 32);
    Pow2Values();
  }

  function SetBit(w: word, k: nat): (r: word)
    requires k < BITS_IN_WORD
    ensures forall j: nat :: Bit(r, j) == (j == k || Bit(w, j))
  {
    MaskRange(k); Pow2Values(); BitwiseRange(w, Pow2(k), 32);
    assert forall j: nat :: Bit(Or(w, Pow2(k)), j) == (j == k || Bit(w, j)) by {
      forall j: nat ensures Bit(Or(w, Pow2(k)), j) == (j == k || Bit(w, j)) {
        BitwiseBits(w, Pow2(k), j);
        BitPow2(j, k);
      }
    }
    Or(w, Pow2(k))
  }

  function ClearBit(w: word, k: nat): (r: word)
    requires k < BITS_IN_WORD
    ensures forall j: nat :: Bit(r, j) == (j != k && Bit(w, j))
  {
    MaskRange(k); Pow2Values(); BitwiseRange(w, Pow2(k), 32);
    assert forall j: nat :: Bit(AndNot(w, Pow2(k)), j) == (j != k && Bit(w, j)) by {
      forall j: nat ensures Bit(AndNot(w, Pow2(k)), j) == (j != k && Bit(w, j)) {
        BitwiseBits(w, Pow2(k), j);
        BitPow2(j, k);
      }
    }
    AndNot(w, Pow2(k))
  }

  ghost function BitsOf(words: seq<word>, n: nat): (bits: seq<bool>)
    requires |words| == DivRoundUp(n, BITS_IN_WORD)
  {
    seq(n, i requires 0 <= i < n => Bit(words[i / BITS_IN_WORD], i % BITS_IN_WORD))
  }

  // ----- allocation on a sequence of bits

  ghost function CountClear(bits: seq<bool>): (n: nat)
    ensures n <= |bits|
  {
    if bits == [] then 0
    else CountClear(bits[..|bits| - 1]) + if bits[|bits| - 1] then 0 else 1
  }

  ghost predicate IsFirstClear(bits: seq<bool>, k: int) {
    0 <= k < |bits| && !bits[k] && forall j :: 0 <= j < k ==> bits[j]
  }

  /** Marking a clear bit lowers the number of clear bits by one. */
  lemma {:induction false} CountClearMark(bits: seq<bool>, k: nat)
    requires k < |bits| && !bits[k]
    ensures CountClear(bits[k := true]) == CountClear(bits) - 1
  {
    var m := |bits| - 1;
    if k < m {
      CountClearMark(bits[..m], k);
      assert bits[k := true][..m] == bits[..m][k := true];
    } else {
      assert bits[k := true][..m] == bits[..m];
    }
  }

  lemma {:induction false} CountClearZero(bits: seq<bool>)
    ensures CountClear(bits) == 0 <==> forall i :: 0 <= i < |bits| ==> bits[i]
  {
    if bits != [] {
      CountClearZero(bits[..|bits| - 1]);
    }
  }

  lemma {:induction false} CountClearEmpty(n: nat)
    ensures CountClear(seq(n, i => false)) == n
  {
    if n > 0 {
      CountClearEmpty(n - 1);
      assert seq(n, i => false)[..n - 1] == seq(n - 1, i => false);
    }
  }

  ghost predicate Distinct<T>(s: seq<T>) {
    forall i, j :: 0 <= i < j < |s| ==> s[i] != s[j]
  }

  /** `slots` are the lowest clear bits of `before`, in order, and marking them gives `after`. */
  ghost predicate Allocated(before: seq<bool>, after: seq<bool>, slots: seq<int>) {
    && |after| == |before|
    && (forall i, j :: 0 <= i < j < |slots| ==> slots[i] < slots[j])
    && (forall i :: 0 <= i < |slots| ==> 0 <= slots[i] < |before| && !before[slots[i]])
    && (forall s :: 0 <= s < |before| ==> after[s] == (before[s] || s in slots))
    && (forall i, s :: 0 <= i < |slots| && 0 <= s < slots[i] ==> after[s])
  }

  lemma AllocatedStep(before: seq<bool>, bits: seq<bool>, slots: seq<int>, slot: int)
    requires Allocated(before, bits, slots) && IsFirstClear(bits, slot)
    ensures Allocated(before, bits[slot := true], slots + [slot])
  {
  }

  /** Taking k slots lowers the number of clear bits by k. */
  lemma {:induction false} AllocatedCount(before: seq<bool>, after: seq<bool>, slots: seq<int>)
    requires Allocated(before, after, slots)
    ensures CountClear(after) == CountClear(before) - |slots|
    decreases |slots|
  {
    if slots == [] {
      assert after == before;
    } else {
      var k, last := |slots| - 1, slots[|slots| - 1];
      var after' := after[last := false];
      assert forall s :: s in slots <==> s in slots[..k] || s == last;
      AllocatedCount(before, after', slots[..k]);
      CountClearMark(after', last);
      assert after'[last := true] == after;
    }
  }

  /** Of the slots, those below m come first, and there are as many as there are clear bits below m, or all. */
  lemma {:induction false} SlotsBelow(before: seq<bool>, after: seq<bool>, slots: seq<int>, m: nat) returns (k: nat)
    requires Allocated(before, after, slots) && m <= |before|
    ensures k <= |slots| && (forall i :: 0 <= i < k ==> slots[i] < m) && (forall i :: k <= i < |slots| ==> slots[i] >= m)
    ensures k == if |slots| <= CountClear(before[..m]) then |slots| else CountClear(before[..m])
    decreases m
  {
    if m == 0 {
      k := 0;
    } else {
      k := SlotsBelow(before, after, slots, m - 1);
      assert before[..m][..m - 1] == before[..m - 1];
      if k < |slots| {
        assert slots[k] == m - 1 || after[m - 1];
        if slots[k] == m - 1 {
          k := k + 1;
        } else {
          assert m - 1 !in slots;
        }
      }
    }
  }

  /** The slots are all below m exactly when there are no more of them than clear bits below m. */
  lemma AllBelow(before: seq<bool>, after: seq<bool>, slots: seq<int>, m: nat)
    requires Allocated(before, after, slots) && m <= |before|
    ensures (forall i :: 0 <= i < |slots| ==> slots[i] < m) <==> |slots| <= CountClear(before[..m])
  {
    var k := SlotsBelow(before, after, slots, m);
    if k < |slots| {
      assert slots[k] >= m;
    }
  }

  class BitMap {
    const numBits: nat
    const words: array<word>

    ghost predicate Valid() {
      words.Length == DivRoundUp(numBits, BITS_IN_WORD)
    }

    ghost function Bits(): seq<bool>
      requires Valid()
      reads words
    {
      BitsOf(words[..], numBits)
    }

    constructor (nitems: nat)
      ensures Valid() && fresh(words) && numBits == nitems
      ensures Bits() == seq(nitems, i => false)
    {
      numBits := nitems;
      words := new word[DivRoundUp(nitems, BITS_IN_WORD)];
      new;
      for i := 0 to numBits
        invariant forall j :: 0 <= j < i ==> !Bits()[j]
      {
        Clear(i);
      }
    }

    method Mark(which: nat)
      requires Valid() && which < numBits
      modifies words
      ensures Bits() == old(Bits())[which := true]
    {
      var w := words[which / BITS_IN_WORD];
      words[which / BITS_IN_WORD] := SetBit(w, which % BITS_IN_WORD);
      assert forall i :: 0 <= i < numBits ==> Bits()[i] == old(Bits())[which := true][i];
    }

    method Clear(which: nat)
      requires Valid() && which < numBits
      modifies words
      ensures Bits() == old(Bits())[which := false]
    {
      var w := words[which / BITS_IN_WORD];
      words[which / BITS_IN_WORD] := ClearBit(w, which % BITS_IN_WORD);
      assert forall i :: 0 <= i < numBits ==> Bits()[i] == old(Bits())[which := false][i];
    }

    method Test(which: nat) returns (b: bool)
      requires Valid() && which < numBits
      ensures b == Bits()[which]
    {
      TestBit(words[which / BITS_IN_WORD], which % BITS_IN_WORD);
      b := And(words[which / BITS_IN_WORD], Pow2(which % BITS_IN_WORD)) != 0;
    }

    /** Finds and marks the lowest clear bit; -1, and no change, when there is none. */
    method FindFreeSlot() returns (slot: int)
      requires Valid()
      modifies words
      ensures slot == -1 <==> CountClear(old(Bits())) == 0
      ensures slot == -1 ==> Bits() == old(Bits())
      ensures slot != -1 ==> IsFirstClear(old(Bits()), slot) && Bits() == old(Bits())[slot := true]
    {
      ghost var bits := Bits();
      CountClearZero(bits);
      for i := 0 to numBits
        invariant Bits() == bits
        invariant forall j :: 0 <= j < i ==> bits[j]
      {
        var used := Test(i);
        if !used {
          Mark(i);
          return i;
        }
      }
      return -1;
    }

    method NumClear() returns (count: nat)
      requires Valid()
      ensures count == CountClear(Bits())
    {
      count := 0;
      for i := 0 to numBits
        invariant count == CountClear(Bits()[..i])
      {
        var used := Test(i);
        assert Bits()[..i + 1][..i] == Bits()[..i];
        if !used {
          count := count + 1;
        }
      }
      assert Bits()[..numBits] == Bits();
    }
  }
}
