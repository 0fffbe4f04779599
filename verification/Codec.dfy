/** Byte images of the structures kept on disk: little-endian words, and the
    flattening of equal-sized records into one byte string. */
module Codec {
  import opened Words

  type byte = b: int | 0 <= b < 256

  type int32 = i: int | -0x8000_0000 <= i < 0x8000_0000

  function ToSigned(w: word): int32 {
    if w < 0x8000_0000 then w else w - WORD_SIZE
  }

  function ToWord(i: int32): word {
    if i >= 0 then i else i + WORD_SIZE
  }

  /** An integer as a C int holds it. */
  function Wrap(i: int): int32 {
    ToSigned(i % WORD_SIZE)
  }

  lemma WrapExact(i: int)
    ensures Wrap(i) == i <==> -0x8000_0000 <= i < 0x8000_0000
  {
  }

  lemma WrapStep(x: int, d: int)
    ensures Wrap(10 * Wrap(x) + d) == Wrap(10 * x + d)
  {
    var q := (x - Wrap(x)) / WORD_SIZE;
    assert x == Wrap(x) + q * WORD_SIZE;
    assert 10 * x + d == 10 * Wrap(x) + d + 10 * q * WORD_SIZE;
    WrapShift(10 * Wrap(x) + d, 10 * q);
  }

  /** A word or an int differs from what it stands for by a multiple of 2^32. */
  lemma Congruent(i: int, j: int32)
    ensures (Wrap(i) - i) % WORD_SIZE == 0 && (ToWord(j) - j) % WORD_SIZE == 0
  {
    var r := i % WORD_SIZE;
    assert i == i / WORD_SIZE * WORD_SIZE + r;
    Multiple(-(i / WORD_SIZE), Wrap(i) - i);
    Multiple(-(i / WORD_SIZE) - 1, Wrap(i) - i);
  }

  lemma Multiple(k: int, x: int)
    ensures x == k * WORD_SIZE ==> x % WORD_SIZE == 0
  {
  }

  lemma WrapShift(x: int, k: int)
    ensures Wrap(x + k * WORD_SIZE) == Wrap(x)
  {
    assert (x + k * WORD_SIZE) % WORD_SIZE == x % WORD_SIZE;
  }

  function EncodeWord(w: word): (bs: seq<byte>)
    ensures |bs| == 4
  {
    [w % 0x100, w / 0x100 % 0x100, w / 0x1_0000 % 0x100, w / 0x100_0000]
  }

  function DecodeWord(bs: seq<byte>): word
    requires |bs| == 4
  {
    var (b0: int, b1: int, b2: int, b3: int) := (bs[0], bs[1], bs[2], bs[3]);
    b0 + 0x100 * b1 + 0x1_0000 * b2 + 0x100_0000 * b3
  }

  lemma WordRoundTrip(w: word)
    ensures DecodeWord(EncodeWord(w)) == w
  {
    assert w / 0x1_0000 == w / 0x100 / 0x100;
    assert w / 0x100_0000 == w / 0x1_0000 / 0x100;
  }

  // ----- records of n elements laid end to end

  ghost predicate Uniform<T>(records: seq<seq<T>>, n: nat) {
    forall i :: 0 <= i < |records| ==> |records[i]| == n
  }

  lemma MulCancel(a: int, b: int, n: nat)
    requires a * n < b * n
    ensures a < b
  {
  }

  lemma RecordIndex(i: nat, j: nat, n: nat)
    requires j < n
    ensures (i * n + j) / n == i && (i * n + j) % n == j
  {
    var q := (i * n + j) / n;
    assert q * n <= i * n + j < q * n + n;
    assert q * n < (i + 1) * n && i * n < (q + 1) * n;
    MulCancel(q, i + 1, n);
    MulCancel(i, q + 1, n);
  }

  lemma RecordBound(p: nat, k: nat, n: nat)
    requires n > 0 && p < k * n
    ensures p / n < k
  {
    assert p / n * n <= p;
    MulCancel(p / n, k, n);
  }

  lemma RecordFits(i: nat, k: nat, n: nat)
    requires i < k
    ensures 0 <= i * n <= i * n + n <= k * n
  {
    assert k * n == i * n + n + (k - i - 1) * n;
  }

  function Join<T>(records: seq<seq<T>>, n: nat): (flat: seq<T>)
    requires n > 0 && Uniform(records, n)
    ensures |flat| == |records| * n
  {
    seq(|records| * n, p requires 0 <= p < |records| * n =>
      RecordBound(p, |records|, n); records[p / n][p % n])
  }

  function Record<T>(flat: seq<T>, k: nat, n: nat, i: nat): (record: seq<T>)
    requires i < k && |flat| == k * n
    ensures |record| == n
  {
    RecordFits(i, k, n);
    flat[i * n..i * n + n]
  }

  function Split<T>(flat: seq<T>, k: nat, n: nat): (records: seq<seq<T>>)
    requires |flat| == k * n
    ensures |records| == k && Uniform(records, n)
  {
    seq(k, i requires 0 <= i < k => Record(flat, k, n, i))
  }

  /** Cutting a joined string gives back the records it was joined from. */
  lemma SplitJoin<T>(records: seq<seq<T>>, n: nat)
    requires n > 0 && Uniform(records, n)
    ensures Split(Join(records, n), |records|, n) == records
  {
    var flat := Join(records, n);
    forall i | 0 <= i < |records|
      ensures Split(flat, |records|, n)[i] == records[i]
    {
      RecordFits(i, |records|, n);
      forall j | 0 <= j < n
        ensures flat[i * n..i * n + n][j] == records[i][j]
      {
        RecordIndex(i, j, n);
      }
    }
  }

  /** `s` with `data` stored at index `at`. */
  ghost function Splice<T>(s: seq<T>, at: nat, data: seq<T>): (r: seq<T>)
    ensures |r| == |s|
  {
    seq(|s|, p requires 0 <= p < |s| => if at <= p < at + |data| then data[p - at] else s[p])
  }

  // ----- arrays of words

  function EncodeWords(ws: seq<word>): (bs: seq<byte>)
    ensures |bs| == |ws| * 4
  {
    Join(seq(|ws|, i requires 0 <= i < |ws| => EncodeWord(ws[i])), 4)
  }

  function DecodeWords(bs: seq<byte>, k: nat): (ws: seq<word>)
    requires |bs| == k * 4
    ensures |ws| == k
  {
    var records := Split(bs, k, 4);
    seq(k, i requires 0 <= i < k => DecodeWord(records[i]))
  }

  lemma WordsRoundTrip(ws: seq<word>)
    ensures DecodeWords(EncodeWords(ws), |ws|) == ws
  {
    var records := seq(|ws|, i requires 0 <= i < |ws| => EncodeWord(ws[i]));
    SplitJoin(records, 4);
    forall i | 0 <= i < |ws|
      ensures DecodeWords(EncodeWords(ws), |ws|)[i] == ws[i]
    {
      WordRoundTrip(ws[i]);
    }
  }
}
