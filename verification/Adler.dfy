/** The chunked Adler-32 of the encoder against the byte-by-byte definition of RFC 1950. */
module Adler {
  import opened Bits
  import opened Inflate

  /** The largest value the second accumulator can reach `k` bytes into a chunk. */
  ghost function SumBound(k: nat): nat {
    if k == 0 then 65520 else SumBound(k - 1) + 65520 + 255 * k
  }

  lemma {:induction false} SumBoundClosed(k: nat)
    ensures 2 * SumBound(k) == 2 * 65520 * (k + 1) + 255 * k * (k + 1)
  {
    if k != 0 {
      SumBoundClosed(k - 1);
    }
  }

  /** A chunk of 5552 bytes keeps both accumulators inside 32 bits. */
  lemma SumBoundFits(k: nat)
    requires k <= 5552
    ensures 65520 + 255 * k < WORD32 && SumBound(k) < WORD32
  {
    SumBoundClosed(k);
    assert k * (k + 1) <= 5552 * 5553;
    assert 255 * k * (k + 1) == 255 * (k * (k + 1));
  }

  lemma AdlerStep(data: seq<Byte>, n: nat)
    requires n < |data|
    ensures var (a, b) := AdlerSums(data[..n]);
            AdlerSums(data[..n + 1]) == ((a + data[n]) % 65521, (b + (a + data[n]) % 65521) % 65521)
  {
    assert data[..n + 1][..n] == data[..n];
  }

  /** Reducing late is reducing after every byte, as long as the accumulators hold. */
  lemma ReduceLate(s1: nat, s2: nat, d: nat)
    ensures (s1 + d) % 65521 == (s1 % 65521 + d) % 65521
    ensures (s2 + (s1 + d)) % 65521 == (s2 % 65521 + (s1 % 65521 + d) % 65521) % 65521
  {
    var q1, q2, q := s1 / 65521, s2 / 65521, (s1 % 65521 + d) / 65521;
    ModShift(s1 % 65521 + d, q1);
    ModShift(s2 % 65521 + (s1 % 65521 + d) % 65521, q2 + q1 + q);
  }

  lemma ModShift(v: nat, k: nat)
    ensures (v + 65521 * k) % 65521 == v % 65521
  {
  }

  /** The accumulators stand for the checksum of the first `n` bytes. */
  ghost predicate Reduced(s1: nat, s2: nat, data: seq<Byte>, n: nat)
    requires n <= |data|
  {
    (s1 % 65521, s2 % 65521) == AdlerSums(data[..n])
  }

  lemma ReducedStep(s1: nat, s2: nat, data: seq<Byte>, n: nat)
    requires n < |data| && Reduced(s1, s2, data, n)
    ensures Reduced(s1 + data[n], s2 + (s1 + data[n]), data, n + 1)
  {
    AdlerStep(data, n);
    ReduceLate(s1, s2, data[n]);
  }

  lemma ReducedMeans(s1: nat, s2: nat, data: seq<Byte>, n: nat)
    requires n <= |data|
    ensures Reduced(s1, s2, data, n) == ((s1 % 65521, s2 % 65521) == AdlerSums(data[..n]))
  {
  }

  /** One chunk of the checksum, with the C code's 32-bit accumulators. */
  method AdlerChunk(data: seq<Byte>, j: nat, blocklen: nat, a: nat, b: nat) returns (s1: nat, s2: nat)
    requires blocklen <= 5552 && j + blocklen <= |data| && (a, b) == AdlerSums(data[..j])
    ensures (s1, s2) == AdlerSums(data[..j + blocklen])
  {
    hide Reduced, SumBound, AdlerSums;
    s1, s2 := a, b;
    ReducedMeans(s1, s2, data, j);
    SumBoundNext(0);
    for i := 0 to blocklen
      invariant s1 <= 65520 + 255 * i && s2 <= SumBound(i)
      invariant Reduced(s1, s2, data, j + i)
    {
      SumBoundFits(i + 1);
      SumBoundNext(i);
      ReducedStep(s1, s2, data, j + i);
      s1 := (s1 + data[j + i]) % WORD32;
      s2 := (s2 + s1) % WORD32;
    }
    ReducedMeans(s1, s2, data, j + blocklen);
    s1, s2 := s1 % 65521, s2 % 65521;
  }

  lemma SumBoundNext(k: nat)
    ensures SumBound(k + 1) == SumBound(k) + 65520 + 255 * (k + 1) && SumBound(0) == 65520
  {
  }

  /** The next chunk is the odd first one, or a full one of a whole number of chunks left. */
  predicate ChunkPlan(len: nat, j: nat, blocklen: nat) {
    if j == 0 && blocklen != 5552 then blocklen == len % 5552
    else blocklen == 5552 && j <= len && (len - j) % 5552 == 0
  }

  lemma ChunkDivides(len: nat, j: nat, blocklen: nat)
    requires j < len && ChunkPlan(len, j, blocklen)
    ensures j + blocklen <= len && ChunkPlan(len, j + blocklen, 5552)
  {
  }

  // ----- the checksum as two sums over the data

  /** data[0] + ... + data[n - 1] */
  function ByteSum(data: seq<Byte>, n: nat): nat
    requires n <= |data|
  {
    if n == 0 then 0 else ByteSum(data, n - 1) + data[n - 1]
  }

  /** top * data[0] + (top - 1) * data[1] + ... over the first `n` bytes. */
  function WeightedSum(data: seq<Byte>, n: nat, top: nat): nat
    requires n <= |data| && n <= top
  {
    if n == 0 then 0 else WeightedSum(data, n - 1, top) + (top - (n - 1)) * data[n - 1]
  }

  lemma {:induction false} WeightsUp(data: seq<Byte>, n: nat, top: nat)
    requires n <= |data| && n <= top
    ensures WeightedSum(data, n, top + 1) == WeightedSum(data, n, top) + ByteSum(data, n)
  {
    if n != 0 {
      WeightsUp(data, n - 1, top);
      var w := top - (n - 1);
      assert (w + 1) * data[n - 1] == w * data[n - 1] + data[n - 1];
    }
  }

  /** One byte more is added once to the first sum, and the first sum once to the second. */
  lemma SumsUnfold(data: seq<Byte>, n: nat)
    requires n < |data|
    ensures ByteSum(data, n + 1) == ByteSum(data, n) + data[n] && ByteSum(data, 0) == 0
    ensures WeightedSum(data, n + 1, n + 1) == WeightedSum(data, n, n) + ByteSum(data, n) + data[n]
  {
    WeightsUp(data, n, n);
  }

  /** The per-byte sums are one plus the bytes, and the length plus each byte as often as it is counted. */
  lemma {:induction false} SumsClosed(data: seq<Byte>, n: nat)
    requires n <= |data|
    ensures AdlerSums(data[..n]) == ((1 + ByteSum(data, n)) % 65521, (n + WeightedSum(data, n, n)) % 65521)
  {
    if n == 0 {
      NoSums(data);
    } else {
      hide AdlerSums, ByteSum, WeightedSum;
      var s1, s2 := 1 + ByteSum(data, n - 1), n - 1 + WeightedSum(data, n - 1, n - 1);
      SumsClosed(data, n - 1);
      SumsStep(data, n - 1, s1, s2);
      SumsUnfold(data, n - 1);
    }
  }

  lemma NoSums(data: seq<Byte>)
    ensures AdlerSums(data[..0]) == (1, 0) && ByteSum(data, 0) == 0 && WeightedSum(data, 0, 0) == 0
  {
  }

  lemma SumsStep(data: seq<Byte>, n: nat, s1: nat, s2: nat)
    requires n < |data| && AdlerSums(data[..n]) == (s1 % 65521, s2 % 65521)
    ensures AdlerSums(data[..n + 1]) == ((s1 + data[n]) % 65521, (s2 + (s1 + data[n])) % 65521)
  {
    hide AdlerSums;
    AdlerStep(data, n);
    ReduceLate(s1, s2, data[n]);
  }

  /** The chunked checksum is the byte-by-byte one, whatever the length of the first chunk. */
  method Adler32(data: seq<Byte>) returns (s1: nat, s2: nat)
    ensures (s1, s2) == AdlerSums(data)
    ensures s1 == (1 + ByteSum(data, |data|)) % 65521
    ensures s2 == (|data| + WeightedSum(data, |data|, |data|)) % 65521
  {
    s1, s2 := 1, 0;
    var blocklen: nat := |data| % 5552;
    var j := 0;
    assert AdlerSums(data[..0]) == (1, 0);
    hide AdlerSums;
    while j < |data|
      invariant j <= |data| && (s1, s2) == AdlerSums(data[..j])
      invariant ChunkPlan(|data|, j, blocklen)
      decreases |data| - j, if blocklen == 0 then 1 else 0
    {
      ChunkDivides(|data|, j, blocklen);
      s1, s2 := AdlerChunk(data, j, blocklen, s1, s2);
      j := j + blocklen;
      blocklen := 5552;
    }
    assert data[..|data|] == data;
    SumsClosed(data, |data|);
  }
}
