/** Bits, bytes and the machine-word operations the encoders are written in.
    Words are naturals; the 32-bit truncation of a shift is written out. */
module Bits {
  type Byte = b: int | 0 <= b < 256
  type Bitstring = seq<bool>

  const WORD32 := 0x1_0000_0000

  function Pow2(n: nat): (p: nat)
    ensures p >= 1
  {
    if n == 0 then 1 else 2 * Pow2(n - 1)
  }

  /** Bitwise `|` of two unsigned words. */
  function BitOr(x: nat, y: nat): nat
  {
    if x == 0 && y == 0 then 0
    else (if x % 2 == 1 || y % 2 == 1 then 1 else 0) + 2 * BitOr(x / 2, y / 2)
  }

  /** `v << k` on a 32-bit unsigned word. */
  function Shl32(v: nat, k: nat): nat {
    v * Pow2(k) % WORD32
  }

  function BitOf(b: bool): nat {
    if b then 1 else 0
  }

  /** The low `n` bits of `v`, least significant first (RFC 1951 section 3.1.1, data elements). */
  function LsbBits(v: nat, n: nat): (bits: Bitstring)
    ensures |bits| == n
  {
    if n == 0 then [] else [v % 2 == 1] + LsbBits(v / 2, n - 1)
  }

  /** The low `n` bits of `v`, most significant first (RFC 1951 section 3.1.1, Huffman codes). */
  function MsbBits(v: nat, n: nat): (bits: Bitstring)
    ensures |bits| == n
  {
    if n == 0 then [] else MsbBits(v / 2, n - 1) + [v % 2 == 1]
  }

  function LsbValue(bits: Bitstring): (v: nat)
    ensures v < Pow2(|bits|)
  {
    if bits == [] then 0 else BitOf(bits[0]) + 2 * LsbValue(bits[1..])
  }

  function MsbValue(bits: Bitstring): nat {
    if bits == [] then 0 else 2 * MsbValue(bits[..|bits| - 1]) + BitOf(bits[|bits| - 1])
  }

  /** A byte sequence as one bit sequence, each byte least significant bit first. */
  function BytesBits(bytes: seq<Byte>): (bits: Bitstring)
    ensures |bits| == 8 * |bytes|
  {
    if bytes == [] then []
    else BytesBits(bytes[..|bytes| - 1]) + LsbBits(bytes[|bytes| - 1], 8)
  }

  /** Every whole byte of a bit sequence; the inverse of BytesBits. */
  function BitsBytes(bits: Bitstring): (bytes: seq<Byte>)
    requires |bits| % 8 == 0
    ensures |bytes| == |bits| / 8
    decreases |bits|
  {
    if bits == [] then []
    else
      assert Pow2(|bits[..8]|) == 256;
      [LsbValue(bits[..8])] + BitsBytes(bits[8..])
  }

  // ----- powers

  lemma {:induction false} Pow2Add(m: nat, n: nat)
    ensures Pow2(m + n) == Pow2(m) * Pow2(n)
  {
    if m != 0 {
      Pow2Add(m - 1, n);
      assert Pow2(m + n) == 2 * Pow2(m - 1 + n);
    }
  }

  lemma {:induction false} Pow2Mono(m: nat, n: nat)
    requires m <= n
    ensures Pow2(m) <= Pow2(n)
    decreases n
  {
    if m < n {
      Pow2Mono(m, n - 1);
    }
  }

  lemma Pow2Values()
    ensures Pow2(1) == 2 && Pow2(2) == 4 && Pow2(3) == 8 && Pow2(4) == 16 && Pow2(5) == 32
    ensures Pow2(6) == 64 && Pow2(7) == 128 && Pow2(8) == 256 && Pow2(9) == 512 && Pow2(10) == 1024
    ensures Pow2(11) == 2048 && Pow2(12) == 4096 && Pow2(13) == 8192 && Pow2(16) == 65536
    ensures Pow2(24) == 0x100_0000 && Pow2(32) == WORD32
  {
    assert Pow2(2) == 4 && Pow2(4) == 16;
    assert Pow2(8) == 256;
    Pow2Add(8, 8);
    Pow2Add(8, 16);
    Pow2Add(16, 16);
  }

  // ----- fields

  lemma {:induction false} LsbValueOfBits(v: nat, n: nat)
    requires v < Pow2(n)
    ensures LsbValue(LsbBits(v, n)) == v
  {
    if n != 0 {
      LsbValueOfBits(v / 2, n - 1);
      assert LsbBits(v, n)[1..] == LsbBits(v / 2, n - 1);
    }
  }

  lemma {:induction false} MsbValueOfBits(v: nat, n: nat)
    requires v < Pow2(n)
    ensures MsbValue(MsbBits(v, n)) == v
  {
    if n != 0 {
      MsbValueOfBits(v / 2, n - 1);
      assert MsbBits(v, n)[..n - 1] == MsbBits(v / 2, n - 1);
    }
  }

  /** A field stacked above another in one word is the second field after the first. */
  lemma {:induction false} LsbBitsStack(lo: nat, m: nat, hi: nat, n: nat)
    requires lo < Pow2(m)
    ensures LsbBits(lo + hi * Pow2(m), m + n) == LsbBits(lo, m) + LsbBits(hi, n)
  {
    if m == 0 {
      assert hi * Pow2(0) == hi;
    } else {
      var p := Pow2(m - 1);
      assert Pow2(m) == 2 * p;
      Halved(lo, hi, p);
      LsbBitsStack(lo / 2, m - 1, hi, n);
      UnfoldStack(lo, lo + hi * Pow2(m), lo / 2 + hi * p, m, n, hi);
    }
  }

  lemma Halved(lo: nat, hi: nat, p: nat)
    ensures (lo + hi * (2 * p)) % 2 == lo % 2 && (lo + hi * (2 * p)) / 2 == lo / 2 + hi * p
  {
    assert hi * (2 * p) == 2 * (hi * p);
  }

  lemma UnfoldStack(lo: nat, w: nat, half: nat, m: nat, n: nat, hi: nat)
    requires m > 0 && w % 2 == lo % 2 && w / 2 == half && LsbBits(half, m - 1 + n) == LsbBits(lo / 2, m - 1) + LsbBits(hi, n)
    ensures LsbBits(w, m + n) == LsbBits(lo, m) + LsbBits(hi, n)
  {
  }

  /** OR-ing a shifted field above the pending bits adds it. */
  lemma {:induction false} BitOrStack(lo: nat, m: nat, hi: nat)
    requires lo < Pow2(m)
    ensures BitOr(lo, hi * Pow2(m)) == lo + hi * Pow2(m)
  {
    if m == 0 {
      BitOrZero(hi);
      assert hi * Pow2(0) == hi;
    } else {
      var half := hi * Pow2(m - 1);
      assert hi * Pow2(m) == 2 * half;
      BitOrStack(lo / 2, m - 1, hi);
    }
  }

  lemma {:induction false} BitOrZero(y: nat)
    ensures BitOr(0, y) == y
  {
    if y != 0 {
      BitOrZero(y / 2);
    }
  }

  // ----- bytes

  lemma {:induction false} BytesBitsAppend(a: seq<Byte>, b: seq<Byte>)
    ensures BytesBits(a + b) == BytesBits(a) + BytesBits(b)
  {
    hide *;
    if b == [] {
      BytesBitsEmpty();
      assert a + b == a;
    } else {
      var b', last := b[..|b| - 1], b[|b| - 1];
      BytesBitsAppend(a, b');
      BytesBitsSnoc(a + b', last);
      BytesBitsSnoc(b', last);
      assert a + b == a + b' + [last] && b == b' + [last];
    }
  }

  lemma BytesBitsSnoc(a: seq<Byte>, b: Byte)
    ensures BytesBits(a + [b]) == BytesBits(a) + LsbBits(b, 8)
  {
    assert (a + [b])[..|a|] == a;
  }

  lemma {:induction false} BytesRoundTrip(bytes: seq<Byte>)
    ensures BitsBytes(BytesBits(bytes)) == bytes
  {
    if bytes != [] {
      var b, rest := bytes[0], bytes[1..];
      assert bytes == [b] + rest;
      BytesBitsAppend([b], rest);
      assert BytesBits([b]) == LsbBits(b, 8);
      Pow2Values();
      LsbValueOfBits(b, 8);
      BytesRoundTrip(rest);
      assert BytesBits(bytes)[..8] == LsbBits(b, 8);
      assert BytesBits(bytes)[8..] == BytesBits(rest);
    }
  }

  /** Whole bytes of bits, read as bytes and written again. */
  lemma {:induction false} BitsRoundTrip(bits: Bitstring)
    requires |bits| % 8 == 0
    ensures BytesBits(BitsBytes(bits)) == bits
    decreases |bits|
  {
    hide BytesBits, LsbBits, LsbValue;
    if bits == [] {
      BytesBitsEmpty();
    } else {
      BitsBytesCons(bits);
      var b, rest := LsbValue(bits[..8]), BitsBytes(bits[8..]);
      BitsRoundTrip(bits[8..]);
      LsbBitsOfValue(bits[..8]);
      BytesBitsAppend([b], rest);
      BytesBitsSnoc([], b);
      BytesBitsEmpty();
      assert [] + [b] == [b];
      assert bits == bits[..8] + bits[8..];
    }
  }

  lemma BitsBytesCons(bits: Bitstring)
    requires |bits| % 8 == 0 && bits != []
    ensures LsbValue(bits[..8]) < 256 && BitsBytes(bits) == [LsbValue(bits[..8])] + BitsBytes(bits[8..])
  {
    assert Pow2(|bits[..8]|) == 256;
  }

  lemma BytesBitsEmpty()
    ensures BytesBits([]) == []
  {
  }

  lemma {:induction false} LsbBitsOfValue(bits: Bitstring)
    ensures LsbBits(LsbValue(bits), |bits|) == bits
  {
    if bits != [] {
      LsbBitsOfValue(bits[1..]);
    }
  }
}
