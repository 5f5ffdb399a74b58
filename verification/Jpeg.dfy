/** The JPEG entropy writer: bits most significant first, a zero byte stuffed after every 0xFF,
    and the sign-and-size code of a coefficient. */
module Jpeg {
  import opened Bits

  // ----- section F.1.2.3 of ITU-T T.81: byte stuffing

  function StuffByte(b: Byte): seq<Byte> {
    if b == 255 then [b, 0] else [b]
  }

  /** What a decoder reads: the byte after each 0xFF is dropped. */
  function Unstuff(bytes: seq<Byte>): seq<Byte> {
    if bytes == [] then []
    else if bytes[0] == 255 && |bytes| > 1 then [255] + Unstuff(bytes[2..])
    else [bytes[0]] + Unstuff(bytes[1..])
  }

  /** Every 0xFF is followed by a zero byte. */
  predicate Stuffed(bytes: seq<Byte>) {
    forall i :: 0 <= i < |bytes| && bytes[i] == 255 ==> i + 1 < |bytes| && bytes[i + 1] == 0
  }

  lemma StuffByteCases(b: Byte)
    ensures Stuffed(StuffByte(b)) && Unstuff(StuffByte(b)) == [b]
    ensures forall bytes :: Stuffed(bytes) ==> Stuffed(bytes + StuffByte(b))
  {
  }

  lemma {:induction false} UnstuffAppend(bytes: seq<Byte>, b: Byte)
    requires Stuffed(bytes)
    ensures Stuffed(bytes + StuffByte(b)) && Unstuff(bytes + StuffByte(b)) == Unstuff(bytes) + [b]
    decreases |bytes|
  {
    hide StuffByte;
    StuffByteCases(b);
    var all := bytes + StuffByte(b);
    if bytes == [] {
      assert all == StuffByte(b);
    } else {
      var n := if bytes[0] == 255 then 2 else 1;
      var rest := bytes[n..];
      forall i | 0 <= i < |rest| && rest[i] == 255
        ensures i + 1 < |rest| && rest[i + 1] == 0
      {
        assert bytes[i + n] == 255;
      }
      UnstuffAppend(rest, b);
      assert all[n..] == rest + StuffByte(b);
    }
  }

  // ----- the bit order

  /** Bytes as bits, each byte most significant bit first. */
  function BytesMsb(bytes: seq<Byte>): Bitstring {
    if bytes == [] then [] else BytesMsb(bytes[..|bytes| - 1]) + MsbBits(bytes[|bytes| - 1], 8)
  }

  /** A field below another in one word is the first field and then the second. */
  lemma {:induction false} MsbBitsStack(hi: nat, m: nat, lo: nat, n: nat)
    requires lo < Pow2(n)
    ensures MsbBits(hi * Pow2(n) + lo, m + n) == MsbBits(hi, m) + MsbBits(lo, n)
  {
    if n == 0 {
      assert hi * Pow2(0) == hi;
    } else {
      var half := hi * Pow2(n - 1);
      assert hi * Pow2(n) == 2 * half;
      MsbBitsStack(hi, m, lo / 2, n - 1);
      assert (hi * Pow2(n) + lo) / 2 == half + lo / 2;
      assert MsbBits(lo, n) == MsbBits(lo / 2, n - 1) + [lo % 2 == 1];
    }
  }

  /** Only the low `n` bits of a word make its field. */
  lemma {:induction false} MsbBitsLow(q: nat, m: nat, r: nat, n: nat)
    requires n <= m
    ensures MsbBits(q * Pow2(m) + r, n) == MsbBits(r, n)
    decreases n
  {
    if n != 0 {
      var half := q * Pow2(m - 1);
      assert q * Pow2(m) == 2 * half;
      MsbBitsLow(q, m - 1, r / 2, n - 1);
      assert (q * Pow2(m) + r) / 2 == half + r / 2;
    }
  }

  lemma Product(x: nat, a: nat, b: nat)
    ensures x * Pow2(a + b) == x * Pow2(a) * Pow2(b)
  {
    Pow2Add(a, b);
    Associate(x, Pow2(a), Pow2(b));
  }

  lemma Associate(x: nat, p: nat, q: nat)
    ensures x * (p * q) == x * p * q
  {
  }

  /** A word split at bit `k`. */
  lemma {:induction false} SplitWord(x: nat, k: nat) returns (hi: nat, lo: nat)
    ensures x == hi * Pow2(k) + lo && lo < Pow2(k)
  {
    if k == 0 {
      hi, lo := x, 0;
    } else {
      hi, lo := SplitWord(x / 2, k - 1);
      lo := 2 * lo + x % 2;
      assert hi * Pow2(k) == 2 * (hi * Pow2(k - 1));
    }
  }

  // ----- the writer

  /** The buffer word holds the pending bits at the top of its low 24 bits; what lies above them has been
      written already and is never read again. */
  class BitSink {
    var out: seq<Byte>
    var bitBuf: nat          // the C int as an unsigned 32-bit word
    var bitCnt: nat
    ghost var word: nat      // bitBuf without its trailing zeros

    ghost predicate Valid()
      reads this
    {
      bitCnt < 8 && Holds()
    }

    ghost predicate Holds()
      reads this
    {
      bitCnt <= 24 && bitBuf == word * Pow2(24 - bitCnt) && Stuffed(out)
    }

    ghost function Contents(): Bitstring
      reads this
    {
      BytesMsb(Unstuff(out)) + MsbBits(word, bitCnt)
    }

    constructor ()
      ensures Valid() && Contents() == []
    {
      out, bitBuf, bitCnt, word := [], 0, 0, 0;
    }

    /** Append one code; after a decoder drops the stuffed bytes, exactly its bits have been added. */
    method WriteBits(code: nat, len: nat)
      requires Valid() && len <= 16 && code < Pow2(len)
      modifies this
      ensures Valid() && Contents() == old(Contents()) + MsbBits(code, len)
    {
      hide BytesMsb, Unstuff, MsbBits, Pow2, Stuffed;
      ghost var before := MsbBits(word, bitCnt);
      bitCnt := bitCnt + len;
      OrBelow(word, 24 - bitCnt, code, len);
      MsbBitsStack(word, bitCnt - len, code, len);
      bitBuf := BitOr(bitBuf, Shl32(code, 24 - bitCnt));
      word := word * Pow2(len) + code;
      while bitCnt >= 8
        invariant Holds() && Contents() == old(Contents()) + MsbBits(code, len)
      {
        Emit();
      }
    }

    /** Write out the top byte of the low 24 bits. */
    method Emit()
      requires Holds() && bitCnt >= 8
      modifies this
      ensures Holds() && bitCnt == old(bitCnt) - 8 && Contents() == old(Contents())
    {
      hide BytesMsb, Unstuff, MsbBits, Pow2, Stuffed;
      ghost var next := TopByte(word, bitCnt);
      var c: Byte := bitBuf / 0x1_0000 % 256;
      UnstuffAppend(out, c);
      BytesMsbSnoc(Unstuff(out), c);
      out := out + [c];
      if c == 255 {
        out := out + [0];
      }
      assert out == old(out) + StuffByte(c);
      bitBuf := bitBuf * 256 % WORD32;
      bitCnt := bitCnt - 8;
      word := next;
    }
  }

  lemma BytesMsbSnoc(bytes: seq<Byte>, b: Byte)
    ensures BytesMsb(bytes + [b]) == BytesMsb(bytes) + MsbBits(b, 8)
  {
    assert (bytes + [b])[..|bytes|] == bytes;
  }

  /** OR-ing a code just below the pending bits appends it to the word. */
  lemma OrBelow(word: nat, s: nat, code: nat, len: nat)
    requires s + len <= 24 && code < Pow2(len)
    ensures BitOr(word * Pow2(s + len), Shl32(code, s)) == (word * Pow2(len) + code) * Pow2(s)
  {
    hide *;
    ShiftFits(code, len, s);
    BitOrStack(Shl32(code, s), s + len, word);
    BitOrCommutes(word * Pow2(s + len), Shl32(code, s));
    AppendCode(word, s, code, len);
  }

  lemma AppendCode(word: nat, s: nat, code: nat, len: nat)
    ensures code * Pow2(s) + word * Pow2(s + len) == (word * Pow2(len) + code) * Pow2(s)
  {
    hide Pow2;
    Product(word, len, s);
    Distribute(word * Pow2(len), code, Pow2(s));
  }

  lemma ShiftFits(code: nat, len: nat, s: nat)
    requires s + len <= 24 && code < Pow2(len)
    ensures Shl32(code, s) == code * Pow2(s) < Pow2(s + len)
  {
    hide Pow2;
    Pow2Add(len, s);
    Pow2Mono(len + s, 24);
    Pow2Values();
    Scale(code, Pow2(len), Pow2(s));
  }

  lemma Scale(x: nat, bound: nat, p: nat)
    requires x < bound && p >= 1
    ensures x * p < bound * p
  {
  }

  lemma Distribute(x: nat, y: nat, p: nat)
    ensures (x + y) * p == x * p + y * p
  {
  }

  lemma {:induction false} BitOrCommutes(x: nat, y: nat)
    ensures BitOr(x, y) == BitOr(y, x)
    decreases x + y
  {
    if x != 0 || y != 0 {
      BitOrCommutes(x / 2, y / 2);
    }
  }

  /** The byte emitted is the first eight pending bits, and the shifted buffer holds the others. */
  lemma TopByte(word: nat, n: nat) returns (next: nat)
    requires 8 <= n <= 24
    ensures var buf := word * Pow2(24 - n);
      MsbBits(buf / 0x1_0000 % 256, 8) + MsbBits(next, n - 8) == MsbBits(word, n)
      && buf * 256 % WORD32 == next * Pow2(24 - (n - 8))
  {
    Pow2Values();
    hide Pow2, MsbBits;
    var top, low := SplitWord(word, n - 8);
    TopByteValue(word, n, top, low);
    MsbBitsStack(top, 8, low, n - 8);
    MsbBitsLow(top / 256, 8, top % 256, 8);
    assert top == top / 256 * Pow2(8) + top % 256;
    MsbBitsLow(top, n - 8, low, n - 8);
    next := ShiftedOut(word, n);
  }

  lemma TopByteValue(word: nat, n: nat, top: nat, low: nat)
    requires 8 <= n <= 24 && word == top * Pow2(n - 8) + low && low < Pow2(n - 8)
    ensures word * Pow2(24 - n) / 0x1_0000 == top
  {
    var p := Pow2(24 - n);
    Pow2Add(n - 8, 24 - n);
    Pow2Values();
    Distribute(top * Pow2(n - 8), low, p);
    Associate(top, Pow2(n - 8), p);
    Scale(low, Pow2(n - 8), p);
    assert word * p == top * 0x1_0000 + low * p;
  }

  lemma ShiftedOut(word: nat, n: nat) returns (next: nat)
    requires 8 <= n <= 24
    ensures word * Pow2(24 - n) * 256 % WORD32 == next * Pow2(32 - n)
    ensures MsbBits(next, n - 8) == MsbBits(word, n - 8)
  {
    hide *;
    var hi, lo := SplitWord(word, n);
    next := lo;
    BufferSplit(hi, lo, n);
    WrapsAround(hi, lo * Pow2(24 - n));
    MsbBitsLow(hi, n, lo, n - 8);
    TimesByte(lo, 24 - n);
  }

  lemma TimesByte(x: nat, s: nat)
    ensures x * Pow2(s + 8) == x * Pow2(s) * 256
  {
    Product(x, s, 8);
    Pow2Values();
  }

  /** The low 24 bits of the buffer are the pending ones. */
  lemma BufferSplit(hi: nat, lo: nat, n: nat)
    requires n <= 24 && lo < Pow2(n)
    ensures (hi * Pow2(n) + lo) * Pow2(24 - n) == hi * 0x100_0000 + lo * Pow2(24 - n)
    ensures lo * Pow2(24 - n) < 0x100_0000
  {
    Pow2Add(n, 24 - n);
    Pow2Values();
    hide Pow2;
    Distribute(hi * Pow2(n), lo, Pow2(24 - n));
    Associate(hi, Pow2(n), Pow2(24 - n));
    Scale(lo, Pow2(n), Pow2(24 - n));
  }

  /** Whatever lies above the 24 bits is shifted past the 32nd. */
  lemma WrapsAround(above: nat, low: nat)
    requires low < 0x100_0000
    ensures (above * 0x100_0000 + low) * 256 % WORD32 == low * 256
  {
  }

  // ----- section F.2.2.1 of ITU-T T.81: the value of a sign-and-size code

  /** EXTEND: the value that `bits` extra bits of size `size` stand for. */
  function Extend(bits: nat, size: nat): int
    requires size >= 1
  {
    if bits < Pow2(size - 1) then bits - Pow2(size) + 1 else bits
  }

  /** The size of a magnitude: how many bits it takes. */
  predicate IsSize(magnitude: nat, size: nat) {
    size >= 1 && Pow2(size - 1) <= magnitude < Pow2(size)
  }

  /** `stbiw__jpg_calcBits`: a decoder's EXTEND inverts it for every value but zero, and zero comes back as -1,
      so it must not be coded this way. */
  method CalcBits(val: int) returns (bits: nat, size: nat)
    ensures size >= 1 && bits < Pow2(size)
    ensures val != 0 ==> IsSize(if val < 0 then -val else val, size) && Extend(bits, size) == val
    ensures val == 0 ==> Extend(bits, size) == -1
  {
    var tmp1: nat := if val < 0 then -val else val;
    ghost var magnitude := tmp1;
    var v := if val < 0 then val - 1 else val;
    size := 1;
    tmp1 := tmp1 / 2;
    assert Pow2(0) == 1 && Pow2(1) == 2;
    while tmp1 != 0
      invariant size >= 1 && tmp1 * Pow2(size) <= magnitude < (tmp1 + 1) * Pow2(size)
      invariant tmp1 == 0 && magnitude != 0 ==> Pow2(size - 1) <= magnitude
      invariant magnitude == 0 ==> tmp1 == 0 && size == 1
      decreases tmp1
    {
      Halve(tmp1, Pow2(size), magnitude);
      size := size + 1;
      tmp1 := tmp1 / 2;
    }
    bits := v % Pow2(size);
    Masked(v, size, magnitude, val);
  }

  lemma Halve(t: nat, p: nat, m: nat)
    requires t > 0 && t * p <= m < (t + 1) * p
    ensures t / 2 * (2 * p) <= m < (t / 2 + 1) * (2 * p) && p <= m
  {
    assert t / 2 * (2 * p) == (t / 2 * 2) * p;
    assert (t / 2 + 1) * (2 * p) == (t / 2 * 2 + 2) * p;
    Scaled(t / 2 * 2, t, p);
    Scaled(t + 1, t / 2 * 2 + 2, p);
    Scaled(1, t, p);
  }

  lemma Scaled(x: nat, y: nat, p: nat)
    requires x <= y
    ensures x * p <= y * p
  {
  }

  lemma Masked(v: int, size: nat, magnitude: nat, val: int)
    requires size >= 1 && magnitude == (if val < 0 then -val else val) && v == (if val < 0 then val - 1 else val)
    requires magnitude < Pow2(size) && (magnitude != 0 ==> Pow2(size - 1) <= magnitude) && (magnitude == 0 ==> size == 1)
    ensures v % Pow2(size) == if val < 0 then Pow2(size) + v else v
  {
    hide Pow2;
    var p := Pow2(size);
    if val < 0 {
      ModNegative(v, p);
    } else {
      ModSmall(v, p);
    }
  }

  lemma ModSmall(v: nat, p: nat)
    requires v < p
    ensures v % p == v
  {
  }

  lemma ModNegative(v: int, p: nat)
    requires -(p as int) <= v < 0
    ensures v % p == p + v
  {
  }
}
