/** The encoder's growing output buffer and its bit writer. */
module BitWriter {
  import opened Bits
  import opened Inflate
  import opened Deflate

  /** Both bit orders of one code: its reversal written low bit first is the code high bit first. */
  method BitReverse(code: nat, codebits: nat) returns (res: nat)
    requires code < Pow2(codebits)
    ensures res < Pow2(codebits) && LsbBits(res, codebits) == MsbBits(code, codebits)
  {
    res := 0;
    var c := code;
    for k := 0 to codebits
      invariant res < Pow2(k) && LsbBits(res, k) == MsbBits(code, k)
      invariant c == ShiftRight(code, k)
    {
      MsbBitsCons(code, k);
      BitOrStack(c % 2, 1, res);
      BitOrSymmetric(res * Pow2(1), c % 2);
      ShiftRightStep(code, k);
      ghost var before := res;
      res := BitOr(Shl32Unbounded(res, 1), c % 2);
      assert res == 2 * before + c % 2;
      c := c / 2;
    }
  }

  /** `v << k` where the C type is wide enough for the result. */
  function Shl32Unbounded(v: nat, k: nat): nat {
    v * Pow2(k)
  }

  function ShiftRight(v: nat, k: nat): nat {
    if k == 0 then v else ShiftRight(v / 2, k - 1)
  }

  lemma {:induction false} ShiftRightStep(v: nat, k: nat)
    ensures ShiftRight(v, k + 1) == ShiftRight(v, k) / 2
  {
    if k != 0 {
      ShiftRightStep(v / 2, k - 1);
    }
  }

  lemma {:induction false} MsbBitsCons(v: nat, k: nat)
    ensures MsbBits(v, k + 1) == [ShiftRight(v, k) % 2 == 1] + MsbBits(v, k)
  {
    if k != 0 {
      MsbBitsCons(v / 2, k - 1);
    }
  }

  lemma {:induction false} BitOrSymmetric(x: nat, y: nat)
    ensures BitOr(x, y) == BitOr(y, x)
    decreases x + y
  {
    if x != 0 || y != 0 {
      BitOrSymmetric(x / 2, y / 2);
    }
  }

  /** The table search of both halves of a match. */
  method FindSlot(bases: seq<nat>, v: nat) returns (j: nat)
    requires |bases| >= 2 && bases[0] <= v < bases[|bases| - 1]
    ensures j + 1 < |bases| && j == SlotFrom(bases, v, 0)
  {
    j := 0;
    while v > bases[j + 1] as int - 1
      invariant j + 1 < |bases| && bases[j] <= v
      invariant SlotFrom(bases, v, j) == SlotFrom(bases, v, 0)
      decreases |bases| - j
    {
      j := j + 1;
    }
  }

  /** The symbol of a match length, with the base and number of extra bits of its slot. */
  method FindLength(length: nat) returns (sym: nat, base: nat, extra: nat)
    requires 3 <= length <= 258
    ensures 257 <= sym <= 285 && extra <= 24 && base <= length < base + Pow2(extra)
    ensures LengthBits(length) == FixedCode(sym) + LsbBits(length - base, extra)
  {
    hide FixedCode, LsbBits, SlotFrom, Pow2;
    var j := FindSlot(LENGTH_BASE, length);
    LengthTable(j);
    sym, base, extra := j + 257, LENGTH_BASE[j], LENGTH_EXTRA[j];
  }

  method FindDistance(d: nat) returns (sym: nat, base: nat, extra: nat)
    requires 1 <= d <= 32767
    ensures sym <= 29 && extra <= 24 && base <= d < base + Pow2(extra)
    ensures DistanceBits(d) == MsbBits(sym, 5) + LsbBits(d - base, extra)
  {
    hide MsbBits, LsbBits, SlotFrom, Pow2;
    var j := FindSlot(DISTANCE_BASE, d);
    DistanceTable(j);
    sym, base, extra := j, DISTANCE_BASE[j], DISTANCE_EXTRA[j];
  }

  class Writer {
    var out: seq<Byte>
    var cap: nat        // elements allocated for `out`; 0 while nothing is allocated
    var bitbuf: nat     // 32-bit unsigned
    var bitcount: nat

    ghost predicate Allocated()
      reads this
    {
      if cap == 0 then out == [] else |out| < cap
    }

    /** Between calls fewer than eight bits are pending, and nothing lies above them. */
    ghost predicate Valid()
      reads this
    {
      Allocated() && bitcount < 8 && bitbuf < Pow2(bitcount)
    }

    /** Everything written so far, as one bit sequence. */
    ghost function Contents(): Bitstring
      reads this
    {
      BytesBits(out) + LsbBits(bitbuf, bitcount)
    }

    constructor ()
      ensures Valid() && out == [] && bitcount == 0 && bitbuf == 0
    {
      out, cap, bitbuf, bitcount := [], 0, 0, 0;
    }

    method Push(v: Byte)
      requires Allocated()
      modifies this`out, this`cap
      ensures Allocated() && out == old(out) + [v] && cap >= old(cap)
    {
      if cap == 0 || |out| + 1 >= cap {
        cap := if cap == 0 then 2 else 2 * cap + 1;
      }
      out := out + [v];
    }

    method Flush()
      requires Allocated() && bitcount <= 32 && bitbuf < Pow2(bitcount)
      modifies this
      ensures Valid() && Contents() == old(Contents())
      ensures bitcount == old(bitcount) % 8 && cap >= old(cap)
    {
      hide LsbBits, Pow2, BytesBits;
      while bitcount >= 8
        invariant Allocated() && bitbuf < Pow2(bitcount)
        invariant bitcount % 8 == old(bitcount) % 8 && cap >= old(cap)
        invariant Contents() == old(Contents())
      {
        SplitByte(bitbuf, bitcount);
        BytesBitsSnoc(out, bitbuf % 256);
        Push(bitbuf % 256);
        bitbuf := bitbuf / 256;
        bitcount := bitcount - 8;
      }
    }

    /** Append one field, low bit first. The 32-bit register never drops a bit. */
    method Add(code: nat, codebits: nat)
      requires Valid() && codebits <= 24 && code < Pow2(codebits)
      modifies this
      ensures Valid() && Contents() == old(Contents()) + LsbBits(code, codebits)
      ensures bitcount == (old(bitcount) + codebits) % 8 && cap >= old(cap)
    {
      ghost var before := LsbBits(bitbuf, bitcount);
      StackedFits(bitbuf, bitcount, code, codebits);
      ShiftIsExact(bitcount, code, codebits);
      BitOrStack(bitbuf, bitcount, code);
      LsbBitsStack(bitbuf, bitcount, code, codebits);
      bitbuf := BitOr(bitbuf, Shl32(code, bitcount));
      bitcount := bitcount + codebits;
      assert LsbBits(bitbuf, bitcount) == before + LsbBits(code, codebits);
      Flush();
    }

    /** Append one Huffman code, high bit first. */
    method AddCode(code: nat, codebits: nat)
      requires Valid() && codebits <= 24 && code < Pow2(codebits)
      modifies this
      ensures Valid() && Contents() == old(Contents()) + MsbBits(code, codebits) && cap >= old(cap)
    {
      var reversed := BitReverse(code, codebits);
      Add(reversed, codebits);
    }

    method AddSymbol(sym: nat)
      requires Valid() && sym <= 287
      modifies this
      ensures Valid() && Contents() == old(Contents()) + FixedCode(sym) && cap >= old(cap)
    {
      Pow2Values();
      if sym <= 143 {
        AddCode(0x30 + sym, 8);
      } else if sym <= 255 {
        AddCode(0x190 + sym - 144, 9);
      } else if sym <= 279 {
        AddCode(0 + sym - 256, 7);
      } else {
        AddCode(0xc0 + sym - 280, 8);
      }
    }

    method AddLiteral(b: Byte)
      requires Valid()
      modifies this
      ensures Valid() && Contents() == old(Contents()) + FixedCode(b) && cap >= old(cap)
    {
      Pow2Values();
      if b <= 143 {
        AddCode(0x30 + b, 8);
      } else {
        AddCode(0x190 + b - 144, 9);
      }
    }

    method AddMatch(best: nat, d: nat)
      requires Valid() && 3 <= best <= 258 && 1 <= d <= 32767
      modifies this
      ensures Valid() && Contents() == old(Contents()) + (LengthBits(best) + DistanceBits(d)) && cap >= old(cap)
    {
      hide FixedCode, LengthBits, DistanceBits, MsbBits, LsbBits, BytesBits, Pow2;
      var length, lengthBase, lengthExtra := FindLength(best);
      AddSymbol(length);
      AddExtra(best - lengthBase, lengthExtra);
      var distance, distanceBase, distanceExtra := FindDistance(d);
      Pow2Five();
      AddCode(distance, 5);
      AddExtra(d - distanceBase, distanceExtra);
    }

    /** The extra bits of a slot, if it has any. */
    method AddExtra(v: nat, extra: nat)
      requires Valid() && extra <= 24 && v < Pow2(extra)
      modifies this
      ensures Valid() && Contents() == old(Contents()) + LsbBits(v, extra) && cap >= old(cap)
    {
      if extra != 0 {
        Add(v, extra);
      }
    }

    /** Zero bits up to the next byte boundary. */
    method Pad()
      requires Valid()
      modifies this
      ensures Valid() && bitcount == 0 && cap >= old(cap)
      ensures exists p :: 0 <= p < 8 && BytesBits(out) == old(Contents()) + Zeros(p)
    {
      hide BytesBits, LsbBits, Pow2;
      ghost var p := 0;
      ZeroBit();
      assert Contents() + Zeros(0) == Contents();
      while bitcount != 0
        invariant Valid() && 0 <= p < 8 && cap >= old(cap)
        invariant bitcount == 0 || bitcount == old(bitcount) + p
        invariant Contents() == old(Contents()) + Zeros(p)
        decreases if bitcount == 0 then 0 else 8 - bitcount
      {
        Add(0, 1);
        assert Zeros(p + 1) == Zeros(p) + [false];
        assert Contents() == old(Contents()) + Zeros(p + 1);
        p := p + 1;
      }
      assert Contents() == BytesBits(out);
    }

    /** The stored path's reset of the buffer to its first `n` bytes, keeping its allocation. */
    method Truncate(n: nat)
      requires Allocated() && 0 < n <= |out|
      modifies this`out
      ensures Allocated() && out == old(out[..n])
    {
      out := out[..n];
    }

    /** The stored path's unchecked block copy: the caller owes the room. */
    method CopyUnchecked(block: seq<Byte>)
      requires |out| + |block| < cap
      modifies this`out
      ensures Allocated() && out == old(out) + block
    {
      out := out + block;
    }
  }

  lemma ZeroBit()
    ensures LsbBits(0, 1) == [false] && Pow2(1) == 2
  {
    assert LsbBits(0, 1) == [false] + LsbBits(0, 0);
  }

  lemma Pow2Five()
    ensures Pow2(5) == 32
  {
  }

  function Zeros(n: nat): (z: Bitstring)
    ensures |z| == n
  {
    if n == 0 then [] else Zeros(n - 1) + [false]
  }

  /** The low byte of a register and the register shifted past it hold its bits in order. */
  lemma SplitByte(word: nat, n: nat)
    requires n >= 8 && word < Pow2(n)
    ensures LsbBits(word, n) == LsbBits(word % 256, 8) + LsbBits(word / 256, n - 8)
    ensures word / 256 < Pow2(n - 8)
  {
    Pow2Values();
    Pow2Add(8, n - 8);
    LsbBitsStack(word % 256, 8, word / 256, n - 8);
  }

  lemma {:induction false} StackedFits(lo: nat, m: nat, hi: nat, n: nat)
    requires lo < Pow2(m) && hi < Pow2(n)
    ensures lo + hi * Pow2(m) < Pow2(m + n)
  {
    if m == 0 {
      assert hi * Pow2(0) == hi;
    } else {
      StackedFits(lo / 2, m - 1, hi, n);
      assert hi * Pow2(m) == 2 * (hi * Pow2(m - 1));
    }
  }

  /** Fewer than eight pending bits and a field of at most 24 stay inside 32. */
  lemma ShiftIsExact(m: nat, hi: nat, n: nat)
    requires m < 8 && n <= 24 && hi < Pow2(n)
    ensures Shl32(hi, m) == hi * Pow2(m)
  {
    StackedFits(0, m, hi, n);
    Pow2Mono(m + n, 32);
    Pow2Values();
  }
}
