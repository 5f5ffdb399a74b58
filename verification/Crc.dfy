/** The chunk checksum: the encoder's byte-at-a-time table form against the bit-serial
    definition of section 3.4 of RFC 2083. A 32-bit register is its bits, low bit first. */
module Crc {
  import opened Bits

  const REGISTER := 32

  type Register = r: Bitstring | |r| == REGISTER witness seq(REGISTER, _ => false)

  function Constant(b: bool): Register {
    seq(REGISTER, _ => b)
  }

  /** x^32 + x^26 + x^23 + x^22 + x^16 + x^12 + x^11 + x^10 + x^8 + x^7 + x^5 + x^4 + x^2 + x + 1, reflected. */
  const POLYNOMIAL: Register := OfWord(0xEDB88320)

  function Xor(a: Register, b: Register): Register {
    seq(REGISTER, i requires 0 <= i < REGISTER => a[i] != b[i])
  }

  function Complement(a: Register): Register {
    Xor(a, Constant(true))
  }

  /** `r >> n` */
  function Shr(r: Register, n: nat): Register
    requires n <= REGISTER
  {
    r[n..] + seq(n, _ => false)
  }

  /** `r & 0xff` */
  function LowByte(r: Register): Register {
    r[..8] + seq(REGISTER - 8, _ => false)
  }

  /** A byte, or fewer bits, widened to 32 bits. */
  function Widen(bits: Bitstring): Register
    requires |bits| <= REGISTER
  {
    bits + seq(REGISTER - |bits|, _ => false)
  }

  /** One step of the polynomial division, low bit first. */
  function Step(c: Register): Register {
    if c[0] then Xor(Shr(c, 1), POLYNOMIAL) else Shr(c, 1)
  }

  function Steps(c: Register, n: nat): Register
    decreases n
  {
    if n == 0 then c else Steps(Step(c), n - 1)
  }

  /** The bit-serial register: each message bit is added to the low bit before the step. */
  function Serial(c: Register, bits: Bitstring): Register
    decreases |bits|
  {
    if bits == [] then c else Serial(Step(Xor(c, Widen(bits[..1]))), bits[1..])
  }

  /** The checksum of a message: preset to ones, each byte low bit first, complemented. */
  function Checksum(bytes: seq<Byte>): Register {
    Complement(Serial(Constant(true), BytesBits(bytes)))
  }

  /** Entry `n` of the encoder's table, by the recurrence it was generated from. */
  function TableEntry(n: Register): Register {
    Steps(n, 8)
  }

  /** The encoder's loop over the buffer computes the bit-serial checksum. */
  method Crc32(buffer: seq<Byte>) returns (r: Register)
    ensures r == Checksum(buffer)
  {
    hide Serial, BytesBits, LsbBits, Steps, Xor;
    var crc := Constant(true);
    SerialEmpty(crc);
    BytesBitsEmpty();
    for i := 0 to |buffer|
      invariant crc == Serial(Constant(true), BytesBits(buffer[..i]))
    {
      TableStep(crc, LsbBits(buffer[i], 8));
      BytesBitsSnoc(buffer[..i], buffer[i]);
      assert buffer[..i + 1] == buffer[..i] + [buffer[i]];
      SerialAppend(Constant(true), BytesBits(buffer[..i]), LsbBits(buffer[i], 8));
      crc := Xor(Shr(crc, 8), TableEntry(Xor(Widen(LsbBits(buffer[i], 8)), LowByte(crc))));
    }
    assert buffer[..|buffer|] == buffer;
    return Complement(crc);
  }

  // ----- a table step is eight serial steps

  lemma SerialEmpty(c: Register)
    ensures Serial(c, []) == c
  {
  }

  lemma {:induction false} SerialAppend(c: Register, a: Bitstring, b: Bitstring)
    ensures Serial(c, a + b) == Serial(Serial(c, a), b)
    decreases |a|
  {
    hide Step, Xor;
    if a == [] {
      assert a + b == b;
    } else {
      SerialAppend(Step(Xor(c, Widen(a[..1]))), a[1..], b);
      assert (a + b)[1..] == a[1..] + b && (a + b)[..1] == a[..1];
    }
  }

  /** The division step is linear over exclusive or. */
  lemma StepXor(a: Register, b: Register)
    ensures Step(Xor(a, b)) == Xor(Step(a), Step(b))
  {
  }

  lemma {:induction false} StepsXor(a: Register, b: Register, n: nat)
    ensures Steps(Xor(a, b), n) == Xor(Steps(a, n), Steps(b, n))
    decreases n
  {
    hide Step, Xor;
    if n != 0 {
      StepXor(a, b);
      StepsXor(Step(a), Step(b), n - 1);
    }
  }

  /** While the low bits are clear, dividing is shifting. */
  lemma {:induction false} StepsShift(a: Register, n: nat)
    requires n <= REGISTER && a[..n] == seq(n, _ => false)
    ensures Steps(a, n) == Shr(a, n)
    decreases n
  {
    if n == 0 {
      assert Shr(a, 0) == a;
    } else {
      assert a[..n][0] == false;
      var a' := Shr(a, 1);
      forall i | 0 <= i < n - 1
        ensures a'[i] == false
      {
        assert a'[i] == a[..n][i + 1];
      }
      assert a'[..n - 1] == seq(n - 1, _ => false);
      StepsShift(a', n - 1);
      assert Shr(a', n - 1) == Shr(a, n);
    }
  }

  /** Adding the message bits one at a time is adding them all before the first step. */
  lemma {:induction false} SerialIsSteps(c: Register, bits: Bitstring)
    requires |bits| <= REGISTER
    ensures Serial(c, bits) == Steps(Xor(c, Widen(bits)), |bits|)
    decreases |bits|
  {
    if bits == [] {
      assert Xor(c, Widen(bits)) == c;
    } else {
      var first: Register := Xor(c, Widen(bits[..1]));
      var later: Register := [false] + Widen(bits[1..])[..REGISTER - 1];
      assert Xor(c, Widen(bits)) == Xor(first, later);
      StepXor(first, later);
      assert Step(later) == Widen(bits[1..]);
      SerialIsSteps(Step(first), bits[1..]);
    }
  }

  lemma TableStep(c: Register, bits: Bitstring)
    requires |bits| == 8
    ensures Serial(c, bits) == Xor(Shr(c, 8), TableEntry(Xor(Widen(bits), LowByte(c))))
  {
    hide Serial, Steps, Step;
    var high: Register := seq(8, _ => false) + c[8..];
    var low: Register := Xor(Widen(bits), LowByte(c));
    SerialIsSteps(c, bits);
    assert Xor(c, Widen(bits)) == Xor(high, low);
    StepsXor(high, low, 8);
    StepsShift(high, 8);
    assert Shr(high, 8) == Shr(c, 8);
  }

  // ----- the register as the machine word of the encoder

  /** A word with the one bit `i`. */
  function Mask(i: nat): (m: bv32)
    ensures m & (m - 1) == 0
  {
    if i == 0 then 1 else (var m := Mask(i - 1); ShiftMask(m); m << 1)
  }

  lemma ShiftMask(m: bv32)
    requires m & (m - 1) == 0
    ensures (m << 1) & ((m << 1) - 1) == 0
  {
  }

  /** The bits of a 32-bit word, low bit first. */
  function OfWord(w: bv32): Register {
    seq(REGISTER, i requires 0 <= i < REGISTER => Bit(w, i))
  }

  predicate Bit(w: bv32, i: nat) {
    w & Mask(i) != 0
  }

  /** One step of the division on words: shift right, and exclusive or with the reflected polynomial if a one fell out. */
  function NextWord(w: bv32): bv32 {
    if w & 1 == 1 then (w >> 1) ^ 0xEDB88320 else w >> 1
  }

  function NextWords(w: bv32, n: nat): bv32
    decreases n
  {
    if n == 0 then w else NextWords(NextWord(w), n - 1)
  }

  lemma BitXor(a: bv32, b: bv32, m: bv32)
    requires m & (m - 1) == 0
    ensures (a ^ b) & m != 0 <==> ((a & m != 0) != (b & m != 0))
  {
  }

  lemma BitShift(w: bv32, m: bv32)
    ensures (w >> 1) & m != 0 <==> w & (m << 1) != 0
  {
  }

  lemma BitOfXor(a: bv32, b: bv32, i: nat)
    ensures Bit(a ^ b, i) <==> Bit(a, i) != Bit(b, i)
  {
    hide Mask;
    BitXor(a, b, Mask(i));
  }

  lemma BitOfShift(w: bv32, i: nat)
    ensures Bit(w >> 1, i) <==> Bit(w, i + 1)
  {
    BitShift(w, Mask(i));
    assert Mask(i + 1) == Mask(i) << 1;
  }

  lemma XorWord(a: bv32, b: bv32)
    ensures Xor(OfWord(a), OfWord(b)) == OfWord(a ^ b)
  {
    hide Bit;
    forall i | 0 <= i < REGISTER
      ensures Xor(OfWord(a), OfWord(b))[i] == OfWord(a ^ b)[i]
    {
      BitOfXor(a, b, i);
    }
  }

  lemma NoBitAbove(w: bv32)
    ensures !Bit(w, REGISTER)
  {
    Masks16();
    Masks32();
    assert Mask(32) == Mask(31) << 1 == 0;
  }

  lemma Masks16()
    ensures Mask(15) == 0x8000
  {
    assert Mask(0) == 0x1;
    assert Mask(1) == 0x2;
    assert Mask(2) == 0x4;
    assert Mask(3) == 0x8;
    assert Mask(4) == 0x10;
    assert Mask(5) == 0x20;
    assert Mask(6) == 0x40;
    assert Mask(7) == 0x80;
    assert Mask(8) == 0x100;
    assert Mask(9) == 0x200;
    assert Mask(10) == 0x400;
    assert Mask(11) == 0x800;
    assert Mask(12) == 0x1000;
    assert Mask(13) == 0x2000;
    assert Mask(14) == 0x4000;
    assert Mask(15) == 0x8000;
  }

  lemma Masks32()
    ensures Mask(31) == 0x8000_0000
  {
    Masks16();
    assert Mask(16) == 0x10000;
    assert Mask(17) == 0x20000;
    assert Mask(18) == 0x40000;
    assert Mask(19) == 0x80000;
    assert Mask(20) == 0x100000;
    assert Mask(21) == 0x200000;
    assert Mask(22) == 0x400000;
    assert Mask(23) == 0x800000;
    assert Mask(24) == 0x1000000;
    assert Mask(25) == 0x2000000;
    assert Mask(26) == 0x4000000;
    assert Mask(27) == 0x8000000;
    assert Mask(28) == 0x10000000;
    assert Mask(29) == 0x20000000;
    assert Mask(30) == 0x40000000;
    assert Mask(31) == 0x80000000;
  }

  lemma ShiftWord(w: bv32)
    ensures Shr(OfWord(w), 1) == OfWord(w >> 1)
  {
    hide Bit;
    NoBitAbove(w);
    forall i | 0 <= i < REGISTER
      ensures Shr(OfWord(w), 1)[i] == OfWord(w >> 1)[i]
    {
      BitOfShift(w, i);
    }
  }

  lemma StepWord(w: bv32)
    ensures Step(OfWord(w)) == OfWord(NextWord(w))
  {
    hide Xor, Shr, OfWord;
    ShiftWord(w);
    XorWord(w >> 1, 0xEDB88320);
    LowBit(w);
  }

  lemma LowBit(w: bv32)
    ensures (OfWord(w)[0] <==> Bit(w, 0)) && (Bit(w, 0) <==> w & 1 == 1)
  {
    assert Mask(0) == 1;
  }

  lemma {:induction false} StepsWord(w: bv32, n: nat)
    ensures Steps(OfWord(w), n) == OfWord(NextWords(w, n))
    decreases n
  {
    hide Step, OfWord, NextWord;
    if n != 0 {
      StepWord(w);
      StepsWord(NextWord(w), n - 1);
    }
  }

  /** The entries of the encoder's table at the powers of two; the others are their sums, as the table is linear. */
  lemma TableLiterals()
    ensures TableEntry(OfWord(1)) == OfWord(0x77073096) && TableEntry(OfWord(2)) == OfWord(0xEE0E612C)
    ensures TableEntry(OfWord(4)) == OfWord(0x076DC419) && TableEntry(OfWord(8)) == OfWord(0x0EDB8832)
    ensures TableEntry(OfWord(16)) == OfWord(0x1DB71064) && TableEntry(OfWord(32)) == OfWord(0x3B6E20C8)
    ensures TableEntry(OfWord(64)) == OfWord(0x76DC4190) && TableEntry(OfWord(128)) == OfWord(0xEDB88320)
  {
    hide Steps, OfWord;
    StepsWord(1, 8);
    StepsWord(2, 8);
    StepsWord(4, 8);
    StepsWord(8, 8);
    StepsWord(16, 8);
    StepsWord(32, 8);
    StepsWord(64, 8);
    StepsWord(128, 8);
  }

  lemma TableLinear(a: bv32, b: bv32)
    ensures TableEntry(OfWord(a ^ b)) == Xor(TableEntry(OfWord(a)), TableEntry(OfWord(b)))
  {
    XorWord(a, b);
    StepsXor(OfWord(a), OfWord(b), 8);
  }

  // ----- a known checksum

  /** The low `n` bits of a number as a word. */
  function WordOf(v: nat, n: nat): bv32 {
    if n == 0 then 0 else (WordOf(v / 2, n - 1) << 1) | LowWord(v)
  }

  function LowWord(v: nat): (w: bv32)
    ensures w == 0 || w == 1
  {
    if v % 2 == 1 then 1 else 0
  }

  lemma {:induction false} WordBits(v: nat, n: nat)
    requires n <= REGISTER
    ensures Widen(LsbBits(v, n)) == OfWord(WordOf(v, n))
  {
    if n == 0 {
      NoBits(v);
    } else {
      WordBits(v / 2, n - 1);
      WordBitsStep(v, n, WordOf(v / 2, n - 1));
    }
  }

  lemma WordBitsStep(v: nat, n: nat, half: bv32)
    requires 0 < n <= REGISTER && Widen(LsbBits(v / 2, n - 1)) == OfWord(half)
    ensures Widen(LsbBits(v, n)) == OfWord((half << 1) | LowWord(v))
  {
    hide OfWord, Widen, LowWord, Mask, Bit;
    var bits := LsbBits(v / 2, n - 1);
    NoTopBit(half, bits);
    Doubled(half, LowWord(v));
    LowWordMeans(v);
    ConsWord((half << 1) | LowWord(v), bits, v % 2 == 1);
  }

  lemma LowWordMeans(v: nat)
    ensures LowWord(v) == 1 <==> v % 2 == 1
  {
  }

  lemma NoTopBit(w: bv32, bits: Bitstring)
    requires |bits| < REGISTER && Widen(bits) == OfWord(w)
    ensures w & 0x8000_0000 == 0
  {
    hide Bit;
    assert Widen(bits)[31] == OfWord(w)[31] == false;
    TopBit(w);
  }

  lemma NoBits(v: nat)
    ensures Widen(LsbBits(v, 0)) == OfWord(WordOf(v, 0))
  {
    hide Mask;
  }

  lemma TopBit(w: bv32)
    requires !Bit(w, 31)
    ensures w & 0x8000_0000 == 0
  {
    Masks32();
  }

  lemma Doubled(w: bv32, b: bv32)
    requires w & 0x8000_0000 == 0 && (b == 0 || b == 1)
    ensures ((w << 1) | b) >> 1 == w && (((w << 1) | b) & 1 == 1 <==> b == 1)
  {
    if b == 0 {
      DoubledEven(w);
    } else {
      DoubledOdd(w);
    }
  }

  lemma DoubledEven(w: bv32)
    requires w & 0x8000_0000 == 0
    ensures ((w << 1) | 0) >> 1 == w && ((w << 1) | 0) & 1 == 0
  {
  }

  lemma DoubledOdd(w: bv32)
    requires w & 0x8000_0000 == 0
    ensures ((w << 1) | 1) >> 1 == w && ((w << 1) | 1) & 1 == 1
  {
  }

  lemma ConsWord(w: bv32, bits: Bitstring, low: bool)
    requires |bits| < REGISTER && Widen(bits) == OfWord(w >> 1) && (low <==> w & 1 == 1)
    ensures Widen([low] + bits) == OfWord(w)
  {
    hide Mask, Bit;
    LowBit(w);
    forall i | 0 <= i < REGISTER
      ensures Widen([low] + bits)[i] == OfWord(w)[i]
    {
      if i > 0 {
        BitOfShift(w, i - 1);
        assert Widen(bits)[i - 1] == OfWord(w >> 1)[i - 1];
      }
    }
  }

  /** A byte added to the register, and eight steps. */
  lemma ByteWord(c: bv32, b: Byte, c': bv32)
    requires c' == NextWords(c ^ WordOf(b, 8), 8)
    ensures Serial(OfWord(c), LsbBits(b, 8)) == OfWord(c')
  {
    hide Serial, Steps, LsbBits, Xor, OfWord, Widen, NextWords, WordOf, POLYNOMIAL;
    WordBits(b, 8);
    EightSteps(OfWord(c), LsbBits(b, 8), OfWord(WordOf(b, 8)));
    WordSteps(c, WordOf(b, 8));
  }

  lemma EightSteps(c: Register, bits: Bitstring, d: Register)
    requires |bits| == 8 && Widen(bits) == d
    ensures Serial(c, bits) == Steps(Xor(c, d), 8)
  {
    hide Serial, Steps, Xor, Widen;
    SerialIsSteps(c, bits);
  }

  lemma WordSteps(c: bv32, d: bv32)
    ensures Steps(Xor(OfWord(c), OfWord(d)), 8) == OfWord(NextWords(c ^ d, 8))
  {
    hide Steps, Xor, OfWord, NextWords;
    XorWord(c, d);
    StepsWord(c ^ d, 8);
  }

  lemma SerialByte(c: Register, bytes: seq<Byte>, b: Byte)
    ensures Serial(c, BytesBits(bytes + [b])) == Serial(Serial(c, BytesBits(bytes)), LsbBits(b, 8))
  {
    hide *;
    BytesBitsSnoc(bytes, b);
    SerialAppend(c, BytesBits(bytes), LsbBits(b, 8));
  }

  /** The checksum of an end chunk's type, which every file ends with. */
  lemma EndChecksum()
    ensures Checksum([0x49, 0x45, 0x4e, 0x44]) == OfWord(0xAE426082)
  {
    hide Serial, OfWord, LsbBits, BytesBits, Xor, NextWords, WordOf, Constant;
    var c := Constant(true);
    Ones();
    BytesBitsEmpty();
    SerialEmpty(c);
    EndWords();
    LastEndWords();
    SerialByte(c, [], 0x49);
    SerialByte(c, [0x49], 0x45);
    SerialByte(c, [0x49, 0x45], 0x4e);
    SerialByte(c, [0x49, 0x45, 0x4e], 0x44);
    assert [] + [0x49] == [0x49] && [0x49] + [0x45] == [0x49, 0x45] && [0x49, 0x45] + [0x4e] == [0x49, 0x45, 0x4e];
    assert [0x49, 0x45, 0x4e] + [0x44] == [0x49, 0x45, 0x4e, 0x44];
    ByteWord(0xFFFF_FFFF, 0x49, 0x22FD_E946);
    ByteWord(0x22FD_E946, 0x45, 0x992B_AC53);
    ByteWord(0x992B_AC53, 0x4e, 0x639F_4775);
    ByteWord(0x639F_4775, 0x44, 0x51BD_9F7D);
    XorWord(0x51BD_9F7D, 0xFFFF_FFFF);
  }

  lemma Ones()
    ensures OfWord(0xFFFF_FFFF) == Constant(true)
  {
    hide Mask;
    forall i | 0 <= i < REGISTER
      ensures Bit(0xFFFF_FFFF, i)
    {
      MaskNotZero(i);
      AllOnes(Mask(i));
    }
  }

  lemma AllOnes(m: bv32)
    requires m != 0
    ensures 0xFFFF_FFFF & m != 0
  {
  }

  lemma MaskNotZero(i: nat)
    requires i < REGISTER
    ensures Mask(i) != 0
  {
    Masks16();
    Masks32();
    if Mask(i) == 0 {
      ZeroStays(i, 31);
    }
  }

  lemma {:induction false} ZeroStays(i: nat, k: nat)
    requires i <= k && Mask(i) == 0
    ensures Mask(k) == 0
  {
    if i < k {
      ZeroStays(i, k - 1);
    }
  }

  lemma EndWords()
    ensures NextWords(0xFFFF_FFFF ^ WordOf(0x49, 8), 8) == 0x22FD_E946 && NextWords(0x22FD_E946 ^ WordOf(0x45, 8), 8) == 0x992B_AC53
  {
    assert WordOf(0x49, 8) == 0x49 && WordOf(0x45, 8) == 0x45;
    hide WordOf;
  }

  lemma LastEndWords()
    ensures NextWords(0x992B_AC53 ^ WordOf(0x4e, 8), 8) == 0x639F_4775 && NextWords(0x639F_4775 ^ WordOf(0x44, 8), 8) == 0x51BD_9F7D
  {
    assert WordOf(0x4e, 8) == 0x4e && WordOf(0x44, 8) == 0x44;
    hide WordOf;
  }

  lemma EndWord()
    ensures WordOf(0xAE426082, 32) == 0xAE426082
  {
    assert WordOf(0xAE, 8) == 0xAE;
    assert WordOf(0xAE42, 16) == 0xAE42;
    assert WordOf(0xAE4260, 24) == 0xAE4260;
  }

  /** Four bytes, lowest first, as one register. */
  lemma RegisterBytes(a: Byte, b: Byte, c: Byte, d: Byte)
    ensures BytesBits([a, b, c, d]) == OfWord(WordOf(a + 0x100 * b as int + 0x1_0000 * c as int + 0x100_0000 * d as int, 32))
  {
    hide OfWord, WordOf, BytesBits, LsbBits, Pow2;
    Pow2Values();
    var v := a + 0x100 * b as int + 0x1_0000 * c as int + 0x100_0000 * d as int;
    WordBits(v, 32);
    assert Widen(LsbBits(v, 32)) == LsbBits(v, 32);
    FourBytes(a, b, c, d);
    LsbBitsStack(c, 8, d, 8);
    LsbBitsStack(b, 8, c + 0x100 * d as int, 16);
    LsbBitsStack(a, 8, b + 0x100 * (c + 0x100 * d as int), 24);
  }

  lemma FourParts(a: Bitstring, b: Bitstring, c: Bitstring, d: Bitstring)
    ensures [] + a + b + c + d == a + (b + (c + d))
  {
  }

  lemma FourBytes(a: Byte, b: Byte, c: Byte, d: Byte)
    ensures BytesBits([a, b, c, d]) == LsbBits(a, 8) + (LsbBits(b, 8) + (LsbBits(c, 8) + LsbBits(d, 8)))
  {
    hide BytesBits, LsbBits;
    FourParts(LsbBits(a, 8), LsbBits(b, 8), LsbBits(c, 8), LsbBits(d, 8));
    BytesBitsEmpty();
    BytesBitsSnoc([], a);
    BytesBitsSnoc([a], b);
    BytesBitsSnoc([a, b], c);
    BytesBitsSnoc([a, b, c], d);
    assert [] + [a] == [a] && [a] + [b] == [a, b] && [a, b] + [c] == [a, b, c] && [a, b, c] + [d] == [a, b, c, d];
  }
}
