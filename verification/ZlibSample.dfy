/** One stream bit by bit, as section 3.2 of RFC 1951 spells it: a literal and a match. */
module ZlibSample {
  import opened Bits
  import opened Wrappers
  import opened Inflate
  import opened Deflate
  import opened BitWriter
  import opened Lz77
  import opened Adler
  import opened Zlib

  const TEXT: seq<Byte> := [0x61, 0x61, 0x61, 0x61]
  const BODY: seq<Byte> := [0x4b, 0x04, 0x02, 0x00]

  /** The letter, then a match of length 3 at distance 1. */
  const TOKENS: seq<Token> := [Literal(0x61), Match(3, 1)]

  lemma TokensReplay()
    ensures Replays(TOKENS, TEXT) && Encodable(TOKENS)
  {
    hide CopyBack;
    LetterReplays();
    MatchCopies();
    assert TOKENS[..1] == [Literal(0x61)];
    assert Legal(TOKENS[1], 1);
    ReplaysStep(TOKENS, [0x61], TEXT);
    ReplaysEncodable(TOKENS, TEXT);
  }

  lemma LetterReplays()
    ensures Replays([Literal(0x61)], [0x61])
  {
    assert TEXT[..0] == [] && TEXT[..1] == [0x61] && Replays([], []);
    LiteralReplays([], TEXT, 0);
    assert [] + [Literal(0x61)] == [Literal(0x61)];
  }

  lemma MatchCopies()
    ensures CopyBack([0x61], 3, 1) == TEXT
  {
    hide CopyBack;
    assert Agree(TEXT, 0, 1, 3);
    CopyBackReproduces(TEXT, 0, 1, 0, 3);
    assert TEXT[..1] == [0x61] && TEXT[..4] == TEXT;
  }

  // ----- the bits

  lemma LiteralCode()
    ensures FixedCode(0x61) == [true, false, false, true, false, false, false, true]
  {
    assert MsbBits(0x1, 1) == [true];
    assert MsbBits(0x2, 2) == [true, false];
    assert MsbBits(0x4, 3) == [true, false, false];
    assert MsbBits(0x9, 4) == [true, false, false, true];
    assert MsbBits(0x12, 5) == [true, false, false, true, false];
    assert MsbBits(0x24, 6) == [true, false, false, true, false, false];
    assert MsbBits(0x48, 7) == [true, false, false, true, false, false, false];
  }

  lemma {:induction false} ZeroCode(n: nat)
    ensures MsbBits(0, n) == Zeros(n) && LsbBits(0, n) == Zeros(n)
  {
    if n > 0 {
      ZeroCode(n - 1);
      ZerosAdd(n - 1, 1);
      ZerosAdd(1, n - 1);
      assert Zeros(1) == [false];
    }
  }

  lemma LengthCode()
    ensures LengthBits(3) == Zeros(6) + [true]
  {
    hide LENGTH_BASE, LENGTH_EXTRA, SlotFrom, FixedCode, Zeros;
    FirstLengthSlot();
    FirstLengthSymbol();
    assert LsbBits(0, 0) == [];
  }

  lemma FirstLengthSlot()
    ensures |LENGTH_BASE| >= 2 && |LENGTH_EXTRA| >= 1 && LENGTH_BASE[0] <= 3 < LENGTH_BASE[|LENGTH_BASE| - 1]
    ensures SlotFrom(LENGTH_BASE, 3, 0) == 0 && LENGTH_BASE[0] == 3 && LENGTH_EXTRA[0] == 0
  {
  }

  lemma FirstLengthSymbol()
    ensures FixedCode(257) == Zeros(6) + [true]
  {
    ZeroCode(6);
    hide Zeros;
    assert MsbBits(1, 7) == MsbBits(0, 6) + [true];
  }

  lemma DistanceCode()
    ensures DistanceBits(1) == Zeros(5)
  {
    assert SlotFrom(DISTANCE_BASE, 1, 0) == 0;
    ZeroCode(5);
    hide MsbBits;
    assert LsbBits(0, 0) == [];
    assert DISTANCE_BASE[0] == 1 && DISTANCE_EXTRA[0] == 0;
  }

  lemma EndCode()
    ensures FixedCode(END_OF_BLOCK) == Zeros(7)
  {
    ZeroCode(7);
  }

  lemma TokensAsBits()
    requires Encodable(TOKENS)
    ensures FixedBlock(TOKENS) == [true, true, false] + [true, false, false, true, false, false, false, true]
                                  + Zeros(6) + [true] + Zeros(12)
  {
    hide TokensBits, FixedCode, LengthBits, DistanceBits, Zeros, LENGTH_BASE, LENGTH_EXTRA, DISTANCE_BASE, DISTANCE_EXTRA;
    LiteralCode();
    LengthCode();
    DistanceCode();
    EndCode();
    assert TokensBits([]) == [] by { NoTokens(); }
    TokensBitsSnoc([], Literal(0x61));
    assert [] + [Literal(0x61)] == [Literal(0x61)];
    TokensBitsSnoc([Literal(0x61)], Match(3, 1));
    assert [Literal(0x61)] + [Match(3, 1)] == TOKENS;
    ZerosAdd(5, 7);
  }

  lemma NoTokens()
    ensures TokensBits([]) == []
  {
  }

  lemma {:induction false} ZerosAdd(m: nat, n: nat)
    ensures Zeros(m) + Zeros(n) == Zeros(m + n)
  {
    if n > 0 {
      ZerosAdd(m, n - 1);
    }
  }

  lemma ByteCodes()
    ensures LsbBits(0x4b, 8) == [true, true, false, true, false, false, true, false]
    ensures LsbBits(0x04, 8) == [false, false, true] + Zeros(5) && LsbBits(0x02, 8) == [false, true] + Zeros(6)
    ensures LsbBits(0, 8) == Zeros(8)
  {
    FirstByteCode();
    ZeroCode(8);
    ZeroCode(6);
    ZeroCode(5);
    hide Zeros;
    assert LsbBits(0x1, 6) == [true] + LsbBits(0, 5);
    assert LsbBits(0x2, 7) == [false] + LsbBits(0x1, 6);
    assert LsbBits(0x4, 8) == [false] + LsbBits(0x2, 7);
    assert LsbBits(0x1, 7) == [true] + LsbBits(0, 6);
    assert LsbBits(0x2, 8) == [false] + LsbBits(0x1, 7);
  }

  lemma FirstByteCode()
    ensures LsbBits(0x4b, 8) == [true, true, false, true, false, false, true, false]
  {
    assert LsbBits(0x2, 2) == [false, true];
    assert LsbBits(0x4, 4) == [false, false, true, false];
    assert LsbBits(0x9, 5) == [true, false, false, true, false];
    assert LsbBits(0x12, 6) == [false, true, false, false, true, false];
    assert LsbBits(0x25, 7) == [true, false, true, false, false, true, false];
  }

  lemma BodyAsBits()
    ensures BytesBits(BODY) == [true, true, false] + [true, false, false, true, false, false, false, true]
                               + Zeros(6) + [true] + Zeros(12) + Zeros(2)
  {
    hide BytesBits, LsbBits;
    BytesBitsEmpty();
    BytesBitsSnoc([], 0x4b);
    BytesBitsSnoc([0x4b], 0x04);
    BytesBitsSnoc([0x4b, 0x04], 0x02);
    BytesBitsSnoc([0x4b, 0x04, 0x02], 0x00);
    assert [] + [0x4b] == [0x4b] && [0x4b] + [0x04] == [0x4b, 0x04] && [0x4b, 0x04] + [0x02] == [0x4b, 0x04, 0x02];
    assert [0x4b, 0x04, 0x02] + [0x00] == BODY;
    ByteCodes();
    Regrouped();
  }

  lemma Regrouped()
    ensures [] + [true, true, false, true, false, false, true, false] + ([false, false, true] + Zeros(5)) + ([false, true] + Zeros(6)) + Zeros(8)
         == [true, true, false] + [true, false, false, true, false, false, false, true] + Zeros(6) + [true] + Zeros(12) + Zeros(2)
  {
    ZerosAdd(5, 1);
    ZerosAdd(6, 8);
    ZerosAdd(12, 2);
    assert Zeros(1) == [false];
    hide Zeros;
    Rebracket([true, true, false, true, false, false, true, false], [false, false, true], Zeros(5), [false], [true], Zeros(6), Zeros(8));
    assert [] + [true, true, false, true, false, false, true, false] == [true, true, false, true, false, false, true, false];
    assert [false] + [true] == [false, true];
    assert [true, true, false, true, false, false, true, false] + [false, false, true]
        == [true, true, false] + [true, false, false, true, false, false, false, true];
    Last([true, true, false] + [true, false, false, true, false, false, false, true] + Zeros(6) + [true], Zeros(12), Zeros(2));
  }

  lemma Rebracket(a: Bitstring, b: Bitstring, z: Bitstring, f: Bitstring, t: Bitstring, y: Bitstring, x: Bitstring)
    ensures a + (b + z) + ((f + t) + y) + x == a + b + (z + f) + t + (y + x)
  {
  }

  lemma Last(a: Bitstring, b: Bitstring, c: Bitstring)
    ensures a + b + c == a + (b + c)
  {
  }

  // ----- the checksum

  lemma TextSums()
    ensures AdlerTrailer(TEXT) == [0x03, 0xce, 0x01, 0x85]
  {
    hide AdlerSums;
    SumsClosed(TEXT, 4);
    assert TEXT[..4] == TEXT;
    assert ByteSum(TEXT, 4) == 4 * 0x61;
    assert WeightedSum(TEXT, 4, 4) == 10 * 0x61;
    hide ByteSum, WeightedSum;
  }

  /** The stream of the text, in bytes. */
  lemma KnownStream()
    ensures ZlibDecode([0x78, 0x5e, 0x4b, 0x04, 0x02, 0x00, 0x03, 0xce, 0x01, 0x85]) == Some(TEXT)
  {
    hide ZlibDecode, FixedBlock, BytesBits, Packed, AdlerTrailer, Zeros, Replays, Encodable;
    TokensReplay();
    TokensAsBits();
    BodyAsBits();
    PackedUnique(BODY, FixedBlock(TOKENS), 2);
    DecodeFixedForm(TOKENS, TEXT);
    TextSums();
    assert HEADER + BODY + [0x03, 0xce, 0x01, 0x85] == [0x78, 0x5e, 0x4b, 0x04, 0x02, 0x00, 0x03, 0xce, 0x01, 0x85];
  }
}
