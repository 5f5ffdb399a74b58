/** What the encoder writes: literals and back references as bits of the fixed Huffman code,
    and the proof that the reference decompressor reads every such stream back. */
module Deflate {
  import opened Bits
  import opened Wrappers
  import opened Inflate

  const LENGTH_BASE: seq<nat> := [3, 4, 5, 6, 7, 8, 9, 10, 11, 13, 15, 17, 19, 23, 27, 31, 35, 43, 51, 59, 67, 83, 99,
                                  115, 131, 163, 195, 227, 258, 259]
  const LENGTH_EXTRA: seq<nat> := [0, 0, 0, 0, 0, 0, 0, 0, 1, 1, 1, 1, 2, 2, 2, 2, 3, 3, 3, 3, 4, 4, 4, 4, 5, 5, 5, 5, 0]
  const DISTANCE_BASE: seq<nat> := [1, 2, 3, 4, 5, 7, 9, 13, 17, 25, 33, 49, 65, 97, 129, 193, 257, 385, 513, 769, 1025,
                                    1537, 2049, 3073, 4097, 6145, 8193, 12289, 16385, 24577, 32768]
  const DISTANCE_EXTRA: seq<nat> := [0, 0, 0, 0, 1, 1, 2, 2, 3, 3, 4, 4, 5, 5, 6, 6, 7, 7, 8, 8, 9, 9, 10, 10, 11, 11, 12,
                                     12, 13, 13]

  const END_OF_BLOCK := 256

  datatype Token = Literal(byte: Byte) | Match(length: nat, distance: nat)

  /** The encoder's limits on a back reference when `produced` bytes precede it. */
  predicate Legal(t: Token, produced: nat) {
    t.Match? ==> 3 <= t.length <= 258 && 1 <= t.distance <= 32767 && t.distance <= produced
  }

  function Apply(out: seq<Byte>, t: Token): seq<Byte>
    requires Legal(t, |out|)
  {
    match t
    case Literal(b) => out + [b]
    case Match(length, distance) => CopyBack(out, length, distance)
  }

  /** `Replays(ts, out)`: the tokens are legal one after the other and produce `out`. */
  ghost predicate Replays(ts: seq<Token>, out: seq<Byte>)
    decreases |ts|
  {
    if ts == [] then out == []
    else
      var t := ts[|ts| - 1];
      exists prev :: Replays(ts[..|ts| - 1], prev) && Legal(t, |prev|) && out == Apply(prev, t)
  }

  /** The fixed code of a literal/length symbol, most significant bit first. */
  function FixedCode(sym: nat): Bitstring
    requires sym <= 287
  {
    if sym <= 143 then MsbBits(0x30 + sym, 8)
    else if sym <= 255 then MsbBits(0x190 + sym - 144, 9)
    else if sym <= 279 then MsbBits(sym - 256, 7)
    else MsbBits(0xc0 + sym - 280, 8)
  }

  /** The first slot at or after `j` whose upper neighbour exceeds `v`. */
  function SlotFrom(bases: seq<nat>, v: nat, j: nat): (k: nat)
    requires j + 1 < |bases| && bases[j] <= v < bases[|bases| - 1]
    ensures j <= k && k + 1 < |bases| && bases[k] <= v < bases[k + 1]
    decreases |bases| - j
  {
    if v < bases[j + 1] then j else SlotFrom(bases, v, j + 1)
  }

  function LengthBits(length: nat): Bitstring
    requires 3 <= length <= 258
  {
    var j := SlotFrom(LENGTH_BASE, length, 0);
    FixedCode(257 + j) + LsbBits(length - LENGTH_BASE[j], LENGTH_EXTRA[j])
  }

  function DistanceBits(distance: nat): Bitstring
    requires 1 <= distance <= 32767
  {
    var j := SlotFrom(DISTANCE_BASE, distance, 0);
    MsbBits(j, 5) + LsbBits(distance - DISTANCE_BASE[j], DISTANCE_EXTRA[j])
  }

  function TokenBits(t: Token): Bitstring
    requires t.Match? ==> 3 <= t.length <= 258 && 1 <= t.distance <= 32767
  {
    match t
    case Literal(b) => FixedCode(b)
    case Match(length, distance) => LengthBits(length) + DistanceBits(distance)
  }

  predicate Encodable(ts: seq<Token>) {
    forall k :: 0 <= k < |ts| && ts[k].Match? ==> 3 <= ts[k].length <= 258 && 1 <= ts[k].distance <= 32767
  }

  lemma {:induction false} ReplaysEncodable(ts: seq<Token>, out: seq<Byte>)
    requires Replays(ts, out)
    ensures Encodable(ts)
    decreases |ts|
  {
    if ts != [] {
      var t := ts[|ts| - 1];
      var prev :| Replays(ts[..|ts| - 1], prev) && Legal(t, |prev|) && out == Apply(prev, t);
      ReplaysEncodable(ts[..|ts| - 1], prev);
    }
  }

  function TokensBits(ts: seq<Token>): Bitstring
    requires Encodable(ts)
  {
    if ts == [] then [] else TokensBits(ts[..|ts| - 1]) + TokenBits(ts[|ts| - 1])
  }

  lemma TokensBitsSnoc(ts: seq<Token>, t: Token)
    requires Encodable(ts) && (t.Match? ==> 3 <= t.length <= 258 && 1 <= t.distance <= 32767)
    ensures Encodable(ts + [t]) && TokensBits(ts + [t]) == TokensBits(ts) + TokenBits(t)
  {
    assert (ts + [t])[..|ts|] == ts;
  }

  /** One final block of the fixed code: header, tokens, end-of-block. */
  function FixedBlock(ts: seq<Token>): Bitstring
    requires Encodable(ts)
  {
    [true, true, false] + TokensBits(ts) + FixedCode(END_OF_BLOCK)
  }

  // ----- the code tables

  /** The fixed code is a prefix code: the decoder reads one symbol back and nothing more. */
  lemma DecodeFixedCode(sym: nat, rest: Bitstring)
    requires sym <= 287
    ensures DecodeLitLen(FixedCode(sym) + rest) == Some((sym, rest))
  {
    hide MsbBits, MsbValue, Pow2;
    if sym <= 143 {
      DecodeEight(0x30 + sym, rest);
    } else if sym <= 255 {
      DecodeNine(0x190 + sym - 144, rest);
    } else if sym <= 279 {
      DecodeSeven(sym - 256, rest);
    } else {
      DecodeEight(0xc0 + sym - 280, rest);
    }
  }

  lemma DecodeSeven(v: nat, rest: Bitstring)
    requires v < 128
    ensures var bits := MsbBits(v, 7) + rest;
            MsbValue(bits[..7]) == v && bits[7..] == rest
  {
    Pow2Values();
    MsbValueOfBits(v, 7);
    assert (MsbBits(v, 7) + rest)[..7] == MsbBits(v, 7);
  }

  lemma DecodeEight(v: nat, rest: Bitstring)
    requires v < 256
    ensures var bits := MsbBits(v, 8) + rest;
            MsbValue(bits[..7]) == v / 2 && MsbValue(bits[..8]) == v && bits[8..] == rest
  {
    var bits := MsbBits(v, 8) + rest;
    Pow2Values();
    MsbValueOfBits(v, 8);
    MsbValueOfBits(v / 2, 7);
    assert bits[..8] == MsbBits(v, 8) && bits[..7] == MsbBits(v / 2, 7);
  }

  lemma DecodeNine(v: nat, rest: Bitstring)
    requires v < 512
    ensures var bits := MsbBits(v, 9) + rest;
            MsbValue(bits[..7]) == v / 4 && MsbValue(bits[..8]) == v / 2 && MsbValue(bits[..9]) == v && bits[9..] == rest
  {
    hide MsbValue, Pow2;
    var bits := MsbBits(v, 9) + rest;
    Pow2Values();
    DecodeEight(v / 2, [v % 2 == 1] + rest);
    MsbBitsSnoc(v, 8);
    hide MsbBits;
    assert bits == MsbBits(v / 2, 8) + ([v % 2 == 1] + rest);
    MsbValueOfBits(v, 9);
    assert bits[..9] == MsbBits(v, 9);
  }

  lemma MsbBitsSnoc(v: nat, n: nat)
    ensures MsbBits(v, n + 1) == MsbBits(v / 2, n) + [v % 2 == 1]
  {
  }

  /** The length tables say what section 3.2.5 of RFC 1951 says, and the extra bits suffice. */
  lemma LengthTable(j: nat)
    requires j < 29
    ensures LengthRange(257 + j) == Range(LENGTH_BASE[j], LENGTH_EXTRA[j])
    ensures LENGTH_BASE[j + 1] - LENGTH_BASE[j] <= Pow2(LENGTH_EXTRA[j])
  {
    Pow2Values();
    hide Pow2;
    match j {
      case 0 =>
      case 1 =>
      case 2 =>
      case 3 =>
      case 4 =>
      case 5 =>
      case 6 =>
      case 7 =>
      case 8 =>
      case 9 =>
      case 10 =>
      case 11 =>
      case 12 =>
      case 13 =>
      case 14 =>
      case 15 =>
      case 16 =>
      case 17 =>
      case 18 =>
      case 19 =>
      case 20 =>
      case 21 =>
      case 22 =>
      case 23 =>
      case 24 =>
      case 25 =>
      case 26 =>
      case 27 =>
      case 28 =>
    }
  }

  lemma DistanceTable(j: nat)
    requires j < 30
    ensures DistanceRange(j) == Range(DISTANCE_BASE[j], DISTANCE_EXTRA[j])
    ensures DISTANCE_BASE[j + 1] - DISTANCE_BASE[j] <= Pow2(DISTANCE_EXTRA[j])
  {
    Pow2Values();
    hide Pow2;
    if j < 15 {
      match j {
        case 0 =>
        case 1 =>
        case 2 =>
        case 3 =>
        case 4 =>
        case 5 =>
        case 6 =>
        case 7 =>
        case 8 =>
        case 9 =>
        case 10 =>
        case 11 =>
        case 12 =>
        case 13 =>
        case 14 =>
      }
    } else {
      DistanceTableHigh(j);
    }
  }

  lemma DistanceTableHigh(j: nat)
    requires 15 <= j < 30
    ensures DistanceRange(j) == Range(DISTANCE_BASE[j], DISTANCE_EXTRA[j])
    ensures DISTANCE_BASE[j + 1] - DISTANCE_BASE[j] <= Pow2(DISTANCE_EXTRA[j])
  {
    Pow2Values();
    hide Pow2;
    match j {
      case 15 =>
      case 16 =>
      case 17 =>
      case 18 =>
      case 19 =>
      case 20 =>
      case 21 =>
      case 22 =>
      case 23 =>
      case 24 =>
      case 25 =>
      case 26 =>
      case 27 =>
      case 28 =>
      case 29 =>
    }
  }

  // ----- decoding

  lemma DecodeExtraBits(v: nat, r: Range, rest: Bitstring)
    requires r.base <= v < r.base + Pow2(r.extra)
    ensures DecodeExtra(LsbBits(v - r.base, r.extra) + rest, r) == Some((v, rest))
  {
    var field := LsbBits(v - r.base, r.extra);
    LsbValueOfBits(v - r.base, r.extra);
    assert (field + rest)[..r.extra] == field && (field + rest)[r.extra..] == rest;
  }

  lemma DecodeDistanceBits(distance: nat, rest: Bitstring)
    requires 1 <= distance <= 32767
    ensures DecodeDistance(DistanceBits(distance) + rest) == Some((distance, rest))
  {
    hide DecodeExtra, DistanceRange, SlotFrom, LsbBits, MsbBits, MsbValue, Pow2;
    var j := SlotFrom(DISTANCE_BASE, distance, 0);
    var code, extra := MsbBits(j, 5), LsbBits(distance - DISTANCE_BASE[j], DISTANCE_EXTRA[j]);
    DistanceTable(j);
    Pow2Values();
    MsbValueOfBits(j, 5);
    var bits := DistanceBits(distance) + rest;
    assert bits == code + (extra + rest);
    assert bits[..5] == code && bits[5..] == extra + rest;
    DecodeExtraBits(distance, DistanceRange(j), rest);
  }

  /** One step of the decoder over a match, whatever the codes are. */
  lemma InflateMatchStep(bits: Bitstring, out: seq<Byte>, sym: nat, b1: Bitstring, length: nat, b2: Bitstring,
                         distance: nat, b3: Bitstring)
    requires 257 <= sym <= 285 && DecodeLitLen(bits) == Some((sym, b1))
    requires DecodeExtra(b1, LengthRange(sym)) == Some((length, b2))
    requires DecodeDistance(b2) == Some((distance, b3)) && 1 <= distance <= |out|
    ensures InflateFixed(bits, out) == InflateFixed(b3, CopyBack(out, length, distance))
  {
    hide DecodeLitLen, DecodeDistance, DecodeExtra, LengthRange, CopyBack;
    assert InflateFixed(bits, out) == InflateMatch(sym, b1, out);
  }

  lemma DecodeLengthBits(length: nat, rest: Bitstring) returns (sym: nat, tail: Bitstring)
    requires 3 <= length <= 258
    ensures 257 <= sym <= 285 && DecodeLitLen(LengthBits(length) + rest) == Some((sym, tail))
    ensures DecodeExtra(tail, LengthRange(sym)) == Some((length, rest))
  {
    hide DecodeLitLen, DecodeExtra, LengthRange, FixedCode, SlotFrom, Pow2, LsbBits;
    var j := SlotFrom(LENGTH_BASE, length, 0);
    var code, extra := FixedCode(257 + j), LsbBits(length - LENGTH_BASE[j], LENGTH_EXTRA[j]);
    sym, tail := 257 + j, extra + rest;
    assert LengthBits(length) + rest == code + tail;
    DecodeFixedCode(sym, tail);
    LengthTable(j);
    DecodeExtraBits(length, LengthRange(sym), rest);
  }

  /** Reading back one token leaves the decoder exactly where the token ends. */
  lemma InflateToken(t: Token, rest: Bitstring, out: seq<Byte>)
    requires Legal(t, |out|)
    ensures InflateFixed(TokenBits(t) + rest, out) == InflateFixed(rest, Apply(out, t))
  {
    hide FixedCode, LengthBits, DistanceBits, DecodeLitLen, DecodeDistance, DecodeExtra, LengthRange, InflateFixed, CopyBack;
    match t
    case Literal(b) =>
      DecodeFixedCode(b, rest);
      InflateLiteralStep(TokenBits(t) + rest, out, b, rest);
    case Match(length, distance) =>
      var tail := DistanceBits(distance) + rest;
      assert TokenBits(t) + rest == LengthBits(length) + tail;
      var sym, extra := DecodeLengthBits(length, tail);
      DecodeDistanceBits(distance, rest);
      InflateMatchStep(TokenBits(t) + rest, out, sym, extra, length, tail, distance, rest);
  }

  lemma InflateLiteralStep(bits: Bitstring, out: seq<Byte>, b: Byte, rest: Bitstring)
    requires DecodeLitLen(bits) == Some((b, rest))
    ensures InflateFixed(bits, out) == InflateFixed(rest, out + [b])
  {
    hide DecodeLitLen;
  }

  lemma {:induction false} InflateTokens(ts: seq<Token>, rest: Bitstring, out: seq<Byte>)
    requires Encodable(ts) && Replays(ts, out)
    ensures InflateFixed(TokensBits(ts) + rest, []) == InflateFixed(rest, out)
  {
    hide InflateFixed, TokenBits, Apply;
    if ts == [] {
      assert TokensBits(ts) + rest == rest;
    } else {
      var init, t := ts[..|ts| - 1], ts[|ts| - 1];
      var prev :| Replays(init, prev) && Legal(t, |prev|) && out == Apply(prev, t);
      assert TokensBits(ts) + rest == TokensBits(init) + (TokenBits(t) + rest);
      InflateTokens(init, TokenBits(t) + rest, prev);
      InflateToken(t, rest, prev);
    }
  }

  lemma LsbValuePairs()
    ensures LsbValue([true, false]) == 1 && LsbValue([false, false]) == 0
  {
    assert [true, false][1..] == [false] && [false, false][1..] == [false];
  }

  lemma InflateEnd(bits: Bitstring, out: seq<Byte>, rest: Bitstring)
    requires DecodeLitLen(bits) == Some((END_OF_BLOCK, rest))
    ensures InflateFixed(bits, out) == Some((out, rest))
  {
    hide DecodeLitLen;
  }

  /** A fixed block is inflated to what its tokens replay to, whatever follows it. */
  lemma InflateFixedBlock(ts: seq<Token>, rest: Bitstring, out: seq<Byte>)
    requires Encodable(ts) && Replays(ts, out)
    ensures InflateBlocks(FixedBlock(ts) + rest, []) == Some((out, rest))
  {
    hide FixedCode, DecodeLitLen, TokensBits, LsbValue, Pow2;
    var bits := FixedBlock(ts) + rest;
    var eob := FixedCode(END_OF_BLOCK) + rest;
    assert bits[3..] == TokensBits(ts) + eob;
    assert bits[1..3] == [true, false];
    LsbValuePairs();
    InflateTokens(ts, eob, out);
    DecodeFixedCode(END_OF_BLOCK, rest);
    InflateEnd(eob, out, rest);
  }
}
