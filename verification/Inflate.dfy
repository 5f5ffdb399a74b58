/** A decompressor written from RFC 1950 and RFC 1951, independent of the encoder.
    It is the reference the encoder is proved against. Blocks with dynamic Huffman
    codes are rejected: accepting fewer streams only makes the round trip stronger. */
module Inflate {
  import opened Bits
  import opened Wrappers

  /** Section 3.2.6 of RFC 1951: the prefix code for literal/length symbols. */
  function DecodeLitLen(bits: Bitstring): (r: Option<(nat, Bitstring)>)
    ensures r.Some? ==> |r.value.1| < |bits|
  {
    if |bits| < 7 then None else
    var v7 := MsbValue(bits[..7]);
    if v7 <= 23 then Some((256 + v7, bits[7..])) else
    if |bits| < 8 then None else
    var v8 := MsbValue(bits[..8]);
    if 0x30 <= v8 <= 0xBF then Some((v8 - 0x30, bits[8..])) else
    if 0xC0 <= v8 <= 0xC7 then Some((280 + v8 - 0xC0, bits[8..])) else
    if |bits| < 9 then None else
    var v9 := MsbValue(bits[..9]);
    if v9 < 0x190 then None else Some((144 + v9 - 0x190, bits[9..]))
  }

  /** Section 3.2.5 of RFC 1951: a range of values sharing one symbol. */
  datatype Range = Range(base: nat, extra: nat)

  function LengthRange(sym: nat): Range
    requires 257 <= sym <= 285
  {
    if sym <= 264 then Range(sym - 254, 0)
    else if sym == 285 then Range(258, 0)
    else
      var e := (sym - 261) / 4;
      Range((4 + (sym - 261) % 4) * Pow2(e) + 3, e)
  }

  function DistanceRange(sym: nat): Range
    requires sym <= 29
  {
    if sym <= 3 then Range(sym + 1, 0)
    else
      var e := sym / 2 - 1;
      Range((2 + sym % 2) * Pow2(e) + 1, e)
  }

  /** The value a range symbol stands for: its base plus its extra bits. */
  function DecodeExtra(bits: Bitstring, r: Range): (v: Option<(nat, Bitstring)>)
    ensures v.Some? ==> |v.value.1| <= |bits|
  {
    if |bits| < r.extra then None
    else Some((r.base + LsbValue(bits[..r.extra]), bits[r.extra..]))
  }

  function DecodeDistance(bits: Bitstring): (v: Option<(nat, Bitstring)>)
    ensures v.Some? ==> |v.value.1| < |bits|
  {
    if |bits| < 5 then None else
    var sym := MsbValue(bits[..5]);
    if sym > 29 then None else DecodeExtra(bits[5..], DistanceRange(sym))
  }

  /** Append `length` bytes, each a copy of the byte `distance` back; the two may overlap. */
  function CopyBack(out: seq<Byte>, length: nat, distance: nat): (r: seq<Byte>)
    requires 1 <= distance <= |out|
    ensures |r| == |out| + length
    decreases length
  {
    if length == 0 then out
    else CopyBack(out + [out[|out| - distance]], length - 1, distance)
  }

  /** The symbols of one fixed-code block, up to and including end-of-block. */
  function InflateFixed(bits: Bitstring, out: seq<Byte>): (r: Option<(seq<Byte>, Bitstring)>)
    ensures r.Some? ==> |r.value.1| < |bits|
    decreases |bits|
  {
    match DecodeLitLen(bits)
    case None => None
    case Some((sym, rest)) =>
      if sym < 256 then InflateFixed(rest, out + [sym])
      else if sym == 256 then Some((out, rest))
      else if sym > 285 then None
      else InflateMatch(sym, rest, out)
  }

  function InflateMatch(sym: nat, bits: Bitstring, out: seq<Byte>): (r: Option<(seq<Byte>, Bitstring)>)
    requires 257 <= sym <= 285
    ensures r.Some? ==> |r.value.1| < |bits|
    decreases |bits|
  {
    match DecodeExtra(bits, LengthRange(sym))
    case None => None
    case Some((length, rest)) =>
      match DecodeDistance(rest)
      case None => None
      case Some((distance, rest')) =>
        if 1 <= distance <= |out| then InflateFixed(rest', CopyBack(out, length, distance)) else None
  }

  /** The rest of a stream from its next byte boundary. A stream ends on a byte boundary,
      so the bits left in the current byte are the remaining bits modulo eight. */
  function Align(bits: Bitstring): (r: Bitstring)
    ensures |r| % 8 == 0 && |r| <= |bits|
  {
    bits[|bits| % 8..]
  }

  /** Section 3.2.4 of RFC 1951: a block stored without compression. */
  function InflateStored(bits: Bitstring, out: seq<Byte>): (r: Option<(seq<Byte>, Bitstring)>)
    ensures r.Some? ==> |r.value.1| < |bits|
  {
    var body := Align(bits);
    if |body| < 32 then None else
    var len, afterLen := LsbValue(body[..16]), body[16..];
    var nlen, block := LsbValue(afterLen[..16]), afterLen[16..];
    if nlen != 65535 - len || |block| < 8 * len then None
    else Some((out + BitsBytes(block[..8 * len]), block[8 * len..]))
  }

  /** Section 3.2.3 of RFC 1951: blocks up to the one marked final. */
  function InflateBlocks(bits: Bitstring, out: seq<Byte>): (r: Option<(seq<Byte>, Bitstring)>)
    decreases |bits|
  {
    if |bits| < 3 then None else
    var blockType := LsbValue(bits[1..3]);
    var block :=
      if blockType == 0 then InflateStored(bits[3..], out)
      else if blockType == 1 then InflateFixed(bits[3..], out)
      else None;
    match block
    case None => None
    case Some((out', rest)) => if bits[0] then block else InflateBlocks(rest, out')
  }

  /** Section 9 of RFC 1950: the two running sums, reduced after every byte. */
  function AdlerSums(data: seq<Byte>): (s: (nat, nat))
    ensures s.0 < 65521 && s.1 < 65521
  {
    if data == [] then (1, 0)
    else
      var (a, b) := AdlerSums(data[..|data| - 1]);
      var a' := (a + data[|data| - 1]) % 65521;
      (a', (b + a') % 65521)
  }

  /** Section 2.2 of RFC 1950: the checksum, most significant byte first. */
  function AdlerTrailer(data: seq<Byte>): seq<Byte> {
    var (a, b) := AdlerSums(data);
    [b / 256, b % 256, a / 256, a % 256]
  }

  /** Section 2.2 of RFC 1950: deflate method, window at most 32K, header check, no dictionary. */
  predicate ValidHeader(cmf: Byte, flg: Byte) {
    cmf % 16 == 8 && cmf / 16 <= 7 && (cmf * 256 + flg) % 31 == 0 && flg / 32 % 2 == 0
  }

  function ZlibDecode(bytes: seq<Byte>): Option<seq<Byte>> {
    if |bytes| < 2 || !ValidHeader(bytes[0], bytes[1]) then None
    else
      match InflateBlocks(BytesBits(bytes[2..]), [])
      case None => None
      case Some((data, rest)) =>
        if BitsBytes(Align(rest)) == AdlerTrailer(data) then Some(data) else None
  }
}
