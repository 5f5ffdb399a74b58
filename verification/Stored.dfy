/** The stored form the encoder falls back to, and how the reference decompressor reads it. */
module Stored {
  import opened Bits
  import opened Wrappers
  import opened Inflate
  import opened Deflate
  import opened BitWriter

  /** Bitwise complement of a C int. */
  function Not(v: int): int {
    -v - 1
  }

  function StoredHeader(final: bool, len: nat): (h: seq<Byte>)
    requires len <= 32767
    ensures |h| == 5
  {
    [if final then 1 else 0, len % 256, len / 256, Not(len) % 256, Not(len) / 256 % 256]
  }

  /** The stored form of the input: blocks of at most 32767 bytes, the last one marked final. */
  function StoredBlocks(data: seq<Byte>): seq<Byte>
    decreases |data|
  {
    if data == [] then []
    else if |data| <= 32767 then StoredHeader(true, |data|) + data
    else StoredHeader(false, 32767) + data[..32767] + StoredBlocks(data[32767..])
  }

  lemma {:induction false} StoredBlocksLength(data: seq<Byte>)
    ensures |StoredBlocks(data)| == |data| + (|data| + 32766) / 32767 * 5
    decreases |data|
  {
    if |data| > 32767 {
      StoredBlocksLength(data[32767..]);
    }
  }

  lemma TwoBytesValue(v: nat)
    requires v < 65536
    ensures BytesBits([v % 256, v / 256]) == LsbBits(v, 16) && LsbValue(LsbBits(v, 16)) == v
  {
    Pow2Values();
    LsbBitsStack(v % 256, 8, v / 256, 8);
    LsbValueOfBits(v, 16);
    hide LsbBits, Pow2;
    BytesBitsSnoc([v % 256], v / 256);
    BytesBitsSnoc([], v % 256);
    assert [v % 256] + [v / 256] == [v % 256, v / 256] && [] + [v % 256] == [v % 256];
  }

  /** The header byte: one final bit, block type 00, five bits of padding. */
  lemma HeaderBits(final: bool)
    ensures LsbBits(if final then 1 else 0, 8) == [final, false, false] + Zeros(5)
  {
    assert LsbBits(0, 5) == Zeros(5);
    LsbBitsStack(if final then 1 else 0, 3, 0, 5);
    assert LsbBits(1, 3) == [true, false, false] && LsbBits(0, 3) == [false, false, false];
    Pow2Values();
  }

  lemma BytesBitsPair(a: Byte, b: Byte)
    ensures BytesBits([a]) == LsbBits(a, 8) && BytesBits([a, b]) == LsbBits(a, 8) + LsbBits(b, 8)
  {
    hide LsbBits;
    assert [a, b][..1] == [a];
  }

  /** A stored block, split into what the decompressor reads one after the other. */
  lemma StoredBlockBits(final: bool, block: seq<Byte>, tail: seq<Byte>)
    requires |block| <= 32767
    ensures BytesBits(StoredHeader(final, |block|) + block + tail)
         == [final, false, false] + (Zeros(5) + (LsbBits(|block|, 16) + (LsbBits(65535 - |block|, 16)
            + (BytesBits(block) + BytesBits(tail)))))
  {
    hide BytesBits, LsbBits, Zeros, LsbValue;
    var len := |block|;
    var first: seq<Byte> := [if final then 1 else 0];
    var low: seq<Byte> := [len % 256, len / 256];
    var nlen := 65535 - len;
    var high: seq<Byte> := [nlen % 256, nlen / 256];
    assert StoredHeader(final, len) == first + (low + high);
    assert StoredHeader(final, len) + block + tail == first + (low + (high + (block + tail)));
    BytesBitsAppend(first, low + (high + (block + tail)));
    BytesBitsAppend(low, high + (block + tail));
    BytesBitsAppend(high, block + tail);
    BytesBitsAppend(block, tail);
    TwoBytesValue(len);
    TwoBytesValue(nlen);
    BytesBitsPair(first[0], 0);
    HeaderBits(final);
    var rest := LsbBits(len, 16) + (LsbBits(nlen, 16) + (BytesBits(block) + BytesBits(tail)));
    assert ([final, false, false] + Zeros(5)) + rest == [final, false, false] + (Zeros(5) + rest);
  }

  lemma Split<T>(a: seq<T>, b: seq<T>)
    ensures (a + b)[..|a|] == a && (a + b)[|a|..] == b
  {
  }

  /** The decompressor reads one stored block back, whatever bytes follow it. */
  lemma InflateStoredBlock(final: bool, block: seq<Byte>, tail: seq<Byte>, out: seq<Byte>)
    requires |block| <= 32767
    ensures var bits := BytesBits(StoredHeader(final, |block|) + block + tail);
            |bits| >= 3 && bits[0] == final && LsbValue(bits[1..3]) == 0
            && InflateStored(bits[3..], out) == Some((out + block, BytesBits(tail)))
  {
    hide BytesBits, LsbBits, Zeros, BitsBytes, LsbValue, StoredHeader, Pow2;
    var bits := BytesBits(StoredHeader(final, |block|) + block + tail);
    var len, nlen := LsbBits(|block|, 16), LsbBits(65535 - |block|, 16);
    var content := BytesBits(block) + BytesBits(tail);
    var body := len + (nlen + content);
    StoredBlockBits(final, block, tail);
    Split([final, false, false], Zeros(5) + body);
    Split(Zeros(5), body);
    assert |body| == 8 * (4 + |block| + |tail|);
    assert Align(bits[3..]) == body;
    assert bits[1..3] == [false, false];
    LsbValuePairs();
    TwoBytesValue(|block|);
    TwoBytesValue(65535 - |block|);
    BytesRoundTrip(block);
    Split(len, nlen + content);
    Split(nlen, content);
    Split(BytesBits(block), BytesBits(tail));
  }

  lemma {:induction false} InflateStoredBlocks(data: seq<Byte>, tail: seq<Byte>, out: seq<Byte>)
    requires data != []
    ensures InflateBlocks(BytesBits(StoredBlocks(data) + tail), out) == Some((out + data, BytesBits(tail)))
    decreases |data|
  {
    hide BytesBits, LsbValue, InflateStored, InflateFixed, StoredHeader, Pow2;
    if |data| <= 32767 {
      InflateStoredBlock(true, data, tail, out);
    } else {
      var block, rest := data[..32767], data[32767..];
      InflateStoredBlock(false, block, StoredBlocks(rest) + tail, out);
      InflateStoredBlocks(rest, tail, out + block);
      assert StoredBlocks(data) + tail == StoredHeader(false, 32767) + block + (StoredBlocks(rest) + tail);
      assert out + block + rest == out + data;
    }
  }
}
