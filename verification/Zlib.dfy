/** The zlib compressor, and its round trip through the reference decompressor. */
module Zlib {
  import opened Bits
  import opened Wrappers
  import opened Inflate
  import opened Deflate
  import opened BitWriter
  import opened Lz77
  import opened Adler
  import opened Stored

  const HEADER: seq<Byte> := [0x78, 0x5e]

  // ----- the compressed form

  /** How many zero bits complete the last byte. */
  function Padding(n: nat): (p: nat)
    ensures p < 8 && (n + p) % 8 == 0
  {
    (8 - n % 8) % 8
  }

  /** Bits padded with zeros to whole bytes. */
  function Packed(bits: Bitstring): seq<Byte> {
    BitsBytes(bits + Zeros(Padding(|bits|)))
  }

  /** The stream body for the chosen tokens. */
  function FixedForm(ts: seq<Token>): seq<Byte>
    requires Encodable(ts)
  {
    Packed(FixedBlock(ts))
  }

  /** The size above which the stored form is preferred. */
  function StoredSize(n: nat): nat {
    n + 2 + (n + 32766) / 32767 * 5
  }

  /** The tokens of the whole input: the main loop's, then a literal for each of the last bytes. */
  ghost predicate Parse(data: seq<Byte>, quality: nat, ts: seq<Token>) {
    exists k: nat, i: nat, table: Table ::
      k <= |ts| && Run(data, quality, ts[..k], i, table) && i + 3 >= |data| && LiteralTail(data, i, ts[k..])
  }

  ghost predicate LiteralTail(data: seq<Byte>, i: nat, ts: seq<Token>) {
    i + |ts| == |data| && forall j :: 0 <= j < |ts| ==> ts[j] == Literal(data[i + j])
  }

  lemma {:induction false} PackedUnique(bytes: seq<Byte>, bits: Bitstring, p: nat)
    requires p < 8 && BytesBits(bytes) == bits + Zeros(p)
    ensures bytes == Packed(bits)
  {
    assert 8 * |bytes| == |bits| + p;
    assert p == Padding(|bits|);
    BytesRoundTrip(bytes);
  }

  lemma PackedBits(bits: Bitstring)
    ensures BytesBits(Packed(bits)) == bits + Zeros(Padding(|bits|))
  {
    hide Padding, Zeros, BytesBits, BitsBytes;
    BitsRoundTrip(bits + Zeros(Padding(|bits|)));
  }

  // ----- decoding the two forms

  lemma TrailerRead(a: nat, b: nat, data: seq<Byte>, zeros: Bitstring)
    requires (a, b) == AdlerSums(data) && |zeros| < 8
    ensures BitsBytes(Align(zeros + BytesBits(AdlerTrailer(data)))) == AdlerTrailer(data)
  {
    hide BytesBits, BitsBytes, AdlerSums;
    var bits := BytesBits(AdlerTrailer(data));
    Split(zeros, bits);
    assert Align(zeros + bits) == bits;
    BytesRoundTrip(AdlerTrailer(data));
  }

  lemma DecodeFixedForm(ts: seq<Token>, data: seq<Byte>)
    requires Encodable(ts) && Replays(ts, data)
    ensures ZlibDecode(HEADER + FixedForm(ts) + AdlerTrailer(data)) == Some(data)
  {
    hide BytesBits, BitsBytes, AdlerSums, InflateBlocks, FixedBlock, Replays;
    var stream := HEADER + FixedForm(ts) + AdlerTrailer(data);
    var block, trailer := FixedBlock(ts), BytesBits(AdlerTrailer(data));
    var zeros := Zeros(Padding(|block|));
    assert stream[2..] == FixedForm(ts) + AdlerTrailer(data);
    BytesBitsAppend(FixedForm(ts), AdlerTrailer(data));
    PackedBits(block);
    assert (block + zeros) + trailer == block + (zeros + trailer);
    InflateFixedBlock(ts, zeros + trailer, data);
    var (a, b) := AdlerSums(data);
    TrailerRead(a, b, data, zeros);
  }

  lemma DecodeStoredForm(data: seq<Byte>)
    requires data != []
    ensures ZlibDecode(HEADER + StoredBlocks(data) + AdlerTrailer(data)) == Some(data)
  {
    hide BytesBits, BitsBytes, AdlerSums, InflateBlocks, StoredBlocks;
    var stream := HEADER + StoredBlocks(data) + AdlerTrailer(data);
    assert stream[2..] == StoredBlocks(data) + AdlerTrailer(data);
    InflateStoredBlocks(data, AdlerTrailer(data), []);
    assert [] + data == data;
    var (a, b) := AdlerSums(data);
    TrailerRead(a, b, data, []);
    assert [] + BytesBits(AdlerTrailer(data)) == BytesBits(AdlerTrailer(data));
  }

  // ----- the encoder

  /** Pick the token for position `i` and file `i` in its bucket. */
  method Choose(data: seq<Byte>, quality: nat, i: nat, hashTable: array<seq<nat>>) returns (t: Token)
    requires hashTable.Length == ZHASH && quality > 0 && i + 3 < |data| && BucketsValid(hashTable[..], data, i, quality)
    modifies hashTable
    ensures Step(data, quality, i, old(hashTable[..]), t, hashTable[..])
  {
    hide MatchLength, Longest, NoMatch, BetterNext, HashAt, Chosen;
    ghost var before: Table := hashTable[..];
    var h, next := HashAt(data, i), HashAt(data, i + 1);
    assert BucketOf(before, data, i, h, quality);
    ghost var bucket := hashTable[h];
    var loc, best, m := FindLongest(data, hashTable[h], i);
    // when the bucket is full, delete its older half
    if |hashTable[h]| == 2 * quality {
      hashTable[h] := hashTable[h][quality..];
    }
    hashTable[h] := hashTable[h] + [i];
    ghost var after: Table := hashTable[..];
    assert after == Insert(before, h, i, quality);
    BucketsStep(before, data, i, quality);
    assert BucketOf(after, data, i + 1, next, quality);
    if loc == -1 {
      t := Literal(data[i]);
      NoMatchChosen(data, i, bucket, after[next]);
    } else {
      // lazy matching: a better match at the next byte makes this one a literal
      var better := FindBetterNext(data, hashTable[next], i, best);
      t := if better then Literal(data[i]) else Match(best, i - loc);
      MatchChosen(data, i, bucket, after[next], m, best, t);
    }
  }

  lemma RunIntro(data: seq<Byte>, quality: nat, ts: seq<Token>, i: nat, table: Table, table': Table)
    requires ts != [] && Run(data, quality, ts[..|ts| - 1], i, table)
    requires Step(data, quality, i, table, ts[|ts| - 1], table')
    ensures Run(data, quality, ts, i + Width(ts[|ts| - 1]), table')
  {
    hide Step;
  }

  lemma RunSnoc(data: seq<Byte>, quality: nat, ts: seq<Token>, i: nat, table: Table, t: Token, table': Table)
    requires Run(data, quality, ts, i, table) && Step(data, quality, i, table, t, table')
    ensures Run(data, quality, ts + [t], i + Width(t), table')
    ensures Legal(t, i) && i + Width(t) <= |data| && Width(t) >= 1
    ensures BucketsValid(table', data, i + Width(t), quality)
  {
    hide Chosen, HashAt, BucketOf, BucketsValid, Insert;
    assert (ts + [t])[..|ts|] == ts;
    RunIntro(data, quality, ts + [t], i, table, table');
    RunReplays(data, quality, ts, i, table);
    ChosenReplays(data, i, table[HashAt(data, i)], table'[HashAt(data, i + 1)], t);
    BucketsLater(table', data, i + 1, i + Width(t), quality);
  }

  /** The main loop: tokens for every position that still has three bytes after it. */
  method EncodeMatches(w: Writer, data: seq<Byte>, quality: nat, hashTable: array<seq<nat>>)
    returns (i: nat, ghost ts: seq<Token>)
    requires w.Valid() && quality > 0 && hashTable.Length == ZHASH && hashTable[..] == seq(ZHASH, _ => [])
    modifies w, hashTable
    ensures w.Valid() && i + 3 >= |data| && Run(data, quality, ts, i, hashTable[..])
    ensures Encodable(ts) && w.Contents() == old(w.Contents()) + TokensBits(ts) && w.cap >= old(w.cap)
  {
    hide Chosen, HashAt, BucketOf, BucketsValid, Run, Step, TokenBits, TokensBits, MsbBits, LsbBits, BytesBits, Pow2;
    i, ts := 0, [];
    RunStart(data, quality, hashTable[..]);
    while i + 3 < |data|
      invariant w.Valid() && w.cap >= old(w.cap)
      invariant Run(data, quality, ts, i, hashTable[..]) && BucketsValid(hashTable[..], data, i, quality)
      invariant Encodable(ts) && w.Contents() == old(w.Contents()) + TokensBits(ts)
      decreases |data| - i
    {
      ghost var before: Table := hashTable[..];
      var t := Choose(data, quality, i, hashTable);
      RunSnoc(data, quality, ts, i, before, t, hashTable[..]);
      TokensBitsSnoc(ts, t);
      EncodeToken(w, t);
      ts := ts + [t];
      i := i + Width(t);
    }
  }

  lemma RunStart(data: seq<Byte>, quality: nat, table: Table)
    requires table == seq(ZHASH, _ => [])
    ensures Run(data, quality, [], 0, table) && BucketsValid(table, data, 0, quality) && TokensBits([]) == []
  {
  }

  method EncodeToken(w: Writer, t: Token)
    requires w.Valid() && (t.Match? ==> 3 <= t.length <= 258 && 1 <= t.distance <= 32767)
    modifies w
    ensures w.Valid() && w.Contents() == old(w.Contents()) + TokenBits(t) && w.cap >= old(w.cap)
  {
    match t
    case Match(best, d) => w.AddMatch(best, d);
    case Literal(b) => w.AddLiteral(b);
  }

  /** The whole block body: the main loop, then the last bytes as literals. */
  method EncodeBody(w: Writer, data: seq<Byte>, quality: nat) returns (ghost ts: seq<Token>)
    requires w.Valid() && quality > 0
    modifies w
    ensures w.Valid() && Parse(data, quality, ts) && Replays(ts, data)
    ensures Encodable(ts) && w.Contents() == old(w.Contents()) + TokensBits(ts) && w.cap >= old(w.cap)
  {
    hide Run, TokenBits, TokensBits, MsbBits, LsbBits, BytesBits, Pow2, Replays, FixedCode;
    var hashTable := new seq<nat>[ZHASH];
    for k := 0 to ZHASH
      modifies hashTable
      invariant forall j :: 0 <= j < k ==> hashTable[j] == []
    {
      hashTable[k] := [];
    }
    assert hashTable[..] == seq(ZHASH, _ => []);
    var i;
    i, ts := EncodeMatches(w, data, quality, hashTable);
    ghost var matched, start := |ts|, i;
    RunReplays(data, quality, ts, i, hashTable[..]);
    ghost var main := ts;
    while i < |data|
      invariant w.Valid() && w.cap >= old(w.cap) && start <= i <= |data|
      invariant matched <= |ts| && ts[..matched] == main
      invariant start + |ts| - matched == i
      invariant forall j :: matched <= j < |ts| ==> ts[j] == Literal(data[start + j - matched])
      invariant Replays(ts, data[..i])
      invariant Encodable(ts) && w.Contents() == old(w.Contents()) + TokensBits(ts)
    {
      LiteralReplays(ts, data, i);
      TokensBitsSnoc(ts, Literal(data[i]));
      EncodeToken(w, Literal(data[i]));
      ts := ts + [Literal(data[i])];
      i := i + 1;
    }
    assert data[..i] == data;
    assert LiteralTail(data, start, ts[matched..]);
  }

  lemma LiteralReplays(ts: seq<Token>, data: seq<Byte>, i: nat)
    requires i < |data| && Replays(ts, data[..i])
    ensures Replays(ts + [Literal(data[i])], data[..i + 1])
  {
    assert (ts + [Literal(data[i])])[..|ts|] == ts;
    assert data[..i + 1] == Apply(data[..i], Literal(data[i]));
  }

  // ----- the fallback

  /** One stored block: header bytes, then an unchecked copy. */
  method StoreBlock(w: Writer, final: bool, block: seq<Byte>)
    requires w.Allocated() && |block| <= 32767 && |w.out| + 5 + |block| < w.cap
    modifies w
    ensures w.Allocated() && w.cap >= old(w.cap) && w.out == old(w.out) + (StoredHeader(final, |block|) + block)
  {
    hide StoredHeader, Not;
    ghost var before := w.out;
    w.Push(if final then 1 else 0);
    w.Push(|block| % 256);
    w.Push(|block| / 256 % 256);
    w.Push(Not(|block|) % 256);
    w.Push(Not(|block|) / 256 % 256);
    HeaderPushed(before, final, |block|);
    w.CopyUnchecked(block);
    StoredRegroup(before, StoredHeader(final, |block|), block);
  }

  lemma HeaderPushed(before: seq<Byte>, final: bool, len: nat)
    requires len <= 32767
    ensures before + [if final then 1 else 0] + [len % 256] + [len / 256 % 256] + [Not(len) % 256] + [Not(len) / 256 % 256]
         == before + StoredHeader(final, len)
  {
  }

  /** Write the input as stored blocks over the abandoned attempt. The unchecked copies stay inside the
      allocation because that attempt, larger than the stored form, had already grown it. */
  method StoreBlocks(w: Writer, data: seq<Byte>)
    requires w.Allocated() && w.out == HEADER && w.cap > StoredSize(|data|)
    modifies w
    ensures w.Allocated() && w.out == HEADER + StoredBlocks(data)
  {
    hide StoredBlocks, StoredHeader;
    var j := 0;
    StoredBlocksLength(data);
    assert data[0..] == data;
    while j < |data|
      invariant j <= |data| && w.Allocated() && w.cap >= old(w.cap)
      invariant w.out + StoredBlocks(data[j..]) == HEADER + StoredBlocks(data)
    {
      ghost var before := w.out;
      var blocklen := |data| - j;
      if blocklen > 32767 {
        blocklen := 32767;
      }
      StoredBlocksStep(data, j, blocklen);
      assert |before| + |StoredBlocks(data[j..])| == StoredSize(|data|);
      StoreBlock(w, |data| - j == blocklen, data[j..j + blocklen]);
      StoredRegroup(before, StoredHeader(|data| - j == blocklen, blocklen) + data[j..j + blocklen], StoredBlocks(data[j + blocklen..]));
      j := j + blocklen;
    }
    StoredBlocksEnd(data[j..]);
  }

  lemma StoredRegroup<T>(a: seq<T>, b: seq<T>, c: seq<T>)
    ensures a + (b + c) == a + b + c
  {
  }

  lemma StoredBlocksEnd(data: seq<Byte>)
    requires data == []
    ensures StoredBlocks(data) == []
  {
  }

  lemma StoredBlocksStep(data: seq<Byte>, j: nat, blocklen: nat)
    requires j < |data| && blocklen == if |data| - j > 32767 then 32767 else |data| - j
    ensures StoredBlocks(data[j..])
         == StoredHeader(|data| - j == blocklen, blocklen) + data[j..j + blocklen] + StoredBlocks(data[j + blocklen..])
  {
    var rest := data[j..];
    assert rest[..blocklen] == data[j..j + blocklen] && rest[blocklen..] == data[j + blocklen..];
    if |rest| <= 32767 {
      assert rest == rest[..blocklen];
      StoredBlocksEnd(data[j + blocklen..]);
    }
  }

  // ----- the compressor

  /** The fixed-code attempt: stream header, one final block, padding. */
  method Attempt(data: seq<Byte>, quality: nat) returns (w: Writer, ghost ts: seq<Token>)
    requires quality > 0
    ensures fresh(w) && w.Allocated() && Encodable(ts) && w.out == HEADER + FixedForm(ts)
    ensures Replays(ts, data) && Parse(data, quality, ts)
  {
    hide BytesBits, FixedForm, Parse, Replays, TokensBits, LsbBits;
    w := new Writer();
    w.Push(0x78);
    w.Push(0x5e);
    StartBits();
    assert w.out == HEADER && w.Contents() == BytesBits(HEADER) + [];
    w.Add(1, 1);
    w.Add(1, 2);
    assert BytesBits(HEADER) + [] + [true] + [true, false] == BytesBits(HEADER) + [true, true, false];
    ts := EncodeBody(w, data, quality);
    w.AddSymbol(END_OF_BLOCK);
    Regroup(BytesBits(HEADER), [true, true, false], TokensBits(ts), FixedCode(END_OF_BLOCK));
    w.Pad();
    AttemptIsFixedForm(w.out, ts);
  }

  method AppendAdler(w: Writer, data: seq<Byte>)
    requires w.Allocated()
    modifies w
    ensures w.Allocated() && w.out == old(w.out) + AdlerTrailer(data)
  {
    hide AdlerSums;
    var s1, s2 := Adler32(data);
    w.Push(s2 / 256 % 256);
    w.Push(s2 % 256);
    w.Push(s1 / 256 % 256);
    w.Push(s1 % 256);
    assert w.out == old(w.out) + AdlerTrailer(data);
  }

  /** `stbi_zlib_compress`: the fixed-code attempt, or the stored form where that attempt is larger.
      Everything it writes is read back, except from no input at all. */
  method Compress(data: seq<Byte>, level: int) returns (out: seq<Byte>, ghost ts: seq<Token>)
    ensures Replays(ts, data) && Parse(data, if level < 5 then 5 else level, ts)
    ensures Encodable(ts) && out == HEADER + Body(data, ts) + AdlerTrailer(data)
    ensures |out| <= |data| + 2 + (|data| + 32766) / 32767 * 5 + 4
    ensures |out| == 6 + if 2 + |FixedForm(ts)| <= |data| + 2 + (|data| + 32766) / 32767 * 5 then |FixedForm(ts)|
                         else |data| + (|data| + 32766) / 32767 * 5
    ensures |out| >= 4
    ensures
      var t := out[|out| - 4..];
      0x100_0000 * t[0] as int + 0x1_0000 * t[1] as int + 0x100 * t[2] as int + t[3]
        == 0x1_0000 * ((|data| + WeightedSum(data, |data|, |data|)) % 65521) + (1 + ByteSum(data, |data|)) % 65521
    ensures ZlibDecode(out) == if data == [] then None else Some(data)
  {
    hide FixedForm, StoredBlocks, AdlerSums, Parse, Replays, ZlibDecode, WeightedSum, ByteSum;
    var quality := if level < 5 then 5 else level;
    var w: Writer;
    w, ts := Attempt(data, quality);
    StoredBlocksLength(data);
    if |w.out| > |data| + 2 + (|data| + 32766) / 32767 * 5 {
      w.Truncate(2);
      StoreBlocks(w, data);
    }
    AppendAdler(w, data);
    out := w.out;
    DecodeBody(data, ts);
    TrailerValue(data);
    assert out[|out| - 4..] == AdlerTrailer(data);
  }

  /** The four checksum bytes, most significant first, are the second sum above the first. */
  lemma TrailerValue(data: seq<Byte>)
    ensures
      var t := AdlerTrailer(data);
      |t| == 4 && 0x100_0000 * t[0] as int + 0x1_0000 * t[1] as int + 0x100 * t[2] as int + t[3]
        == 0x1_0000 * ((|data| + WeightedSum(data, |data|, |data|)) % 65521) + (1 + ByteSum(data, |data|)) % 65521
  {
    hide *;
    SumsClosed(data, |data|);
    assert data[..|data|] == data;
    var (a, b) := AdlerSums(data);
    TrailerOf(data, a, b);
  }

  lemma TrailerOf(data: seq<Byte>, a: nat, b: nat)
    requires AdlerSums(data) == (a, b)
    ensures
      var t := AdlerTrailer(data);
      |t| == 4 && 0x100_0000 * t[0] as int + 0x1_0000 * t[1] as int + 0x100 * t[2] as int + t[3] == 0x1_0000 * b + a
  {
    hide AdlerSums;
    PairValue(a, b);
  }

  lemma PairValue(a: nat, b: nat)
    ensures 0x100_0000 * (b / 256) + 0x1_0000 * (b % 256) + 0x100 * (a / 256) + a % 256 == 0x1_0000 * b + a
  {
  }

  /** The form that is kept. */
  function Body(data: seq<Byte>, ts: seq<Token>): seq<Byte>
    requires Encodable(ts)
  {
    if 2 + |FixedForm(ts)| > StoredSize(|data|) then StoredBlocks(data) else FixedForm(ts)
  }

  lemma Regroup<T>(a: seq<T>, b: seq<T>, c: seq<T>, d: seq<T>)
    ensures a + b + c + d == a + (b + c + d)
  {
  }

  lemma StartBits()
    ensures LsbBits(0, 0) == [] && LsbBits(1, 1) == [true] && LsbBits(1, 2) == [true, false]
    ensures Pow2(1) == 2 && Pow2(2) == 4
  {
  }

  lemma AttemptIsFixedForm(out: seq<Byte>, ts: seq<Token>)
    requires Encodable(ts)
    requires exists p :: 0 <= p < 8 && BytesBits(out) == BytesBits(HEADER) + FixedBlock(ts) + Zeros(p)
    ensures out == HEADER + FixedForm(ts)
  {
    hide BytesBits, FixedBlock, Zeros, Packed;
    var p :| 0 <= p < 8 && BytesBits(out) == BytesBits(HEADER) + FixedBlock(ts) + Zeros(p);
    assert |out| >= 2;
    BytesBitsAppend(out[..2], out[2..]);
    assert out == out[..2] + out[2..];
    var rest := FixedBlock(ts) + Zeros(p);
    assert BytesBits(out) == BytesBits(HEADER) + rest;
    Split(BytesBits(HEADER), rest);
    Split(BytesBits(out[..2]), BytesBits(out[2..]));
    BytesRoundTrip(out[..2]);
    BytesRoundTrip(HEADER);
    PackedUnique(out[2..], FixedBlock(ts), p);
  }

  /** Whichever form is kept, the decompressor recovers the input. With no input the attempt takes two bytes,
      more than the stored form, which then has no block at all: nothing can decode that. */
  lemma DecodeBody(data: seq<Byte>, ts: seq<Token>)
    requires Encodable(ts) && Replays(ts, data)
    ensures ZlibDecode(HEADER + Body(data, ts) + AdlerTrailer(data)) == if data == [] then None else Some(data)
  {
    hide FixedForm, StoredBlocks, ZlibDecode, Replays;
    if data == [] {
      AttemptLength(ts);
      StoredBlocksEnd(data);
      NoBlock();
    } else if 2 + |FixedForm(ts)| > StoredSize(|data|) {
      DecodeStoredForm(data);
    } else {
      DecodeFixedForm(ts, data);
    }
  }

  lemma AttemptLength(ts: seq<Token>)
    requires Encodable(ts)
    ensures |FixedForm(ts)| >= 2
  {
    hide TokensBits, BytesBits, Padding, Zeros, Packed;
    PackedBits(FixedBlock(ts));
  }

  /** The stream for no input: header, no block, checksum. The checksum's zero bytes read as an incomplete block. */
  lemma NoBlock()
    ensures ZlibDecode(HEADER + [] + AdlerTrailer([])) == None
  {
    hide BytesBits, InflateBlocks;
    var stream := HEADER + [] + AdlerTrailer([]);
    assert stream == [0x78, 0x5e, 0, 0, 0, 1];
    assert stream[2..] == [0, 0, 0, 1];
    ChecksumIsNoBlock();
  }

  lemma ChecksumIsNoBlock()
    ensures InflateBlocks(BytesBits([0, 0, 0, 1]), []) == None
  {
    hide BytesBits, LsbValue, InflateFixed;
    BytesBitsAppend([0], [0, 0, 1]);
    assert [0] + [0, 0, 1] == [0, 0, 0, 1];
    BytesBitsPair(0, 0);
    HeaderBits(false);
    var bits := BytesBits([0, 0, 0, 1]);
    assert bits[0] == false && bits[1..3] == [false, false];
    LsbValuePairs();
    assert |Align(bits[3..])| == 24;
  }
}
