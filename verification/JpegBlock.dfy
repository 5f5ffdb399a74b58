/** The entropy coding of one quantised 8x8 block, against the decoding procedures of
    section F.2.2 of ITU-T T.81. */
module JpegBlock {
  import opened Bits
  import opened Wrappers
  import opened Jpeg

  /** A Huffman table: code and length of each symbol, length zero where there is none. */
  datatype Code = Code(code: nat, len: nat)
  type Table = seq<Code>

  predicate Defines(t: Table, sym: nat) {
    sym < |t| && 1 <= t[sym].len <= 16 && t[sym].code < Pow2(t[sym].len)
  }

  function CodeBits(t: Table, sym: nat): Bitstring
    requires Defines(t, sym)
  {
    MsbBits(t[sym].code, t[sym].len)
  }

  /** No code begins another. */
  ghost predicate PrefixFree(t: Table) {
    forall a, b :: Defines(t, a) && Defines(t, b) && CodeBits(t, a) <= CodeBits(t, b) ==> a == b
  }

  // ----- the decoder

  /** Section F.2.2.3: the symbol whose code comes next. */
  ghost function DecodeSymbol(t: Table, bits: Bitstring): Option<(nat, Bitstring)> {
    if exists s: nat :: Defines(t, s) && CodeBits(t, s) <= bits then
      var s: nat :| Defines(t, s) && CodeBits(t, s) <= bits;
      Some((s, bits[t[s].len..]))
    else None
  }

  /** RECEIVE and EXTEND of section F.2.2.1. */
  function DecodeValue(bits: Bitstring, size: nat): Option<(int, Bitstring)>
    requires size >= 1
  {
    if |bits| < size then None else Some((Extend(MsbValue(bits[..size]), size), bits[size..]))
  }

  function Zeros(n: nat): (z: seq<int>)
    ensures |z| == n
  {
    seq(n, _ => 0)
  }

  /** Section F.2.2.1: the difference to the previous DC coefficient. */
  ghost function DecodeDC(t: Table, bits: Bitstring): Option<(int, Bitstring)> {
    match DecodeSymbol(t, bits)
    case None => None
    case Some((size, rest)) => if size == 0 then Some((0, rest)) else DecodeValue(rest, size)
  }

  /** Section F.2.2.2: runs of zeros and values until the block is full or ends early. */
  ghost function DecodeAC(t: Table, bits: Bitstring, done: seq<int>): Option<(seq<int>, Bitstring)>
    requires |done| <= 64
    decreases 64 - |done|
  {
    if |done| == 64 then Some((done, bits))
    else
      match DecodeSymbol(t, bits)
      case None => None
      case Some((rs, rest)) =>
        if rs == 0xF0 then
          if |done| + 16 > 63 then None else DecodeAC(t, rest, done + Zeros(16))
        else if rs % 16 == 0 then Some((done + Zeros(64 - |done|), rest))
        else if |done| + rs / 16 > 63 then None
        else
          match DecodeValue(rest, rs % 16)
          case None => None
          case Some((v, rest')) => DecodeAC(t, rest', done + Zeros(rs / 16) + [v])
  }

  ghost function DecodeBlock(dc: Table, ac: Table, bits: Bitstring, previous: int): Option<(seq<int>, Bitstring)> {
    match DecodeDC(dc, bits)
    case None => None
    case Some((diff, rest)) => DecodeAC(ac, rest, [previous + diff])
  }

  lemma TwoPrefixes<T>(a: seq<T>, b: seq<T>, c: seq<T>)
    requires a <= c && b <= c
    ensures a <= b || b <= a
  {
  }

  lemma DecodeCode(t: Table, sym: nat, rest: Bitstring)
    requires PrefixFree(t) && Defines(t, sym)
    ensures DecodeSymbol(t, CodeBits(t, sym) + rest) == Some((sym, rest))
  {
    var code := CodeBits(t, sym);
    var bits := code + rest;
    assert code <= bits;
    forall s: nat | Defines(t, s) && CodeBits(t, s) <= bits
      ensures s == sym
    {
      TwoPrefixes(CodeBits(t, s), code, bits);
    }
    assert bits[|code|..] == rest;
  }

  lemma DecodeBits(v: int, bits: nat, size: nat, rest: Bitstring)
    requires size >= 1 && bits < Pow2(size) && Extend(bits, size) == v
    ensures DecodeValue(MsbBits(bits, size) + rest, size) == Some((v, rest))
  {
    var field := MsbBits(bits, size);
    MsbValueOfBits(bits, size);
    assert (field + rest)[..size] == field && (field + rest)[size..] == rest;
  }

  // ----- the encoder

  /** The tables cover every run and size a baseline block needs, end-of-block and the run of sixteen. */
  predicate Complete(dc: Table, ac: Table) {
    && (forall size :: 0 <= size <= 11 ==> Defines(dc, size))
    && Defines(ac, 0) && Defines(ac, 0xF0)
    && forall run, size :: 0 <= run <= 15 && 1 <= size <= 10 ==> DefinesRun(ac, run, size)
  }

  predicate DefinesRun(t: Table, run: nat, size: nat) {
    Defines(t, run * 16 + size)
  }

  /** Coefficients of eight-bit samples. */
  predicate InRange(du: seq<int>, previous: int) {
    |du| == 64 && -2048 < du[0] - previous < 2048 && forall i :: 1 <= i < 64 ==> -1024 < du[i] < 1024
  }

  method WriteCode(s: BitSink, t: Table, sym: nat)
    requires s.Valid() && Defines(t, sym)
    modifies s
    ensures s.Valid() && s.Contents() == old(s.Contents()) + CodeBits(t, sym)
  {
    s.WriteBits(t[sym].code, t[sym].len);
  }

  /** What a nonzero value adds: the symbol of its run and size, then its bits. */
  ghost predicate IsValueBits(t: Table, run: nat, v: int, added: Bitstring) {
    exists size: nat, bits: nat :: ValueCode(t, run, v, added, size, bits)
  }

  ghost predicate ValueCode(t: Table, run: nat, v: int, added: Bitstring, size: nat, bits: nat) {
    && 1 <= size <= 11 && DefinesRun(t, run, size) && bits < Pow2(size) && Extend(bits, size) == v
    && added == CodeBits(t, run * 16 + size) + MsbBits(bits, size)
  }

  method WriteValue(s: BitSink, t: Table, run: nat, v: int, limit: nat) returns (ghost added: Bitstring)
    requires s.Valid() && v != 0 && limit <= 11 && -(Pow2(limit) as int) < v < Pow2(limit)
    requires forall size :: 1 <= size <= limit ==> DefinesRun(t, run, size)
    modifies s
    ensures s.Valid() && s.Contents() == old(s.Contents()) + added && IsValueBits(t, run, v, added)
  {
    hide PrefixFree, Pow2, MsbBits;
    var bits, len := CalcBits(v);
    SizeBound(if v < 0 then -v else v, len, limit);
    assert DefinesRun(t, run, len);
    WriteCode(s, t, run * 16 + len);
    s.WriteBits(bits, len);
    added := CodeBits(t, run * 16 + len) + MsbBits(bits, len);
    assert ValueCode(t, run, v, added, len, bits);
  }

  lemma SizeBound(magnitude: nat, size: nat, limit: nat)
    requires IsSize(magnitude, size) && magnitude < Pow2(limit)
    ensures size <= limit
  {
    if size > limit {
      Pow2Mono(limit, size - 1);
    }
  }

  /** The decoder reads the symbol, then the value. */
  lemma DecodeRunValue(t: Table, run: nat, v: int, added: Bitstring, rest: Bitstring) returns (size: nat, tail: Bitstring)
    requires PrefixFree(t) && IsValueBits(t, run, v, added)
    ensures 1 <= size <= 11 && DecodeSymbol(t, added + rest) == Some((run * 16 + size, tail))
    ensures DecodeValue(tail, size) == Some((v, rest))
  {
    hide DecodeSymbol, DecodeValue, CodeBits, MsbBits, Pow2, Extend, PrefixFree;
    var bits: nat;
    size, bits :| ValueCode(t, run, v, added, size, bits);
    tail := MsbBits(bits, size) + rest;
    assert added + rest == CodeBits(t, run * 16 + size) + tail;
    DecodeCode(t, run * 16 + size, tail);
    DecodeBits(v, bits, size, rest);
  }

  lemma DecodeDCValue(t: Table, v: int, added: Bitstring, rest: Bitstring)
    requires PrefixFree(t) && IsValueBits(t, 0, v, added)
    ensures DecodeDC(t, added + rest) == Some((v, rest))
  {
    hide DecodeSymbol, DecodeValue, IsValueBits, PrefixFree;
    var size, tail := DecodeRunValue(t, 0, v, added, rest);
  }

  /** A run of zeros and a value. */
  lemma DecodeACValue(t: Table, run: nat, v: int, added: Bitstring, rest: Bitstring, done: seq<int>)
    requires PrefixFree(t) && run <= 15 && IsValueBits(t, run, v, added) && |done| + run <= 63
    ensures DecodeAC(t, added + rest, done) == DecodeAC(t, rest, done + Zeros(run) + [v])
  {
    hide DecodeSymbol, DecodeValue, IsValueBits, PrefixFree, Zeros;
    var size, tail := DecodeRunValue(t, run, v, added, rest);
    var rs := run * 16 + size;
    assert rs / 16 == run && rs % 16 == size;
  }

  /** Sixteen zeros. */
  lemma DecodeSixteen(t: Table, rest: Bitstring, done: seq<int>)
    requires PrefixFree(t) && Defines(t, 0xF0) && |done| + 16 <= 63
    ensures DecodeAC(t, CodeBits(t, 0xF0) + rest, done) == DecodeAC(t, rest, done + Zeros(16))
  {
    DecodeCode(t, 0xF0, rest);
  }

  /** End of block: the rest is zero. */
  lemma DecodeEnd(t: Table, rest: Bitstring, done: seq<int>)
    requires PrefixFree(t) && Defines(t, 0) && |done| < 64
    ensures DecodeAC(t, CodeBits(t, 0) + rest, done) == Some((done + Zeros(64 - |done|), rest))
  {
    DecodeCode(t, 0, rest);
  }

  /** Reading `added` takes the decoder from the coefficients `x` to the coefficients `y`. */
  ghost predicate Carries(t: Table, added: Bitstring, x: seq<int>, y: seq<int>)
    requires |x| <= 64 && |y| <= 64
  {
    forall rest: Bitstring {:trigger added + rest} :: DecodeAC(t, added + rest, x) == DecodeAC(t, rest, y)
  }

  lemma CarriesNothing(t: Table, x: seq<int>)
    requires |x| <= 64
    ensures Carries(t, [], x, x)
  {
    forall rest: Bitstring
      ensures [] + rest == rest
    {
    }
  }

  lemma CarriesOn(t: Table, a: Bitstring, b: Bitstring, x: seq<int>, y: seq<int>, z: seq<int>)
    requires |x| <= 64 && |y| <= 64 && |z| <= 64 && Carries(t, a, x, y) && Carries(t, b, y, z)
    ensures Carries(t, a + b, x, z)
  {
    forall rest: Bitstring
      ensures DecodeAC(t, (a + b) + rest, x) == DecodeAC(t, rest, z)
    {
      assert (a + b) + rest == a + (b + rest);
      assert DecodeAC(t, a + (b + rest), x) == DecodeAC(t, b + rest, y);
    }
  }

  lemma CarriesValue(t: Table, run: nat, v: int, added: Bitstring, done: seq<int>)
    requires PrefixFree(t) && run <= 15 && IsValueBits(t, run, v, added) && |done| + run <= 63
    ensures Carries(t, added, done, done + Zeros(run) + [v])
  {
    hide IsValueBits, DecodeAC, PrefixFree;
    forall rest: Bitstring
      ensures DecodeAC(t, added + rest, done) == DecodeAC(t, rest, done + Zeros(run) + [v])
    {
      DecodeACValue(t, run, v, added, rest, done);
    }
  }

  lemma CarriesSixteen(t: Table, done: seq<int>)
    requires PrefixFree(t) && Defines(t, 0xF0) && |done| + 16 <= 63
    ensures Carries(t, CodeBits(t, 0xF0), done, done + Zeros(16))
  {
    hide DecodeAC, PrefixFree, CodeBits;
    forall rest: Bitstring
      ensures DecodeAC(t, CodeBits(t, 0xF0) + rest, done) == DecodeAC(t, rest, done + Zeros(16))
    {
      DecodeSixteen(t, rest, done);
    }
  }

  lemma CarriesEnd(t: Table, done: seq<int>)
    requires PrefixFree(t) && Defines(t, 0) && |done| < 64
    ensures Carries(t, CodeBits(t, 0), done, done + Zeros(64 - |done|))
  {
    hide PrefixFree, CodeBits;
    forall rest: Bitstring
      ensures DecodeAC(t, CodeBits(t, 0) + rest, done) == DecodeAC(t, rest, done + Zeros(64 - |done|))
    {
      DecodeEnd(t, rest, done);
    }
  }

  /** The markers for whole runs of sixteen zeros. */
  method WriteSixteens(s: BitSink, ac: Table, count: nat, ghost done: seq<int>) returns (ghost added: Bitstring)
    requires s.Valid() && Defines(ac, 0xF0) && PrefixFree(ac) && |done| + 16 * count <= 63
    modifies s
    ensures s.Valid() && s.Contents() == old(s.Contents()) + added
    ensures Carries(ac, added, done, done + Zeros(16 * count))
  {
    hide Carries, CodeBits, PrefixFree;
    added := [];
    CarriesNothing(ac, done);
    assert done + Zeros(0) == done;
    for k := 0 to count
      invariant s.Valid() && s.Contents() == old(s.Contents()) + added
      invariant Carries(ac, added, done, done + Zeros(16 * k))
    {
      WriteCode(s, ac, 0xF0);
      CarriesSixteen(ac, done + Zeros(16 * k));
      assert done + Zeros(16 * k) + Zeros(16) == done + Zeros(16 * (k + 1));
      CarriesOn(ac, added, CodeBits(ac, 0xF0), done, done + Zeros(16 * k), done + Zeros(16 * (k + 1)));
      added := added + CodeBits(ac, 0xF0);
    }
  }

  /** One nonzero coefficient and the zeros before it. */
  method WriteRun(s: BitSink, ac: Table, du: seq<int>, start: nat, i: nat) returns (ghost added: Bitstring)
    requires s.Valid() && PrefixFree(ac) && Defines(ac, 0xF0) && |du| == 64 && start <= i < 64
    requires forall run, size :: 0 <= run <= 15 && 1 <= size <= 10 ==> DefinesRun(ac, run, size)
    requires du[i] != 0 && -1024 < du[i] < 1024 && forall k :: start <= k < i ==> du[k] == 0
    modifies s
    ensures s.Valid() && s.Contents() == old(s.Contents()) + added
    ensures Carries(ac, added, du[..start], du[..i + 1])
  {
    hide Carries, IsValueBits, PrefixFree;
    var nrzeroes := i - start;
    ghost var done := du[..start];
    ghost var before := s.Contents();
    var lng := nrzeroes / 16;
    added := WriteSixteens(s, ac, lng, done);
    nrzeroes := nrzeroes % 16;
    ghost var mid := done + Zeros(16 * lng);
    TenBits();
    ghost var value := WriteValue(s, ac, nrzeroes, du[i], 10);
    CarriesValue(ac, nrzeroes, du[i], value, mid);
    assert mid + Zeros(nrzeroes) + [du[i]] == du[..i + 1];
    CarriesOn(ac, added, value, done, mid, du[..i + 1]);
    added := added + value;
  }

  lemma TenBits()
    ensures Pow2(10) == 1024 && Pow2(11) == 2048
  {
    Pow2Values();
  }

  method WriteAC(s: BitSink, ac: Table, du: seq<int>) returns (ghost added: Bitstring)
    requires s.Valid() && PrefixFree(ac) && Defines(ac, 0) && Defines(ac, 0xF0) && |du| == 64
    requires forall run, size :: 0 <= run <= 15 && 1 <= size <= 10 ==> DefinesRun(ac, run, size)
    requires forall i :: 1 <= i < 64 ==> -1024 < du[i] < 1024
    modifies s
    ensures s.Valid() && s.Contents() == old(s.Contents()) + added
    ensures Carries(ac, added, du[..1], du)
  {
    hide Carries, PrefixFree, CodeBits;
    var end0pos := 63;
    while end0pos > 0 && du[end0pos] == 0
      invariant 0 <= end0pos <= 63 && forall k :: end0pos < k < 64 ==> du[k] == 0
    {
      end0pos := end0pos - 1;
    }
    added := [];
    CarriesNothing(ac, du[..1]);
    var i := 1;
    while i <= end0pos
      invariant 1 <= i <= end0pos + 1 <= 64 && (end0pos > 0 ==> du[end0pos] != 0)
      invariant s.Valid() && s.Contents() == old(s.Contents()) + added
      invariant Carries(ac, added, du[..1], du[..i])
    {
      var startpos := i;
      while du[i] == 0 && i <= end0pos
        invariant startpos <= i <= end0pos && forall k :: startpos <= k < i ==> du[k] == 0
      {
        i := i + 1;
      }
      ghost var run := WriteRun(s, ac, du, startpos, i);
      CarriesOn(ac, added, run, du[..1], du[..startpos], du[..i + 1]);
      added := added + run;
      i := i + 1;
    }
    assert i == end0pos + 1;
    if end0pos != 63 {
      WriteCode(s, ac, 0);
      CarriesEnd(ac, du[..i]);
      assert du[..i] + Zeros(64 - i) == du;
      CarriesOn(ac, added, CodeBits(ac, 0), du[..1], du[..i], du);
      added := added + CodeBits(ac, 0);
    } else {
      assert du[..64] == du;
    }
  }

  /** `stbiw__jpg_processDU` from its quantised coefficients on: a decoder with the same prefix-free tables reads
      back exactly the block, whatever follows it. */
  method EncodeBlock(s: BitSink, dc: Table, ac: Table, du: seq<int>, previous: int)
    returns (last: int, ghost added: Bitstring)
    requires s.Valid() && Complete(dc, ac) && PrefixFree(dc) && PrefixFree(ac) && |du| == 64 && InRange(du, previous)
    modifies s
    ensures s.Valid() && s.Contents() == old(s.Contents()) + added && last == du[0]
    ensures forall rest: Bitstring {:trigger added + rest} :: DecodeBlock(dc, ac, added + rest, previous) == Some((du, rest))
  {
    hide PrefixFree, CodeBits, DecodeAC, DecodeDC, IsValueBits, Carries;
    var diff := du[0] - previous;
    ghost var first: Bitstring;
    if diff == 0 {
      WriteCode(s, dc, 0);
      first := CodeBits(dc, 0);
    } else {
      TenBits();
      forall size | 1 <= size <= 11
        ensures DefinesRun(dc, 0, size)
      {
        assert Defines(dc, size);
      }
      first := WriteValue(s, dc, 0, diff, 11);
    }
    ghost var others := WriteAC(s, ac, du);
    added := first + others;
    forall rest: Bitstring
      ensures DecodeBlock(dc, ac, added + rest, previous) == Some((du, rest))
    {
      assert added + rest == first + (others + rest);
      if diff == 0 { DecodeDCZero(dc, others + rest); } else { DecodeDCValue(dc, diff, first, others + rest); }
      assert [previous + diff] == du[..1];
      CarriesAll(ac, others, du, rest);
    }
    last := du[0];
  }

  lemma DecodeDCZero(t: Table, rest: Bitstring)
    requires PrefixFree(t) && Defines(t, 0)
    ensures DecodeDC(t, CodeBits(t, 0) + rest) == Some((0, rest))
  {
    DecodeCode(t, 0, rest);
  }

  lemma CarriesAll(t: Table, added: Bitstring, du: seq<int>, rest: Bitstring)
    requires |du| == 64 && Carries(t, added, du[..1], du)
    ensures DecodeAC(t, added + rest, du[..1]) == Some((du, rest))
  {
  }
}
