/** The match finder: hash buckets of earlier positions, longest match, lazy matching. */
module Lz77 {
  import opened Bits
  import opened Inflate
  import opened Deflate

  const ZHASH := 16384

  type Table = t: seq<seq<nat>> | |t| == ZHASH witness seq(ZHASH, _ => [])

  /** The bucket of the three bytes at a position. */
  function Hash(b0: Byte, b1: Byte, b2: Byte): (h: nat)
    ensures h < ZHASH
  {
    var h0 := (b0 as bv32) + ((b1 as bv32) << 8) + ((b2 as bv32) << 16);
    var h1 := h0 ^ (h0 << 3);
    var h2 := h1 + (h1 >> 5);
    var h3 := h2 ^ (h2 << 4);
    var h4 := h3 + (h3 >> 17);
    var h5 := h4 ^ (h4 << 25);
    var h6 := h5 + (h5 >> 6);
    Low14(h6)
  }

  /** `h & (ZHASH - 1)` as an index. */
  function Low14(h: bv32): (k: nat)
    ensures k < ZHASH
  {
    (h & 0x3fff) as bv14 as nat
  }

  /** Buckets of three known byte triples. */
  lemma KnownBuckets()
    ensures Hash(0x61, 0x62, 0x63) == 14211 && Hash(255, 254, 253) == 5326 && Hash(1, 0, 0) == 155
  {
  }

  function HashAt(data: seq<Byte>, i: nat): (h: nat)
    requires i + 2 < |data|
    ensures h < ZHASH
  {
    Hash(data[i], data[i + 1], data[i + 2])
  }

  // ----- match lengths

  /** `n` bytes at `p` and at `i` agree. */
  predicate Agree(data: seq<Byte>, p: nat, i: nat, n: nat) {
    p < i && i + n <= |data| && forall k :: p <= k < p + n ==> data[k] == data[k + (i - p)]
  }

  /** `n` is the match length of `p` at `i`: agreement up to the input's end or 258, and no further. */
  predicate IsMatchLength(data: seq<Byte>, p: nat, i: nat, n: nat) {
    Agree(data, p, i, n) && n <= 258 && (n < 258 && i + n < |data| ==> data[p + n] != data[i + n])
  }

  /** The one match length of `p` at `i`. */
  function MatchLength(data: seq<Byte>, p: nat, i: nat): (n: nat)
    requires p < i <= |data|
    ensures IsMatchLength(data, p, i, n)
  {
    MatchLengthFrom(data, p, i, 0)
  }

  function MatchLengthFrom(data: seq<Byte>, p: nat, i: nat, k: nat): (n: nat)
    requires k <= 258 && Agree(data, p, i, k)
    ensures IsMatchLength(data, p, i, n)
    decreases 258 - k
  {
    if k < 258 && i + k < |data| && data[p + k] == data[i + k] then
      MatchLengthFrom(data, p, i, k + 1)
    else k
  }

  method CountMatch(data: seq<Byte>, p: nat, i: nat, limit: nat) returns (n: nat)
    requires p < i && limit == |data| - i
    ensures n == MatchLength(data, p, i)
  {
    n := 0;
    while n < limit && n < 258
      invariant n <= limit && n <= 258 && Agree(data, p, i, n)
    {
      if data[p + n] != data[i + n] { break; }
      n := n + 1;
    }
  }

  // ----- buckets

  predicate Increasing(bucket: seq<nat>) {
    forall a, b :: 0 <= a < b < |bucket| ==> bucket[a] < bucket[b]
  }

  /** Before position `i`, every bucket holds at most 2 * quality earlier positions of its own hash, oldest first. */
  ghost predicate BucketsValid(table: Table, data: seq<Byte>, i: nat, quality: nat) {
    forall h :: 0 <= h < ZHASH ==> BucketValid(table[h], h, data, i, quality)
  }

  ghost predicate BucketValid(bucket: seq<nat>, h: nat, data: seq<Byte>, i: nat, quality: nat) {
    && |bucket| <= 2 * quality
    && Increasing(bucket)
    && forall k :: 0 <= k < |bucket| ==> bucket[k] < i && bucket[k] + 2 < |data| && HashAt(data, bucket[k]) == h
  }

  function Trim(bucket: seq<nat>, quality: nat): (kept: seq<nat>)
    ensures |kept| == (if |bucket| == 2 * quality then quality else |bucket|) && kept == bucket[|bucket| - |kept|..]
  {
    if |bucket| == 2 * quality then bucket[quality..] else bucket
  }

  // ----- what the encoder chooses at one position

  ghost predicate Before(bucket: seq<nat>, i: nat) {
    forall k :: 0 <= k < |bucket| ==> bucket[k] < i
  }

  /** Among the first `n` entries, `m` is the nearest of the longest matches of three bytes or more
      within the window. */
  ghost predicate Longest(data: seq<Byte>, bucket: seq<nat>, n: nat, i: nat, m: nat, best: nat)
    requires i <= |data| && n <= |bucket| && Before(bucket, i)
  {
    && m < n && bucket[m] > i - 32768 && best == MatchLength(data, bucket[m], i) >= 3
    && forall k :: 0 <= k < n && bucket[k] > i - 32768 ==>
         MatchLength(data, bucket[k], i) <= best && (k > m ==> MatchLength(data, bucket[k], i) < best)
  }

  /** None of the first `n` entries within the window matches three bytes. */
  ghost predicate NoMatch(data: seq<Byte>, bucket: seq<nat>, n: nat, i: nat)
    requires i <= |data| && n <= |bucket| && Before(bucket, i)
  {
    forall k :: 0 <= k < n && bucket[k] > i - 32768 ==> MatchLength(data, bucket[k], i) < 3
  }

  /** The next position has a strictly longer match: the lazy-matching test. */
  ghost predicate BetterNext(data: seq<Byte>, bucket: seq<nat>, i: nat, best: nat)
    requires i < |data| && Before(bucket, i + 1)
  {
    exists k :: 0 <= k < |bucket| && bucket[k] > i - 32767 && MatchLength(data, bucket[k], i + 1) > best
  }

  method FindLongest(data: seq<Byte>, bucket: seq<nat>, i: nat) returns (loc: int, best: nat, ghost m: nat)
    requires i < |data| && Before(bucket, i)
    ensures loc == -1 ==> NoMatch(data, bucket, |bucket|, i)
    ensures loc != -1 ==> m < |bucket| && loc == bucket[m] && Longest(data, bucket, |bucket|, i, m, best)
  {
    hide MatchLength;
    best, loc, m := 3, -1, 0;
    for j := 0 to |bucket|
      invariant loc == -1 ==> best == 3 && NoMatch(data, bucket, j, i)
      invariant loc != -1 ==> Longest(data, bucket, j, i, m, best) && loc == bucket[m]
    {
      if bucket[j] > i - 32768 {
        var d := CountMatch(data, bucket[j], i, |data| - i);
        if d >= best {
          best, loc, m := d, bucket[j], j;
        }
      }
    }
  }

  method FindBetterNext(data: seq<Byte>, bucket: seq<nat>, i: nat, best: nat) returns (better: bool)
    requires i < |data| && Before(bucket, i + 1)
    ensures better <==> BetterNext(data, bucket, i, best)
  {
    better := false;
    for j := 0 to |bucket|
      invariant forall k :: 0 <= k < j && bucket[k] > i - 32767 ==> MatchLength(data, bucket[k], i + 1) <= best
    {
      if bucket[j] > i - 32767 {
        var e := CountMatch(data, bucket[j], i + 1, |data| - i - 1);
        if e > best {
          return true;
        }
      }
    }
  }

  /** The token for position `i`: the longest match in its bucket, unless there is none or the next
      position, looked up in the table as updated, has a longer one. */
  ghost predicate Chosen(data: seq<Byte>, i: nat, bucket: seq<nat>, next: seq<nat>, t: Token)
    requires i < |data| && Before(bucket, i) && Before(next, i + 1)
  {
    if NoMatch(data, bucket, |bucket|, i) then t == Literal(data[i])
    else exists m: nat, best: nat ::
      Longest(data, bucket, |bucket|, i, m, best)
      && t == (if BetterNext(data, next, i, best) then Literal(data[i]) else Match(best, i - bucket[m]))
  }

  lemma NoMatchChosen(data: seq<Byte>, i: nat, bucket: seq<nat>, next: seq<nat>)
    requires i < |data| && Before(bucket, i) && Before(next, i + 1) && NoMatch(data, bucket, |bucket|, i)
    ensures Chosen(data, i, bucket, next, Literal(data[i]))
  {
  }

  lemma MatchChosen(data: seq<Byte>, i: nat, bucket: seq<nat>, next: seq<nat>, m: nat, best: nat, t: Token)
    requires i < |data| && Before(bucket, i) && Before(next, i + 1) && Longest(data, bucket, |bucket|, i, m, best)
    requires t == if BetterNext(data, next, i, best) then Literal(data[i]) else Match(best, i - bucket[m])
    ensures Chosen(data, i, bucket, next, t)
  {
    hide MatchLength, BetterNext;
  }

  /** One step of the main loop: from position `i` and `table` to token `t` and the updated table. */
  ghost predicate Step(data: seq<Byte>, quality: nat, i: nat, table: Table, t: Token, table': Table)
  {
    && i + 3 < |data|
    && BucketsValid(table, data, i, quality) && BucketsValid(table', data, i + 1, quality)
    && table' == Insert(table, HashAt(data, i), i, quality)
    && BucketOf(table, data, i, HashAt(data, i), quality) && BucketOf(table', data, i + 1, HashAt(data, i + 1), quality)
    && Chosen(data, i, table[HashAt(data, i)], table'[HashAt(data, i + 1)], t)
  }

  function Insert(table: Table, h: nat, i: nat, quality: nat): Table
    requires h < ZHASH
  {
    table[h := Trim(table[h], quality) + [i]]
  }

  /** One bucket of a valid table. */
  ghost predicate BucketOf(table: Table, data: seq<Byte>, i: nat, h: nat, quality: nat)
    requires h < ZHASH
    ensures BucketOf(table, data, i, h, quality) ==> Before(table[h], i)
  {
    BucketValid(table[h], h, data, i, quality)
  }

  function Width(t: Token): nat {
    match t case Literal(_) => 1 case Match(length, _) => length
  }

  /** A whole run of the main loop: tokens, the position they end at, and the table they leave. */
  ghost predicate Run(data: seq<Byte>, quality: nat, ts: seq<Token>, i: nat, table: Table)
    decreases |ts|
  {
    if ts == [] then i == 0 && table == seq(ZHASH, _ => [])
    else
      var t := ts[|ts| - 1];
      exists i': nat, table': Table :: Run(data, quality, ts[..|ts| - 1], i', table')
        && Step(data, quality, i', table', t, table) && i == i' + Width(t)
  }

  lemma BucketsStep(table: Table, data: seq<Byte>, i: nat, quality: nat)
    requires i + 3 < |data| && quality > 0 && BucketsValid(table, data, i, quality)
    ensures BucketsValid(Insert(table, HashAt(data, i), i, quality), data, i + 1, quality)
  {
    hide HashAt, BucketValid;
    var h := HashAt(data, i);
    assert BucketValid(table[h], h, data, i, quality);
    BucketStep(table[h], h, data, i, quality);
    forall k | 0 <= k < ZHASH && k != h
      ensures BucketValid(table[k], k, data, i + 1, quality)
    {
      BucketLater(table[k], k, data, i, i + 1, quality);
    }
  }

  lemma BucketStep(bucket: seq<nat>, h: nat, data: seq<Byte>, i: nat, quality: nat)
    requires i + 3 < |data| && quality > 0 && BucketValid(bucket, h, data, i, quality) && HashAt(data, i) == h
    ensures BucketValid(Trim(bucket, quality) + [i], h, data, i + 1, quality)
  {
    hide HashAt;
  }

  lemma BucketLater(bucket: seq<nat>, h: nat, data: seq<Byte>, i: nat, j: nat, quality: nat)
    requires BucketValid(bucket, h, data, i, quality) && i <= j
    ensures BucketValid(bucket, h, data, j, quality)
  {
  }

  lemma BucketsLater(table: Table, data: seq<Byte>, i: nat, j: nat, quality: nat)
    requires BucketsValid(table, data, i, quality) && i <= j
    ensures BucketsValid(table, data, j, quality)
  {
    hide BucketValid;
    forall k | 0 <= k < ZHASH
      ensures BucketValid(table[k], k, data, j, quality)
    {
      BucketLater(table[k], k, data, i, j, quality);
    }
  }

  // ----- replaying a match

  /** Copying byte by byte from `distance` back reproduces the input, even where source and target overlap. */
  lemma {:induction false} CopyBackReproduces(data: seq<Byte>, p: nat, i: nat, done: nat, n: nat)
    requires done <= n && Agree(data, p, i, n)
    ensures CopyBack(data[..i + done], n - done, i - p) == data[..i + n]
    decreases n - done
  {
    if done < n {
      assert data[p + done] == data[p + done + (i - p)];
      assert data[..i + done] + [data[p + done]] == data[..i + done + 1];
      CopyBackReproduces(data, p, i, done + 1, n);
    }
  }

  lemma LongestReproduces(data: seq<Byte>, bucket: seq<nat>, i: nat, m: nat, best: nat)
    requires i < |data| && Before(bucket, i) && Longest(data, bucket, |bucket|, i, m, best)
    ensures Legal(Match(best, i - bucket[m]), i) && i + best <= |data|
    ensures CopyBack(data[..i], best, i - bucket[m]) == data[..i + best]
  {
    hide MatchLength;
    assert IsMatchLength(data, bucket[m], i, best);
    assert data[..i] == data[..i + 0];
    CopyBackReproduces(data, bucket[m], i, 0, best);
  }

  /** Every choice of the encoder is a legal token that extends the replayed prefix of the input. */
  lemma ChosenReplays(data: seq<Byte>, i: nat, bucket: seq<nat>, next: seq<nat>, t: Token)
    requires i < |data| && Before(bucket, i) && Before(next, i + 1) && Chosen(data, i, bucket, next, t)
    ensures Legal(t, i) && i + Width(t) <= |data| && Apply(data[..i], t) == data[..i + Width(t)]
  {
    hide BetterNext, NoMatch, MatchLength, CopyBack;
    if t.Literal? {
      assert data[..i] + [data[i]] == data[..i + 1];
    } else {
      var m: nat, best: nat :| Longest(data, bucket, |bucket|, i, m, best)
        && t == (if BetterNext(data, next, i, best) then Literal(data[i]) else Match(best, i - bucket[m]));
      LongestReproduces(data, bucket, i, m, best);
    }
  }

  lemma ReplaysStep(ts: seq<Token>, prev: seq<Byte>, out: seq<Byte>)
    requires ts != [] && Replays(ts[..|ts| - 1], prev) && Legal(ts[|ts| - 1], |prev|) && out == Apply(prev, ts[|ts| - 1])
    ensures Replays(ts, out)
  {
  }

  lemma {:induction false} RunReplays(data: seq<Byte>, quality: nat, ts: seq<Token>, i: nat, table: Table)
    requires Run(data, quality, ts, i, table)
    ensures i <= |data| && Replays(ts, data[..i])
    decreases |ts|
  {
    hide Chosen, HashAt, Legal, Width, BucketOf, Insert, BucketsValid, Apply;
    if ts != [] {
      var init, t := ts[..|ts| - 1], ts[|ts| - 1];
      var i': nat, table': Table :| Run(data, quality, init, i', table') && Step(data, quality, i', table', t, table)
        && i == i' + Width(t);
      RunReplays(data, quality, init, i', table');
      ChosenReplays(data, i', table'[HashAt(data, i')], table[HashAt(data, i' + 1)], t);
      ReplaysStep(ts, data[..i'], data[..i]);
    }
  }
}
