/** The PNG row filters: the encoder's filter loops, with their first-row substitutes and their
    filter choice, against the reconstruction of section 6 of RFC 2083. */
module PngFilter {
  import opened Bits

  // ----- the filters of section 6 of RFC 2083

  function Abs(v: int): (r: nat)
    ensures r == v || r == -v
  {
    if v < 0 then -v else v
  }

  /** The Paeth predictor: the neighbour nearest to a + b - c, ties in the order left, above, upper left. */
  function Paeth(a: Byte, b: Byte, c: Byte): (r: Byte)
    ensures var p := a + b - c;
            (r == a || r == b || r == c)
            && Abs(p - r) <= Abs(p - a) && Abs(p - r) <= Abs(p - b) && Abs(p - r) <= Abs(p - c)
            && (Abs(p - r) == Abs(p - a) ==> r == a)
            && (Abs(p - r) < Abs(p - a) && Abs(p - r) == Abs(p - b) ==> r == b)
  {
    var p := a + b - c;
    var pa, pb, pc := Abs(p - a), Abs(p - b), Abs(p - c);
    if pa <= pb && pa <= pc then a else if pb <= pc then b else c
  }

  type FilterType = f: nat | f <= 4

  /** What filter type `f` predicts from left, above and upper left. */
  function Predict(f: FilterType, a: Byte, b: Byte, c: Byte): (p: Byte)
    ensures (f == 0 ==> p == 0) && (f == 1 ==> p == a) && (f == 2 ==> p == b) && (f == 4 ==> p == Paeth(a, b, c))
    ensures f == 3 ==> 2 * p <= a + b <= 2 * p + 1
  {
    match f
    case 0 => 0
    case 1 => a
    case 2 => b
    case 3 => (a + b) / 2
    case 4 => Paeth(a, b, c)
  }

  /** Byte `i` of a row, or zero left of its first pixel. */
  function At(row: seq<Byte>, i: int): Byte
    requires i < |row|
  {
    if i < 0 then 0 else row[i]
  }

  function PredictAt(f: FilterType, row: seq<Byte>, prior: seq<Byte>, n: nat, i: nat): Byte
    requires 1 <= n && i < |prior| && i <= |row|
  {
    Predict(f, At(row, i - n), prior[i], At(prior, i - n))
  }

  /** A row as filter type `f` writes it, given the row above it. */
  function Filtered(f: FilterType, row: seq<Byte>, prior: seq<Byte>, n: nat): (line: seq<Byte>)
    requires 1 <= n && |prior| == |row|
    ensures |line| == |row|
  {
    seq(|row|, i requires 0 <= i < |row| => (row[i] - PredictAt(f, row, prior, n, i)) % 256)
  }

  /** Reconstruction from left to right; `done` is what is already recovered. */
  function Unfilter(f: FilterType, line: seq<Byte>, prior: seq<Byte>, n: nat, done: seq<Byte>): (row: seq<Byte>)
    requires 1 <= n && |prior| == |line| && |done| <= |line|
    ensures |row| == |line|
    decreases |line| - |done|
  {
    if |done| == |line| then done
    else
      var i := |done|;
      Unfilter(f, line, prior, n, done + [(line[i] + PredictAt(f, done, prior, n, i)) % 256])
  }

  lemma AddBack(z: int, p: int)
    requires 0 <= z < 256
    ensures ((z - p) % 256 + p) % 256 == z
  {
  }

  /** Reconstruction inverts every filter. */
  lemma {:induction false} UnfilterFiltered(f: FilterType, row: seq<Byte>, prior: seq<Byte>, n: nat, k: nat)
    requires 1 <= n && |prior| == |row| && k <= |row|
    ensures Unfilter(f, Filtered(f, row, prior, n), prior, n, row[..k]) == row
    decreases |row| - k
  {
    if k < |row| {
      var p := PredictAt(f, row, prior, n, k);
      assert PredictAt(f, row[..k], prior, n, k) == p;
      AddBack(row[k], p);
      assert row[..k] + [row[k]] == row[..k + 1];
      UnfilterFiltered(f, row, prior, n, k + 1);
    }
  }

  // ----- the encoder's filter loops

  /** The loops' own numbering: on the first row None stands in for Up, and 5 and 6 for Average and
      Paeth with nothing above. */
  function MappedType(filterType: FilterType, y: nat): (t: nat)
    ensures t <= 6
  {
    if y != 0 then filterType else [0, 1, 0, 5, 6][filterType]
  }

  /** A byte of the first pixel. */
  function FirstResidual(t: nat, z: Byte, up: Byte): Byte
    requires 1 <= t <= 6
  {
    match t
    case 1 => z
    case 2 => (z - up) % 256
    case 3 => (z - up / 2) % 256
    case 4 => (z - Paeth(0, up, 0)) % 256
    case 5 => z
    case _ => z
  }

  /** A byte right of the first pixel. */
  function Residual(t: nat, z: Byte, left: Byte, up: Byte, upLeft: Byte): Byte
    requires 1 <= t <= 6
  {
    match t
    case 1 => (z - left) % 256
    case 2 => (z - up) % 256
    case 3 => (z - (left + up) / 2) % 256
    case 4 => (z - Paeth(left, up, upLeft)) % 256
    case 5 => (z - left / 2) % 256
    case _ => (z - Paeth(left, 0, 0)) % 256
  }

  /** The row is the pixel bytes from `start` on. */
  predicate IsStretch(row: seq<Byte>, pixels: seq<Byte>, start: int) {
    0 <= start && start + |row| <= |pixels| && forall i :: 0 <= i < |row| ==> row[i] == pixels[start + i]
  }

  /** Where row `j` of the written image starts among the pixels. */
  function RowStart(stride: nat, height: nat, flip: bool, j: nat): nat
    requires j < height
  {
    stride * (if flip then height - 1 - j else j)
  }

  function Row(pixels: seq<Byte>, stride: nat, width: nat, height: nat, flip: bool, j: nat): (row: seq<Byte>)
    requires j < height && FitsPixels(pixels, stride, width, height)
    ensures |row| == width && IsStretch(row, pixels, stride * (if flip then height - 1 - j else j))
  {
    RowInside(pixels, stride, width, height, if flip then height - 1 - j else j);
    pixels[RowStart(stride, height, flip, j)..][..width]
  }

  /** Every row lies inside the pixel buffer; `width` counts bytes. */
  predicate FitsPixels(pixels: seq<Byte>, stride: nat, width: nat, height: nat) {
    height >= 1 && stride >= width && stride * (height - 1) + width <= |pixels|
  }

  lemma RowInside(pixels: seq<Byte>, stride: nat, width: nat, height: nat, r: nat)
    requires FitsPixels(pixels, stride, width, height) && r < height
    ensures stride * r + width <= |pixels|
  {
    assert stride * r <= stride * (height - 1);
  }

  function ZeroRow(n: nat): (row: seq<Byte>)
    ensures |row| == n
  {
    seq(n, _ => 0)
  }

  function Prior(pixels: seq<Byte>, stride: nat, width: nat, height: nat, flip: bool, j: nat): (row: seq<Byte>)
    requires j < height && FitsPixels(pixels, stride, width, height)
    ensures |row| == width
    ensures j == 0 ==> forall i :: 0 <= i < width ==> row[i] == 0
    ensures j > 0 ==> IsStretch(row, pixels, stride * (if flip then height - j else j - 1))
  {
    if j == 0 then ZeroRow(width) else Row(pixels, stride, width, height, flip, j - 1)
  }

  function SignedStride(stride: nat, flip: bool): int {
    if flip then -(stride as int) else stride
  }

  /** One filtered row into the line buffer. */
  method EncodeLine(pixels: seq<Byte>, stride: nat, width: nat, height: nat, y: nat, n: nat, filterType: FilterType,
                    flip: bool, line: array<Byte>)
    requires y < height && 1 <= n <= width && FitsPixels(pixels, stride, width, height) && line.Length == width
    modifies line
    ensures line[..] == Filtered(filterType, Row(pixels, stride, width, height, flip, y),
                                 Prior(pixels, stride, width, height, flip, y), n)
  {
    hide Filtered, Row, Prior, FirstResidual, Residual, MappedType, RowStart;
    ghost var row := Row(pixels, stride, width, height, flip, y);
    ghost var prior := Prior(pixels, stride, width, height, flip, y);
    ghost var goal := Filtered(filterType, row, prior, n);
    var t := MappedType(filterType, y);
    var z := RowStart(stride, height, flip, y);
    var above := z - SignedStride(stride, flip);
    RowAt(pixels, stride, width, height, flip, y);
    PriorAt(pixels, stride, width, height, flip, y);
    NotAbove(filterType, y);
    if t == 0 {
      for i := 0 to width
        invariant line[..i] == goal[..i]
      {
        line[i] := pixels[z + i];
        FirstPixel(filterType, row, prior, n, y, i);
        Extend(line[..i + 1], goal, i);
      }
    } else {
      for i := 0 to n
        invariant line[..i] == goal[..i]
      {
        var up := if 2 <= t <= 4 then pixels[above + i] else 0;
        line[i] := FirstResidual(t, pixels[z + i], up);
        FirstPixel(filterType, row, prior, n, y, i);
        Extend(line[..i + 1], goal, i);
      }
      for i := n to width
        invariant line[..i] == goal[..i]
      {
        var up := if 2 <= t <= 4 then pixels[above + i] else 0;
        var upLeft := if t == 4 then pixels[above + i - n] else 0;
        line[i] := Residual(t, pixels[z + i], pixels[z + i - n], up, upLeft);
        OtherPixel(filterType, row, prior, n, y, i);
        Extend(line[..i + 1], goal, i);
      }
    }
    assert line[..] == line[..width] && goal[..width] == goal;
  }

  lemma Extend(a: seq<Byte>, goal: seq<Byte>, i: nat)
    requires |a| == i + 1 <= |goal| && a[..i] == goal[..i] && a[i] == goal[i]
    ensures a == goal[..i + 1]
  {
    assert a == a[..i] + [a[i]];
    assert goal[..i + 1] == goal[..i] + [goal[i]];
  }

  lemma NotAbove(f: FilterType, y: nat)
    ensures 2 <= MappedType(f, y) <= 4 ==> y != 0
  {
  }

  /** A row whose bytes above are all zero, as the first row's are. */
  predicate Above(prior: seq<Byte>, y: nat) {
    y == 0 ==> forall i :: 0 <= i < |prior| ==> prior[i] == 0
  }

  /** On its first pixel the loop's own numbering agrees with the filter it stands for. */
  lemma FirstPixel(f: FilterType, row: seq<Byte>, prior: seq<Byte>, n: nat, y: nat, i: nat)
    requires 1 <= n && |prior| == |row| && Above(prior, y) && i < |row|
    ensures MappedType(f, y) == 0 ==> row[i] == Filtered(f, row, prior, n)[i]
    ensures MappedType(f, y) != 0 && i < n ==>
      FirstResidual(MappedType(f, y), row[i], if 2 <= MappedType(f, y) <= 4 then prior[i] else 0)
      == Filtered(f, row, prior, n)[i]
  {
  }

  lemma OtherPixel(f: FilterType, row: seq<Byte>, prior: seq<Byte>, n: nat, y: nat, i: nat)
    requires 1 <= n <= i && |prior| == |row| && Above(prior, y) && i < |row| && MappedType(f, y) != 0
    ensures var t := MappedType(f, y);
      Residual(t, row[i], row[i - n], if 2 <= t <= 4 then prior[i] else 0, if t == 4 then prior[i - n] else 0)
      == Filtered(f, row, prior, n)[i]
  {
  }

  lemma RowAt(pixels: seq<Byte>, stride: nat, width: nat, height: nat, flip: bool, y: nat)
    requires y < height && FitsPixels(pixels, stride, width, height)
    ensures var z := RowStart(stride, height, flip, y);
      z + width <= |pixels|
      && forall i :: 0 <= i < width ==> Row(pixels, stride, width, height, flip, y)[i] == pixels[z + i]
  {
    RowInside(pixels, stride, width, height, if flip then height - 1 - y else y);
  }

  lemma PriorAt(pixels: seq<Byte>, stride: nat, width: nat, height: nat, flip: bool, y: nat)
    requires y < height && FitsPixels(pixels, stride, width, height)
    ensures Above(Prior(pixels, stride, width, height, flip, y), y)
    ensures y != 0 ==> var p := RowStart(stride, height, flip, y) - SignedStride(stride, flip);
      0 <= p && p + width <= |pixels|
      && forall i :: 0 <= i < width ==> Prior(pixels, stride, width, height, flip, y)[i] == pixels[p + i]
  {
    if y != 0 {
      RowAt(pixels, stride, width, height, flip, y - 1);
      var r := if flip then height - y else y - 1;
      assert RowStart(stride, height, flip, y - 1) == stride * r;
      NextRow(stride, r);
      if flip {
        assert RowStart(stride, height, flip, y) == stride * (r - 1);
        NextRow(stride, r - 1);
      }
    }
  }

  lemma NextRow(stride: nat, r: nat)
    ensures stride * (r + 1) == stride * r + stride
  {
  }

  // ----- choosing a filter

  /** A filtered byte read back as a signed char. */
  function Signed(b: Byte): (v: int)
    ensures -128 <= v < 128 && v % 256 == b
  {
    if b < 128 then b else b - 256
  }

  /** The entropy estimate of a filtered row. */
  function Cost(line: seq<Byte>): nat {
    if line == [] then 0 else Cost(line[..|line| - 1]) + Abs(Signed(line[|line| - 1]))
  }

  /** It is the sum over the bytes of their distance from zero, counted modulo 256. */
  lemma {:induction false} CostAppend(a: seq<Byte>, b: seq<Byte>)
    ensures Cost(a + b) == Cost(a) + Cost(b)
    decreases |b|
  {
    if b == [] {
      assert a + b == a;
    } else {
      CostAppend(a, b[..|b| - 1]);
      assert (a + b)[..|a + b| - 1] == a + b[..|b| - 1];
    }
  }

  lemma CostOne(b: Byte)
    ensures Cost([b]) == if b <= 128 then b as int else 256 - b
  {
    assert [b][..0] == [];
  }

  const NO_BEST := 0x7fff_ffff

  function CappedCost(line: seq<Byte>): nat {
    if Cost(line) < NO_BEST then Cost(line) else NO_BEST
  }

  /** Among the first `k` filter types, `best` is the first of least cost. */
  ghost predicate Cheapest(row: seq<Byte>, prior: seq<Byte>, n: nat, best: FilterType, k: nat)
    requires 1 <= n && |prior| == |row| && k <= 5
  {
    forall f: FilterType :: f < k ==>
      CappedCost(Filtered(best, row, prior, n)) <= CappedCost(Filtered(f, row, prior, n))
      && (f < best ==> CappedCost(Filtered(best, row, prior, n)) < CappedCost(Filtered(f, row, prior, n)))
  }

  method Estimate(line: array<Byte>) returns (est: nat)
    ensures est == Cost(line[..])
  {
    est := 0;
    for i := 0 to line.Length
      invariant est == Cost(line[..i])
    {
      assert line[..i + 1][..i] == line[..i];
      est := est + Abs(Signed(line[i]));
    }
    assert line[..] == line[..line.Length];
  }

  /** The filter of one row, forced or the cheapest by estimate, left in the line buffer. */
  method FilterRow(pixels: seq<Byte>, stride: nat, width: nat, height: nat, y: nat, n: nat, forced: int, flip: bool,
                   line: array<Byte>) returns (filterType: FilterType)
    requires y < height && 1 <= n <= width && FitsPixels(pixels, stride, width, height) && line.Length == width
    requires forced <= 4
    modifies line
    ensures line[..] == Filtered(filterType, Row(pixels, stride, width, height, flip, y),
                                 Prior(pixels, stride, width, height, flip, y), n)
    ensures forced > -1 ==> filterType == forced
    ensures forced <= -1 ==> Cheapest(Row(pixels, stride, width, height, flip, y),
                                      Prior(pixels, stride, width, height, flip, y), n, filterType, 5)
  {
    hide Filtered, Row, Prior, Cost;
    ghost var row := Row(pixels, stride, width, height, flip, y);
    ghost var prior := Prior(pixels, stride, width, height, flip, y);
    if forced > -1 {
      filterType := forced;
      EncodeLine(pixels, stride, width, height, y, n, filterType, flip, line);
    } else {
      var best: FilterType, bestValue := 0, NO_BEST;
      for f := 0 to 5
        invariant bestValue == NO_BEST || (best < f && bestValue == Cost(Filtered(best, row, prior, n)) < NO_BEST)
        invariant bestValue == NO_BEST ==> best == 0 && forall g: FilterType :: g < f ==> Cost(Filtered(g, row, prior, n)) >= NO_BEST
        invariant Cheapest(row, prior, n, best, f)
      {
        EncodeLine(pixels, stride, width, height, y, n, f, flip, line);
        var est := Estimate(line);
        if est < bestValue {
          best, bestValue := f, est;
        }
      }
      // the last filter tried has number 5 by now, so the best one is always redone
      EncodeLine(pixels, stride, width, height, y, n, best, flip, line);
      filterType := best;
    }
  }
}
