/** The stretching of a difference image between two percentiles of a sample of it. The percentile positions and
    the rescaling are computed exactly. */
module DiffStats {
  import opened OrderStatistics
  import opened QuickSelect

  const SAMPLE_STEP := 4
  const TOP := 65535

  function Clamp(val: int, low: int, high: int): int {
    if val < low then low else if high < val then high else val
  }

  /** The output for one value: the position between the bounds, as a fraction of 65535. */
  function Rescaled(val: int, low: int, high: int): int
    requires low < high
  {
    (Clamp(val, low, high) - low) * TOP / (high - low)
  }

  lemma TimesMonotonic(a: int, b: int, d: int)
    requires a <= b && d >= 0
    ensures a * d <= b * d
  {
  }

  /** The quotient is the one number with these bounds. */
  lemma QuotientBounds(a: int, d: int)
    requires d > 0
    ensures a / d * d <= a < a / d * d + d
  {
  }

  lemma DivideMonotonic(a: int, b: int, d: int)
    requires a <= b && d > 0
    ensures a / d <= b / d
  {
    var q, r := a / d, b / d;
    QuotientBounds(a, d);
    QuotientBounds(b, d);
    NextTimes(r, d);
    if q > r {
      TimesMonotonic(r + 1, q, d);
    }
  }

  lemma DivideBack(a: int, d: int)
    requires d > 0
    ensures a * d / d == a
  {
    var q := a * d / d;
    QuotientBounds(a * d, d);
    NextTimes(a, d);
    NextTimes(q, d);
    if q > a {
      TimesMonotonic(a + 1, q, d);
    } else if q < a {
      TimesMonotonic(q + 1, a, d);
    }
  }

  lemma NextTimes(a: int, d: int)
    ensures (a + 1) * d == a * d + d
  {
  }

  /** `r` is to 65535 as the value, moved to the nearer bound if it is outside, is to the distance of the bounds,
      rounded down. */
  predicate IsShare(r: int, val: int, low: int, high: int) {
    var c := if val < low then low else if val > high then high else val;
    r * (high - low) <= (c - low) * 65535 < (r + 1) * (high - low)
  }

  lemma RescaledIsShare(val: int, low: int, high: int)
    requires low < high
    ensures IsShare(Rescaled(val, low, high), val, low, high)
  {
    QuotientBounds((Clamp(val, low, high) - low) * TOP, high - low);
    NextTimes(Rescaled(val, low, high), high - low);
  }

  /** The rescaling keeps the order, sends the bounds to the ends and stays between them. */
  lemma RescaledKeepsOrder(v: int, w: int, low: int, high: int)
    requires low < high && v <= w
    ensures 0 <= Rescaled(v, low, high) <= Rescaled(w, low, high) <= 65535
    ensures v <= low ==> Rescaled(v, low, high) == 0
    ensures high <= w ==> Rescaled(w, low, high) == 65535
  {
    var a, b, d := Clamp(v, low, high) - low, Clamp(w, low, high) - low, high - low;
    assert 0 <= a <= b <= d;
    DivideMonotonic(a * TOP, b * TOP, d);
    DivideMonotonic(b * TOP, d * TOP, d);
    DivideMonotonic(0, a * TOP, d);
    assert d * TOP == TOP * d;
    DivideBack(TOP, d);
    DivideBack(0, d);
  }

  /** The sampled pixels of the first `rows` sampled rows, each sampled at every fourth place. */
  ghost predicate IsSampled(sampled: seq<int>, image: seq<int>, width: nat, height: nat) {
    && |image| == width * height
    && |sampled| == (height + 3) / 4 * ((width + 3) / 4)
    && forall y, x :: 0 <= y < (height + 3) / 4 && 0 <= x < (width + 3) / 4 ==>
         IsPixel(sampled, image, width, height, y, x)
  }

  ghost predicate IsPixel(sampled: seq<int>, image: seq<int>, width: nat, height: nat, y: nat, x: nat) {
    var at, from := y * ((width + 3) / 4) + x, y * 4 * width + x * 4;
    at < |sampled| && from < |image| && sampled[at] == image[from]
  }

  /** The samples of the row that begins at `base`. */
  method SampleRow(image: array<int>, base: nat, width: nat) returns (row: seq<int>)
    requires base + width <= image.Length
    ensures |row| == (width + 3) / 4
    ensures forall j :: 0 <= j < |row| ==>
              base + j * 4 < image.Length && row[j] == image[base + j * 4]
  {
    row := [];
    var x := 0;
    while x < width
      invariant x == |row| * 4 && |row| <= (width + 3) / 4
      invariant forall j :: 0 <= j < |row| ==>
                  base + j * 4 < image.Length && row[j] == image[base + j * 4]
    {
      row := row + [image[base + x]];
      x := x + SAMPLE_STEP;
    }
  }

  /** The two loops that sample the image. */
  method Sample(image: array<int>, width: nat, height: nat) returns (sampled: seq<int>)
    requires image.Length == width * height
    ensures IsSampled(sampled, image[..], width, height)
  {
    hide IsPixel;
    sampled := [];
    var y := 0;
    ghost var rows, cols := 0, (width + 3) / 4;
    while y < height
      invariant y == rows * 4 && 0 <= rows <= (height + 3) / 4
      invariant |sampled| == rows * cols
      invariant forall i, j :: 0 <= i < rows && 0 <= j < cols ==> IsPixel(sampled, image[..], width, height, i, j)
    {
      TimesMonotonic(y + 1, height, width);
      NextTimes(y, width);
      var row := SampleRow(image, y * width, width);
      ghost var before := sampled;
      sampled := sampled + row;
      forall i, j | 0 <= i < rows + 1 && 0 <= j < cols
        ensures IsPixel(sampled, image[..], width, height, i, j)
      {
        PixelKept(before, row, image[..], width, height, rows, y * width, i, j);
      }
      NextTimes(rows, cols);
      rows := rows + 1;
      y := y + SAMPLE_STEP;
    }
  }

  lemma PixelKept(before: seq<int>, row: seq<int>, image: seq<int>, width: nat, height: nat, rows: nat, base: nat,
                  i: nat, j: nat)
    requires i <= rows && j < (width + 3) / 4 == |row| && |before| == rows * ((width + 3) / 4)
    requires i < rows ==> IsPixel(before, image, width, height, i, j)
    requires base == rows * 4 * width
    requires forall j :: 0 <= j < |row| ==> base + j * 4 < |image| && row[j] == image[base + j * 4]
    ensures IsPixel(before + row, image, width, height, i, j)
  {
    if i == rows {
      assert base + j * 4 < |image| && row[j] == image[base + j * 4];
      assert (before + row)[|before| + j] == row[j];
    }
  }

  /** The position of a percentile among `n` sorted samples, rounded towards zero. */
  function Position(n: nat, p: real): int {
    var x := n as real * p;
    if x < 0.0 then -(-x).Floor else x.Floor
  }

  lemma PositionIsWhole(n: nat, p: real)
    ensures var i, x := Position(n, p) as real, n as real * p;
            if p < 0.0 then i - 1.0 < x <= i <= 0.0 else 0.0 <= i <= x < i + 1.0
  {
    if p < 0.0 {
      TimesOrder(n as real, p, 0.0);
    } else {
      TimesOrder(n as real, 0.0, p);
    }
  }

  /** There is a sample at that position: the percentile is below 1, and not so far below 0 as to matter. */
  lemma PositionInside(n: nat, p: real)
    ensures 0 <= Position(n, p) < n <==> n > 0 && -1.0 < n as real * p && p < 1.0
  {
    if p < 1.0 {
      TimesBelow(n as real, p, 1.0);
    } else {
      TimesOrder(n as real, 1.0, p);
    }
  }

  lemma TimesOrder(n: real, p: real, q: real)
    requires 0.0 <= n && p <= q
    ensures n * p <= n * q
  {
    assert 0.0 <= n * (q - p);
  }

  lemma TimesBelow(n: real, p: real, q: real)
    requires 0.0 <= n && p < q
    ensures n == 0.0 || n * p < n * q
  {
    assert n == 0.0 || 0.0 < n * (q - p);
  }

  lemma PositionMonotonic(n: nat, p: real, q: real)
    requires p <= q
    ensures Position(n, p) <= Position(n, q)
  {
    var x, y := n as real * p, n as real * q;
    TimesOrder(n as real, p, q);
    if 0.0 <= x {
      FloorMonotonic(x, y);
    } else if y < 0.0 {
      FloorMonotonic(-y, -x);
    }
  }

  lemma FloorMonotonic(a: real, b: real)
    requires a <= b
    ensures a.Floor <= b.Floor
  {
  }

  /** Process_Raw_Stats_Vague, from the difference image on. The bounds are the elements at the two percentile
      positions of the sorted samples, and each output is its input rescaled between them. Where a position is outside
      the samples the original reads outside its buffer, and where the lower bound is not below the upper one it
      divides by zero or clamps to an empty interval: `ok` is false exactly then. */
  method Stretch(image: array<int>, output: array<int>, width: nat, height: nat, percentileMin: real,
                 percentileMax: real)
    returns (ok: bool, minVal: int, maxVal: int, ghost sampled: seq<int>)
    requires image.Length == width * height == output.Length && image != output
    modifies output
    ensures IsSampled(sampled, image[..], width, height) && |Sorted(sampled)| == |sampled|
    ensures var n := |sampled|;
            var i, j := Position(n, percentileMin), Position(n, percentileMax);
            && (ok <==> 0 <= i < n && 0 <= j < n && Sorted(sampled)[i] < Sorted(sampled)[j])
            && (ok ==> minVal == Sorted(sampled)[i] && maxVal == Sorted(sampled)[j])
    ensures ok ==> forall i :: 0 <= i < output.Length ==>
              var c := if image[i] < minVal then minVal else if image[i] > maxVal then maxVal else image[i];
              output[i] * (maxVal - minVal) <= (c - minVal) * 65535 < (output[i] + 1) * (maxVal - minVal)
    ensures ok ==> forall i :: 0 <= i < output.Length ==> output[i] == Rescaled(image[i], minVal, maxVal)
  {
    hide IsSampled, Sorted, Position;
    var samples := Sample(image, width, height);
    sampled := samples;
    SortedIsSorted(samples);
    var n := |samples|;
    var arr := new int[n](i requires 0 <= i < n => samples[i]);
    assert arr[..] == samples;
    var minIdx, maxIdx := Position(n, percentileMin), Position(n, percentileMax);
    if !(0 <= minIdx < n && 0 <= maxIdx < n) {
      return false, 0, 0, samples;
    }
    minVal := SelectRank(arr, minIdx, true);
    SortedPermuted(samples, arr[..]);
    maxVal := SelectRank(arr, maxIdx, true);
    ok := minVal < maxVal;
    if ok {
      for i := 0 to output.Length
        invariant forall j :: 0 <= j < i ==> output[j] == Rescaled(image[j], minVal, maxVal)
        invariant forall j :: 0 <= j < i ==> IsShare(output[j], image[j], minVal, maxVal)
      {
        RescaledIsShare(image[i], minVal, maxVal);
        var val := Clamp(image[i], minVal, maxVal);
        output[i] := (val - minVal) * TOP / (maxVal - minVal);
      }
    }
  }

  /** With the percentiles in order the bounds are. */
  lemma BoundsInOrder(samples: seq<int>, p: real, q: real)
    requires p <= q && 0 <= Position(|samples|, p) && Position(|samples|, q) < |samples|
    ensures |Sorted(samples)| == |samples| && Position(|samples|, p) <= Position(|samples|, q)
    ensures Sorted(samples)[Position(|samples|, p)] <= Sorted(samples)[Position(|samples|, q)]
  {
    PositionMonotonic(|samples|, p, q);
    SortedMonotonic(samples, Position(|samples|, p), Position(|samples|, q));
  }
}
