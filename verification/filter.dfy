/** The integer rules of the image filter helpers in
    mpicbg/imagefeatures/Filter.java: the ping-pong reflection of an index into
    a range, the floor-log2 loop, the shape of a 1d Gaussian kernel, and the
    out-of-image lookup tables of the separable convolution.
 */
module Filter {
  import opened JavaInt

  /** Smallest range size whose double, `2 * mod`, overflows an `int`. There it
      wraps to `Integer.MIN_VALUE`, and the reflection still stays in range. */
  const HALF_RANGE: int := 0x4000_0000

  /** `flipInRange(a, mod)` as the Java code computes it, statement by
      statement, with truncating `%` and 32-bit wrap-around. The code throws an
      `ArithmeticException` exactly when `p = 2 * mod` wraps to zero, which the
      precondition excludes. */
  function FlipInRange(a: int, mod: int): (r: int)
    requires IsInt(a) && IsInt(mod)
    requires Wrap(2 * mod) != 0
    ensures IsInt(r)
    ensures 0 < mod <= HALF_RANGE ==> 0 <= r < mod
  {
    var p := Wrap(2 * mod);
    assert mod != 0;
    FlipUpperHalf(FlipIntoPeriod(a, p), mod, p)
  }

  /** The first two steps: bring a negative index up into one period by adding
      the period to its truncated remainder, then reduce an index at or past the
      period by its remainder. */
  function FlipIntoPeriod(a: int, p: int): (r: int)
    requires IsInt(a) && IsInt(p) && p != 0
    ensures IsInt(r)
    ensures p > 0 ==> 0 <= r < p
    ensures p == INT_MIN ==> 0 <= r
  {
    var a1 := if a < 0 then Wrap(p + JRem(a, p)) else a;
    if a1 >= p then JRem(a1, p) else a1
  }

  /** The third step: reflect an index in the upper half of the period back into
      `[0, mod)`, repeating the edge sample. */
  function FlipUpperHalf(a: int, mod: int, p: int): (r: int)
    requires IsInt(a) && IsInt(mod) && mod != 0 && p == Wrap(2 * mod)
    requires p > 0 ==> 0 <= a < p
    requires p == INT_MIN ==> 0 <= a
    ensures IsInt(r)
    ensures 0 < mod <= HALF_RANGE ==> 0 <= r < mod
  {
    if a >= mod then Wrap(Wrap(mod - JRem(a, mod)) - 1) else a
  }

  /** The mirror reflection the doc comment describes, stated independently with
      Euclidean `%`: positions repeat with period `2 * mod`, the first half
      unchanged and the second half reflected with the edge sample repeated. */
  function MirrorIndex(a: int, mod: int): (r: int)
    requires mod > 0
    ensures 0 <= r < mod
  {
    var t := a % (2 * mod);
    if t < mod then t else 2 * mod - 1 - t
  }

  /** The throwing inputs: `2 * mod` wraps to zero exactly for `mod` zero and
      for the most negative `int`. */
  lemma FlipInRangeDivisorZero(mod: int)
    requires IsInt(mod)
    ensures Wrap(2 * mod) == 0 <==> mod == 0 || mod == INT_MIN
  {
    if mod == INT_MIN {
      WrapUnique(2 * mod, 0);
    }
  }

  /** Brought into one period, a non-negative index is its Euclidean remainder. */
  lemma FlipIntoPeriodNonNegative(a: int, p: int)
    requires IsInt(a) && IsInt(p) && p > 0 && a >= 0
    ensures FlipIntoPeriod(a, p) == a % p
  {
    if a < p {
      DivModUnique(a, p, 0, a);
    }
  }

  /** Brought into one period, a negative index is its Euclidean remainder too:
      Java's `p + a % p` lands in `(0, p]`, and the second statement maps `p`
      itself to 0. */
  lemma FlipIntoPeriodNegative(a: int, p: int)
    requires IsInt(a) && IsInt(p) && p > 0 && a < 0
    ensures FlipIntoPeriod(a, p) == a % p
  {
    var m := (-a) % p;
    var q := (-a) / p;
    assert JRem(a, p) == -m;
    assert Wrap(p - m) == p - m;
    if m == 0 {
      DivModUnique(a, p, -q, 0);
      DivModUnique(p, p, 1, 0);
    } else {
      DivModUnique(a, p, -q - 1, p - m);
    }
  }

  /** In the upper half of a period the third statement reflects the index. */
  lemma FlipUpperHalfMirrors(t: int, mod: int)
    requires 0 < mod < HALF_RANGE && 0 <= t < 2 * mod
    ensures FlipUpperHalf(t, mod, 2 * mod) == if t < mod then t else 2 * mod - 1 - t
  {
    if t >= mod {
      DivModUnique(t, mod, 1, t - mod);
    }
  }

  /** For every range size whose double fits an `int`, the Java computation is
      the mirror reflection. */
  lemma FlipInRangeIsMirror(a: int, mod: int)
    requires IsInt(a) && 0 < mod < HALF_RANGE
    ensures FlipInRange(a, mod) == MirrorIndex(a, mod)
  {
    var p := 2 * mod;
    assert Wrap(2 * mod) == p;
    if a >= 0 {
      FlipIntoPeriodNonNegative(a, p);
    } else {
      FlipIntoPeriodNegative(a, p);
    }
    FlipUpperHalfMirrors(a % p, mod);
  }

  /** Inside the range nothing is flipped. */
  lemma FlipInRangeIdentity(a: int, mod: int)
    requires 0 < mod < HALF_RANGE && 0 <= a < mod
    ensures FlipInRange(a, mod) == a
  {
    FlipInRangeIsMirror(a, mod);
    DivModUnique(a, 2 * mod, 0, a);
  }

  /** Just past the upper edge the index is reflected, the edge sample repeated. */
  lemma FlipInRangeUpperMirror(a: int, mod: int)
    requires 0 < mod < HALF_RANGE && mod <= a < 2 * mod
    ensures FlipInRange(a, mod) == 2 * mod - 1 - a
  {
    FlipInRangeIsMirror(a, mod);
    DivModUnique(a, 2 * mod, 0, a);
  }

  /** Just below zero the index is reflected, the edge sample repeated: -1 maps
      to 0, -2 to 1, and so on down to `-mod`. */
  lemma FlipInRangeLowerMirror(k: int, mod: int)
    requires 0 < mod < HALF_RANGE && 1 <= k <= mod
    ensures FlipInRange(-k, mod) == k - 1
  {
    FlipInRangeIsMirror(-k, mod);
    DivModUnique(-k, 2 * mod, -1, 2 * mod - k);
  }

  /** The reflection repeats with period `2 * mod`, for negative and positive
      indices alike. */
  lemma FlipInRangePeriodic(a: int, mod: int)
    requires 0 < mod < HALF_RANGE && IsInt(a) && IsInt(a + 2 * mod)
    ensures FlipInRange(a + 2 * mod, mod) == FlipInRange(a, mod)
  {
    FlipInRangeIsMirror(a, mod);
    FlipInRangeIsMirror(a + 2 * mod, mod);
    MirrorIndexPeriodic(a, mod);
  }

  lemma MirrorIndexPeriodic(a: int, mod: int)
    requires mod > 0
    ensures MirrorIndex(a + 2 * mod, mod) == MirrorIndex(a, mod)
  {
    var p := 2 * mod;
    DivModUnique(a + p, p, a / p + 1, a % p);
  }

  /** Beyond `2^30` the range promise fails: `2 * mod` wraps to a negative
      period, and the index just before the range comes back negative. */
  lemma FlipInRangeWideModLeavesRange(mod: int)
    requires HALF_RANGE < mod <= INT_MAX
    ensures FlipInRange(-1, mod) == 2 * mod - MODULUS - 1
    ensures FlipInRange(-1, mod) < 0
  {
    var p := 2 * mod - MODULUS;
    WrapUnique(2 * mod, p);
    assert JRem(-1, p) == -1;
    assert FlipIntoPeriod(-1, p) == p - 1;
  }

  // ---------------------------------------------------------------------------
  // ldu

  /** Floor of the binary logarithm, the value `ldu` is documented to return. */
  function FloorLog2(v: int): (r: nat)
    requires v >= 1
    ensures Pow2(r) <= v < Pow2(r + 1)
  {
    if v < 2 then 0 else 1 + FloorLog2(v / 2)
  }

  /** `ldu(v)`: halve `v` by an arithmetic right shift (Euclidean `/ 2` is the
      floor, as `>>= 1` is for negative values too) and count the shifts while
      the value exceeds one. The do-while makes at least one shift, so every
      input below 2 yields 1; from 2 on the count is the floor of log2. */
  method Ldu(v: int) returns (c: nat)
    requires IsInt(v)
    ensures v < 2 ==> c == 1
    ensures v >= 2 ==> Pow2(c) <= v < Pow2(c + 1) && c == FloorLog2(v)
  {
    var w := v / 2;
    c := 1;
    while w > 1
      invariant c >= 1
      invariant v < 2 ==> c == 1 && w <= 0
      invariant v >= 2 ==> w >= 1 && Pow2(c) * w <= v < Pow2(c) * (w + 1)
      decreases w
    {
      HalvingKeepsBracket(v, c, w);
      w := w / 2;
      c := c + 1;
    }
    if v >= 2 {
      FloorLog2Unique(v, c);
    }
  }

  /** One more right shift keeps `v` bracketed by the shifted value. */
  lemma HalvingKeepsBracket(v: int, c: nat, w: int)
    requires w >= 2 && Pow2(c) * w <= v < Pow2(c) * (w + 1)
    ensures Pow2(c + 1) * (w / 2) <= v < Pow2(c + 1) * (w / 2 + 1)
  {
    var h := w / 2;
    assert 2 * h <= w < 2 * h + 2;
    assert Pow2(c + 1) * h == Pow2(c) * (2 * h);
    assert Pow2(c + 1) * (h + 1) == Pow2(c) * (2 * h + 2);
    MulMonotone(Pow2(c), 2 * h, w);
    MulMonotone(Pow2(c), w + 1, 2 * h + 2);
  }

  /** The exponent of a power-of-two bracket is unique. */
  lemma {:induction false} FloorLog2Unique(v: int, c: nat)
    requires v >= 1 && Pow2(c) <= v < Pow2(c + 1)
    ensures FloorLog2(v) == c
  {
    if c == 0 {
    } else {
      assert v >= 2;
      FloorLog2Unique(v / 2, c - 1);
    }
  }

  // ---------------------------------------------------------------------------
  // createGaussianKernel (shape only)

  /** Java's `(int)` narrowing of a floating-point value: truncation toward zero,
      saturating at the ends of the `int` range. */
  function FloatToInt(x: real): (r: int)
    ensures IsInt(r)
    ensures x >= INT_MAX as real ==> r == INT_MAX
    ensures x <= INT_MIN as real ==> r == INT_MIN
    ensures 0.0 <= x < INT_MAX as real ==> r as real <= x < (r + 1) as real
    ensures INT_MIN as real < x < 0.0 ==> (r - 1) as real < x <= r as real
  {
    if x >= INT_MAX as real then INT_MAX
    else if x <= INT_MIN as real then INT_MIN
    else if x >= 0.0 then x.Floor
    else -((-x).Floor)
  }

  /** Length of the kernel `createGaussianKernel(sigma, _)` allocates: twice
      `3 * sigma` rounded half up, plus one, computed in `int` arithmetic and
      raised to at least 3; a non-positive sigma gives 3. Even when the doubling wraps around the length is odd
      and at least 3. */
  function KernelSize(sigma: real): (size: int)
    ensures IsInt(size)
    ensures size >= 3 && size % 2 == 1
  {
    if sigma <= 0.0 then 3
    else
      var doubled := Wrap(2 * FloatToInt(3.0 * sigma + 0.5));
      assert doubled % 2 == 0 by {
        var k := (2 * FloatToInt(3.0 * sigma + 0.5) - doubled) / MODULUS;
        assert doubled == 2 * FloatToInt(3.0 * sigma + 0.5) - k * MODULUS;
      }
      var odd := Wrap(doubled + 1);
      if odd < 3 then 3 else odd
  }

  /** Without overflow the kernel radius is `3 * sigma` rounded half up, and
      never below 1. */
  lemma KernelRadius(sigma: real)
    requires 0.0 < sigma && 3.0 * sigma + 0.5 < HALF_RANGE as real
    ensures KernelSize(sigma) / 2 >= 1
    ensures 3.0 * sigma + 0.5 >= 1.0 ==>
      (KernelSize(sigma) / 2) as real <= 3.0 * sigma + 0.5 < (KernelSize(sigma) / 2 + 1) as real
    ensures 3.0 * sigma + 0.5 < 1.0 ==> KernelSize(sigma) == 3
  {
    var k := FloatToInt(3.0 * sigma + 0.5);
    assert 0 <= k < HALF_RANGE;
    assert Wrap(2 * k) == 2 * k;
    assert Wrap(2 * k + 1) == 2 * k + 1;
  }

  /** A kernel that reads the same from both ends, so that `kernel[c - x]`
      equals `kernel[c + x]` around the centre `c` of an odd-length kernel. */
  predicate Symmetric(kernel: seq<real>) {
    forall j :: 0 <= j < |kernel| ==> kernel[j] == kernel[|kernel| - 1 - j]
  }

  /** `createGaussianKernel(sigma, false)`. The sample at distance `x` from the
      centre, `(float) Math.exp(-(x * x) / (2 * sigma * sigma))`, is the
      parameter `sample`; the model fixes where each sample goes. */
  method CreateGaussianKernel(sigma: real, sample: int -> real) returns (kernel: seq<real>)
    ensures |kernel| == KernelSize(sigma)
    ensures sigma <= 0.0 ==> kernel == [0.0, 1.0, 0.0]
    ensures sigma > 0.0 ==>
      forall j :: 0 <= j < |kernel| ==> kernel[j] == sample(Abs(j - |kernel| / 2))
    ensures Symmetric(kernel)
  {
    if sigma <= 0.0 {
      // a fresh float[3] is zero-filled, then kernel[1] = 1
      kernel := [0.0, 1.0, 0.0];
    } else {
      kernel := FillFromCentre(KernelSize(sigma), sample);
    }
  }

  /** The sampling loop of `createGaussianKernel`: for `x` from the centre
      `c = size / 2` down to 0, store `sample(x)` at `c - x` and at `c + x`. */
  method FillFromCentre(size: int, sample: int -> real) returns (kernel: seq<real>)
    requires size >= 1 && size % 2 == 1
    ensures |kernel| == size
    ensures forall j :: 0 <= j < size ==> kernel[j] == sample(Abs(j - size / 2))
    ensures Symmetric(kernel)
  {
    var c := size / 2;
    kernel := seq(size, _ => 0.0);
    var x := c;
    while x >= 0
      invariant -1 <= x <= c
      invariant |kernel| == size
      invariant forall j :: 0 <= j < size && Abs(j - c) > x ==> kernel[j] == sample(Abs(j - c))
    {
      var val := sample(x);
      kernel := kernel[c - x := val][c + x := val];
      x := x - 1;
    }
    forall j | 0 <= j < size
      ensures kernel[j] == kernel[size - 1 - j]
    {
      assert Abs(j - c) == Abs((size - 1 - j) - c);
    }
  }

  // ---------------------------------------------------------------------------
  // convolveSeparable: lookup tables for coordinates outside the image

  /** The four lookup tables `convolveSeparable` builds before convolving:
      columns before (`xb`) and after (`xa`) the image, and row offsets before
      (`yb`) and after (`ya`) it, as multiples of the width. */
  datatype BorderTables = BorderTables(xb: seq<int>, xa: seq<int>, yb: seq<int>, ya: seq<int>)

  /** Table of `count` reflected coordinates starting at `first`, each scaled by
      `scale`. */
  function FlipTable(count: nat, first: int, extent: int, scale: int): (table: seq<int>)
    requires 0 < extent < HALF_RANGE && 0 < scale < HALF_RANGE
    requires IsInt(first) && IsInt(first + count)
    ensures |table| == count
    ensures forall i :: 0 <= i < count ==> table[i] == scale * FlipInRange(first + i, extent)
  {
    seq(count, i requires 0 <= i < count => scale * FlipInRange(first + i, extent))
  }

  /** Image sizes and kernel lengths the model covers: both extents small enough
      for `flipInRange` not to overflow, the image's pixel count an `int` (it is
      the length of its data array), and kernels non-empty (a zero length makes
      the tables' length negative and the allocation throws). */
  predicate ValidConvolution(width: int, height: int, hLength: int, vLength: int) {
    && 0 < width < HALF_RANGE && 0 < height < HALF_RANGE
    && width * height <= INT_MAX
    && 0 < hLength < HALF_RANGE && 0 < vLength < HALF_RANGE
  }

  /** The lookup tables of `convolveSeparable` for an image of `width` by
      `height` and kernels of lengths `hLength` and `vLength`. Each table has
      one entry per index the border loops read (`x + xk` with
      `x < length / 2` and `xk < length`, the largest being
      `length / 2 - 1 + length - 1`), and every column entry is a column of the
      image. */
  function ConvolutionBorders(width: int, height: int, hLength: int, vLength: int): (t: BorderTables)
    requires ValidConvolution(width, height, hLength, vLength)
    ensures |t.xb| == |t.xa| && |t.yb| == |t.ya|
    ensures |t.xb| == (hLength / 2 - 1) + (hLength - 1) + 1
    ensures |t.yb| == (vLength / 2 - 1) + (vLength - 1) + 1
    ensures forall i :: 0 <= i < |t.xb| ==> 0 <= t.xb[i] < width && 0 <= t.xa[i] < width
  {
    var hl := hLength / 2;
    var vl := vLength / 2;
    var xl := width - hLength + 1;
    var yl := height - vLength + 1;
    BorderTables(
      FlipTable(hLength + hl - 1, -hl, width, 1),
      FlipTable(hLength + hl - 1, xl, width, 1),
      FlipTable(vLength + vl - 1, -vl, height, width),
      FlipTable(vLength + vl - 1, yl, height, width))
  }

  /** Every row entry is the offset of a row of the image: a multiple of the
      width below `width * height`, so that adding any column lands in the
      image's data array. */
  lemma BorderRowsInImage(width: int, height: int, hLength: int, vLength: int, i: int, x: int)
    requires ValidConvolution(width, height, hLength, vLength)
    requires 0 <= i < |ConvolutionBorders(width, height, hLength, vLength).yb|
    requires 0 <= x < width
    ensures var t := ConvolutionBorders(width, height, hLength, vLength);
      && t.yb[i] % width == 0 && 0 <= t.yb[i] / width < height
      && t.ya[i] % width == 0 && 0 <= t.ya[i] / width < height
      && 0 <= t.yb[i] + x < width * height
      && 0 <= t.ya[i] + x < width * height
  {
    var t := ConvolutionBorders(width, height, hLength, vLength);
    var vl := vLength / 2;
    var yl := height - vLength + 1;
    var rb := FlipInRange(i - vl, height);
    var ra := FlipInRange(i + yl, height);
    RowOffsetInImage(width, height, rb, x);
    RowOffsetInImage(width, height, ra, x);
  }

  lemma RowOffsetInImage(width: int, height: int, row: int, x: int)
    requires 0 < width && 0 <= row < height && 0 <= x < width
    ensures (width * row) % width == 0 && (width * row) / width == row
    ensures 0 <= width * row + x < width * height
  {
    DivModUnique(width * row, width, row, 0);
    MulMonotone(width, row + 1, height);
    MulNonNegative(width, row);
  }

  /** Where the table stands for a coordinate inside the image it holds that
      coordinate; where it stands for one within an image length beyond an edge
      it holds the mirrored coordinate. */
  lemma BorderTablesMirror(width: int, height: int, hLength: int, vLength: int, i: int)
    requires ValidConvolution(width, height, hLength, vLength)
    requires 0 <= i < |ConvolutionBorders(width, height, hLength, vLength).xb|
    ensures var t := ConvolutionBorders(width, height, hLength, vLength);
      var before := i - hLength / 2;
      var after := i + width - hLength + 1;
      && (0 <= before < width ==> t.xb[i] == before)
      && (-width <= before < 0 ==> t.xb[i] == -before - 1)
      && (0 <= after < width ==> t.xa[i] == after)
      && (width <= after < 2 * width ==> t.xa[i] == 2 * width - 1 - after)
  {
    var t := ConvolutionBorders(width, height, hLength, vLength);
    var before := i - hLength / 2;
    var after := i + width - hLength + 1;
    assert t.xb[i] == FlipInRange(before, width);
    assert t.xa[i] == FlipInRange(after, width);
    if 0 <= before < width {
      FlipInRangeIdentity(before, width);
    } else if -width <= before < 0 {
      FlipInRangeLowerMirror(-before, width);
    }
    if 0 <= after < width {
      FlipInRangeIdentity(after, width);
    } else if width <= after < 2 * width {
      FlipInRangeUpperMirror(after, width);
    }
  }
}
