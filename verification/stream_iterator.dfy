/** The stream iterator of mpicbg/image/StreamIterator.java: a position `i` in
    the flat sample stream of an n-dimensional image, stepped one pixel (that
    is, `numChannels` samples) at a time and decoded into pixel coordinates
    with dimension 0 varying fastest.

    The container (`Stream`, its pixel type and access strategy are not part of
    this model) is reduced to what the iterator reads from it: the extent of
    every dimension, the number of channels per pixel and the pixel count.
 */
module ImageStream {
  import opened JavaInt

  /** What the iterator asks its container: `getDim(d)`, `getNumDim()` (the
      length of `dims`), `getPixelType().getNumChannels()` and
      `getNumPixels()`. */
  datatype Stream = Stream(dims: seq<int>, numChannels: int, numPixels: int)

  /** Every extent positive, so that none of the divisions in `localize` can
      throw, and every quantity an `int`. */
  predicate AllPositive(ds: seq<int>) {
    forall d :: 0 <= d < |ds| ==> 0 < ds[d] <= INT_MAX
  }

  predicate ValidStream(s: Stream) {
    && 0 < s.numChannels <= INT_MAX
    && IsInt(s.numPixels)
    && AllPositive(s.dims)
  }

  /** The iterator: its container and the stream index `i`. */
  datatype StreamIterator = StreamIterator(container: Stream, i: int)

  predicate Valid(it: StreamIterator) {
    ValidStream(it.container) && IsInt(it.i)
  }

  /** A new iterator stands at the start of the stream: stream index 0, which
      for a well-formed container localizes to the origin. */
  function Start(container: Stream): (it: StreamIterator)
    ensures it.i == 0 && it.container == container
    ensures ValidStream(container) ==>
      Coordinates(it, |container.dims|) == seq(|container.dims|, _ => 0)
  {
    assert ValidStream(container) ==>
      Digits(0, container.dims[..|container.dims|]) == seq(|container.dims|, _ => 0) by {
      if ValidStream(container) {
        ZeroDigits(container.dims);
        assert container.dims[..|container.dims|] == container.dims;
      }
    }
    StreamIterator(container, 0)
  }

  lemma {:induction false} ZeroDigits(ds: seq<int>)
    requires AllPositive(ds)
    ensures Digits(0, ds) == seq(|ds|, _ => 0)
  {
    if |ds| > 0 {
      ZeroDigits(ds[1..]);
    }
  }

  /** `isInside()`: the index is neither before the stream nor at or past its
      pixel count. For an integer index, being above -1 is being at or after
      the stream start. */
  predicate IsInside(it: StreamIterator): (inside: bool)
    ensures inside <==> 0 <= it.i && it.i < it.container.numPixels
  {
    -1 < it.i < it.container.numPixels
  }

  /** `next()`: advance by one pixel's worth of samples, wrapping around as
      Java's `+=` does; nothing else changes. */
  function Next(it: StreamIterator): (r: StreamIterator)
    requires IsInt(it.i) && IsInt(it.container.numChannels)
    ensures IsInt(r.i) && r.container == it.container
    ensures IsInt(it.i + it.container.numChannels) ==> r.i == it.i + it.container.numChannels
    ensures (r.i - (it.i + it.container.numChannels)) % MODULUS == 0
  {
    it.(i := Wrap(it.i + it.container.numChannels))
  }

  /** `prev()`: step back by one pixel's worth of samples, wrapping around as
      Java's `-=` does; nothing else changes. */
  function Prev(it: StreamIterator): (r: StreamIterator)
    requires IsInt(it.i) && IsInt(it.container.numChannels)
    ensures IsInt(r.i) && r.container == it.container
    ensures IsInt(it.i - it.container.numChannels) ==> r.i == it.i - it.container.numChannels
    ensures (r.i - (it.i - it.container.numChannels)) % MODULUS == 0
  {
    it.(i := Wrap(it.i - it.container.numChannels))
  }

  /** `prev()` undoes `next()`, even across the 32-bit wrap-around and for any
      channel count. */
  lemma PrevAfterNext(it: StreamIterator)
    requires IsInt(it.i) && IsInt(it.container.numChannels)
    ensures Prev(Next(it)) == it
  {
    var c := it.container.numChannels;
    var w := Wrap(it.i + c);
    var k := (it.i + c - w) / MODULUS;
    assert (w - c) - it.i == -k * MODULUS;
    WrapUnique(w - c, it.i);
  }

  /** `next()` undoes `prev()`, even across the 32-bit wrap-around and for any
      channel count. */
  lemma NextAfterPrev(it: StreamIterator)
    requires IsInt(it.i) && IsInt(it.container.numChannels)
    ensures Next(Prev(it)) == it
  {
    var c := it.container.numChannels;
    var w := Wrap(it.i - c);
    var k := (it.i - c - w) / MODULUS;
    assert (w + c) - it.i == -k * MODULUS;
    WrapUnique(w + c, it.i);
  }

  // ---------------------------------------------------------------------------
  // Mixed-radix coordinates

  /** Number of pixels of an image with extents `ds`. */
  function Product(ds: seq<int>): int {
    if |ds| == 0 then 1 else ds[0] * Product(ds[1..])
  }

  /** `l` is a coordinate inside an image with extents `ds`. */
  predicate InBounds(l: seq<int>, ds: seq<int>) {
    |l| == |ds| && forall d :: 0 <= d < |l| ==> 0 <= l[d] < ds[d]
  }

  /** The loop body of `localize`, unrolled over the extents: the coordinate of
      dimension `d` is the running quotient modulo `ds[d]`, then the quotient
      is divided by `ds[d]`, with Java's truncating operators. */
  function Digits(r: int, ds: seq<int>): (l: seq<int>)
    requires AllPositive(ds)
    ensures |l| == |ds|
    ensures r >= 0 ==> InBounds(l, ds)
    decreases |ds|
  {
    if |ds| == 0 then []
    else
      assert AllPositive(ds[1..]);
      var m := JRem(r, ds[0]);
      var rest := Digits(JDiv(r, ds[0]), ds[1..]);
      assert r >= 0 ==> 0 <= m < ds[0];
      [m] + rest
  }

  /** Linear pixel index of coordinate `l`, dimension 0 fastest: the sum of
      `l[d]` times the product of the extents before `d`, in Horner form. */
  function Encode(l: seq<int>, ds: seq<int>): int
    requires |l| == |ds|
  {
    if |ds| == 0 then 0 else l[0] + ds[0] * Encode(l[1..], ds[1..])
  }

  /** Decoding a pixel index and re-encoding it gives the index back. */
  lemma {:induction false} DigitsRoundTrip(r: int, ds: seq<int>)
    requires AllPositive(ds) && 0 <= r < Product(ds)
    ensures Encode(Digits(r, ds), ds) == r
    decreases |ds|
  {
    if |ds| > 0 {
      var rest := ds[1..];
      var m, q := DigitsHead(r, ds);
      DigitsRoundTrip(q, rest);
    }
  }

  /** One step of decoding a non-negative index: the first coordinate is the
      remainder by the first extent and the rest decodes the quotient, which is
      an index of the remaining extents. */
  lemma DigitsHead(r: int, ds: seq<int>) returns (m: int, q: int)
    requires AllPositive(ds) && |ds| > 0 && r >= 0
    ensures AllPositive(ds[1..])
    ensures m == r % ds[0] && q == r / ds[0] && q >= 0 && r == m + ds[0] * q
    ensures Digits(r, ds) == [m] + Digits(q, ds[1..])
    ensures r < Product(ds) ==> q < Product(ds[1..])
  {
    var d := ds[0];
    m := r % d;
    q := r / d;
    assert AllPositive(ds[1..]);
    if r < Product(ds) {
      assert Product(ds) == d * Product(ds[1..]);
      QuotientBelow(r, d, q, m, Product(ds[1..]));
    }
  }

  /** A quotient of an index below `d * p` is below `p`. */
  lemma QuotientBelow(r: int, d: int, q: int, m: int, p: int)
    requires d > 0 && 0 <= m && r == d * q + m && r < d * p
    ensures q < p
  {
    if q >= p {
      MulMonotone(d, p, q);
    }
  }

  /** Every in-bounds coordinate encodes to a pixel index, and decoding that
      index gives the coordinate back: decoding is a bijection between pixel
      indices and coordinates. */
  lemma {:induction false} EncodeRoundTrip(l: seq<int>, ds: seq<int>)
    requires AllPositive(ds) && InBounds(l, ds)
    ensures 0 <= Encode(l, ds) < Product(ds)
    ensures Digits(Encode(l, ds), ds) == l
    decreases |ds|
  {
    if |ds| > 0 {
      var rest := ds[1..];
      assert AllPositive(rest) && InBounds(l[1..], rest);
      var e := Encode(l[1..], rest);
      EncodeRoundTrip(l[1..], rest);
      var x := l[0] + ds[0] * e;
      assert Encode(l, ds) == x;
      assert Product(ds) == ds[0] * Product(rest);
      PlaceValue(l[0], ds[0], e, Product(rest));
      var m, q := DigitsHead(x, ds);
      assert l == [l[0]] + l[1..];
    }
  }

  /** A digit below `d` plus `d` times an index below `p` is an index below
      `d * p`, from which division by `d` recovers both. */
  lemma PlaceValue(digit: int, d: int, e: int, p: int)
    requires 0 <= digit < d && 0 <= e < p
    ensures 0 <= digit + d * e < d * p
    ensures (digit + d * e) % d == digit && (digit + d * e) / d == e
  {
    MulMonotone(d, e, p - 1);
    MulNonNegative(d, e);
    DivModUnique(digit + d * e, d, e, digit);
  }

  /** One odometer step: the fastest dimension advances, and a dimension that
      reaches its extent returns to 0 and carries into the next one; past the
      last dimension the carry is dropped. */
  function Increment(l: seq<int>, ds: seq<int>): (r: seq<int>)
    requires |l| == |ds|
    ensures |r| == |ds|
  {
    if |ds| == 0 then []
    else if l[0] + 1 < ds[0] then [l[0] + 1] + l[1..]
    else [0] + Increment(l[1..], ds[1..])
  }

  /** The coordinates of the next pixel index are one odometer step on. */
  lemma {:induction false} DigitsSuccessor(r: int, ds: seq<int>)
    requires AllPositive(ds) && r >= 0
    ensures Digits(r + 1, ds) == Increment(Digits(r, ds), ds)
    decreases |ds|
  {
    if |ds| > 0 {
      var rest := ds[1..];
      var m, q := DigitsHead(r, ds);
      var m', q' := DigitsHead(r + 1, ds);
      var digits := Digits(r, ds);
      assert digits[1..] == Digits(q, rest);
      SuccessorDivMod(r, ds[0]);
      if m + 1 < ds[0] {
        assert Increment(digits, ds) == [m + 1] + digits[1..];
      } else {
        assert Increment(digits, ds) == [0] + Increment(digits[1..], rest);
        DigitsSuccessor(q, rest);
      }
    }
  }

  /** Adding one to a non-negative dividend either bumps the remainder or
      carries into the quotient. */
  lemma SuccessorDivMod(r: int, d: int)
    requires r >= 0 && d > 0
    ensures r % d + 1 < d ==> (r + 1) % d == r % d + 1 && (r + 1) / d == r / d
    ensures r % d + 1 >= d ==> (r + 1) % d == 0 && (r + 1) / d == r / d + 1
  {
    var m := r % d;
    var q := r / d;
    if m + 1 < d {
      DivModUnique(r + 1, d, q, m + 1);
    } else {
      DivModUnique(r + 1, d, q + 1, 0);
    }
  }

  // ---------------------------------------------------------------------------
  // localize

  /** The coordinates `localize` writes into an array of length `n`: the pixel
      index `i / numChannels` decoded over the first `n` extents. */
  function Coordinates(it: StreamIterator, n: nat): (l: seq<int>)
    requires Valid(it) && n <= |it.container.dims|
    ensures |l| == n
  {
    Digits(JDiv(it.i, it.container.numChannels), it.container.dims[..n])
  }

  /** `localize(int[] l)` with `l.length == n`: the loop of the source, with
      Java's truncating `/` and `%`. The iterator is a value, so its index is
      left unchanged. For an index at or after the stream start every
      coordinate lies within its extent. */
  method Localize(it: StreamIterator, n: nat) returns (l: seq<int>)
    requires Valid(it) && n <= |it.container.dims|
    ensures l == Coordinates(it, n)
    ensures it.i >= 0 ==> forall d :: 0 <= d < n ==> 0 <= l[d] < it.container.dims[d]
  {
    var ds := it.container.dims;
    var r := JDiv(it.i, it.container.numChannels);
    ghost var full := Coordinates(it, n);
    l := [];
    var d := 0;
    while d < n
      invariant 0 <= d <= n
      invariant l == full[..d]
      invariant Digits(r, ds[d..n]) == full[d..]
    {
      DigitsStep(r, ds, d, n);
      l := l + [JRem(r, ds[d])];
      r := JDiv(r, ds[d]);
      d := d + 1;
    }
  }

  /** One iteration of the `localize` loop: the coordinate of dimension `d` is
      the first digit over the extents from `d`, and the rest follow from the
      quotient. */
  lemma DigitsStep(r: int, ds: seq<int>, d: nat, n: nat)
    requires AllPositive(ds) && d < n <= |ds|
    ensures AllPositive(ds[d..n]) && AllPositive(ds[d + 1..n])
    ensures Digits(r, ds[d..n]) == [JRem(r, ds[d])] + Digits(JDiv(r, ds[d]), ds[d + 1..n])
  {
    assert ds[d..n][1..] == ds[d + 1..n];
  }

  /** `localize(float[] l)` with `l.length == n`: the same loop storing each
      coordinate as a floating-point value. It yields exactly the coordinates
      `localize(int[])` yields. */
  method LocalizeFloat(it: StreamIterator, n: nat) returns (l: seq<real>)
    requires Valid(it) && n <= |it.container.dims|
    ensures |l| == n
    ensures forall d :: 0 <= d < n ==> l[d] == Coordinates(it, n)[d] as real
  {
    var ds := it.container.dims;
    var r := JDiv(it.i, it.container.numChannels);
    ghost var full := Coordinates(it, n);
    l := [];
    var d := 0;
    while d < n
      invariant 0 <= d <= n
      invariant |l| == d
      invariant forall k :: 0 <= k < d ==> l[k] == full[k] as real
      invariant Digits(r, ds[d..n]) == full[d..]
    {
      DigitsStep(r, ds, d, n);
      l := l + [JRem(r, ds[d]) as real];
      r := JDiv(r, ds[d]);
      d := d + 1;
    }
  }

  /** An iterator inside the stream localizes to an in-bounds coordinate whose
      linear index is its pixel index `i / numChannels`, provided the pixel
      count does not exceed the samples the extents describe. */
  lemma LocalizeInside(it: StreamIterator)
    requires Valid(it) && IsInside(it)
    requires it.container.numPixels <= it.container.numChannels * Product(it.container.dims)
    ensures var ds := it.container.dims;
      InBounds(Coordinates(it, |ds|), ds)
      && Encode(Coordinates(it, |ds|), ds) == it.i / it.container.numChannels
  {
    var ds := it.container.dims;
    var c := it.container.numChannels;
    var q := JDiv(it.i, c);
    assert q == it.i / c;
    assert ds[..|ds|] == ds;
    QuotientBelow(it.i, c, q, it.i % c, Product(ds));
    DigitsRoundTrip(q, ds);
  }

  /** From any index at or after the stream start, `next()` moves the
      localized coordinates one odometer step, provided the index does not
      overflow. */
  lemma NextStepsOdometer(it: StreamIterator, n: nat)
    requires Valid(it) && n <= |it.container.dims|
    requires it.i >= 0
    requires IsInt(it.i + it.container.numChannels)
    ensures Coordinates(Next(it), n) == Increment(Coordinates(it, n), it.container.dims[..n])
  {
    var c := it.container.numChannels;
    var q := it.i / c;
    DivModUnique(it.i + c, c, q + 1, it.i % c);
    DigitsSuccessor(q, it.container.dims[..n]);
  }
}
