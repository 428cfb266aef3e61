# Integer rules of mpicbg's filter, stream iterator and handle picker

This project is a Dafny model of the small, exact rules in three classes of the
mpicbg image-registration library. Each rule is proved against an independent
statement of what it is meant to do.

- `Filter` (`filter.dfy`) covers four parts of `mpicbg.imagefeatures.Filter`.
  - `flipInRange` is the "ping-pong" reflection of any index into `[0, mod)`. It
    is modelled operator by operator, with Java's truncating `%` and 32-bit
    wrap-around. It is proved equal to a mirror reflection defined with
    Euclidean `%` (`MirrorIndex`).
  - `ldu` is the do-while floor-log2 loop. It is proved against a recursive
    `FloorLog2`.
  - The shape of `createGaussianKernel`: its length, its centre, and where each
    sample goes. The exponential is a parameter.
  - The four out-of-image lookup tables that `convolveSeparable` builds.
- `ImageStream` (`stream_iterator.dfy`) covers `mpicbg.image.StreamIterator`.
  - The container is reduced to what the iterator reads from it: `dims`,
    `numChannels` and `numPixels`.
  - `isInside` (`IsInside`) is the source's `i > -1 && i < getNumPixels()`.
    `LocalizeInside` proves that an iterator for which it holds localizes to
    an in-bounds coordinate.
  - `next` and `prev` step the index with 32-bit wrap-around.
  - `localize` decodes the index in mixed radix, dimension 0 fastest. It is
    proved against the place-value encoding (`Encode`) in both directions, and
    against an odometer step (`Increment`).
  - The iterator is an immutable value, so `localize` cannot change `i`.
    `getStreamIndex()` is the field `i` itself.
- `InteractiveTransform` (`interactive_transform.dfy`) covers two pure rules of
  `mpicbg.ij.InteractiveInvertibleCoordinateTransform`.
  - `modifiers(flags)` is proved against a decoder, `ParseModifiers`. Decoding
    its text gives back `flags & 15`.
  - The handle selection of `mousePressed` is specified as an arg-min with a
    radius cutoff and a first-index tie-break.
- `JavaInt` (`java_int.dfy`) holds Java's `int` semantics, written out for the
  model:
  - `Wrap`: two's complement wrap-around;
  - `JDiv`: truncating `/`;
  - `JRem`: truncating `%`.

The AWT masks are `SHIFT_MASK = 1`, `CTRL_MASK = 2`, `META_MASK = 4` and
`ALT_MASK = 8`. `MouseEvent.BUTTON1` is 1.

## Model

| member | source | states |
|---|---|---|
| Filter.FlipInRange | mpicbg/imagefeatures/Filter.java:33-40 | For every range size `0 < mod <= 2^30`, the flipped index lies in `[0, mod)`, as the doc comment promises. At `mod = 2^30` the doubled period wraps to `Integer.MIN_VALUE`, and the result still stays in range. It is defined for every `int` index and size except where `2 * mod` wraps to zero. |
| Filter.FlipInRangeDivisorZero | mpicbg/imagefeatures/Filter.java:35-37 | The code divides by zero exactly when `mod` is 0 or `Integer.MIN_VALUE`. |
| Filter.FlipInRangeIsMirror | mpicbg/imagefeatures/Filter.java:27-40 | For `0 < mod < 2^30`, the Java computation equals the mirror reflection. That reflection has period `2 * mod`, keeps the first half and reflects the second half, repeating the edge sample. This holds for every `int` index, negative ones included. |
| Filter.FlipInRangeIdentity | mpicbg/imagefeatures/Filter.java:36-38 | For `0 < mod < 2^30`, an index already in `[0, mod)` is returned unchanged. |
| Filter.FlipInRangeUpperMirror | mpicbg/imagefeatures/Filter.java:37-38 | For `0 < mod < 2^30` and `mod <= a < 2 * mod` the result is `2 * mod - 1 - a`. |
| Filter.FlipInRangeLowerMirror | mpicbg/imagefeatures/Filter.java:35-38 | For `0 < mod < 2^30`, `flipInRange(-k, mod) == k - 1` for `1 <= k <= mod`. |
| Filter.FlipInRangePeriodic | mpicbg/imagefeatures/Filter.java:35-38 | For `0 < mod < 2^30`, shifting the index by `2 * mod` does not change the result. |
| Filter.FlipInRangeWideModLeavesRange | mpicbg/imagefeatures/Filter.java:33-40 | For `2^30 < mod <= Integer.MAX_VALUE`, `flipInRange(-1, mod)` is `2 * mod - 2^32 - 1`, a negative index. So the `[0, mod)` promise holds only up to 2^30. |
| Filter.FloorLog2 | mpicbg/imagefeatures/Filter.java:42-47 | The documented result of `ldu`: `2^r <= v < 2^(r+1)`. |
| Filter.Ldu | mpicbg/imagefeatures/Filter.java:48-58 | The loop terminates. For `v >= 2` it returns the floor of log2 `v`. Because of the do-while, every input below 2 returns 1, including 0, 1 and negative values. |
| Filter.FloatToInt | mpicbg/imagefeatures/Filter.java:81 | The `(int)` cast gives `Integer.MAX_VALUE` at or above it and `Integer.MIN_VALUE` at or below it. Inside the range it truncates toward zero: the floor for non-negative values, the ceiling for negative ones. |
| Filter.KernelSize | mpicbg/imagefeatures/Filter.java:74-81 | The kernel length is odd and at least 3, even when `2 * (int)(3 * sigma + 0.5) + 1` wraps around. |
| Filter.KernelRadius | mpicbg/imagefeatures/Filter.java:81 | Without overflow, the kernel radius `size / 2` is `3 * sigma` rounded half up, and never below 1. |
| Filter.CreateGaussianKernel | mpicbg/imagefeatures/Filter.java:68-93 | A non-positive sigma gives `[0, 1, 0]`. Otherwise entry `j` holds the sample for distance `abs(j - size / 2)`. Every kernel is symmetric about its centre. |
| Filter.FillFromCentre | mpicbg/imagefeatures/Filter.java:86-92 | The loop from the centre outwards fills every entry with the sample for its distance from the centre. |
| Filter.ConvolutionBorders | mpicbg/imagefeatures/Filter.java:223-244 | Each table has one entry per index the border loops read. Every column entry `xb[i]` and `xa[i]` is a column of the image. |
| Filter.BorderRowsInImage | mpicbg/imagefeatures/Filter.java:238-244 | Every `yb[i]` and `ya[i]` is `width * row` with `row` in `[0, height)`. Adding any column to it stays inside the image's data array. |
| Filter.BorderTablesMirror | mpicbg/imagefeatures/Filter.java:229-236 | Where a column table stands for a column inside the image, it holds that column. Where it stands for one within an image width beyond an edge, it holds the mirrored column. |
| ImageStream.Start | mpicbg/image/StreamIterator.java:7-12 | A new iterator is at stream index 0 over the given container, so `getStreamIndex()` returns 0. With positive extents and channel count it localizes to the origin. |
| ImageStream.IsInside | mpicbg/image/StreamIterator.java:14 | `isInside()` is the source's `i > -1 && i < getNumPixels()`. For an integer index this holds exactly when `0 <= i < numPixels`. `ImageStream.LocalizeInside` is the lemma proved about it. |
| ImageStream.Next | mpicbg/image/StreamIterator.java:16 | For any `int` channel count, `next()` adds exactly `numChannels` to `i` when the sum does not overflow. Otherwise it wraps to the `int` congruent to the sum modulo 2^32. Nothing else changes. |
| ImageStream.Prev | mpicbg/image/StreamIterator.java:17 | For any `int` channel count, `prev()` subtracts exactly `numChannels` from `i` when the difference does not overflow. Otherwise it wraps to the `int` congruent to the difference modulo 2^32. Nothing else changes. |
| ImageStream.PrevAfterNext | mpicbg/image/StreamIterator.java:16-17 | `prev()` after `next()` restores the iterator for any `int` index and channel count, even across wrap-around. |
| ImageStream.NextAfterPrev | mpicbg/image/StreamIterator.java:16-17 | `next()` after `prev()` restores the iterator for any `int` index and channel count, even across wrap-around. |
| ImageStream.Digits | mpicbg/image/StreamIterator.java:27-32 | The decoded coordinate has one entry per extent. For a non-negative index, every coordinate lies in `[0, dim(d))`. |
| ImageStream.DigitsRoundTrip | mpicbg/image/StreamIterator.java:27-32 | Decoding any pixel index below the product of the extents and re-encoding it, dimension 0 fastest, gives the index back. |
| ImageStream.EncodeRoundTrip | mpicbg/image/StreamIterator.java:27-32 | Every in-bounds coordinate encodes to a pixel index below the product of the extents. Decoding that index gives the coordinate back. |
| ImageStream.DigitsSuccessor | mpicbg/image/StreamIterator.java:27-32 | The coordinates of pixel index `r + 1` are one odometer step on from those of `r`. |
| ImageStream.Localize | mpicbg/image/StreamIterator.java:34-43 | `localize(int[])` writes the first `l.length` coordinates of pixel `i / numChannels`. For `i >= 0` each is within its extent. |
| ImageStream.LocalizeFloat | mpicbg/image/StreamIterator.java:19-33 | `localize(float[])`, and `localize()` with `l.length == getNumDim()`, write the same coordinate values as `localize(int[])`. |
| ImageStream.LocalizeInside | mpicbg/image/StreamIterator.java:14-43 | An iterator for which `isInside()` holds localizes to an in-bounds coordinate whose linear index is `i / numChannels`. |
| ImageStream.NextStepsOdometer | mpicbg/image/StreamIterator.java:16-42 | From any non-negative index, and without overflow, `next()` advances the localized coordinates by one odometer step. The position within the pixel does not matter. |
| InteractiveTransform.Modifiers | mpicbg/ij/InteractiveInvertibleCoordinateTransform.java:171-188 | The result is empty exactly for `flags == 0`. Non-zero flags with none of the four masks set give `" [no modifiers]"`. |
| InteractiveTransform.MaskBitsValue | mpicbg/ij/InteractiveInvertibleCoordinateTransform.java:176-183 | The four mask tests together read `flags & 15`, including for negative flags. |
| InteractiveTransform.ModifiersRoundTrip | mpicbg/ij/InteractiveInvertibleCoordinateTransform.java:173-187 | Decoding the text gives back `flags & 15`. The decoder accepts `" [ "`, then each of Shift, Control, Meta (right button) and Alt at most once and in that order, then `"]"`. So each name appears exactly when its bit is set, in the fixed order. |
| InteractiveTransform.ModifiersDependOnMasksOnly | mpicbg/ij/InteractiveInvertibleCoordinateTransform.java:176-186 | Two non-zero flag words give the same text exactly when they agree on the four masks. Bits outside the masks do not matter. |
| InteractiveTransform.PickHandle | mpicbg/ij/InteractiveInvertibleCoordinateTransform.java:119-141 | `targetIndex` is -1 or a valid index into `q`. It is -1 exactly when the button is not BUTTON1 or no handle is within squared screen distance 64. Otherwise the chosen handle is within that distance and no farther than any other. Every handle before it is strictly farther, so ties go to the lowest index. |

## Left out

- Floating-point sample values are not modelled. This covers `Math.exp` in `createGaussianKernel`, all of `createGaussianKernelOffset`, the normalisation passes, `enhance` and `createGradients`, and the multiply-accumulate loops of `convolveSeparable`. The Gaussian sample is a parameter of `CreateGaussianKernel`. The vertical border loop of `convolveSeparable` weights with `h[yk]` where `v[yk]` looks intended (Filter.java:301-302); this model covers only the tables it reads, not the weights.
- Filter.FlipInRange: inputs where `2 * mod` wraps to zero are excluded by the precondition. There the Java code throws `ArithmeticException`, and `FlipInRangeDivisorZero` names exactly those inputs.
- Filter.ConvolutionBorders: requires `width` and `height` between 1 and 2^30 - 1. It also requires kernels of length 1 to 2^30 - 1, and at most 2^31 - 1 pixels. An extent of exactly 2^30 is outside the requires, although `flipInRange` still stays in range there (`FlipInRange`'s contract covers it).
  - An empty image with a kernel of length 2 or more calls `flipInRange(_, 0)`, which throws `ArithmeticException`. With kernels of length 1 the Java code builds empty tables and returns normally. Neither path is modelled.
  - For an extent above 2^30, `2 * mod` wraps to a negative number other than `Integer.MIN_VALUE`. `flipInRange` can then return a negative index (`FlipInRangeWideModLeavesRange`), and the convolution loop would index outside the image's data array.
- Filter.KernelSize: `3 * sigma + 0.5` is computed over reals. Float rounding of `3 * sigma` and a NaN sigma are not modelled.
- ImageStream.Localize: `l.length` is at most the number of dimensions. Longer arrays would call `getDim` beyond the last dimension, and that method is not part of this model.
- ImageStream.Localize, ImageStream.LocalizeFloat and ImageStream.Coordinates require a positive channel count and positive extents. A zero channel count or a zero extent makes `localize` throw `ArithmeticException`, and that error path is not modelled. Negative extents and channel counts are not modelled either. `next()`, `prev()` and the constructor have no such requirement.
- ImageStream.LocalizeFloat: coordinates are stored as exact reals. The rounding of an `int` above 2^24 to `float` is not modelled.
- ImageStream.LocalizeInside: assumes `numPixels <= numChannels * product(dims)`. `getNumPixels()` is not part of this model.
- InteractiveTransform.PickHandle: distances are computed over reals, without float or double rounding. The converted press position (`offScreenX`/`offScreenY`) and the magnification are parameters.
- The rest of the interactive plugin is not modelled: `run`, `keyPressed`, `mouseDragged`, listener registration, `imageClosed`, `MappingThread` and `InverseTransformMapping`. These are UI, concurrency and rendering, and the model classes they call are not part of this model.
- `StreamCursor`, `Stream`, `PixelType`, `AccessDirect`, `toIteratableByDimension` and `toRandomAccessible` are not modelled. These classes are not part of this model. The container is reduced to `dims`, `numChannels` and `numPixels`.
- Transform models, least-squares fitting and RANSAC (`mpicbg.models`) are not part of this model.
