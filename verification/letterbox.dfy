/** The size arithmetic of `YOLOv5::letterbox` (src/yolo_v5.cpp): pad the
    image on the bottom and right to a square, resize the square to the
    configured input side rounded up to a multiple of 32, write that side
    into the input tensor dimensions and record the scale ratio twice. */
module Letterbox {
  import opened Int32
  import opened Padding

  /** The resized side is rounded up to a multiple of this stride. */
  const Stride: int := 32

  /** Largest configured side for which `((m - 1) / 32 + 1) * 32` does not
      overflow a 32-bit `int`. */
  const MaxInputSide: int := MaxInt32 - (Stride - 1)

  /** Width (`cols`) and height (`rows`) of an image, as in `cv::Mat`. */
  datatype Size = Size(cols: int, rows: int)

  /** The four border widths passed to `copyMakeBorder`. */
  datatype Border = Border(top: nat, bottom: nat, left: nat, right: nat)

  /** Everything `letterbox` produces apart from pixel values. */
  datatype Letterboxed = Letterboxed(
    border: Border,        // padding added around the source image
    padded: Size,          // size of the padded image
    targetSize: int,       // side of the resized square
    inputDims: seq<int>,   // the detector's input tensor dimensions afterwards
    ratios: seq<real>)     // the caller's ratio vector afterwards

  function Max(a: int, b: int): int {
    if a >= b then a else b
  }

  predicate IsStrideMultiple(k: int) {
    k % Stride == 0
  }

  /** `modelInputShape = { 1, 3, imgsz[1], imgsz[0] }`: NCHW order, so the
      configured height comes before the configured width. */
  function ModelInputShape(imgsz: seq<int>): (shape: seq<int>)
    requires |imgsz| >= 2
    ensures |shape| == 4
    ensures ConfiguredSide(shape) == Max(imgsz[0], imgsz[1])
  {
    [1, 3, imgsz[1], imgsz[0]]
  }

  /** `std::max(modelInputShape[2], modelInputShape[3])`. */
  function ConfiguredSide(modelInputShape: seq<int>): int
    requires |modelInputShape| >= 4
  {
    Max(modelInputShape[2], modelInputShape[3])
  }

  /** `((m - 1) / 32 + 1) * 32` evaluated with C++ `int` division, which
      truncates toward zero. */
  function TargetSize(m: int): (t: int)
    requires MinInt32 < m <= MaxInputSide
    ensures InInt32(t)
    ensures IsStrideMultiple(t)
  {
    var q := TruncDiv(m - 1, Stride);
    assert (q + 1) * Stride % Stride == 0;
    (q + 1) * Stride
  }

  /** For a positive side, `TargetSize` is the smallest multiple of the
      stride that is not below it; a side that is already a multiple is kept. */
  lemma LemmaTargetSizeSmallestMultiple(m: int)
    requires 1 <= m <= MaxInputSide
    ensures m <= TargetSize(m) < m + Stride
    ensures forall k :: IsStrideMultiple(k) && m <= k ==> TargetSize(m) <= k
    ensures IsStrideMultiple(m) ==> TargetSize(m) == m
  {
    var q := (m - 1) / Stride;
    assert TargetSize(m) == (q + 1) * Stride;
    assert q * Stride <= m - 1 < q * Stride + Stride;
    forall k | IsStrideMultiple(k) && m <= k
      ensures TargetSize(m) <= k
    {
      var a := k / Stride;
      assert k == a * Stride;
      assert a * Stride > q * Stride;
      assert a >= q + 1;
    }
  }

  /** Because C++ division truncates toward zero, every side from -30 to 0
      still yields 32, and a side of -31 or less yields no positive size. */
  lemma LemmaTargetSizeNonPositive(m: int)
    requires MinInt32 < m <= 0
    ensures -(Stride - 2) <= m ==> TargetSize(m) == Stride
    ensures m < -(Stride - 2) ==> TargetSize(m) <= 0
  {
  }

  /** `letterbox(source, dst, ratios)` on a `source` of the given size, for a
      detector whose configured shape is `modelInputShape` and whose input
      tensor dimensions are `inputDims`. */
  function Apply(source: Size, modelInputShape: seq<int>, inputDims: seq<int>, ratios: seq<real>): (r: Letterboxed)
    requires source.cols >= 1 && source.rows >= 1
    requires |modelInputShape| >= 4 && 1 <= ConfiguredSide(modelInputShape) <= MaxInputSide
    requires |inputDims| >= 4
    // padding is only added at the bottom and on the right
    ensures r.border.top == 0 && r.border.left == 0
    // the padded image is the smallest square containing the source
    ensures r.padded.cols == r.padded.rows
    ensures r.padded.cols == source.cols + r.border.right && r.padded.rows == source.rows + r.border.bottom
    ensures r.border.right == 0 || r.border.bottom == 0
    // the resized side is the configured side rounded up to the stride
    ensures var m := ConfiguredSide(modelInputShape);
            IsStrideMultiple(r.targetSize) && m <= r.targetSize < m + Stride
    // only the two spatial input dimensions change
    ensures |r.inputDims| == |inputDims|
    ensures r.inputDims[2] == r.targetSize && r.inputDims[3] == r.targetSize
    ensures forall k :: 0 <= k < |inputDims| && k != 2 && k != 3 ==> r.inputDims[k] == inputDims[k]
    // two equal ratios are appended and scale the resized side back to the padded side
    ensures |r.ratios| == |ratios| + 2 && r.ratios[..|ratios|] == ratios
    ensures r.ratios[|ratios|] == r.ratios[|ratios| + 1]
    ensures r.ratios[|ratios|] * r.targetSize as real == r.padded.cols as real
    ensures r.ratios[|ratios|] > 1.0 <==> r.padded.cols > r.targetSize
  {
    var maxSize := Max(source.cols, source.rows);
    var xPad := maxSize - source.cols;
    var yPad := maxSize - source.rows;
    var m := ConfiguredSide(modelInputShape);
    var targetSize := TargetSize(m);
    LemmaTargetSizeSmallestMultiple(m);
    var xRatio := maxSize as real / targetSize as real;
    var yRatio := maxSize as real / targetSize as real;
    LemmaQuotientAboveOne(maxSize as real, targetSize as real);
    Letterboxed(
      Border(0, yPad, 0, xPad),
      Size(source.cols + xPad, source.rows + yPad),
      targetSize,
      inputDims[2 := targetSize][3 := targetSize],
      ratios + [xRatio, yRatio])
  }

  lemma LemmaQuotientAboveOne(a: real, t: real)
    requires t > 0.0
    ensures (a / t) * t == a
    ensures a / t > 1.0 <==> a > t
  {
    var q := a / t;
    assert q * t == a;
    if q > 1.0 {
      assert (q - 1.0) * t > 0.0;
    } else {
      assert (1.0 - q) * t >= 0.0;
    }
  }

  /** Padding the pixels of a `source`-sized image with the border `Apply`
      chooses gives a square of the padded size in which every source pixel
      keeps its (row, column) position, and cropping the top-left corner
      gives the source back. */
  lemma LemmaLetterboxKeepsPixels<P>(img: Image<P>, source: Size, modelInputShape: seq<int>,
                                     inputDims: seq<int>, ratios: seq<real>, fill: P)
    requires source.cols >= 1 && source.rows >= 1
    requires |modelInputShape| >= 4 && 1 <= ConfiguredSide(modelInputShape) <= MaxInputSide
    requires |inputDims| >= 4
    requires IsImage(img, source.rows, source.cols)
    ensures var r := Apply(source, modelInputShape, inputDims, ratios);
            var dst := CopyMakeBorder(img, source.rows, source.cols, r.border.top, r.border.bottom,
                                      r.border.left, r.border.right, fill);
            && IsImage(dst, r.padded.rows, r.padded.cols)
            && (forall row, col :: 0 <= row < source.rows && 0 <= col < source.cols ==> dst[row][col] == img[row][col])
            && Crop(dst, 0, 0, source.rows, source.cols) == img
  {
    var r := Apply(source, modelInputShape, inputDims, ratios);
    var dst := CopyMakeBorder(img, source.rows, source.cols, r.border.top, r.border.bottom,
                              r.border.left, r.border.right, fill);
    forall row, col | 0 <= row < source.rows && 0 <= col < source.cols
      ensures dst[row][col] == img[row][col]
    {
      assert dst[0 + row][0 + col] == img[row][col];
    }
    LemmaCropUndoesBorder(img, source.rows, source.cols, r.border.top, r.border.bottom,
                          r.border.left, r.border.right, fill);
  }

  /** `predict_and_draw` hands `letterbox` a fresh, empty ratio vector, so
      afterwards `ratios[0]` and `ratios[1]` are this call's x and y ratios. */
  lemma LemmaFreshRatios(source: Size, modelInputShape: seq<int>, inputDims: seq<int>)
    requires source.cols >= 1 && source.rows >= 1
    requires |modelInputShape| >= 4 && 1 <= ConfiguredSide(modelInputShape) <= MaxInputSide
    requires |inputDims| >= 4
    ensures var r := Apply(source, modelInputShape, inputDims, []);
            var q := Max(source.cols, source.rows) as real / r.targetSize as real;
            r.ratios == [q, q]
  {
  }

  /** A 640x480 image with a configured size of 640x640: no horizontal
      padding, 160 rows of padding below, target side 640 and ratio 1. */
  lemma LemmaLetterbox640x480(inputDims: seq<int>)
    requires |inputDims| >= 4
    ensures var r := Apply(Size(640, 480), ModelInputShape([640, 640]), inputDims, []);
            && r.border == Border(0, 160, 0, 0)
            && r.padded == Size(640, 640)
            && r.targetSize == 640
            && r.ratios == [1.0, 1.0]
  {
    assert TruncDiv(639, Stride) == 19;
  }
}
