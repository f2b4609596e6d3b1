# YOLOv5 ONNX pre- and post-processing geometry, in Dafny

This project models the deterministic arithmetic around the detector in the
YOLOv5 ONNX C++ runner:

- **Letterbox** (`YOLOv5::letterbox`, with the `modelInputShape` set up by the
  constructor): the source image is padded on the bottom and right to a
  square of side `max(cols, rows)`. The configured input side `m` is rounded
  up to a multiple of 32 with C++ integer arithmetic. That side is written
  into `inputDims[2]` and `inputDims[3]`. The ratio `maxSize / targetSize` is
  appended twice to the caller's `ratios`. Only sizes and pixel positions are
  modelled (`letterbox.dfy`, `padding.dfy`).
- **Output decoder** (`YOLOv5::post_process_onnx`): the row-major `[N, W]`
  output buffer is split into a `[N, 5]` box buffer and a `[N, W - 5]` score
  buffer. There is a functional model (`Decoder.SplitRows`, `Decoder.Decode`),
  its inverse (`Decoder.Interleave`) with round trips in both directions, and
  an imperative model of the source's nested loops (`Decoder.PostProcessOnnx`)
  (`decoder.dfy`).
- **`vectorProduct`**: `std::accumulate` with `std::multiplies` and the `int`
  literal `1`, as a left fold over a 32-bit accumulator.
  It is proved equal to a reference product (`vector_product.dfy`).
- `int32.dfy` holds the 32-bit `int` range and C++'s truncating division.
  `processing.dfy` declares the `Box` record the post-processor produces.

The code validates none of its inputs. So the conditions it relies on are
preconditions: positive image sizes, a positive configured side, at least four
input dimensions, a row width of at least 5, and a buffer holding `N` rows.
They are not error results. The model follows the code: it has no error
results, and it admits `W = 5` (zero classes), which gives an empty score
buffer of shape `{N, 0}`.

## Model

| member | source | states |
|---|---|---|
| Letterbox.Apply | src/yolo_v5.cpp:85-111 | Top and left pads are 0. The padded image is a square with `cols + xPad == rows + yPad`, and one of the pads is 0. `targetSize` is a multiple of 32 in `[m, m + 32)`. `inputDims` changes only at indices 2 and 3, which become `targetSize`. `ratios` keeps its old entries and gains two equal ratios. A ratio times `targetSize` gives the padded side back, and the ratio is above 1 exactly when the padded side exceeds `targetSize` |
| Letterbox.ModelInputShape | src/yolo_v5.cpp:78 | The shape has four entries. Its spatial maximum is `max(imgsz[0], imgsz[1])`, so swapping width and height into NCHW order does not change the target side |
| Letterbox.TargetSize | src/yolo_v5.cpp:97-99 | `((m - 1) / 32 + 1) * 32` with C++ division does not overflow an `int` for every `m` it accepts, and its result is a multiple of 32 |
| Letterbox.LemmaTargetSizeSmallestMultiple | src/yolo_v5.cpp:97-99 | For `m >= 1` the target is the smallest multiple of 32 that is `>= m`, and it equals `m` when `m` is already a multiple of 32 |
| Letterbox.LemmaTargetSizeNonPositive | src/yolo_v5.cpp:99 | With truncating division, every `m` in `[-30, 0]` yields 32, and any smaller `m` yields a side `<= 0` |
| Letterbox.LemmaLetterboxKeepsPixels | src/yolo_v5.cpp:90-95 | Padding with the border `letterbox` chooses gives a `maxSize x maxSize` grid. Every source pixel keeps its (row, column) position, and cropping the top-left corner returns the source |
| Letterbox.LemmaFreshRatios | src/yolo_v5.cpp:104-110 | Starting from an empty ratio vector, as `predict_and_draw` does, the result is exactly `[q, q]` with `q = max(cols, rows) / targetSize` |
| Letterbox.LemmaLetterbox640x480 | src/yolo_v5.cpp:90-105 | A 640x480 image with `imgsz` 640x640 gets `xPad = 0`, `yPad = 160`, `targetSize = 640` and ratios `[1, 1]` |
| Padding.CopyMakeBorder | src/yolo_v5.cpp:95 | The bordered grid has size `(top + rows + bottom) x (left + cols + right)`. Source pixel `(r, c)` appears at `(top + r, left + c)`, and every other cell holds the fill value |
| Padding.LemmaCropUndoesBorder | src/yolo_v5.cpp:95 | Cropping the source window out of the bordered grid gives the source back, so bordering loses no pixel |
| Int32.TruncDiv | src/yolo_v5.cpp:99 | The quotient is rounded toward zero, as C++ `int` division does: it is `a / b` (Euclidean) for `a >= 0`, and for `a < 0` it is the unique `q` with `(q - 1) * b < a <= q * b` |
| Decoder.Decode | src/yolo_v5.cpp:131-159 | The shapes are `{N, 5}` and `{N, W - 5}`, and each buffer's length is the product of its shape. `bboxes[i*5 + j] == out[i*W + j]` for `j < 5`, and `scores[i*(W-5) + (j-5)] == out[i*W + j]` for `5 <= j < W`. `N = 0` gives two empty buffers |
| Decoder.SplitRows | src/yolo_v5.cpp:142-157 | Splitting `n` rows gives `n * 5` box values and `n * (W - 5)` scores |
| Decoder.LemmaSplitRowsCopies | src/yolo_v5.cpp:148-157 | Every element the row-by-row split writes is the input element named by the source's index arithmetic |
| Decoder.LemmaDecodeLossless | src/yolo_v5.cpp:148-157 | Re-interleaving the decoder's two buffers rebuilds the first `N * W` input elements |
| Decoder.LemmaInterleaveSplit | src/yolo_v5.cpp:148-157 | `Interleave` after `SplitRows` is the identity on the rows read |
| Decoder.LemmaSplitInterleave | src/yolo_v5.cpp:148-157 | `SplitRows` after `Interleave` gives back both buffers. With the previous row, the split is a bijection |
| Decoder.LemmaEveryElementPlaced | src/yolo_v5.cpp:148-157 | Every input position `k < N * W` is row `i < N`, column `j < W` of the input, and the element there is copied to its slot. The slot is in the box buffer when `j < 5` and in the score buffer otherwise |
| Decoder.LemmaOffsetInjective | src/yolo_v5.cpp:151-155 | Distinct (row, column) pairs have distinct row-major positions, so no two input elements share a slot |
| Decoder.PostProcessOnnx | src/yolo_v5.cpp:131-159 | The nested loops produce the buffers and shapes of `Decode`, with the lengths and element placement stated there |
| VectorProduct.VectorProduct | include/yolo-v5.hpp:33-37 | For integer element types: while every partial product fits in an `int`, the result is the product of the elements. The empty vector gives 1, a one-element vector gives that element, and the result fits in an `int` |
| VectorProduct.Accumulate | include/yolo-v5.hpp:36 | The left fold from accumulator `acc` returns `acc` times the product of the elements, and the result fits in an `int` |
| VectorProduct.LemmaProductAppend | include/yolo-v5.hpp:36 | `Product(a + b) == Product(a) * Product(b)` |
| VectorProduct.LemmaProductPermutation | include/yolo-v5.hpp:36 | Sequences with equal multisets have equal products |
| VectorProduct.LemmaVectorProductAppend | include/yolo-v5.hpp:36 | If `a + b` and `b` do not overflow, then neither does `a`, and `vectorProduct(a + b) == vectorProduct(a) * vectorProduct(b)` |
| VectorProduct.LemmaVectorProductOrder | include/yolo-v5.hpp:36 | Two orderings of the same elements give the same `vectorProduct`, when neither overflows |

## Left out

- Pixel processing is left out. BGR to RGB conversion, the grey (114) fill colour's value, bilinear `resize`, the `/255` normalisation and `blobFromImage` are floating-point image work inside OpenCV. Only sizes and pixel positions are modelled.
- ONNX Runtime is left out: environment and session setup, reading the input/output shapes, the dynamic-shape check, tensor creation and `session.Run`. These are calls into a foreign library. The output buffer and its shape are parameters of `Decoder.Decode`.
- The post-processor is left out: thresholding, NMS, IoU and the top-K cap. Its methods are declared in `include/processing.hpp`, but their bodies are not part of this model. Only the `Box` record is declared.
- Drawing and coordinate remapping (`drawBoxes`) are not part of this model.
- Exception logging and rethrowing in `predict_and_draw`, the command-line driver, label loading and console output are left out. They are I/O and control-flow glue.
- Ratios are `real` divisions. IEEE-754 `float` rounding of `maxSize / targetSize` is not modelled.
- Letterbox.Apply: requires `m <= 2^31 - 32` so that `((m - 1) / 32 + 1) * 32` fits in an `int`. The source would overflow above that bound. It also requires `m >= 1` and positive image sizes, which the source assumes without checking.
- Letterbox.TargetSize: defined only for `-2^31 < m <= 2^31 - 32`, where neither `m - 1` nor the final product overflows.
- VectorProduct.VectorProduct: covers integer element types only. It requires every partial product to fit in a 32-bit `int`. It does not model signed overflow (undefined behaviour for `int` elements) or the narrowing of wider integer products into the `int` accumulator.
- VectorProduct.VectorProduct: does not model a floating-point `T`. The accumulator's type comes from the literal `1`, so it is an `int`, and each `std::multiplies<T>` result is truncated toward zero when stored back into it. For example, `vectorProduct<float>({0.5f, 4.0f})` is 0, not 2. Elements are `int` in this model.
- Decoder.Decode: sizes and offsets are exact integers. The source computes `num_preds * bbox_size` and `i * bbox_size + j` in 32-bit `int`, and `num_preds * (W - 5)`, `i * W` and `i * (W - 5)` in 64-bit `int64_t` (the shape is a `std::vector<int64_t>`). It also narrows `N` and `W - 5` to `int` with `static_cast`. Overflow of any of these is not modelled.
