/** `YOLOv5::post_process_onnx` (src/yolo_v5.cpp): the detector's output is
    a row-major `[N, W]` buffer (shape `[1, N, W]`), one row per prediction.
    The first five columns of each row (centre x, centre y, width, height,
    objectness) go to a `[N, 5]` box buffer and the remaining `W - 5` class
    scores to a `[N, W - 5]` score buffer. Elements are copied, never
    inspected, so their type is a parameter. */
module Decoder {
  import opened VectorProduct

  /** Elements per bounding box: x, y, width, height, objectness. */
  const BoxSize: nat := 5

  /** The four vectors `post_process_onnx` fills. */
  datatype Decoded<T> = Decoded(bboxes: seq<T>, bboxesShape: seq<int>, scores: seq<T>, scoresShape: seq<int>)

  lemma LemmaRowsLength(n: nat, w: nat)
    requires n >= 1
    ensures (n - 1) * w + w == n * w
  {
  }

  /** Row `i` of a `rows`-row buffer ends at or before the buffer's end. */
  lemma LemmaRowEnd(i: nat, rows: nat, width: nat)
    requires i < rows
    ensures i * width + width <= rows * width
    decreases rows
  {
    LemmaRowsLength(rows, width);
    if i < rows - 1 {
      LemmaRowEnd(i, rows - 1, width);
    }
  }

  /** Row-major position of element (i, j) of a `rows` x `width` buffer. */
  function Offset(rows: nat, width: nat, i: nat, j: nat): (k: nat)
    requires i < rows && j < width
    ensures k < rows * width
  {
    LemmaRowEnd(i, rows, width);
    i * width + j
  }

  /** The shape `post_process_onnx` reads: `[batch, N, W]` with at least the
      five box columns per row, over a buffer holding at least `N` rows. */
  predicate ValidOutput<T>(output: seq<T>, outputShape: seq<int>) {
    && |outputShape| >= 3
    && 0 <= outputShape[1]
    && BoxSize <= outputShape[2]
    && outputShape[1] * outputShape[2] <= |output|
  }

  /** `bboxes` and `scores` hold, at the positions the source's loops write,
      the elements of the first `n` rows of `output` (width `w`). */
  ghost predicate CopiesRows<T>(output: seq<T>, n: nat, w: nat, bboxes: seq<T>, scores: seq<T>)
    requires BoxSize <= w && n * w <= |output|
    requires |bboxes| == n * BoxSize && |scores| == n * (w - BoxSize)
  {
    && (forall i, j | 0 <= i < n && 0 <= j < BoxSize ::
          bboxes[Offset(n, BoxSize, i, j)] == output[Offset(n, w, i, j)])
    && (forall i, j | 0 <= i < n && BoxSize <= j < w ::
          scores[Offset(n, w - BoxSize, i, j - BoxSize)] == output[Offset(n, w, i, j)])
  }

  /** The box and score buffers for the first `n` rows of `output`, built one
      row at a time. */
  function SplitRows<T>(output: seq<T>, n: nat, w: nat): (p: (seq<T>, seq<T>))
    requires BoxSize <= w && n * w <= |output|
    ensures |p.0| == n * BoxSize && |p.1| == n * (w - BoxSize)
    decreases n
  {
    if n == 0 then ([], [])
    else
      LemmaRowsLength(n, w);
      LemmaRowsLength(n, w - BoxSize);
      var prev := SplitRows(output, n - 1, w);
      var row := (n - 1) * w;
      (prev.0 + output[row .. row + BoxSize], prev.1 + output[row + BoxSize .. row + w])
  }

  /** Splitting one more row appends that row's box values and scores. */
  lemma LemmaSplitRowsStep<T>(output: seq<T>, i: nat, w: nat)
    requires BoxSize <= w && i * w + w <= |output|
    ensures (i + 1) * w <= |output|
    ensures var prev, next := SplitRows(output, i, w), SplitRows(output, i + 1, w);
            && next.0 == prev.0 + output[i * w .. i * w + BoxSize]
            && next.1 == prev.1 + output[i * w + BoxSize .. i * w + w]
  {
    LemmaRowsLength(i + 1, w);
    assert (i + 1) - 1 == i;
  }

  /** Every element `SplitRows` writes is the input element the source's
      index arithmetic names. */
  lemma {:induction false} LemmaSplitRowsCopies<T>(output: seq<T>, n: nat, w: nat)
    requires BoxSize <= w && n * w <= |output|
    ensures var p := SplitRows(output, n, w);
            CopiesRows(output, n, w, p.0, p.1)
    decreases n
  {
    if n > 0 {
      LemmaRowsLength(n, w);
      LemmaRowsLength(n, w - BoxSize);
      var p := SplitRows(output, n, w);
      var prev := SplitRows(output, n - 1, w);
      LemmaSplitRowsCopies(output, n - 1, w);
      forall i, j | 0 <= i < n && 0 <= j < BoxSize
        ensures p.0[Offset(n, BoxSize, i, j)] == output[Offset(n, w, i, j)]
      {
        if i < n - 1 {
          assert Offset(n, BoxSize, i, j) == Offset(n - 1, BoxSize, i, j);
          assert Offset(n, w, i, j) == Offset(n - 1, w, i, j);
        }
      }
      forall i, j | 0 <= i < n && BoxSize <= j < w
        ensures p.1[Offset(n, w - BoxSize, i, j - BoxSize)] == output[Offset(n, w, i, j)]
      {
        if i < n - 1 {
          assert Offset(n, w - BoxSize, i, j - BoxSize) == Offset(n - 1, w - BoxSize, i, j - BoxSize);
          assert Offset(n, w, i, j) == Offset(n - 1, w, i, j);
        } else {
          assert Offset(n, w - BoxSize, i, j - BoxSize) == (n - 1) * (w - BoxSize) + (j - BoxSize);
        }
      }
    }
  }

  /** `post_process_onnx`: the box buffer, its shape `{N, 5}`, the score
      buffer and its shape `{N, num_classes}` with `num_classes = W - 5`. */
  function Decode<T>(output: seq<T>, outputShape: seq<int>): (d: Decoded<T>)
    requires ValidOutput(output, outputShape)
    ensures var n, w := outputShape[1], outputShape[2];
            && d.bboxesShape == [n, BoxSize]
            && d.scoresShape == [n, w - BoxSize]
            && |d.bboxes| == Product(d.bboxesShape)
            && |d.scores| == Product(d.scoresShape)
    ensures |d.bboxes| == outputShape[1] * BoxSize && |d.scores| == outputShape[1] * (outputShape[2] - BoxSize)
    ensures CopiesRows(output, outputShape[1], outputShape[2], d.bboxes, d.scores)
    ensures outputShape[1] == 0 ==> d.bboxes == [] && d.scores == []
  {
    var n, w := outputShape[1], outputShape[2];
    var p := SplitRows(output, n, w);
    LemmaSplitRowsCopies(output, n, w);
    LemmaProductPair(n, BoxSize);
    LemmaProductPair(n, w - BoxSize);
    Decoded(p.0, [n, BoxSize], p.1, [n, w - BoxSize])
  }

  /** The inverse of the split: rebuild an `[n, 5 + c]` buffer by putting
      each row's five box values back in front of its `c` scores. */
  function Interleave<T>(bboxes: seq<T>, scores: seq<T>, n: nat, c: nat): (out: seq<T>)
    requires |bboxes| == n * BoxSize && |scores| == n * c
    ensures |out| == n * (BoxSize + c)
    decreases n
  {
    if n == 0 then []
    else
      LemmaRowsLength(n, BoxSize);
      LemmaRowsLength(n, c);
      LemmaRowsLength(n, BoxSize + c);
      Interleave(bboxes[..(n - 1) * BoxSize], scores[..(n - 1) * c], n - 1, c)
        + bboxes[(n - 1) * BoxSize..] + scores[(n - 1) * c..]
  }

  /** `Interleave` of `k + 1` rows is `Interleave` of the first `k` rows
      followed by the last row's box values and scores. */
  lemma LemmaInterleaveLastRow<T>(bboxes: seq<T>, scores: seq<T>, k: nat, c: nat)
    requires |bboxes| == (k + 1) * BoxSize && |scores| == (k + 1) * c
    ensures k * BoxSize <= |bboxes| && k * c <= |scores|
    ensures |bboxes[k * BoxSize..]| == BoxSize && |scores[k * c..]| == c
    ensures Interleave(bboxes, scores, k + 1, c)
            == Interleave(bboxes[..k * BoxSize], scores[..k * c], k, c) + (bboxes[k * BoxSize..] + scores[k * c..])
  {
    LemmaRowsLength(k + 1, BoxSize);
    LemmaRowsLength(k + 1, c);
    assert (k + 1) - 1 == k;
  }

  /** Splitting a buffer with one more row appended extends both buffers by
      that row's box values and scores. */
  lemma LemmaSplitRowsAppendRow<T>(front: seq<T>, tail: seq<T>, k: nat, w: nat)
    requires BoxSize <= w && |tail| == w && |front| == k * w
    ensures var prev, next := SplitRows(front, k, w), SplitRows(front + tail, k + 1, w);
            next.0 == prev.0 + tail[..BoxSize] && next.1 == prev.1 + tail[BoxSize..]
  {
    LemmaSplitRowsStep(front + tail, k, w);
    LemmaSplitRowsPrefix(front, tail, k, w);
    var row := k * w;
    assert (front + tail)[row .. row + BoxSize] == tail[..BoxSize];
    assert (front + tail)[row + BoxSize .. row + w] == tail[BoxSize..];
  }

  /** Re-interleaving the split gives back the rows that were read: the
      split loses nothing. */
  lemma {:induction false} LemmaInterleaveSplit<T>(output: seq<T>, n: nat, w: nat)
    requires BoxSize <= w && n * w <= |output|
    ensures var p := SplitRows(output, n, w);
            Interleave(p.0, p.1, n, w - BoxSize) == output[..n * w]
    decreases n
  {
    if n > 0 {
      var k, c := n - 1, w - BoxSize;
      LemmaRowEnd(k, n, w);
      var p, prev := SplitRows(output, n, w), SplitRows(output, k, w);
      LemmaSplitRowsStep(output, k, w);
      var lastBox, lastScores := output[k * w .. k * w + BoxSize], output[k * w + BoxSize .. k * w + w];
      LemmaInterleaveLastRow(p.0, p.1, k, c);
      assert p.0[..k * BoxSize] == prev.0 && p.0[k * BoxSize..] == lastBox;
      assert p.1[..k * c] == prev.1 && p.1[k * c..] == lastScores;
      LemmaInterleaveSplit(output, k, w);
      LemmaRowPrefix(output, k, w);
    }
  }

  /** The first `k + 1` rows are the first `k` rows followed by row `k`. */
  lemma LemmaRowPrefix<T>(output: seq<T>, k: nat, w: nat)
    requires BoxSize <= w && (k + 1) * w <= |output|
    ensures k * w + w == (k + 1) * w
    ensures output[..(k + 1) * w]
            == output[..k * w] + (output[k * w .. k * w + BoxSize] + output[k * w + BoxSize .. k * w + w])
  {
    LemmaRowsLength(k + 1, w);
    assert (k + 1) - 1 == k;
  }

  /** `SplitRows` reads only the rows it splits. */
  lemma {:induction false} LemmaSplitRowsPrefix<T>(output: seq<T>, more: seq<T>, n: nat, w: nat)
    requires BoxSize <= w && n * w <= |output|
    ensures SplitRows(output + more, n, w) == SplitRows(output, n, w)
    decreases n
  {
    if n > 0 {
      LemmaRowsLength(n, w);
      LemmaSplitRowsPrefix(output, more, n - 1, w);
      var row := (n - 1) * w;
      assert (output + more)[row .. row + BoxSize] == output[row .. row + BoxSize];
      assert (output + more)[row + BoxSize .. row + w] == output[row + BoxSize .. row + w];
    }
  }

  /** Interleaving buffers that each gained one row appends that row. */
  lemma LemmaInterleaveAppendRow<T>(bboxes: seq<T>, lastBox: seq<T>, scores: seq<T>, lastScores: seq<T>, k: nat, c: nat)
    requires |bboxes| == k * BoxSize && |scores| == k * c
    requires |lastBox| == BoxSize && |lastScores| == c
    ensures |bboxes + lastBox| == (k + 1) * BoxSize && |scores + lastScores| == (k + 1) * c
    ensures Interleave(bboxes + lastBox, scores + lastScores, k + 1, c)
            == Interleave(bboxes, scores, k, c) + (lastBox + lastScores)
  {
    LemmaRowsLength(k + 1, BoxSize);
    LemmaRowsLength(k + 1, c);
    LemmaInterleaveLastRow(bboxes + lastBox, scores + lastScores, k, c);
    assert (bboxes + lastBox)[..k * BoxSize] == bboxes && (bboxes + lastBox)[k * BoxSize..] == lastBox;
    assert (scores + lastScores)[..k * c] == scores && (scores + lastScores)[k * c..] == lastScores;
  }

  /** Splitting an interleaved buffer gives back the two buffers: together
      with `LemmaInterleaveSplit`, the split is a bijection. */
  lemma {:induction false} LemmaSplitInterleave<T>(bboxes: seq<T>, scores: seq<T>, n: nat, c: nat)
    requires |bboxes| == n * BoxSize && |scores| == n * c
    ensures SplitRows(Interleave(bboxes, scores, n, c), n, BoxSize + c) == (bboxes, scores)
    decreases n
  {
    if n > 0 {
      var k := n - 1;
      LemmaInterleaveLastRow(bboxes, scores, k, c);
      var b', lastBox := bboxes[..k * BoxSize], bboxes[k * BoxSize..];
      var s', lastScores := scores[..k * c], scores[k * c..];
      assert bboxes == b' + lastBox && scores == s' + lastScores;
      LemmaSplitInterleaveRow(b', lastBox, s', lastScores, k, c);
    }
  }

  /** The inductive step of `LemmaSplitInterleave`, on buffers given as
      their first `k` rows followed by one more row. */
  lemma {:induction false} LemmaSplitInterleaveRow<T>(b': seq<T>, lastBox: seq<T>, s': seq<T>, lastScores: seq<T>, k: nat, c: nat)
    requires |b'| == k * BoxSize && |s'| == k * c
    requires |lastBox| == BoxSize && |lastScores| == c
    ensures |b' + lastBox| == (k + 1) * BoxSize && |s' + lastScores| == (k + 1) * c
    ensures SplitRows(Interleave(b' + lastBox, s' + lastScores, k + 1, c), k + 1, BoxSize + c) == (b' + lastBox, s' + lastScores)
    decreases k + 1, 0
  {
    var front, tail := Interleave(b', s', k, c), lastBox + lastScores;
    LemmaInterleaveAppendRow(b', lastBox, s', lastScores, k, c);
    LemmaSplitInterleave(b', s', k, c);
    LemmaSplitRowsAppendRow(front, tail, k, BoxSize + c);
    assert tail[..BoxSize] == lastBox && tail[BoxSize..] == lastScores;
  }

  /** The decoder loses nothing: putting each row's box values back in
      front of its scores rebuilds the `N * W` elements that were read. */
  lemma LemmaDecodeLossless<T>(output: seq<T>, outputShape: seq<int>)
    requires ValidOutput(output, outputShape)
    ensures var d := Decode(output, outputShape);
            Interleave(d.bboxes, d.scores, outputShape[1], outputShape[2] - BoxSize)
            == output[..outputShape[1] * outputShape[2]]
  {
    LemmaInterleaveSplit(output, outputShape[1], outputShape[2]);
  }

  /** Position `k` of a `rows` x `width` buffer lies in row `k / width`,
      column `k % width`. */
  lemma LemmaRowOf(k: int, rows: nat, width: nat) returns (i: nat, j: nat)
    requires 0 <= k < rows * width
    ensures i < rows && j < width && k == Offset(rows, width, i, j)
  {
    i, j := k / width, k % width;
    assert k == i * width + j;
    if i >= rows {
      if i > rows {
        LemmaRowEnd(rows, i, width);
      }
      assert false;
    }
  }

  /** Distinct (row, column) pairs have distinct row-major positions. */
  lemma LemmaOffsetInjective(rows: nat, width: nat, i: nat, j: nat, i': nat, j': nat)
    requires i < rows && j < width && i' < rows && j' < width
    requires Offset(rows, width, i, j) == Offset(rows, width, i', j')
    ensures i == i' && j == j'
  {
    if i < i' {
      LemmaRowEnd(i, i', width);
      assert false;
    } else if i' < i {
      LemmaRowEnd(i', i, width);
      assert false;
    }
  }

  /** The output slot the decoder gives to row `i`, column `j` of the input. */
  function Slot<T>(d: Decoded<T>, n: nat, w: nat, i: nat, j: nat): T
    requires BoxSize <= w && i < n && j < w
    requires |d.bboxes| == n * BoxSize && |d.scores| == n * (w - BoxSize)
  {
    if j < BoxSize then d.bboxes[Offset(n, BoxSize, i, j)]
    else d.scores[Offset(n, w - BoxSize, i, j - BoxSize)]
  }

  /** Row `i`, column `j` of the input is copied to its slot. */
  lemma LemmaSlotHolds<T>(output: seq<T>, outputShape: seq<int>, i: nat, j: nat)
    requires ValidOutput(output, outputShape)
    requires i < outputShape[1] && j < outputShape[2]
    ensures var n, w := outputShape[1], outputShape[2];
            Slot(Decode(output, outputShape), n, w, i, j) == output[Offset(n, w, i, j)]
  {
  }

  /** Every one of the `N * W` input elements lands in an output slot: in the
      box buffer when its column is below 5, in the score buffer otherwise. */
  lemma LemmaEveryElementPlaced<T>(output: seq<T>, outputShape: seq<int>, k: int)
    requires ValidOutput(output, outputShape)
    requires 0 <= k < outputShape[1] * outputShape[2]
    ensures var n, w := outputShape[1], outputShape[2];
            exists i, j | 0 <= i < n && 0 <= j < w ::
              k == Offset(n, w, i, j) && Slot(Decode(output, outputShape), n, w, i, j) == output[k]
  {
    var n, w := outputShape[1], outputShape[2];
    var i, j := LemmaRowOf(k, n, w);
    LemmaSlotHolds(output, outputShape, i, j);
  }

  /** The loops of `post_process_onnx`. The source writes `bboxes[i*5 + j]`
      and `scores[i*(W-5) + (j-5)]` in increasing index order with no gaps,
      so appending each element reproduces the same buffers. */
  method PostProcessOnnx<T>(output: seq<T>, outputShape: seq<int>)
      returns (bboxes: seq<T>, bboxesShape: seq<int>, scores: seq<T>, scoresShape: seq<int>)
    requires ValidOutput(output, outputShape)
    ensures Decoded(bboxes, bboxesShape, scores, scoresShape) == Decode(output, outputShape)
    ensures |bboxes| == outputShape[1] * BoxSize && |scores| == outputShape[1] * (outputShape[2] - BoxSize)
    ensures CopiesRows(output, outputShape[1], outputShape[2], bboxes, scores)
  {
    var n := outputShape[1];
    var w := outputShape[2];
    bboxes := [];
    bboxesShape := [n, BoxSize];
    scores := [];
    scoresShape := [n, w - BoxSize];
    var i := 0;
    while i < n
      invariant 0 <= i <= n
      invariant (bboxes, scores) == SplitRows(output, i, w)
    {
      LemmaRowEnd(i, n, w);
      var row := i * w;
      ghost var prev := SplitRows(output, i, w);
      var j := 0;
      while j < BoxSize
        invariant 0 <= j <= BoxSize
        invariant bboxes == prev.0 + output[row .. row + j]
        invariant scores == prev.1
      {
        bboxes := bboxes + [output[row + j]];
        j := j + 1;
      }
      while j < w
        invariant BoxSize <= j <= w
        invariant bboxes == prev.0 + output[row .. row + BoxSize]
        invariant scores == prev.1 + output[row + BoxSize .. row + j]
      {
        scores := scores + [output[row + j]];
        j := j + 1;
      }
      LemmaSplitRowsStep(output, i, w);
      i := i + 1;
    }
  }
}
