/** The placement part of OpenCV's `copyMakeBorder` with a constant border:
    the source grid is copied into a larger grid at offset (top, left) and
    every other cell holds the fill value. Pixel values are opaque (`P`);
    only where each pixel ends up is modelled. */
module Padding {

  /** An image as rows of pixels; `IsImage` says it is a `rows` x `cols` grid. */
  type Image<P> = seq<seq<P>>

  predicate IsImage<P>(img: Image<P>, rows: nat, cols: nat) {
    |img| == rows && forall r :: 0 <= r < rows ==> |img[r]| == cols
  }

  /** True iff cell (r, c) of the bordered image is a copy of a source pixel. */
  predicate InSource(r: int, c: int, top: nat, left: nat, rows: nat, cols: nat) {
    top <= r < top + rows && left <= c < left + cols
  }

  /** Row `r` of the bordered image. */
  function BorderRow<P>(src: Image<P>, rows: nat, cols: nat,
                        top: nat, left: nat, right: nat, fill: P, r: nat): (row: seq<P>)
    requires IsImage(src, rows, cols)
  {
    seq(left + cols + right, c requires 0 <= c < left + cols + right =>
      if InSource(r, c, top, left, rows, cols) then src[r - top][c - left] else fill)
  }

  /** `copyMakeBorder(src, dst, top, bottom, left, right, BORDER_CONSTANT, fill)`. */
  function CopyMakeBorder<P>(src: Image<P>, rows: nat, cols: nat,
                             top: nat, bottom: nat, left: nat, right: nat, fill: P): (dst: Image<P>)
    requires IsImage(src, rows, cols)
    ensures IsImage(dst, top + rows + bottom, left + cols + right)
    ensures forall r, c :: 0 <= r < rows && 0 <= c < cols ==> dst[top + r][left + c] == src[r][c]
    ensures forall r, c :: 0 <= r < |dst| && 0 <= c < |dst[r]| && !InSource(r, c, top, left, rows, cols) ==> dst[r][c] == fill
  {
    seq(top + rows + bottom, r requires 0 <= r < top + rows + bottom =>
      BorderRow(src, rows, cols, top, left, right, fill, r))
  }

  /** The `rows` x `cols` window of `img` whose top-left corner is (top, left). */
  function Crop<P>(img: Image<P>, top: nat, left: nat, rows: nat, cols: nat): (out: Image<P>)
    requires top + rows <= |img|
    requires forall r :: top <= r < top + rows ==> left + cols <= |img[r]|
    ensures IsImage(out, rows, cols)
  {
    seq(rows, r requires 0 <= r < rows => img[top + r][left .. left + cols])
  }

  /** Cropping the source window back out of the bordered image gives the
      source image: the border adds cells and loses none. */
  lemma LemmaCropUndoesBorder<P>(src: Image<P>, rows: nat, cols: nat,
                                 top: nat, bottom: nat, left: nat, right: nat, fill: P)
    requires IsImage(src, rows, cols)
    ensures var dst := CopyMakeBorder(src, rows, cols, top, bottom, left, right, fill);
            Crop(dst, top, left, rows, cols) == src
  {
    var dst := CopyMakeBorder(src, rows, cols, top, bottom, left, right, fill);
    var out := Crop(dst, top, left, rows, cols);
    forall r | 0 <= r < rows
      ensures out[r] == src[r]
    {
      forall c | 0 <= c < cols
        ensures out[r][c] == src[r][c]
      {
        assert out[r][c] == dst[top + r][left + c];
      }
    }
  }
}
