/** Padding the selected face box and clamping the padded rectangle to the
    image, as the script does before slicing `image[y1:y2, x1:x2]`.

    The script's float arithmetic is stated here over integers:
    `int(w * 0.3)` is `(3 * w) / 10` and `int(h * 0.5)` is `h / 2`, both
    floors of non-negative values. */
module Crop {
  import opened Faces

  /** A rectangle by its corners: columns [x1, x2) and rows [y1, y2). */
  datatype Rect = Rect(x1: int, y1: int, x2: int, y2: int)

  function Max(a: int, b: int): int { if a < b then b else a }
  function Min(a: int, b: int): int { if a < b then a else b }

  /** Horizontal padding `int(w * 0.3)`: thirty per cent of the face width,
      rounded down. */
  function PadX(w: nat): (p: nat)
    ensures 10 * p <= 3 * w < 10 * p + 10
  {
    (3 * w) / 10
  }

  /** Vertical padding `int(h * 0.5)`: half the face height, rounded down. */
  function PadY(h: nat): (p: nat)
    ensures 2 * p <= h < 2 * p + 2
  {
    h / 2
  }

  /** The face box grown by PadX on the left and right and by PadY above
      and below, before any clamping. */
  function Padded(b: Box): (r: Rect)
    ensures b.x - r.x1 == r.x2 - (b.x + b.w) == PadX(b.w)
    ensures b.y - r.y1 == r.y2 - (b.y + b.h) == PadY(b.h)
  {
    Rect(b.x - PadX(b.w), b.y - PadY(b.h), b.x + b.w + PadX(b.w), b.y + b.h + PadY(b.h))
  }

  /** Each edge clamped on its own: the left and top edges to at least 0,
      the right edge to at most the image width and the bottom edge to at
      most the image height. */
  function Clamp(r: Rect, width: nat, height: nat): (c: Rect)
    ensures 0 <= c.x1 && c.x2 <= width && 0 <= c.y1 && c.y2 <= height
  {
    Rect(Max(r.x1, 0), Max(r.y1, 0), Min(r.x2, width), Min(r.y2, height))
  }

  /** The padded crop `(x1, y1, x2, y2)` for face `b` in an image of
      `width` columns (`image.shape[1]`) and `height` rows
      (`image.shape[0]`). */
  function PaddedCrop(b: Box, width: nat, height: nat): (r: Rect)
    ensures 0 <= r.x1 && r.x2 <= width && 0 <= r.y1 && r.y2 <= height
    ensures r.x1 <= b.x && r.y1 <= b.y
    ensures 0 <= r.x2 && 0 <= r.y2
  {
    Clamp(Padded(b), width, height)
  }

  /** A face box that lies inside the image is contained in its padded
      crop. */
  lemma PaddedCropContainsFace(b: Box, width: nat, height: nat)
    requires b.x + b.w <= width && b.y + b.h <= height
    ensures var r := PaddedCrop(b, width, height);
      r.x1 <= b.x && b.x + b.w <= r.x2 && r.y1 <= b.y && b.y + b.h <= r.y2
  {
  }

  /** When the padded box already fits in the image, clamping changes
      nothing and the padding is the same on opposite sides. */
  lemma ClampKeepsFittingBox(b: Box, width: nat, height: nat)
    requires PadX(b.w) <= b.x && b.x + b.w + PadX(b.w) <= width
    requires PadY(b.h) <= b.y && b.y + b.h + PadY(b.h) <= height
    ensures PaddedCrop(b, width, height) == Padded(b)
  {
  }

  /** Where the image border does not interfere, each clamped edge is the
      padded edge; an edge pushed out of the image lies on the border.
      One edge's clamping never moves another edge. */
  lemma ClampPerEdge(b: Box, width: nat, height: nat)
    ensures var r, p := PaddedCrop(b, width, height), Padded(b);
      && (r.x1 == p.x1 || r.x1 == 0) && (r.y1 == p.y1 || r.y1 == 0)
      && (r.x2 == p.x2 || r.x2 == width) && (r.y2 == p.y2 || r.y2 == height)
      && r.x1 >= p.x1 && r.y1 >= p.y1 && r.x2 <= p.x2 && r.y2 <= p.y2
  {
  }

  /** Python's clamping of one slice bound against a length `n`: a negative
      index counts from the end, then the index is kept within [0, n]. */
  function SliceBound(i: int, n: nat): (k: nat)
    ensures k <= n
    ensures 0 <= i <= n ==> k == i
    ensures i > n ==> k == n
    ensures i < 0 ==> k == Max(i + n, 0)
  {
    if i < 0 then (if i + n < 0 then 0 else i + n)
    else if i > n then n
    else i
  }

  /** The number of elements `s[start:stop]` has when `|s| == n`. */
  function SliceLength(start: int, stop: int, n: nat): (len: nat)
    ensures len <= n
    ensures 0 <= start <= stop <= n ==> len == stop - start
    ensures 0 <= stop <= start ==> len == 0
  {
    var s, e := SliceBound(start, n), SliceBound(stop, n);
    if e > s then e - s else 0
  }

  /** The columns and rows of `image[y1:y2, x1:x2]` for the padded crop:
      the rectangle's extent, or zero where it is empty. */
  function CropWidth(r: Rect, width: nat): (w: nat)
    requires 0 <= r.x1 && 0 <= r.x2 <= width
    ensures w == if r.x1 <= r.x2 then r.x2 - r.x1 else 0
  {
    SliceLength(r.x1, r.x2, width)
  }

  function CropHeight(r: Rect, height: nat): (h: nat)
    requires 0 <= r.y1 && 0 <= r.y2 <= height
    ensures h == if r.y1 <= r.y2 then r.y2 - r.y1 else 0
  {
    SliceLength(r.y1, r.y2, height)
  }

  /** A face box inside the image gives a crop at least as large as the
      face. */
  lemma CropAtLeastFace(b: Box, width: nat, height: nat)
    requires b.x + b.w <= width && b.y + b.h <= height
    ensures var r := PaddedCrop(b, width, height);
      CropWidth(r, width) >= b.w && CropHeight(r, height) >= b.h
  {
  }
}
