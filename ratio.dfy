/** Trimming the padded crop to a 3:4 (width:height) window, centred on the
    dimension that is trimmed.

    The script's float arithmetic is stated here over integers, for a crop
    of `wc` columns and `hc` rows with `hc > 0`:
    `wc / hc > 0.75` is `4 * wc > 3 * hc`, `int(hc * 0.75)` is
    `(3 * hc) / 4` and `int(wc / 0.75)` is `(4 * wc) / 3`. */
module Ratio {

  /** The window kept inside the crop: it starts `startX` columns and
      `startY` rows into the crop and is `width` by `height` pixels. */
  datatype Window = Window(startX: nat, startY: nat, width: nat, height: nat)

  /** The crop is wider than 3:4, so its width is trimmed: the integer
      test agrees with comparing the exact ratio `wc / hc` with 0.75. */
  predicate TooWide(wc: nat, hc: nat): (r: bool)
    ensures hc > 0 ==> (r <==> (wc as real) / (hc as real) > 0.75)
  {
    if hc > 0 then RatioAboveThreeQuarters(wc, hc); 4 * wc > 3 * hc
    else 4 * wc > 3 * hc
  }

  lemma PositiveProduct(a: real, b: real)
    requires a > 0.0 && b > 0.0
    ensures a * b > 0.0
  {
  }

  /** The exact quotient `wc / hc` exceeds 0.75 exactly when
      `4 * wc > 3 * hc`. */
  lemma RatioAboveThreeQuarters(wc: nat, hc: nat)
    requires hc > 0
    ensures (wc as real) / (hc as real) > 0.75 <==> 4 * wc > 3 * hc
  {
    var q, h := (wc as real) / (hc as real), hc as real;
    assert q * h == wc as real;
    assert (q - 0.75) * h == (wc as real) - 0.75 * h;
    assert ((4 * wc) as real) - ((3 * hc) as real) == 4.0 * ((wc as real) - 0.75 * h);
    if q > 0.75 {
      PositiveProduct(q - 0.75, h);
    } else {
      assert (0.75 - q) * h >= 0.0 by {
        if 0.75 - q > 0.0 { PositiveProduct(0.75 - q, h); }
      }
    }
  }

  /** The centred 3:4 window of a `wc` by `hc` crop. */
  function Trim(wc: nat, hc: nat): (t: Window)
    requires hc > 0
    // the window lies inside the crop
    ensures t.startX + t.width <= wc && t.startY + t.height <= hc
    // a too-wide crop keeps its height and gets the widest width not over 3:4
    ensures TooWide(wc, hc) ==>
      t.height == hc && t.startY == 0 && 4 * t.width <= 3 * hc < 4 * t.width + 4
    // otherwise the crop keeps its width and gets the tallest height not over 4:3
    ensures !TooWide(wc, hc) ==>
      t.width == wc && t.startX == 0 && 3 * t.height <= 4 * wc < 3 * t.height + 3
    // centred: the trailing margin equals the leading one or exceeds it by one
    ensures t.startX <= wc - t.width - t.startX <= t.startX + 1
    ensures t.startY <= hc - t.height - t.startY <= t.startY + 1
  {
    if 4 * wc > 3 * hc then
      var newW := (3 * hc) / 4;
      Window((wc - newW) / 2, 0, newW, hc)
    else
      var newH := (4 * wc) / 3;
      Window(0, (hc - newH) / 2, wc, newH)
  }

  /** The trimmed window is within one pixel of 3:4 in the dimension that
      was trimmed: `3 * h - 4 * w` lies in [0, 3] after a width trim and
      `4 * w - 3 * h` lies in [0, 2] after a height trim. */
  lemma TrimWithinOnePixel(wc: nat, hc: nat)
    requires hc > 0
    ensures var t := Trim(wc, hc);
      if TooWide(wc, hc) then 0 <= 3 * t.height - 4 * t.width <= 3
      else 0 <= 4 * t.width - 3 * t.height <= 2
  {
  }

  /** The window is empty exactly when the crop has no columns or a single
      row: a one-row crop is too wide and trims to width `(3 * 1) / 4 == 0`. */
  lemma TrimEmptyIff(wc: nat, hc: nat)
    requires hc > 0
    ensures var t := Trim(wc, hc);
      (t.width == 0 || t.height == 0) <==> (wc == 0 || hc == 1)
  {
  }

  /** A crop that is already exactly 3:4 is kept whole. */
  lemma TrimKeepsExactRatio(wc: nat, hc: nat)
    requires hc > 0 && 4 * wc == 3 * hc
    ensures Trim(wc, hc) == Window(0, 0, wc, hc)
  {
  }
}
