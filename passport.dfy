/** The crop the script performs end to end: pick the largest detected
    face, pad and clamp it, trim to 3:4 and hand the window to the resize
    that produces the 826 by 1062 passport image. */
module Passport {
  import opened Faces
  import opened Crop
  import opened Ratio

  /** The fixed size `cv2.resize` is asked for. It is not exactly 3:4
      (4 * 826 != 3 * 1062), so the resize is close to, but not exactly,
      a uniform scale. */
  const OutputWidth: nat := 826
  const OutputHeight: nat := 1062

  /** What one run of the script ends in. */
  datatype Outcome =
    | NoFace            // "No face detected.": nothing is cropped or written
    | DegenerateCrop    // the crop has no rows (division by zero in the ratio) or the 3:4 window is empty
    | Photo(window: Rect, width: nat, height: nat)  // the window of the source image, resized to width by height

  /** The window of the source image, in its own coordinates, that the
      trim `t` keeps of the padded crop `r`. */
  function Absolute(r: Rect, t: Window): (a: Rect)
    ensures a.x1 - r.x1 == t.startX && a.y1 - r.y1 == t.startY
    ensures a.x2 - a.x1 == t.width && a.y2 - a.y1 == t.height
  {
    Rect(r.x1 + t.startX, r.y1 + t.startY, r.x1 + t.startX + t.width, r.y1 + t.startY + t.height)
  }

  /** Number of columns and rows the padded crop has for face `b`
      (`cropped.shape[:2]`, swapped into width, height order): never more
      than the image, and at least the face when the face is inside it. */
  function CropSize(b: Box, width: nat, height: nat): (s: (nat, nat))
    ensures s.0 <= width && s.1 <= height
    ensures b.x + b.w <= width && b.y + b.h <= height ==> s.0 >= b.w && s.1 >= b.h
  {
    var r := PaddedCrop(b, width, height);
    (CropWidth(r, width), CropHeight(r, height))
  }

  /** The crop for one face in an image of `width` columns and `height`
      rows. */
  function CropFace(b: Box, width: nat, height: nat): (o: Outcome)
    ensures !o.NoFace?
    // the window is non-empty and inside the image
    ensures o.Photo? ==>
      0 <= o.window.x1 < o.window.x2 <= width && 0 <= o.window.y1 < o.window.y2 <= height
    // the window is inside the padded crop
    ensures o.Photo? ==> var r := PaddedCrop(b, width, height);
      r.x1 <= o.window.x1 && o.window.x2 <= r.x2 && r.y1 <= o.window.y1 && o.window.y2 <= r.y2
    // the window is within one pixel of 3:4
    ensures o.Photo? ==> var w, h := o.window.x2 - o.window.x1, o.window.y2 - o.window.y1;
      0 <= 3 * h - 4 * w <= 3 || 0 <= 4 * w - 3 * h <= 2
    ensures o.Photo? ==> o.width == OutputWidth && o.height == OutputHeight
  {
    var r := PaddedCrop(b, width, height);
    var (wc, hc) := CropSize(b, width, height);
    if hc == 0 then
      DegenerateCrop
    else
      var t := Trim(wc, hc);
      TrimWithinOnePixel(wc, hc);
      if t.width == 0 || t.height == 0 then DegenerateCrop
      else Photo(Absolute(r, t), OutputWidth, OutputHeight)
  }

  /** The whole run over the boxes the face detector returned. */
  function Plan(faces: seq<Box>, width: nat, height: nat): (o: Outcome)
    ensures o.NoFace? <==> |faces| == 0
    // the outcome is that of the first largest face
    ensures |faces| > 0 ==> o == CropFace(faces[LargestIndex(faces)], width, height)
    ensures o.Photo? ==>
      0 <= o.window.x1 < o.window.x2 <= width && 0 <= o.window.y1 < o.window.y2 <= height
  {
    match LargestFace(faces)
    case None => NoFace
    case Some(b) => CropFace(b, width, height)
  }

  /** The crop fails exactly when the padded crop has no columns or at
      most one row. */
  lemma DegenerateIff(b: Box, width: nat, height: nat)
    ensures var (wc, hc) := CropSize(b, width, height);
      CropFace(b, width, height).DegenerateCrop? <==> (wc == 0 || hc <= 1)
  {
  }

  /** A face inside the image that is at least one pixel wide and two
      pixels tall always yields a photo. */
  lemma FaceInsideGivesPhoto(b: Box, width: nat, height: nat)
    requires b.x + b.w <= width && b.y + b.h <= height
    requires b.w >= 1 && b.h >= 2
    ensures CropFace(b, width, height).Photo?
  {
  }

  /** A square face whose padded box fits in the image stays whole inside
      the final 3:4 window once it is at least two pixels across. */
  lemma SquareFaceKept(b: Box, width: nat, height: nat)
    requires b.w == b.h >= 2
    requires PadX(b.w) <= b.x && b.x + b.w + PadX(b.w) <= width
    requires PadY(b.h) <= b.y && b.y + b.h + PadY(b.h) <= height
    ensures var o := CropFace(b, width, height);
      && o.Photo?
      && o.window.x1 <= b.x && b.x + b.w <= o.window.x2
      && o.window.y1 <= b.y && b.y + b.h <= o.window.y2
  {
  }
}
