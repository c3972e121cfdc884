/** Face selection: among the boxes the face detector reports, the crop is
    built around the one with the largest area; Python's `max` keeps the
    first of several boxes of equal area. */
module Faces {

  /** A detected face: top-left corner (x, y), width w and height h, in
      pixels. The detector reports non-negative values. */
  datatype Box = Box(x: nat, y: nat, w: nat, h: nat)

  datatype Option<T> = None | Some(value: T)

  /** The selection key `f[2] * f[3]`: zero exactly for a box with no
      width or no height, and never smaller than either side of a box whose
      other side is non-zero. */
  function Area(b: Box): (a: nat)
    ensures a == 0 <==> b.w == 0 || b.h == 0
    ensures b.h > 0 ==> a >= b.w
    ensures b.w > 0 ==> a >= b.h
  {
    b.w * b.h
  }

  /** Index `k` is the first box of maximal area. */
  ghost predicate FirstLargest(faces: seq<Box>, k: int)
  {
    && 0 <= k < |faces|
    && (forall j :: 0 <= j < |faces| ==> Area(faces[j]) <= Area(faces[k]))
    && (forall j :: 0 <= j < k ==> Area(faces[j]) < Area(faces[k]))
  }

  /** The left-to-right reduction `max` performs: a later box replaces the
      current one only when its area is strictly larger. */
  function LargestIndex(faces: seq<Box>): (k: nat)
    requires |faces| > 0
    ensures k < |faces|
    ensures forall j :: 0 <= j < |faces| ==> Area(faces[j]) <= Area(faces[k])
    ensures forall j :: 0 <= j < k ==> Area(faces[j]) < Area(faces[k])
  {
    if |faces| == 1 then 0
    else
      var k := LargestIndex(faces[..|faces| - 1]);
      if Area(faces[|faces| - 1]) > Area(faces[k]) then |faces| - 1 else k
  }

  /** The first largest index is unique: any index that is maximal and
      strictly beats every earlier box is the one the reduction picks. */
  lemma FirstLargestUnique(faces: seq<Box>, k: int)
    requires FirstLargest(faces, k)
    ensures k == LargestIndex(faces)
  {
  }

  /** The face the crop is built around, or None when the detector found
      nothing (the "No face detected." branch). */
  function LargestFace(faces: seq<Box>): (r: Option<Box>)
    ensures r.None? <==> |faces| == 0
    ensures r.Some? ==> exists k :: FirstLargest(faces, k) && faces[k] == r.value
  {
    if |faces| == 0 then None
    else
      var k := LargestIndex(faces);
      assert FirstLargest(faces, k);
      Some(faces[k])
  }

  /** The selected face's area is at least that of every detected face. */
  lemma LargestFaceDominates(faces: seq<Box>, b: Box)
    requires b in faces
    ensures LargestFace(faces).Some?
    ensures Area(b) <= Area(LargestFace(faces).value)
  {
  }
}
