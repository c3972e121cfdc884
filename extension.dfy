/** The input check: a path names a usable image when the file exists and
    its extension, as `os.path.splitext` splits it and lower-cased, is one
    of `.jpg`, `.jpeg` and `.png`.

    `splitext` is modelled as on Windows, where both '/' and '\\' separate
    path components; `lower()` is modelled on ASCII letters. */
module Extension {

  const ValidExtensions: seq<string> := [".jpg", ".jpeg", ".png"]

  predicate IsSep(c: char)
  {
    c == '/' || c == '\\'
  }

  /** Index of the last path separator in `p`, or -1 when there is none
      (`max(p.rfind('\\'), p.rfind('/'))`). */
  function LastSep(p: string): (i: int)
    ensures -1 <= i < |p|
    ensures i >= 0 ==> IsSep(p[i])
    ensures forall j :: i < j < |p| ==> !IsSep(p[j])
  {
    if |p| == 0 then -1
    else if IsSep(p[|p| - 1]) then |p| - 1
    else LastSep(p[..|p| - 1])
  }

  /** Index of the last '.' in `p`, or -1 when there is none
      (`p.rfind('.')`). */
  function LastDot(p: string): (i: int)
    ensures -1 <= i < |p|
    ensures i >= 0 ==> p[i] == '.'
    ensures forall j :: i < j < |p| ==> p[j] != '.'
  {
    if |p| == 0 then -1
    else if p[|p| - 1] == '.' then |p| - 1
    else LastDot(p[..|p| - 1])
  }

  /** Some character of `p` strictly between positions `lo` and `hi` is
      not a dot. */
  predicate NonDotBetween(p: string, lo: int, hi: int)
    requires -1 <= lo && hi <= |p|
  {
    exists i | lo < i < hi :: p[i] != '.'
  }

  /** `os.path.splitext(p)`: the extension starts at the last dot of the
      last path component, provided that component has a character other
      than a dot before it (so ".png" and "a/..png" have no extension). */
  function SplitExt(p: string): (r: (string, string))
    ensures r.0 + r.1 == p
    ensures r.1 == [] || ExtensionShape(r.1)
    // leading dots of the last component belong to the root
    ensures r.1 != [] ==> HasStem(r.0)
  {
    var sep, dot := LastSep(p), LastDot(p);
    if dot > sep && NonDotBetween(p, sep, dot) then
      assert p[..dot] + p[dot..] == p;
      (p[..dot], p[dot..])
    else
      assert p + [] == p;
      (p, [])
  }

  function LowerChar(c: char): char
  {
    if 'A' <= c <= 'Z' then (c as int + 32) as char else c
  }

  /** `s.lower()` on ASCII letters: every upper-case letter becomes its
      lower-case letter, every other character is kept, and no upper-case
      letter is left. */
  function Lower(s: string): (r: string)
    ensures |r| == |s|
    ensures forall i :: 0 <= i < |s| ==> r[i] == LowerChar(s[i])
    ensures forall i :: 0 <= i < |s| ==> ('A' <= s[i] <= 'Z' <==> r[i] != s[i])
    ensures forall i :: 0 <= i < |r| ==> !('A' <= r[i] <= 'Z')
  {
    seq(|s|, i requires 0 <= i < |s| => LowerChar(s[i]))
  }

  /** `is_valid`: the existence test is a parameter, since it asks the
      file system. An accepted path names an existing file and splits into
      a root that is not only dots and a dot-led extension. */
  predicate IsValidImage(p: string, exists_: bool): (ok: bool)
    ensures ok ==> exists_ && ExtensionShape(SplitExt(p).1) && HasStem(SplitExt(p).0)
  {
    exists_ && Lower(SplitExt(p).1) in ValidExtensions
  }

  /** The last path component of `stem` holds a character other than '.'. */
  predicate HasStem(stem: string)
  {
    NonDotBetween(stem, LastSep(stem), |stem|)
  }

  /** An independent description of the accepted names: the path ends in
      one of the extensions, in any letter case, and what comes before it
      in the last path component is not only dots. */
  ghost predicate NamedImage(p: string)
  {
    exists k :: 0 <= k <= |p| && Lower(p[k..]) in ValidExtensions && HasStem(p[..k])
  }

  /** What `splitext` can return as an extension when it returns one: a
      dot followed by characters that are neither dots nor separators. */
  predicate ExtensionShape(e: string)
  {
    |e| > 0 && e[0] == '.' && forall j :: 0 < j < |e| ==> e[j] != '.' && !IsSep(e[j])
  }

  /** An accepted extension, whatever its letter case, is a dot followed by
      characters that are neither dots nor separators. */
  lemma AcceptedExtensionShape(e: string)
    requires Lower(e) in ValidExtensions
    ensures ExtensionShape(e)
  {
  }

  /** Appending text without separators leaves the last separator where it
      was. */
  lemma {:induction false} LastSepAppend(stem: string, e: string)
    requires forall j :: 0 <= j < |e| ==> !IsSep(e[j])
    ensures LastSep(stem + e) == LastSep(stem)
    decreases |e|
  {
    if |e| > 0 {
      var p := stem + e;
      assert p[..|p| - 1] == stem + e[..|e| - 1];
      LastSepAppend(stem, e[..|e| - 1]);
    } else {
      assert stem + e == stem;
    }
  }

  /** Appending an extension puts the last dot at its start. */
  lemma LastDotAppend(stem: string, e: string)
    requires ExtensionShape(e)
    ensures LastDot(stem + e) == |stem|
  {
    var p := stem + e;
    assert p[|stem|] == '.';
  }

  /** `splitext` splits a stem followed by an extension exactly there. */
  lemma SplitExtAt(stem: string, e: string)
    requires ExtensionShape(e) && HasStem(stem)
    ensures SplitExt(stem + e) == (stem, e)
  {
    var p := stem + e;
    LastSepAppend(stem, e[1..]);
    assert stem + e == (stem + [e[0]]) + e[1..];
    assert LastSep(stem + [e[0]]) == LastSep(stem);
    LastDotAppend(stem, e);
    var sep := LastSep(stem);
    var i :| sep < i < |stem| && stem[i] != '.';
    assert p[i] == stem[i];
    assert p[..|stem|] == stem && p[|stem|..] == e;
  }

  /** The root and extension of an accepted path witness `NamedImage`. */
  lemma AcceptedIsNamed(p: string)
    requires Lower(SplitExt(p).1) in ValidExtensions
    ensures NamedImage(p)
  {
  }

  /** A stem followed by an accepted extension is split there, so its
      extension is accepted. */
  lemma NamedIsAccepted(p: string)
    requires NamedImage(p)
    ensures Lower(SplitExt(p).1) in ValidExtensions
  {
    var k :| 0 <= k <= |p| && Lower(p[k..]) in ValidExtensions && HasStem(p[..k]);
    AcceptedExtensionShape(p[k..]);
    SplitExtAt(p[..k], p[k..]);
    assert p[..k] + p[k..] == p;
  }

  /** A path is accepted exactly when the file exists and the path is a
      stem followed by one of the extensions in any letter case. */
  lemma IsValidImageIff(p: string, exists_: bool)
    ensures IsValidImage(p, exists_) <==> exists_ && NamedImage(p)
  {
    if IsValidImage(p, exists_) {
      AcceptedIsNamed(p);
    }
    if exists_ && NamedImage(p) {
      NamedIsAccepted(p);
    }
  }

  /** A name without separators has its last separator at -1. */
  lemma LastSepNone(s: string)
    requires forall j :: 0 <= j < |s| ==> !IsSep(s[j])
    ensures LastSep(s) == -1
  {
  }

  /** An upper-case extension is accepted. */
  lemma UpperCaseAccepted()
    ensures IsValidImage("photo.JPG", true)
  {
    LastSepNone("photo");
    assert "photo"[0] != '.';
    SplitExtAt("photo", ".JPG");
    assert "photo" + ".JPG" == "photo.JPG";
    assert Lower(".JPG") == ".jpg";
  }

  /** Nothing is accepted when the file does not exist. */
  lemma MissingFileRejected(p: string)
    ensures !IsValidImage(p, false)
  {
  }

  /** Another format is rejected. */
  lemma OtherFormatRejected()
    ensures !IsValidImage("photo.gif", true)
  {
  }

  /** A name that is only a dot and an extension is a hidden file with no
      extension, and is rejected. */
  lemma HiddenFileRejected()
    ensures !IsValidImage("photos/.png", true)
  {
  }
}
