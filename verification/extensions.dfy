/** Which files the walk treats as images.

A file is an image when the lower-cased extension of its name, as Python's
`os.path.splitext` computes it, is one of seven allow-listed extensions. The
extension runs from the last '.' of the final component, dot included, provided
some character other than '.' comes before that dot in the component: leading
dots (hidden files such as ".png") do not start an extension.
 */
module Extensions {

  /** The allow-list, dot included, lower case. */
  const ImageExtensions: set<string> := {".jpg", ".jpeg", ".png", ".gif", ".bmp", ".tiff", ".webp"}

  /** Lower-casing of one character: 'A'..'Z' map to 'a'..'z', all else is kept. */
  function LowerChar(c: char): char
  {
    if 'A' <= c <= 'Z' then (c as int + 32) as char else c
  }

  /** ASCII lower-casing, character by character (Python's `str.lower` also maps
      non-ASCII characters; see `LowerChar`). */
  function Lower(s: string): string
    decreases |s|
  {
    if |s| == 0 then [] else Lower(s[..|s| - 1]) + [LowerChar(s[|s| - 1])]
  }

  /** Lower-casing keeps the length and maps every character on its own. */
  lemma {:induction false} LowerPointwise(s: string)
    ensures |Lower(s)| == |s|
    ensures forall k :: 0 <= k < |s| ==> Lower(s)[k] == LowerChar(s[k])
    decreases |s|
  {
    if |s| > 0 {
      LowerPointwise(s[..|s| - 1]);
    }
  }

  /** Python's `str.rfind` for one character: the index of its last occurrence, or -1. */
  function RFind(s: string, c: char): (i: int)
    ensures -1 <= i < |s|
    ensures 0 <= i ==> s[i] == c
    ensures forall k :: i < k < |s| ==> s[k] != c
    decreases |s|
  {
    if |s| == 0 then -1
    else if s[|s| - 1] == c then |s| - 1
    else RFind(s[..|s| - 1], c)
  }

  /** Some character of s[lo..hi] is not a '.'. */
  predicate HasNonDot(s: string, lo: int, hi: int)
    requires 0 <= lo && hi <= |s|
  {
    exists k :: lo <= k < hi && s[k] != '.'
  }

  /** `os.path.splitext` on a POSIX path: the pair (root, extension). */
  function SplitExt(p: string): (r: (string, string))
    ensures r.0 + r.1 == p
    ensures r.1 == "" || (r.1[0] == '.' && forall k :: 1 <= k < |r.1| ==> r.1[k] != '.' && r.1[k] != '/')
  {
    var sepIndex := RFind(p, '/');
    var dotIndex := RFind(p, '.');
    if dotIndex > sepIndex && HasNonDot(p, sepIndex + 1, dotIndex) then
      (p[..dotIndex], p[dotIndex..])
    else
      (p, "")
  }

  function Extension(p: string): string
  {
    SplitExt(p).1
  }

  /** The walk's test: `os.path.splitext(file)[1].lower() in image_extensions`. */
  predicate IsImageName(name: string)
  {
    Lower(Extension(name)) in ImageExtensions
  }

  /** Reference definition of "e is the extension of p", independent of the
      index arithmetic of `SplitExt`: e is a suffix of p that starts with '.',
      holds no further '.' or '/', and is preceded, inside the last component
      of p, by some character other than '.'. */
  ghost predicate IsExtensionOf(e: string, p: string)
  {
    && 0 < |e| <= |p|
    && p[|p| - |e|..] == e
    && e[0] == '.'
    && (forall k :: 1 <= k < |e| ==> e[k] != '.' && e[k] != '/')
    && exists j :: 0 <= j < |p| - |e| && p[j] != '.' && p[j] != '/' && NoSepBetween(p, j, |p| - |e|)
  }

  /** No '/' in p(lo..hi). */
  ghost predicate NoSepBetween(p: string, lo: int, hi: int)
    requires 0 <= lo && hi <= |p|
  {
    forall m :: lo < m < hi ==> p[m] != '/'
  }

  /** The last occurrence is unique: an index with the two properties `RFind`
      promises is the one it returns. */
  lemma RFindUnique(s: string, c: char, i: int)
    requires -1 <= i < |s|
    requires 0 <= i ==> s[i] == c
    requires forall k :: i < k < |s| ==> s[k] != c
    ensures RFind(s, c) == i
  {
  }

  /** A non-empty result of `SplitExt` is an extension in the reference sense. */
  lemma ExtensionSound(p: string)
    requires Extension(p) != ""
    ensures IsExtensionOf(Extension(p), p)
  {
    var e := Extension(p);
    var sepIndex := RFind(p, '/');
    var dotIndex := RFind(p, '.');
    assert dotIndex > sepIndex && HasNonDot(p, sepIndex + 1, dotIndex);
    assert e == p[dotIndex..];
    var j :| sepIndex + 1 <= j < dotIndex && p[j] != '.';
    assert NoSepBetween(p, j, |p| - |e|);
  }

  /** An extension in the reference sense is what `SplitExt` returns. */
  lemma ExtensionComplete(p: string, e: string)
    requires IsExtensionOf(e, p)
    ensures Extension(p) == e
  {
    var d := |p| - |e|;
    var j :| 0 <= j < d && p[j] != '.' && p[j] != '/' && NoSepBetween(p, j, d);
    forall k | d < k < |p|
      ensures p[k] != '.' && p[k] != '/'
    {
      assert p[k] == e[k - d];
    }
    assert p[d] == e[0];
    RFindUnique(p, '.', d);
    var sepIndex := RFind(p, '/');
    assert sepIndex < j;
    assert HasNonDot(p, sepIndex + 1, d);
  }

  /** `SplitExt` agrees with the reference definition, in both directions. */
  lemma ExtensionCharacterised(p: string, e: string)
    ensures (e != "" && Extension(p) == e) <==> IsExtensionOf(e, p)
  {
    if e != "" && Extension(p) == e {
      ExtensionSound(p);
    }
    if IsExtensionOf(e, p) {
      ExtensionComplete(p, e);
    }
  }

  /** The classifier, stated through the reference definition: a name is an
      image name exactly when it has an extension whose lower-case form is
      allow-listed. */
  lemma ImageNameCharacterised(name: string)
    ensures IsImageName(name) <==> exists e :: IsExtensionOf(e, name) && Lower(e) in ImageExtensions
  {
    if IsImageName(name) {
      var e := Extension(name);
      assert e != "" by {
        LowerPointwise(e);
      }
      ExtensionCharacterised(name, e);
    }
    if e :| IsExtensionOf(e, name) && Lower(e) in ImageExtensions {
      ExtensionCharacterised(name, e);
    }
  }

  /** `RFind` of a character that lower-casing neither produces nor changes is
      unaffected by lower-casing. */
  lemma RFindLower(s: string, c: char)
    requires c == '.' || c == '/'
    ensures RFind(Lower(s), c) == RFind(s, c)
  {
    var i := RFind(s, c);
    LowerPointwise(s);
    RFindUnique(Lower(s), c, i);
  }

  lemma LowerSuffix(s: string, i: int)
    requires 0 <= i <= |s|
    ensures |Lower(s)| == |s|
    ensures Lower(s[i..]) == Lower(s)[i..]
  {
    LowerPointwise(s);
    LowerPointwise(s[i..]);
  }

  lemma HasNonDotLower(s: string, lo: int, hi: int)
    requires 0 <= lo && hi <= |s|
    ensures |Lower(s)| == |s|
    ensures HasNonDot(Lower(s), lo, hi) <==> HasNonDot(s, lo, hi)
  {
    LowerPointwise(s);
    if HasNonDot(s, lo, hi) {
      var k :| lo <= k < hi && s[k] != '.';
      assert Lower(s)[k] != '.';
    }
    if HasNonDot(Lower(s), lo, hi) {
      var k :| lo <= k < hi && Lower(s)[k] != '.';
      assert s[k] != '.';
    }
  }

  /** Extracting the extension commutes with lower-casing. */
  lemma ExtensionOfLower(p: string)
    ensures Extension(Lower(p)) == Lower(Extension(p))
  {
    RFindLower(p, '.');
    RFindLower(p, '/');
    var sepIndex := RFind(p, '/');
    var dotIndex := RFind(p, '.');
    if dotIndex > sepIndex {
      HasNonDotLower(p, sepIndex + 1, dotIndex);
      LowerSuffix(p, dotIndex);
    }
  }

  lemma LowerIdempotent(s: string)
    ensures Lower(Lower(s)) == Lower(s)
  {
    LowerPointwise(s);
    LowerPointwise(Lower(s));
  }

  /** The test is case-insensitive: names equal up to case are classified alike. */
  lemma ClassifierIgnoresCase(a: string, b: string)
    requires Lower(a) == Lower(b)
    ensures IsImageName(a) <==> IsImageName(b)
  {
    ExtensionOfLower(a);
    ExtensionOfLower(b);
    LowerIdempotent(Extension(a));
    LowerIdempotent(Extension(b));
  }

  /** A name without any '.' has no extension and is never an image. */
  lemma NoDotNoImage(name: string)
    requires '.' !in name
    ensures Extension(name) == ""
    ensures !IsImageName(name)
  {
  }

  /** A name whose dots all lead it (".png", "..gif", ".bashrc") has no extension:
      leading dots mark hidden files, not extensions. */
  lemma LeadingDotsNoImage(name: string)
    requires forall i, j :: 0 <= i < j < |name| && name[j] == '.' ==> name[i] == '.'
    ensures Extension(name) == ""
    ensures !IsImageName(name)
  {
    var e := Extension(name);
    if e != "" {
      ExtensionSound(name);
    }
  }

  /** Builds the reference extension from a witness character `j` (helper for
      the worked cases below). */
  lemma ExtensionAt(p: string, e: string, j: int)
    requires 0 < |e| <= |p| && p[|p| - |e|..] == e && e[0] == '.'
    requires forall k :: 1 <= k < |e| ==> e[k] != '.' && e[k] != '/'
    requires 0 <= j < |p| - |e| && p[j] != '.' && p[j] != '/'
    requires forall m :: j < m < |p| - |e| ==> p[m] != '/'
    ensures Extension(p) == e
  {
    assert NoSepBetween(p, j, |p| - |e|);
    ExtensionComplete(p, e);
  }

  /** Lower-casing a short literal (helper for the worked cases below). */
  lemma LowerExample(s: string, t: string)
    requires |s| == |t| && forall k :: 0 <= k < |s| ==> LowerChar(s[k]) == t[k]
    ensures Lower(s) == t
  {
    LowerPointwise(s);
  }

  /** Worked cases of the classifier: upper-case extensions are accepted, only
      the last extension counts, and names with other, trailing, leading-only or
      no extensions are rejected. The names are parameters fixed by `requires`
      rather than literals in the `ensures`, which keeps the proofs cheap. */
  lemma CaseExamples(upper: string, lower: string)
    requires upper == "photo.JPG" && lower == "photo.jpg"
    ensures IsImageName(upper) && IsImageName(lower)
  {
    ExtensionAt(upper, ".JPG", 0);
    LowerExample(".JPG", ".jpg");
    ExtensionAt(lower, ".jpg", 0);
    LowerExample(".jpg", ".jpg");
  }

  lemma LastExtensionExamples(two: string, backup: string)
    requires two == "archive.tar.png" && backup == "photo.jpg.bak"
    ensures IsImageName(two) && !IsImageName(backup)
  {
    ExtensionAt(two, ".png", 0);
    LowerExample(".png", ".png");
    ExtensionAt(backup, ".bak", 0);
    LowerExample(".bak", ".bak");
  }

  lemma RejectedExamples(text: string, hidden: string, bare: string)
    requires text == "notes.txt" && hidden == ".png" && bare == "README"
    ensures !IsImageName(text) && !IsImageName(hidden) && !IsImageName(bare)
  {
    ExtensionAt(text, ".txt", 0);
    LowerExample(".txt", ".txt");
    LeadingDotsNoImage(hidden);
    NoDotNoImage(bare);
  }
}
