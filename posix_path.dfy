/**
 * The two POSIX path helpers the converter uses to name its outputs, and the
 * name generator built on them.
 */
module PosixPath {

  /** Index of the last occurrence of `c` in `s`, or -1 when there is none (`str.rfind`). */
  function LastIndexOf(s: string, c: char): (r: int)
    ensures -1 <= r < |s|
    ensures r >= 0 ==> s[r] == c
    ensures forall j :: r < j < |s| ==> s[j] != c
  {
    if s == [] then -1
    else if s[|s| - 1] == c then |s| - 1
    else LastIndexOf(s[..|s| - 1], c)
  }

  /** Every character of `s[lo..hi]` is a dot. */
  predicate AllDots(s: string, lo: int, hi: int)
    requires 0 <= lo <= hi <= |s|
  {
    forall i :: lo <= i < hi ==> s[i] == '.'
  }

  /** `posixpath.basename`: the text after the last `/`. */
  function Basename(p: string): (r: string)
    ensures forall i :: 0 <= i < |r| ==> r[i] != '/'
    ensures |r| <= |p| && p[|p| - |r|..] == r
    ensures |r| == |p| || p[|p| - |r| - 1] == '/'
  {
    p[LastIndexOf(p, '/') + 1..]
  }

  /**
   * Where `posixpath.splitext` cuts `p`: at the last dot of the last path
   * component, unless every character of that component before the dot is
   * itself a dot (so `.profile` and `..x` have no extension); `|p|` when it
   * does not cut.
   */
  function ExtStart(p: string): (k: nat)
    ensures k <= |p|
    ensures k < |p| ==> p[k] == '.'
    ensures forall j :: k < j < |p| ==> p[j] != '.' && p[j] != '/'
  {
    var sep := LastIndexOf(p, '/');
    var dot := LastIndexOf(p, '.');
    if dot > sep && !AllDots(p, sep + 1, dot) then dot else |p|
  }

  /** `posixpath.splitext`: the root and the extension, which together give back `p`. */
  function SplitExt(p: string): (parts: (string, string))
    ensures parts.0 + parts.1 == p
    ensures parts.1 == [] || parts.1[0] == '.'
    ensures forall j :: 1 <= j < |parts.1| ==> parts.1[j] != '.' && parts.1[j] != '/'
  {
    (p[..ExtStart(p)], p[ExtStart(p)..])
  }

  /**
   * `filename_gen`: the last component of `path` without its extension, then
   * `.` and `extension`. The name ends with `.extension`, and what precedes
   * that is a prefix of the last component whose remainder is the extension
   * `SplitExt` drops.
   */
  function FilenameGen(path: string, extension: string): (name: string)
    ensures |name| >= |extension| + 1
    ensures name[|name| - |extension| - 1..] == "." + extension
    ensures var stem := name[..|name| - |extension| - 1];
      Basename(path) == stem + SplitExt(Basename(path)).1
  {
    var parts := SplitExt(Basename(path));
    StemDotExtension(parts.0, extension);
    parts.0 + "." + extension
  }

  /** `stem + "." + extension` splits back into `stem` and `"." + extension`. */
  lemma StemDotExtension(stem: string, extension: string)
    ensures var name := stem + "." + extension;
      && |name| - |extension| - 1 == |stem|
      && name[..|stem|] == stem
      && name[|stem|..] == "." + extension
  {
    var name := stem + "." + extension;
    assert name[..|stem|] == stem;
  }

  /** No dot of `p` after `lo` has a non-dot character between `lo` and itself. */
  predicate NoExtension(p: string, lo: int)
    requires 0 <= lo <= |p|
  {
    forall k :: lo <= k < |p| && p[k] == '.' ==> AllDots(p, lo, k)
  }

  /**
   * `SplitExt` keeps `p` whole exactly when `p` has no extension to drop:
   * every dot in its last component has only dots before it in that component.
   */
  lemma SplitExtKeepsWhole(p: string)
    ensures SplitExt(p).0 == p <==> NoExtension(p, LastIndexOf(p, '/') + 1)
  {
    var sep := LastIndexOf(p, '/');
    var dot := LastIndexOf(p, '.');
    if dot > sep && !AllDots(p, sep + 1, dot) {
      assert ExtStart(p) == dot;
      assert |SplitExt(p).0| == dot < |p|;
      assert p[dot] == '.';
    } else {
      assert ExtStart(p) == |p|;
      forall k | sep + 1 <= k < |p| && p[k] == '.'
        ensures AllDots(p, sep + 1, k)
      {
        assert k <= dot;
        AllDotsShrink(p, sep + 1, k, dot);
      }
    }
  }

  lemma AllDotsShrink(p: string, lo: int, mid: int, hi: int)
    requires 0 <= lo <= mid <= hi <= |p| && AllDots(p, lo, hi)
    ensures AllDots(p, lo, mid)
  {
  }

  /** The generated name has no directory part unless the extension brings one. */
  lemma FilenameGenNoDirectory(path: string, extension: string)
    requires forall j :: 0 <= j < |extension| ==> extension[j] != '/'
    ensures forall i :: 0 <= i < |FilenameGen(path, extension)| ==> FilenameGen(path, extension)[i] != '/'
  {
    var base := Basename(path);
    var stem := SplitExt(base).0;
    assert stem == base[..|stem|];
    assert forall i :: 0 <= i < |stem| ==> stem[i] != '/';
    assert FilenameGen(path, extension) == stem + "." + extension;
    NoSlashJoined(stem, extension);
  }

  /** Joining two slash-free strings with a dot gives a slash-free string. */
  lemma NoSlashJoined(stem: string, extension: string)
    requires forall i :: 0 <= i < |stem| ==> stem[i] != '/'
    requires forall j :: 0 <= j < |extension| ==> extension[j] != '/'
    ensures forall i :: 0 <= i < |stem + "." + extension| ==> (stem + "." + extension)[i] != '/'
  {
  }
}
