/**
 * Naming of stock columns (app.py:34): each uploaded file gives one column,
 * named `os.path.splitext(name)[0]`, the file name without its extension.
 *
 * `splitext` follows POSIX path rules: the extension is the part from the
 * last '.' on, provided that dot lies in the last path component and that
 * component has some character other than '.' before the dot (so a
 * leading-dot name such as ".csv" has no extension).
 */
module Naming {

  const Sep := '/'
  const ExtSep := '.'

  /** `str.rfind`: the index of the last occurrence of `c`, or -1. */
  function LastIndexOf(s: string, c: char): (k: int)
    ensures -1 <= k < |s|
    ensures k >= 0 ==> s[k] == c
    ensures forall j :: k < j < |s| ==> s[j] != c
  {
    if s == [] then -1
    else if s[|s| - 1] == c then |s| - 1
    else LastIndexOf(s[..|s| - 1], c)
  }

  /** Some character of s[lo..hi] is not a dot. */
  predicate HasNonDot(s: string, lo: int, hi: int)
    requires 0 <= lo <= hi <= |s|
  {
    exists k :: lo <= k < hi && s[k] != ExtSep
  }

  /** `os.path.splitext(p)`: (root, ext). */
  function SplitExt(p: string): (r: (string, string))
    ensures r.0 + r.1 == p
    ensures r.1 == [] || (r.1[0] == ExtSep && ExtSep !in r.1[1..] && Sep !in r.1)
    ensures r.1 != [] ==> exists k :: 0 <= k < |r.0| && r.0[k] != ExtSep && r.0[k] != Sep
  {
    var sepIndex := LastIndexOf(p, Sep);
    var dotIndex := LastIndexOf(p, ExtSep);
    if dotIndex > sepIndex && HasNonDot(p, sepIndex + 1, dotIndex) then
      assert p[..dotIndex] + p[dotIndex..] == p;
      (p[..dotIndex], p[dotIndex..])
    else
      (p, [])
  }

  /**
   * A dot at d starts an extension: it is the last dot, no separator
   * follows it, and the last path component has a character other than a
   * dot before it.
   */
  predicate ExtensionAt(p: string, d: int)
  {
    && 0 <= d < |p| && p[d] == ExtSep
    && (forall j :: d < j < |p| ==> p[j] != ExtSep)
    && (forall j :: d <= j < |p| ==> p[j] != Sep)
    && exists k :: 0 <= k < d && p[k] != ExtSep && forall j :: k <= j < d ==> p[j] != Sep
  }

  /** SplitExt splits exactly at the extension dot, and splits off nothing when there is none. */
  lemma SplitExtSpec(p: string)
    ensures SplitExt(p).1 != [] <==> exists d :: ExtensionAt(p, d)
    ensures SplitExt(p).1 != [] ==> ExtensionAt(p, |SplitExt(p).0|)
  {
    var sepIndex := LastIndexOf(p, Sep);
    var dotIndex := LastIndexOf(p, ExtSep);
    if exists d :: ExtensionAt(p, d) {
      var d :| ExtensionAt(p, d);
      ExtensionIsSplit(p, d);
    }
    if dotIndex > sepIndex && HasNonDot(p, sepIndex + 1, dotIndex) {
      var k :| sepIndex + 1 <= k < dotIndex && p[k] != ExtSep;
      assert forall j :: k <= j < dotIndex ==> p[j] != Sep;
      assert ExtensionAt(p, dotIndex);
    }
  }

  /** An extension dot is the last dot, past the last separator, with a non-dot between them. */
  lemma ExtensionIsSplit(p: string, d: int)
    requires ExtensionAt(p, d)
    ensures
      var sepIndex := LastIndexOf(p, Sep);
      && d == LastIndexOf(p, ExtSep) && sepIndex < d && HasNonDot(p, sepIndex + 1, d)
  {
    var sepIndex := LastIndexOf(p, Sep);
    var k :| 0 <= k < d && p[k] != ExtSep && forall j :: k <= j < d ==> p[j] != Sep;
    assert sepIndex < k;
  }

  /** `nombre_accion`: the column name given to an uploaded file. */
  function StockName(fileName: string): (name: string)
    ensures |name| <= |fileName| && name == fileName[..|name|]
  {
    SplitExt(fileName).0
  }

  /**
   * Splitting undoes appending an extension: a base name with some
   * character other than '.', followed by ".ext" with no dot or separator
   * in ext, splits back into that base name and ".ext".
   */
  lemma SplitExtOfJoined(base: string, ext: string)
    requires Sep !in base && exists k :: 0 <= k < |base| && base[k] != ExtSep
    requires ExtSep !in ext && Sep !in ext
    ensures SplitExt(base + [ExtSep] + ext) == (base, [ExtSep] + ext)
  {
    var p := base + [ExtSep] + ext;
    assert p[|base|] == ExtSep;
    forall j | |base| < j < |p| ensures p[j] != ExtSep && p[j] != Sep {
      assert p[j] == ext[j - |base| - 1];
      assert ext[j - |base| - 1] in ext;
    }
    forall j | 0 <= j < |base| ensures p[j] != Sep {
      assert p[j] == base[j];
      assert base[j] in base;
    }
    var sepIndex := LastIndexOf(p, Sep);
    var dotIndex := LastIndexOf(p, ExtSep);
    assert dotIndex == |base|;
    assert sepIndex == -1;
    var k :| 0 <= k < |base| && base[k] != ExtSep;
    assert p[k] == base[k];
    assert HasNonDot(p, 0, dotIndex);
    assert p[..dotIndex] == base;
    assert p[dotIndex..] == [ExtSep] + ext;
  }

  /** `AAA.csv` becomes the column `AAA`. */
  lemma StockNameOfCsv(base: string)
    requires Sep !in base && exists k :: 0 <= k < |base| && base[k] != ExtSep
    ensures StockName(base + ".csv") == base
  {
    SplitExtOfJoined(base, "csv");
    assert base + ".csv" == base + [ExtSep] + "csv";
  }

  /** A name that is only dots and an extension keeps its leading dots: ".csv" names the column ".csv". */
  lemma LeadingDotNameKept(ext: string)
    requires ExtSep !in ext && Sep !in ext
    ensures StockName([ExtSep] + ext) == [ExtSep] + ext
  {
  }
}
