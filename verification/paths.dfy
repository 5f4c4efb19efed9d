/**
 The POSIX path helpers the watcher relies on: `path.parse` (for the `dir` and
 `base` of a FAX record), `path.extname` (for the `.pdf` filter) and the
 `dir.split(path.sep).pop()` idiom that names a record's last folder.
 The separator is '/'.
 */
module Paths {
  import opened Options

  type Path = string

  const Sep: char := '/'

  /** The extension the watcher accepts. */
  const PdfExt: string := ".pdf"

  /** Position of the last occurrence of `c` in `s`, if any. */
  function LastIndexOf(s: string, c: char): (r: Option<nat>)
    ensures r.None? <==> c !in s
    ensures r.Some? ==> r.value < |s| && s[r.value] == c && c !in s[r.value + 1..]
    decreases |s|
  {
    if |s| == 0 then None
    else if s[|s| - 1] == c then Some(|s| - 1)
    else
      var r := LastIndexOf(s[..|s| - 1], c);
      assert s == s[..|s| - 1] + [s[|s| - 1]];
      if r.Some? then
        assert s[r.value + 1..] == s[..|s| - 1][r.value + 1..] + [s[|s| - 1]];
        r
      else r
  }

  /** `p` without its trailing separators. */
  function TrimTrailing(p: Path): (t: Path)
    ensures |t| <= |p| && t == p[..|t|]
    ensures t == [] || t[|t| - 1] != Sep
    ensures forall i | |t| <= i < |p| :: p[i] == Sep
    decreases |p|
  {
    if |p| > 0 && p[|p| - 1] == Sep then TrimTrailing(p[..|p| - 1]) else p
  }

  predicate IsAbsolute(p: Path) {
    |p| > 0 && p[0] == Sep
  }

  /** The two fields of `path.parse` a FAX record keeps. */
  datatype Parsed = Parsed(dir: Path, base: string)

  /**
   `path.parse(p)` restricted to `dir` and `base`: `base` is the last
   component once trailing separators are dropped; `dir` is everything before
   the separator that precedes it, or "/" when that separator is the root.
   */
  function Parse(p: Path): (r: Parsed)
    ensures Sep !in r.base
    ensures r.dir == "" <==> !IsAbsolute(p) && Sep !in TrimTrailing(p)
    ensures r.dir == "" ==> TrimTrailing(p) == r.base
    ensures r.dir == "/" ==> TrimTrailing(p) == "/" + r.base || TrimTrailing(p) == "//" + r.base || TrimTrailing(p) == r.base == ""
    ensures r.dir != "" && r.dir != "/" ==> TrimTrailing(p) == r.dir + "/" + r.base
  {
    var t := TrimTrailing(p);
    match LastIndexOf(t, Sep)
    case None =>
      assert IsAbsolute(p) ==> t == [];
      Parsed(if IsAbsolute(p) then "/" else "", t)
    case Some(k) =>
      assert t == t[..k] + [Sep] + t[k + 1..];
      assert t[..k] == p[..k];
      assert k == 0 ==> IsAbsolute(p);
      var dir := if k == 0 then "/" else p[..k];
      assert k == 0 ==> t == "/" + t[k + 1..];
      assert k > 0 ==> t == dir + "/" + t[k + 1..];
      assert k > 0 && dir == "/" ==> t == "//" + t[k + 1..];
      Parsed(dir, t[k + 1..])
  }

  /** `dir.split('/').pop()`: the text after the last separator of `dir`. */
  function LastSegment(dir: Path): (r: string)
    ensures Sep !in r
    ensures |r| <= |dir| && dir[|dir| - |r|..] == r
    ensures |r| < |dir| ==> dir[|dir| - |r| - 1] == Sep
  {
    match LastIndexOf(dir, Sep)
    case None => dir
    case Some(k) => dir[k + 1..]
  }

  /**
   The extension rule of `path.extname`, applied to a last component `b`: from
   the last '.' to the end, or "" when there is no '.', when the only text
   before the last '.' is nothing, or when `b` is "..".
   */
  function ExtOf(b: string): string
  {
    match LastIndexOf(b, '.')
    case None => ""
    case Some(i) => if i == 0 || b == ".." then "" else b[i..]
  }

  /** `path.extname(p)`: the extension of the last component of `p`. */
  function ExtName(p: Path): string
  {
    ExtOf(Parse(p).base)
  }

  /** The watcher's `#isPdfPath`: the extension is exactly ".pdf". */
  predicate IsPdfPath(p: Path) {
    ExtName(p) == PdfExt
  }

  /**
   A component has extension ".pdf" exactly when it ends in ".pdf" and has
   something before that suffix (so ".pdf" alone has no extension).
   */
  lemma PdfExtIff(b: string)
    ensures ExtOf(b) == PdfExt <==> |b| > |PdfExt| && b[|b| - |PdfExt|..] == PdfExt
  {
    if |b| > |PdfExt| && b[|b| - |PdfExt|..] == PdfExt {
      LastDotOfPdfName(b);
      assert b != ".." && |b| - |PdfExt| != 0;
    }
    if ExtOf(b) == PdfExt {
      var li := LastIndexOf(b, '.');
      assert li.Some? && li.value != 0 && b[li.value..] == PdfExt;
      assert |b| - li.value == |PdfExt|;
    }
  }

  /** A path is accepted exactly when its last component ends in ".pdf" after a non-empty stem. */
  lemma IsPdfPathIff(p: Path)
    ensures var b := Parse(p).base;
      IsPdfPath(p) <==> |b| > |PdfExt| && b[|b| - |PdfExt|..] == PdfExt
  {
    PdfExtIff(Parse(p).base);
  }

  /** In a name ending in ".pdf" the last '.' is the one that starts the suffix. */
  lemma LastDotOfPdfName(b: string)
    requires |b| >= |PdfExt| && b[|b| - |PdfExt|..] == PdfExt
    ensures LastIndexOf(b, '.') == Some(|b| - |PdfExt|)
  {
    var i := |b| - 4;
    assert b[i] == '.' && b[i + 1] == 'p' && b[i + 2] == 'd' && b[i + 3] == 'f';
    assert b[i] in b;
  }
}
