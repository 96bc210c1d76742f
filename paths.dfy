/**
 * `os.path.splitext` under POSIX rules: the extension is the suffix that starts at
 * the last dot of the final path component, dot included, unless every character of
 * the component before that dot is itself a dot (".pdf" and "..pdf" have none).
 * Only '/' separates components.
 */
module Paths {

  import opened Text

  const SEP: char := '/'
  const EXTSEP: char := '.'

  /** Some character of p[lo..hi] is not a dot. */
  predicate HasNonDot(p: string, lo: int, hi: int)
    requires 0 <= lo <= hi <= |p|
  {
    exists j :: lo <= j < hi && p[j] != EXTSEP
  }

  /** The final path component: what follows the last separator. */
  function BaseName(p: string): (b: string)
    ensures forall k :: 0 <= k < |b| ==> b[k] != SEP
  {
    p[LastIndexOf(SEP, p) + 1..]
  }

  /** `os.path.splitext(p)`: the pair (root, ext) with root + ext == p. */
  function SplitExt(p: string): (r: (string, string))
    ensures r.0 + r.1 == p
    ensures r.1 != "" ==> r.1[0] == EXTSEP
    ensures forall k :: 1 <= k < |r.1| ==> r.1[k] != EXTSEP
    ensures forall k :: 0 <= k < |r.1| ==> r.1[k] != SEP
  {
    var sepIndex := LastIndexOf(SEP, p);
    var dotIndex := LastIndexOf(EXTSEP, p);
    if dotIndex > sepIndex && HasNonDot(p, sepIndex + 1, dotIndex) then
      (p[..dotIndex], p[dotIndex..])
    else
      (p, "")
  }

  /**
   * `os.path.splitext(p)[0]`: a prefix of the path that the extension completes; when
   * an extension was cut off, the stem keeps some non-dot character of the file name.
   */
  function Stem(p: string): (r: string)
    ensures r <= p && r + Ext(p) == p
    ensures r != p ==> exists j :: LastIndexOf(SEP, p) < j < |r| && p[j] != EXTSEP
  {
    SplitExt(p).0
  }

  function Ext(p: string): string
  {
    SplitExt(p).1
  }

  /**
   * A dot-led suffix free of dots and separators is the extension, provided the
   * final component of what precedes it holds a character other than a dot (at `j`).
   */
  lemma ExtensionOf(root: string, x: string, j: int)
    requires EXTSEP !in x && SEP !in x
    requires LastIndexOf(SEP, root) < j < |root| && root[j] != EXTSEP
    ensures SplitExt(root + [EXTSEP] + x) == (root, [EXTSEP] + x)
  {
    var ext := [EXTSEP] + x;
    var p := root + ext;
    assert root + [EXTSEP] + x == p;
    assert LastIndexOf(EXTSEP, p) == |root| by {
      LastIndexOfMarker(EXTSEP, root, x);
    }
    assert LastIndexOf(SEP, p) == LastIndexOf(SEP, root) by {
      LastIndexOfPast(SEP, root, EXTSEP, x);
    }
    assert p[j] == root[j];
    SplitAtLastDot(p, |root|);
    assert p[..|root|] == root;
    assert p[|root|..] == ext;
  }

  /** A file name with no directory part, not starting with a dot, followed by a dot-led suffix. */
  lemma NamedExtension(name: string, x: string)
    requires SEP !in name && |name| > 0 && name[0] != EXTSEP
    requires EXTSEP !in x && SEP !in x
    ensures SplitExt(name + [EXTSEP] + x) == (name, [EXTSEP] + x)
  {
    assert LastIndexOf(SEP, name) == -1;
    ExtensionOf(name, x, 0);
  }

  lemma SplitAtLastDot(p: string, d: int)
    requires d == LastIndexOf(EXTSEP, p) && d > LastIndexOf(SEP, p)
    requires HasNonDot(p, LastIndexOf(SEP, p) + 1, d)
    ensures SplitExt(p) == (p[..d], p[d..])
  {
  }

  /** A final component without a dot has no extension. */
  lemma NoDotNoExtension(p: string)
    requires EXTSEP !in BaseName(p)
    ensures SplitExt(p) == (p, "")
  {
  }

  /** A path with no dot anywhere has no extension. */
  lemma DotFreeNoExtension(p: string)
    requires EXTSEP !in p
    ensures SplitExt(p) == (p, "")
  {
    var b := BaseName(p);
    assert forall k :: 0 <= k < |b| ==> b[k] == p[LastIndexOf(SEP, p) + 1 + k];
    NoDotNoExtension(p);
  }

  /** Dots in the directory part do not count when the file name itself has none. */
  lemma DirectoryDotNoExtension(dir: string, name: string)
    requires EXTSEP !in name && SEP !in name
    ensures SplitExt(dir + [SEP] + name) == (dir + [SEP] + name, "")
  {
    var p := dir + [SEP] + name;
    assert LastIndexOf(SEP, p) == |dir| by {
      LastIndexOfMarker(SEP, dir, name);
    }
    assert BaseName(p) == name;
    NoDotNoExtension(p);
  }

  /**
   * A final component made of leading dots and a dot-free name has no extension:
   * ".pdf", "..pdf" and "...x" are all hidden names, not extensions.
   */
  lemma LeadingDotNoExtension(dir: string, dots: string, x: string)
    requires dir == [] || dir[|dir| - 1] == SEP
    requires forall k :: 0 <= k < |dots| ==> dots[k] == EXTSEP
    requires EXTSEP !in x && SEP !in x
    ensures SplitExt(dir + dots + [EXTSEP] + x) == (dir + dots + [EXTSEP] + x, "")
  {
    var p := dir + dots + [EXTSEP] + x;
    assert LastIndexOf(EXTSEP, p) == |dir| + |dots| by {
      LastIndexOfMarker(EXTSEP, dir + dots, x);
    }
    assert LastIndexOf(SEP, p) == |dir| - 1 by {
      LastIndexOfPast(SEP, dir + dots, EXTSEP, x);
      LastIndexOfAppend(SEP, dir, dots);
    }
    assert !HasNonDot(p, |dir|, |dir| + |dots|) by {
      assert forall j :: |dir| <= j < |dir| + |dots| ==> p[j] == dots[j - |dir|];
    }
  }
}
