/**
 * Copying the documents of one folder that have no counterpart in another.
 *
 * Files are compared by stem (the name without its last extension): every stem
 * that names a regular file of the source folder and no regular file of the
 * destination folder is a candidate, and for each candidate the four names
 * stem + ".txt", ".docx", ".xlsx", ".pdf" are probed in that order; each one that
 * is a regular file of the source folder is copied.
 *
 * A folder is modelled by its listing: each entry name mapped to whether it is a
 * regular file (false for a directory). The copy itself is not modelled; the
 * method returns the names it would copy, in order.
 */
module DocFind {

  import opened Text
  import opened Paths
  import opened Seqs

  /** A folder listing: entry name to "is a regular file". */
  type Folder = map<string, bool>

  /** The extensions probed for each candidate stem, in probing order. */
  const CopyExtensions: seq<string> := [".txt", ".docx", ".xlsx", ".pdf"]

  /** `os.path.isfile` on an entry of the folder. */
  predicate IsFile(folder: Folder, name: string)
  {
    name in folder && folder[name]
  }

  /** The stems of the regular files of a folder; directories do not count. */
  function FileStems(folder: Folder): (stems: set<string>)
    ensures forall f :: IsFile(folder, f) ==> Stem(f) in stems
    ensures forall s :: s in stems ==> exists f :: IsFile(folder, f) && Stem(f) == s
  {
    set f | f in folder && folder[f] :: Stem(f)
  }

  /**
   * The stems to copy: a stem qualifies exactly when some regular file of `src`
   * has it and no regular file of `dest` has it, whatever their extensions.
   */
  function Candidates(src: Folder, dest: Folder): (r: set<string>)
    ensures forall s :: s in r <==>
      (exists f :: IsFile(src, f) && Stem(f) == s) && (forall f :: IsFile(dest, f) ==> Stem(f) != s)
  {
    FileStems(src) - FileStems(dest)
  }

  /** The names probed for `stem` over `exts`, kept when they are regular files of `src`. */
  function Probe(src: Folder, stem: string, exts: seq<string>): (r: seq<string>)
    ensures |r| <= |exts|
    ensures forall i :: 0 <= i < |r| ==> IsFile(src, r[i])
  {
    if exts == [] then []
    else
      var name := stem + exts[|exts| - 1];
      Probe(src, stem, exts[..|exts| - 1]) + (if IsFile(src, name) then [name] else [])
  }

  /** What is copied for one stem. */
  function StemCopies(src: Folder, stem: string): seq<string>
  {
    Probe(src, stem, CopyExtensions)
  }

  /** What is copied when the candidate stems are visited in `order`. */
  function PlanFor(src: Folder, order: seq<string>): seq<string>
  {
    FlatMap(order, (stem: string) => StemCopies(src, stem))
  }

  /** `order` visits every element of `stems` exactly once. */
  predicate Enumerates(order: seq<string>, stems: set<string>)
  {
    && (forall i, j :: 0 <= i < j < |order| ==> order[i] != order[j])
    && (forall i :: 0 <= i < |order| ==> order[i] in stems)
    && (forall s :: s in stems ==> s in order)
  }

  /**
   * `compare_and_copy_files`: collects both stem sets, then for each candidate stem,
   * in the set's iteration order, probes the four extensions and copies what exists.
   * Returns the copied names and the order in which the stems were visited.
   */
  method CompareAndCopyFiles(src: Folder, dest: Folder) returns (copied: seq<string>, order: seq<string>)
    ensures Enumerates(order, Candidates(src, dest))
    ensures copied == PlanFor(src, order)
  {
    var toCopy := FileStems(src) - FileStems(dest);
    copied, order := CopyAll(src, toCopy);
  }

  /** The outer loop: visits each stem of `toCopy` once, in an arbitrary order, copying its files. */
  method CopyAll(src: Folder, toCopy: set<string>) returns (copied: seq<string>, order: seq<string>)
    ensures Enumerates(order, toCopy)
    ensures copied == PlanFor(src, order)
  {
    var remaining := toCopy;
    copied, order := [], [];
    while remaining != {}
      invariant remaining <= toCopy
      invariant forall i, j :: 0 <= i < j < |order| ==> order[i] != order[j]
      invariant forall i :: 0 <= i < |order| ==> order[i] in toCopy && order[i] !in remaining
      invariant forall s :: s in toCopy ==> s in remaining || s in order
      invariant copied == PlanFor(src, order)
      decreases |remaining|
    {
      var stem :| stem in remaining;
      remaining := remaining - {stem};
      copied := CopyStem(src, stem, copied);
      FlatMapSnoc(order, stem, (stem: string) => StemCopies(src, stem));
      order := order + [stem];
    }
  }

  /** The inner loop: probes the four extensions of one stem in order and copies what exists. */
  method CopyStem(src: Folder, stem: string, copied: seq<string>) returns (result: seq<string>)
    ensures result == copied + StemCopies(src, stem)
  {
    result := copied;
    for k := 0 to |CopyExtensions|
      invariant result == copied + Probe(src, stem, CopyExtensions[..k])
    {
      var name := stem + CopyExtensions[k];
      ProbeStep(src, stem, CopyExtensions, k);
      if name in src && src[name] {
        result := result + [name];
      }
    }
    assert CopyExtensions[..|CopyExtensions|] == CopyExtensions;
  }

  /** Probing one more extension appends its name when that name is a file. */
  lemma ProbeStep(src: Folder, stem: string, exts: seq<string>, k: int)
    requires 0 <= k < |exts|
    ensures Probe(src, stem, exts[..k + 1])
      == Probe(src, stem, exts[..k]) + (if IsFile(src, stem + exts[k]) then [stem + exts[k]] else [])
  {
    assert exts[..k + 1][..k] == exts[..k];
  }

  // ---------------------------------------------------------------- properties

  /** Two names built from a stem and one of the probed extensions are equal only if both parts are. */
  lemma ExtensionsUnambiguous(c1: string, k1: int, c2: string, k2: int)
    requires 0 <= k1 < |CopyExtensions| && 0 <= k2 < |CopyExtensions|
    requires c1 + CopyExtensions[k1] == c2 + CopyExtensions[k2]
    ensures c1 == c2 && k1 == k2
  {
    var n, e1, e2 := c1 + CopyExtensions[k1], CopyExtensions[k1], CopyExtensions[k2];
    DotLed(k1);
    DotLed(k2);
    assert c1 + [EXTSEP] + e1[1..] == n;
    assert c2 + [EXTSEP] + e2[1..] == n;
    LastIndexOfMarker(EXTSEP, c1, e1[1..]);
    LastIndexOfMarker(EXTSEP, c2, e2[1..]);
    assert c1 == n[..|c1|] && c2 == n[..|c2|];
    assert e1 == n[|c1|..] && e2 == n[|c2|..];
  }

  /** Each probed extension is a dot followed by dot-free text. */
  lemma DotLed(k: int)
    requires 0 <= k < |CopyExtensions|
    ensures CopyExtensions[k] == [EXTSEP] + CopyExtensions[k][1..]
    ensures EXTSEP !in CopyExtensions[k][1..]
  {
  }

  /** A name is probed for a stem exactly when it is the stem followed by a probed extension and is a file. */
  lemma {:induction false} ProbeMembers(src: Folder, stem: string, exts: seq<string>, n: string)
    ensures n in Probe(src, stem, exts) <==>
      IsFile(src, n) && exists k :: 0 <= k < |exts| && n == stem + exts[k]
  {
    if exts != [] {
      var init := exts[..|exts| - 1];
      ProbeMembers(src, stem, init, n);
      if exists k :: 0 <= k < |exts| && n == stem + exts[k] {
        var k :| 0 <= k < |exts| && n == stem + exts[k];
        if k < |init| {
          assert n == stem + init[k];
        }
      }
      if exists k :: 0 <= k < |init| && n == stem + init[k] {
        var k :| 0 <= k < |init| && n == stem + init[k];
        assert n == stem + exts[k];
      }
    }
  }

  /**
   * Probing keeps the extension order: of two names copied for one stem, the
   * earlier one carries the earlier extension.
   */
  lemma {:induction false} ProbeInOrder(src: Folder, stem: string, exts: seq<string>, i: int, j: int)
    requires 0 <= i < j < |Probe(src, stem, exts)|
    ensures exists ki, kj :: (0 <= ki < kj < |exts|
      && Probe(src, stem, exts)[i] == stem + exts[ki] && Probe(src, stem, exts)[j] == stem + exts[kj])
  {
    var init := exts[..|exts| - 1];
    var r, r' := Probe(src, stem, exts), Probe(src, stem, init);
    if j < |r'| {
      ProbeInOrder(src, stem, init, i, j);
      var ki, kj :| 0 <= ki < kj < |init| && r'[i] == stem + init[ki] && r'[j] == stem + init[kj];
      assert r[i] == stem + exts[ki] && r[j] == stem + exts[kj];
    } else {
      assert r[j] == stem + exts[|exts| - 1];
      assert r[i] == r'[i];
      ProbeMembers(src, stem, init, r'[i]);
      assert r'[i] in r';
      var ki :| 0 <= ki < |init| && r'[i] == stem + init[ki];
      assert r[i] == stem + exts[ki];
    }
  }

  /**
   * The copy is complete and exact: a name is copied exactly when it is a regular
   * file of `src` spelled as a visited candidate stem plus one of the four extensions.
   */
  lemma {:induction false} PlanMembers(src: Folder, order: seq<string>, n: string)
    ensures n in PlanFor(src, order) <==>
      IsFile(src, n) && exists i, k :: 0 <= i < |order| && 0 <= k < |CopyExtensions| && n == order[i] + CopyExtensions[k]
  {
    if order != [] {
      var init, last := order[..|order| - 1], order[|order| - 1];
      PlanMembers(src, init, n);
      ProbeMembers(src, last, CopyExtensions, n);
      assert PlanFor(src, order) == PlanFor(src, init) + StemCopies(src, last);
      if exists i, k :: 0 <= i < |order| && 0 <= k < |CopyExtensions| && n == order[i] + CopyExtensions[k] {
        var i, k :| 0 <= i < |order| && 0 <= k < |CopyExtensions| && n == order[i] + CopyExtensions[k];
        if i < |init| {
          assert n == init[i] + CopyExtensions[k];
        }
      }
      if exists i, k :: 0 <= i < |init| && 0 <= k < |CopyExtensions| && n == init[i] + CopyExtensions[k] {
        var i, k :| 0 <= i < |init| && 0 <= k < |CopyExtensions| && n == init[i] + CopyExtensions[k];
        assert n == order[i] + CopyExtensions[k];
      }
    }
  }

  /** Every copied name is a regular file of the source folder. */
  lemma PlanFromSource(src: Folder, order: seq<string>)
    ensures forall n :: n in PlanFor(src, order) ==> IsFile(src, n)
  {
    forall n | n in PlanFor(src, order)
      ensures IsFile(src, n)
    {
      PlanMembers(src, order, n);
    }
  }

  /** With each stem visited once, no name is copied twice. */
  lemma {:induction false} PlanDistinct(src: Folder, order: seq<string>)
    requires forall i, j :: 0 <= i < j < |order| ==> order[i] != order[j]
    ensures forall i, j :: 0 <= i < j < |PlanFor(src, order)| ==> PlanFor(src, order)[i] != PlanFor(src, order)[j]
  {
    if order != [] {
      var init, last := order[..|order| - 1], order[|order| - 1];
      var before, mine := PlanFor(src, init), StemCopies(src, last);
      PlanDistinct(src, init);
      StemCopiesDistinct(src, last);
      assert PlanFor(src, order) == before + mine;
      forall i, j | 0 <= i < |before| && 0 <= j < |mine|
        ensures before[i] != mine[j]
      {
        PlanMembers(src, init, before[i]);
        assert before[i] in before;
        var a, ka :| 0 <= a < |init| && 0 <= ka < |CopyExtensions| && before[i] == init[a] + CopyExtensions[ka];
        ProbeMembers(src, last, CopyExtensions, mine[j]);
        assert mine[j] in mine;
        var kb :| 0 <= kb < |CopyExtensions| && mine[j] == last + CopyExtensions[kb];
        if before[i] == mine[j] {
          ExtensionsUnambiguous(init[a], ka, last, kb);
        }
      }
    }
  }

  /** The names copied for one stem are distinct. */
  lemma StemCopiesDistinct(src: Folder, stem: string)
    ensures forall i, j :: 0 <= i < j < |StemCopies(src, stem)| ==> StemCopies(src, stem)[i] != StemCopies(src, stem)[j]
  {
    forall i, j | 0 <= i < j < |StemCopies(src, stem)|
      ensures StemCopies(src, stem)[i] != StemCopies(src, stem)[j]
    {
      ProbeInOrder(src, stem, CopyExtensions, i, j);
      var ki, kj :| 0 <= ki < kj < |CopyExtensions|
        && StemCopies(src, stem)[i] == stem + CopyExtensions[ki] && StemCopies(src, stem)[j] == stem + CopyExtensions[kj];
      if StemCopies(src, stem)[i] == StemCopies(src, stem)[j] {
        ExtensionsUnambiguous(stem, ki, stem, kj);
      }
    }
  }

  /**
   * A regular file of the destination blocks its stem: nothing spelled as that stem
   * plus a probed extension is copied, whatever extension the destination file has.
   */
  lemma DestinationBlocksStem(src: Folder, dest: Folder, order: seq<string>, f: string, k: int)
    requires Enumerates(order, Candidates(src, dest))
    requires IsFile(dest, f) && 0 <= k < |CopyExtensions|
    ensures Stem(f) !in Candidates(src, dest)
    ensures Stem(f) + CopyExtensions[k] !in PlanFor(src, order)
  {
    var n := Stem(f) + CopyExtensions[k];
    PlanMembers(src, order, n);
    if n in PlanFor(src, order) {
      var i, k' :| 0 <= i < |order| && 0 <= k' < |CopyExtensions| && n == order[i] + CopyExtensions[k'];
      ExtensionsUnambiguous(order[i], k', Stem(f), k);
    }
  }

  /** A directory entry, in either folder, changes nothing. */
  lemma DirectoriesIgnored(src: Folder, dest: Folder, d: string, e: string)
    requires d !in src && e !in dest
    ensures Candidates(src[d := false], dest[e := false]) == Candidates(src, dest)
    ensures forall order :: PlanFor(src[d := false], order) == PlanFor(src, order)
  {
    assert FileStems(src[d := false]) == FileStems(src);
    assert FileStems(dest[e := false]) == FileStems(dest);
    forall order
      ensures PlanFor(src[d := false], order) == PlanFor(src, order)
    {
      PlanSameFiles(src[d := false], src, order);
    }
  }

  /** Only which names are regular files matters to the plan. */
  lemma {:induction false} PlanSameFiles(a: Folder, b: Folder, order: seq<string>)
    requires forall n :: IsFile(a, n) <==> IsFile(b, n)
    ensures PlanFor(a, order) == PlanFor(b, order)
  {
    if order != [] {
      PlanSameFiles(a, b, order[..|order| - 1]);
      ProbeSameFiles(a, b, order[|order| - 1], CopyExtensions);
    }
  }

  lemma {:induction false} ProbeSameFiles(a: Folder, b: Folder, stem: string, exts: seq<string>)
    requires forall n :: IsFile(a, n) <==> IsFile(b, n)
    ensures Probe(a, stem, exts) == Probe(b, stem, exts)
  {
    if exts != [] {
      ProbeSameFiles(a, b, stem, exts[..|exts| - 1]);
    }
  }

  // ---------------------------------------------------------------- concrete folders

  /** A folder holding one regular file has that file's stem and no other. */
  lemma OneFileStems(name: string)
    ensures FileStems(map[name := true]) == {Stem(name)}
  {
  }

  /** The stem of a plain file name followed by a dot-led suffix is the name. */
  lemma NamedStem(name: string, x: string)
    requires SEP !in name && |name| > 0 && name[0] != EXTSEP
    requires EXTSEP !in x && SEP !in x
    ensures Stem(name + [EXTSEP] + x) == name
  {
    NamedExtension(name, x);
  }

  /** Stems compare case-sensitively: "A.pdf" in the destination does not block "a.docx". */
  lemma CaseSensitiveStems()
    ensures Candidates(map["a.docx" := true], map["A.pdf" := true]) == {"a"}
  {
    LowerDocxStem();
    UpperPdfStem();
  }

  /** The only stem of a folder holding "a.docx" is "a". */
  lemma LowerDocxStem()
    ensures FileStems(map["a.docx" := true]) == {"a"}
  {
    NamedStem("a", "docx");
    assert "a" + [EXTSEP] + "docx" == "a.docx";
    OneFileStems("a.docx");
  }

  /** The only stem of a folder holding "A.pdf" is "A". */
  lemma UpperPdfStem()
    ensures FileStems(map["A.pdf" := true]) == {"A"}
  {
    NamedStem("A", "pdf");
    assert "A" + [EXTSEP] + "pdf" == "A.pdf";
    OneFileStems("A.pdf");
  }

  /** Visiting a single stem copies exactly that stem's files. */
  lemma PlanOneStem(src: Folder, stem: string)
    ensures PlanFor(src, [stem]) == StemCopies(src, stem)
  {
    FlatMapSnoc([], stem, (stem: string) => StemCopies(src, stem));
    assert [] + [stem] == [stem];
  }

  /** A stem none of whose probed names is a file copies nothing. */
  lemma {:induction false} NothingToProbe(src: Folder, stem: string, exts: seq<string>)
    requires forall k :: 0 <= k < |exts| ==> !IsFile(src, stem + exts[k])
    ensures Probe(src, stem, exts) == []
  {
    if exts != [] {
      NothingToProbe(src, stem, exts[..|exts| - 1]);
    }
  }

  /** For the candidate "a", the only file with a probed extension is copied. */
  lemma CaseSensitivePlan()
    ensures PlanFor(map["a.docx" := true], ["a"]) == ["a.docx"]
  {
    var src := map["a.docx" := true];
    PlanOneStem(src, "a");
    assert "a" + CopyExtensions[0] == "a.txt";
    assert "a" + CopyExtensions[1] == "a.docx";
    assert "a" + CopyExtensions[2] == "a.xlsx";
    assert "a" + CopyExtensions[3] == "a.pdf";
    assert Probe(src, "a", CopyExtensions[..1]) == [] by {
      NothingToProbe(src, "a", CopyExtensions[..1]);
    }
    assert CopyExtensions[..2][..1] == CopyExtensions[..1];
    assert Probe(src, "a", CopyExtensions[..2]) == ["a.docx"];
    assert CopyExtensions[..3][..2] == CopyExtensions[..2];
    assert Probe(src, "a", CopyExtensions[..3]) == ["a.docx"];
    assert CopyExtensions[..4][..3] == CopyExtensions[..3];
    assert CopyExtensions[..4] == CopyExtensions;
  }

  /**
   * A candidate whose file has another extension copies nothing: "a.tar.gz" makes
   * "a.tar" a candidate, but only "a.tar" plus one of the four extensions would be copied.
   */
  lemma OtherExtensionsNotCopied()
    ensures Candidates(map["a.tar.gz" := true], map[]) == {"a.tar"}
    ensures PlanFor(map["a.tar.gz" := true], ["a.tar"]) == []
  {
    TarGzStem();
    TarGzNotProbed();
    PlanOneStem(map["a.tar.gz" := true], "a.tar");
  }

  /** The only stem of a folder holding "a.tar.gz" is "a.tar". */
  lemma TarGzStem()
    ensures FileStems(map["a.tar.gz" := true]) == {"a.tar"}
  {
    NamedStem("a.tar", "gz");
    assert "a.tar" + [EXTSEP] + "gz" == "a.tar.gz";
    OneFileStems("a.tar.gz");
  }

  /** None of the four names probed for "a.tar" is "a.tar.gz". */
  lemma TarGzNotProbed()
    ensures StemCopies(map["a.tar.gz" := true], "a.tar") == []
  {
    var src := map["a.tar.gz" := true];
    forall k | 0 <= k < |CopyExtensions|
      ensures !IsFile(src, "a.tar" + CopyExtensions[k])
    {
      assert |CopyExtensions[k]| >= 4;
    }
    NothingToProbe(src, "a.tar", CopyExtensions);
  }
}
