/**
 * The universal document parser: it checks that the file exists, picks an
 * extractor by the lower-cased file extension, runs it and wraps any failure of
 * the extraction in a parse error.
 *
 * The file system and the third-party decoders are not modelled: whether the path
 * exists is a parameter, and each decoder is a function from a path to either the
 * decoded document or the text of the exception it raised.
 */
module DocumentParser {

  import opened Results
  import opened Text
  import opened Paths
  import opened Documents
  import opened Extractors

  /** The four extractor routines the format table can name. */
  datatype Extractor = WordExtractor | PptExtractor | ExcelExtractor | PdfExtractor

  /** The format table: lower-cased extension to extractor. */
  const SupportedFormats: map<string, Extractor> := map[
    ".docx" := WordExtractor,
    ".pptx" := PptExtractor,
    ".xlsx" := ExcelExtractor,
    ".pdf" := PdfExtractor,
    ".doc" := WordExtractor
  ]

  /** Looks an extension up in the format table; exactly five extensions are known. */
  function Lookup(ext: string): (r: Option<Extractor>)
    ensures r == Some(WordExtractor) <==> ext == ".docx" || ext == ".doc"
    ensures r == Some(PptExtractor) <==> ext == ".pptx"
    ensures r == Some(ExcelExtractor) <==> ext == ".xlsx"
    ensures r == Some(PdfExtractor) <==> ext == ".pdf"
    ensures r == None <==> ext != ".docx" && ext != ".doc" && ext != ".pptx" && ext != ".xlsx" && ext != ".pdf"
  {
    if ext in SupportedFormats then Some(SupportedFormats[ext]) else None
  }

  /**
   * The three ways parsing fails: a missing file (a FileNotFoundError, which is
   * not a DocumentParseError), an extension outside the table, and a failure
   * raised while extracting, carrying the text of the original exception.
   */
  datatype ParseError =
    | NotFound(path: string)
    | Unsupported(ext: string)
    | ExtractionFailed(cause: string)

  /** Only the two failures after the existence check are DocumentParseErrors. */
  predicate IsDocumentParseError(e: ParseError)
  {
    !e.NotFound?
  }

  const NotFoundPrefix: string := "文件不存在："
  const UnsupportedPrefix: string := "不支持的文件格式："
  const FailedPrefix: string := "解析失败："

  /** The message each error carries. */
  function Message(e: ParseError): string
  {
    match e
    case NotFound(path) => NotFoundPrefix + path
    case Unsupported(ext) => UnsupportedPrefix + ext
    case ExtractionFailed(cause) => FailedPrefix + cause
  }

  /** Reads an error back from its message, by its prefix. */
  function ErrorOf(m: string): Option<ParseError>
  {
    if |NotFoundPrefix| <= |m| && m[..|NotFoundPrefix|] == NotFoundPrefix then
      Some(NotFound(m[|NotFoundPrefix|..]))
    else if |UnsupportedPrefix| <= |m| && m[..|UnsupportedPrefix|] == UnsupportedPrefix then
      Some(Unsupported(m[|UnsupportedPrefix|..]))
    else if |FailedPrefix| <= |m| && m[..|FailedPrefix|] == FailedPrefix then
      Some(ExtractionFailed(m[|FailedPrefix|..]))
    else None
  }

  /** The three messages never collide: each names its kind and keeps its payload whole. */
  lemma MessageRoundTrip(e: ParseError)
    ensures ErrorOf(Message(e)) == Some(e)
  {
    var m := Message(e);
    match e
    case NotFound(path) =>
      assert m[..|NotFoundPrefix|] == NotFoundPrefix;
      assert m[|NotFoundPrefix|..] == path;
    case Unsupported(ext) =>
      assert m[0] == UnsupportedPrefix[0] != NotFoundPrefix[0];
      assert m[..|UnsupportedPrefix|] == UnsupportedPrefix;
      assert m[|UnsupportedPrefix|..] == ext;
    case ExtractionFailed(cause) =>
      assert m[0] == FailedPrefix[0];
      assert FailedPrefix[0] != NotFoundPrefix[0] && FailedPrefix[0] != UnsupportedPrefix[0];
      assert m[..|FailedPrefix|] == FailedPrefix;
      assert m[|FailedPrefix|..] == cause;
  }

  /** The decoders of the four libraries: a decoded document, or the text of the exception raised. */
  datatype Decoders = Decoders(
    word: string -> Result<WordDocument, string>,
    deck: string -> Result<Presentation, string>,
    workbook: string -> Result<Workbook, string>,
    pdf: string -> Result<PdfDocument, string>)

  /** The extension as the parser sees it: the last suffix of the file name, lower-cased. */
  function FileExtension(path: string): (ext: string)
    ensures ext == "" || ext[0] == EXTSEP
    ensures forall k :: 1 <= k < |ext| ==> ext[k] != EXTSEP && ext[k] != SEP
    ensures |ext| <= |path|
  {
    Lower(Ext(path))
  }

  /**
   * Turns a decoder's outcome into the parse outcome: a success is the joined
   * fragments; a failure becomes a DocumentParseError whose message is the failure
   * prefix followed by the text of the original exception, which can be read back.
   */
  function Assemble<D>(decoded: Result<D, string>, fragments: D -> seq<string>): (r: Result<string, ParseError>)
    ensures decoded.Ok? <==> r.Ok?
    ensures decoded.Ok? ==> r.value == Join(NL, fragments(decoded.value))
    ensures decoded.Err? ==> r == Err(ExtractionFailed(decoded.error))
    ensures decoded.Err? ==> IsDocumentParseError(r.error) && Message(r.error) == FailedPrefix + decoded.error
    ensures decoded.Err? ==> ErrorOf(Message(r.error)) == Some(ExtractionFailed(decoded.error))
  {
    match decoded
    case Ok(doc) => Ok(Join(NL, fragments(doc)))
    case Err(cause) =>
      MessageRoundTrip(ExtractionFailed(cause));
      Err(ExtractionFailed(cause))
  }

  /** What running one extractor on a path yields. */
  function Extract(x: Extractor, path: string, dec: Decoders): Result<string, ParseError>
  {
    match x
    case WordExtractor => Assemble(dec.word(path), WordFragments)
    case PptExtractor => Assemble(dec.deck(path), PresentationFragments)
    case ExcelExtractor => Assemble(dec.workbook(path), WorkbookFragments)
    case PdfExtractor => Assemble(dec.pdf(path), PdfFragments)
  }

  /**
   * The outcome of parsing `path`. A missing file is reported before anything else,
   * an unknown extension before any decoder runs, and the extractor's failure is
   * wrapped while its success is returned unchanged.
   */
  function Outcome(path: string, pathExists: bool, dec: Decoders): (r: Result<string, ParseError>)
    ensures r == Err(NotFound(path)) <==> !pathExists
    ensures r == Err(Unsupported(FileExtension(path))) <==> pathExists && Lookup(FileExtension(path)).None?
    ensures r.Ok? || r.error.ExtractionFailed? ==> pathExists && Lookup(FileExtension(path)).Some?
    ensures pathExists && Lookup(FileExtension(path)).Some? ==> r == Extract(Lookup(FileExtension(path)).value, path, dec)
  {
    if !pathExists then Err(NotFound(path))
    else
      var ext := FileExtension(path);
      match Lookup(ext)
      case None => Err(Unsupported(ext))
      case Some(x) => Extract(x, path, dec)
  }

  /**
   * `UniversalDocumentParser.parse`: checks existence, dispatches on the extension
   * and runs the chosen extractor's loops.
   */
  method Parse(path: string, pathExists: bool, dec: Decoders) returns (r: Result<string, ParseError>)
    ensures r == Outcome(path, pathExists, dec)
  {
    if !pathExists {
      return Err(NotFound(path));
    }
    var ext := FileExtension(path);
    var extractor := Lookup(ext);
    if extractor.None? {
      return Err(Unsupported(ext));
    }
    match extractor.value
    case WordExtractor =>
      var decoded := dec.word(path);
      if decoded.Err? {
        return Err(ExtractionFailed(decoded.error));
      }
      var text := ParseWord(decoded.value);
      r := Ok(text);
    case PptExtractor =>
      var decoded := dec.deck(path);
      if decoded.Err? {
        return Err(ExtractionFailed(decoded.error));
      }
      var text := ParsePpt(decoded.value);
      r := Ok(text);
    case ExcelExtractor =>
      var decoded := dec.workbook(path);
      if decoded.Err? {
        return Err(ExtractionFailed(decoded.error));
      }
      var text := ParseExcel(decoded.value);
      r := Ok(text);
    case PdfExtractor =>
      var decoded := dec.pdf(path);
      if decoded.Err? {
        return Err(ExtractionFailed(decoded.error));
      }
      var text := ParsePdf(decoded.value);
      r := Ok(text);
  }

  // ---------------------------------------------------------------- properties

  /** A missing file fails with its path, whatever its name and whatever the decoders would do. */
  lemma MissingFileFirst(path: string, dec1: Decoders, dec2: Decoders)
    ensures Outcome(path, false, dec1) == Outcome(path, false, dec2) == Err(NotFound(path))
    ensures !IsDocumentParseError(Outcome(path, false, dec1).error)
    ensures Message(Outcome(path, false, dec1).error) == "文件不存在：" + path
  {
  }

  /**
   * An extension outside the table fails naming the extension, and no decoder is
   * consulted: the outcome is the same under any decoders.
   */
  lemma UnsupportedRunsNothing(path: string, dec1: Decoders, dec2: Decoders)
    requires Lookup(FileExtension(path)).None?
    ensures Outcome(path, true, dec1) == Outcome(path, true, dec2) == Err(Unsupported(FileExtension(path)))
    ensures IsDocumentParseError(Outcome(path, true, dec1).error)
    ensures Message(Outcome(path, true, dec1).error) == "不支持的文件格式：" + FileExtension(path)
  {
  }

  /** Only the decoder the extension selects matters: the others may do anything. */
  lemma OnlySelectedDecoderRuns(path: string, dec1: Decoders, dec2: Decoders)
    requires Lookup(FileExtension(path)) == Some(WordExtractor) ==> dec1.word(path) == dec2.word(path)
    requires Lookup(FileExtension(path)) == Some(PptExtractor) ==> dec1.deck(path) == dec2.deck(path)
    requires Lookup(FileExtension(path)) == Some(ExcelExtractor) ==> dec1.workbook(path) == dec2.workbook(path)
    requires Lookup(FileExtension(path)) == Some(PdfExtractor) ==> dec1.pdf(path) == dec2.pdf(path)
    ensures forall e :: Outcome(path, e, dec1) == Outcome(path, e, dec2)
  {
    var selected := Lookup(FileExtension(path));
    if selected.Some? {
      assert Extract(selected.value, path, dec1) == Extract(selected.value, path, dec2);
    }
  }

  /**
   * A failure while extracting becomes a DocumentParseError whose message is the
   * failure prefix followed by the original exception's text.
   */
  lemma FailureWrapped(path: string, dec: Decoders)
    requires Outcome(path, true, dec).Err?
    requires Lookup(FileExtension(path)).Some?
    ensures Outcome(path, true, dec).error.ExtractionFailed?
    ensures IsDocumentParseError(Outcome(path, true, dec).error)
    ensures var x := Lookup(FileExtension(path)).value;
      (x == WordExtractor ==> dec.word(path).Err? && Message(Outcome(path, true, dec).error) == "解析失败：" + dec.word(path).error)
      && (x == PptExtractor ==> dec.deck(path).Err? && Message(Outcome(path, true, dec).error) == "解析失败：" + dec.deck(path).error)
      && (x == ExcelExtractor ==> dec.workbook(path).Err? && Message(Outcome(path, true, dec).error) == "解析失败：" + dec.workbook(path).error)
      && (x == PdfExtractor ==> dec.pdf(path).Err? && Message(Outcome(path, true, dec).error) == "解析失败：" + dec.pdf(path).error)
  {
  }

  /** A successful extraction is returned unchanged: the newline-joined fragments. */
  lemma SuccessUnchanged(path: string, dec: Decoders)
    requires Outcome(path, true, dec).Ok?
    ensures Lookup(FileExtension(path)).Some?
    ensures var x, text := Lookup(FileExtension(path)).value, Outcome(path, true, dec).value;
      (x == WordExtractor ==> dec.word(path).Ok? && text == Join(NL, WordFragments(dec.word(path).value)))
      && (x == PptExtractor ==> dec.deck(path).Ok? && text == Join(NL, PresentationFragments(dec.deck(path).value)))
      && (x == ExcelExtractor ==> dec.workbook(path).Ok? && text == Join(NL, WorkbookFragments(dec.workbook(path).value)))
      && (x == PdfExtractor ==> dec.pdf(path).Ok? && text == Join(NL, PdfFragments(dec.pdf(path).value)))
  {
  }

  // ---------------------------------------------------------------- extensions of concrete names

  /** A plain file name followed by a dot-led suffix: the suffix, lower-cased, is the extension. */
  lemma NamedFileExtension(name: string, x: string)
    requires SEP !in name && |name| > 0 && name[0] != EXTSEP
    requires EXTSEP !in x && SEP !in x
    ensures FileExtension(name + [EXTSEP] + x) == Lower([EXTSEP] + x)
  {
    NamedExtension(name, x);
  }

  /** Legacy PowerPoint files are refused by extension. */
  lemma LegacyPptUnsupported()
    ensures FileExtension("slides.ppt") == ".ppt" && Lookup(".ppt").None?
  {
    NamedFileExtension("slides", "ppt");
    assert "slides" + [EXTSEP] + "ppt" == "slides.ppt";
    assert [EXTSEP] + "ppt" == ".ppt";
  }

  /** Legacy Excel files are refused by extension. */
  lemma LegacyXlsUnsupported()
    ensures FileExtension("book.xls") == ".xls" && Lookup(".xls").None?
  {
    NamedFileExtension("book", "xls");
    assert "book" + [EXTSEP] + "xls" == "book.xls";
    assert [EXTSEP] + "xls" == ".xls";
  }

  /** Upper-case extensions are accepted. */
  lemma UpperCaseExtension()
    ensures FileExtension("Report.PDF") == ".pdf" && Lookup(".pdf") == Some(PdfExtractor)
  {
    NamedFileExtension("Report", "PDF");
    assert "Report" + [EXTSEP] + "PDF" == "Report.PDF";
    assert [EXTSEP] + "PDF" == ".PDF";
  }

  /** A legacy Word file goes to the Word extractor. */
  lemma LegacyWordSupported()
    ensures FileExtension("old.doc") == ".doc" && Lookup(".doc") == Some(WordExtractor)
  {
    NamedFileExtension("old", "doc");
    assert "old" + [EXTSEP] + "doc" == "old.doc";
    assert [EXTSEP] + "doc" == ".doc";
  }

  /** A name without any dot has an empty extension, which is refused. */
  lemma NoDotUnsupported()
    ensures FileExtension("README") == "" && Lookup("").None?
  {
    DotFreeNoExtension("README");
  }

  /** A dot in a directory name is not an extension. */
  lemma DirectoryDotIgnored()
    ensures FileExtension("dir.d/file") == ""
  {
    DirectoryDotNoExtension("dir.d", "file");
    assert "dir.d" + [SEP] + "file" == "dir.d/file";
  }

  /** A hidden file named after a format has no extension. */
  lemma HiddenFileUnsupported()
    ensures FileExtension("data/.pdf") == ""
  {
    LeadingDotNoExtension("data/", "", "pdf");
    assert "data/" + "" + [EXTSEP] + "pdf" == "data/.pdf";
  }

  /** Every dot leading the file name is skipped: `..pdf` has no extension either. */
  lemma DoubleDotUnsupported(dec: Decoders)
    ensures FileExtension("..pdf") == ""
    ensures Outcome("..pdf", true, dec) == Err(Unsupported(""))
  {
    LeadingDotNoExtension("", ".", "pdf");
    assert "" + "." + [EXTSEP] + "pdf" == "..pdf";
  }
}
