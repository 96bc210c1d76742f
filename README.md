# Universal document parser and folder-diff copier, in Dafny

This project models the text-extraction core of a small document-to-vector
toolkit and the folder-comparison script that ships beside it.

**The document parser** (`UniversalDocumentParser` in `file2vector.py`) takes a
file path. It does three things in order:

1. It rejects a path that does not exist.
2. It lower-cases the extension that `os.path.splitext` finds. It looks that
   extension up in a fixed table: `.docx` and `.doc` go to the Word extractor,
   `.pptx` to the slide extractor, `.xlsx` to the spreadsheet extractor and
   `.pdf` to the PDF extractor. Any other extension is rejected.
3. It runs the chosen extractor. If the extractor raises, the error is wrapped
   in a `DocumentParseError` whose message is "解析失败：" followed by the
   original message.

Each extractor walks its decoded document and appends text fragments to a list
in a fixed order: paragraphs, table rows, shape texts, sheet rows and page texts.
A table row is its cells joined by tabs. The result is the fragments joined by
newlines.

**The copier** (`compare_and_copy_files` in `docfind.py`) compares two folders by
file stem, meaning the name without its last extension. A stem counts when a
regular file of the source folder has it and no regular file of the destination
folder does. For each such stem, it copies the source files named stem + `.txt`,
`.docx`, `.xlsx` and `.pdf`, in that order, whenever they exist. Names are
compared exactly, as on a case-sensitive file system.

Layout:

- `results.dfy`: `Option` and `Result`.
- `text.dfy`: the string operations the code relies on: `join`, `split`,
  `find`/`rfind`, single-character `replace` and ASCII `lower`. It also holds the
  join/split round trip and the separator count.
- `paths.dfy`: POSIX `os.path.splitext` (with `rfind`, the leading-dot rule and
  `/` as the only separator), plus lemmas that compute it for families of names.
- `seqs.dfy`: `FlatMap`, the "for each element, append its fragments" shape, with
  lemmas that locate each element's block in the output.
- `documents.dfy`: the decoded documents as values: a Word document, a slide
  deck, a workbook with its used range and cell values, and a PDF with page texts
  and tables.
- `extractors.dfy`: for each format, a specification function that lists the
  fragments, and a method with the loops of `_parse_word`, `_parse_ppt`,
  `_parse_excel` or `_parse_pdf`, proved to return the
  newline-join of those fragments. Also lemmas on order, counts and rendering.
- `parser.dfy`: the format table, the error taxonomy and messages, and `Parse`,
  both as a function (`Outcome`) and as a method that calls the extractor
  methods. Also dispatch lemmas and concrete file names.
- `docfind.dfy`: stem sets, the copy plan as a function, the method with the
  two loops of `compare_and_copy_files`, and lemmas on membership, order, duplicates, blocking,
  directories and case sensitivity.

Some behaviours of the code are easy to mistake; the model follows the code in each:

- **Falsy cells** (`file2vector.py:111`). A spreadsheet cell is tested for
  truthiness, not for a missing value, so a numeric zero, a zero duration, `False`
  and the empty string all render as `""`, just as an empty cell does. The model
  gives cell values explicit truthiness; see `Extractors.RenderCell` and
  `Extractors.FalsyCellsRenderEmpty`.
- **Extensions** (`file2vector.py:50`). The extension comes from
  `os.path.splitext`, not from the text after the last `.` of the path. Dots in
  directory names and dots that only lead the file name do not start one, so
  `data/.pdf`, `..pdf` and `dir.d/file` have no extension and are rejected.
  `Paths.SplitExt` models `splitext`.
- **The unsupported-format message** (`file2vector.py:50,55`). It names the
  lower-cased extension, not the one written in the path: `Report.PPT` is reported
  with `.ppt`. See `DocumentParser.UnsupportedRunsNothing`.
- **The existence check** (`file2vector.py:46-47`). `os.path.exists` also holds for
  a directory or an unreadable file. Such a path passes the check, and when its
  decoder then raises, the result is an extraction failure, not a missing file.
  The model takes the check's answer as a boolean input; see
  `DocumentParser.FailureWrapped`.
- **Empty results** (`file2vector.py:77,124-125,133`). A document can decode and
  still give `""`: a PDF whose pages have no text and no tables, or a Word document
  with one empty paragraph and no tables. See `Extractors.PdfBlankPageVanishes`.

## Model

| member | source | states |
|---|---|---|
| Text.Join | file2vector.py:75-77 | `sep.join`: no parts give `""`; n ≥ 1 parts give their total length plus n − 1 characters, starting with the first part (the separator count is `Text.JoinCount`, the split round trip `Text.SplitJoin`) |
| Text.Replace | file2vector.py:130 | Replacing `'\n'` by `' '` keeps the length and every other character, and leaves no `'\n'` behind |
| Text.Lower | file2vector.py:50 | Lower-casing keeps the length and maps each character through ASCII lower-casing |
| Text.JoinCount | file2vector.py:75 | A tab-join of n ≥ 1 cells holds exactly n − 1 tabs beyond those inside the cells |
| Text.SplitJoin | file2vector.py:77 | Splitting a newline-join on newlines gives the fragments back when no fragment holds a newline |
| Paths.SplitExt | file2vector.py:50 | `splitext`: the two parts concatenate to the path; the extension is empty or one dot followed by text with no dot and no `/` |
| Paths.Stem | docfind.py:8-11 | `splitext(f)[0]` is a prefix of the name that the extension completes; when an extension was cut off, the stem keeps a non-dot character of the file name (stems of concrete names: `DocFind.NamedStem`) |
| Paths.ExtensionOf | file2vector.py:50 | A dot-led, dot-free and `/`-free suffix is the extension when the file name holds some non-dot character before it |
| Paths.NamedExtension | file2vector.py:50 | For a bare name that does not start with a dot, the dot-led suffix after it is the extension |
| Paths.NoDotNoExtension | file2vector.py:50 | A final path component without a dot gives an empty extension |
| Paths.DotFreeNoExtension | file2vector.py:50 | A path with no dot anywhere gives an empty extension |
| Paths.DirectoryDotNoExtension | file2vector.py:50 | Dots in directory names do not make an extension when the file name has none |
| Paths.LeadingDotNoExtension | file2vector.py:50 | A file name made of one or more leading dots and a dot-free word (a hidden file such as `.pdf` or `..pdf`) has no extension |
| Extractors.AppendRows | file2vector.py:72-75 | The row loop appends exactly the tab-joined rows of the table, in order, after the fragments so far |
| Extractors.ParseWord | file2vector.py:62-77 | The Word loops return the newline-join of `WordFragments`: all paragraphs, then every row of every table |
| Extractors.AppendShape | file2vector.py:87-93 | One shape appends its text (when it has one), then its table rows |
| Extractors.AppendSlide | file2vector.py:86-93 | One slide appends the fragments of its shapes in shape order |
| Extractors.ParsePpt | file2vector.py:79-96 | The slide loops return the newline-join of `PresentationFragments`: slides in order, shapes in order |
| Extractors.AppendSheet | file2vector.py:106-112 | One sheet appends rows 1..max_row in order, each its max_col rendered cells joined by tabs |
| Extractors.ParseExcel | file2vector.py:98-114 | The sheet and row loops return the newline-join of `WorkbookFragments`: for each sheet, rows 1..max_row, each with columns 1..max_col |
| Extractors.RenderCell | file2vector.py:111 | A cell value renders by truthiness: a missing value, `False`, a zero and empty text give `""`; `True` gives `True`; other numbers, text and dates give their text |
| Extractors.CleanCell | file2vector.py:130 | A rendered PDF cell never holds a newline; it keeps the cell's length; a missing or empty cell renders as `""` |
| Extractors.AppendCleanedRows | file2vector.py:129-131 | One PDF table appends its cleaned, tab-joined rows in order |
| Extractors.AppendPage | file2vector.py:121-131 | One page appends its text when it is present and non-empty, then its table rows |
| Extractors.ParsePdf | file2vector.py:116-133 | The page loops return the newline-join of `PdfFragments` |
| Extractors.NoFragmentsNoText | file2vector.py:77 | An empty fragment list joins to the empty string |
| Extractors.RowColumns | file2vector.py:74-75 | A row of n ≥ 1 tab-free cells holds n − 1 tabs, so empty cells keep their column, and splitting on tabs gives the cells back |
| Extractors.TableRowsCount | file2vector.py:71-75 | The table part of a Word document has one fragment per row over all tables |
| Extractors.WordParagraphsFirst | file2vector.py:66-75 | The fragment count is paragraphs plus table rows, and the first fragments are the paragraphs, empty ones included, in order |
| Extractors.WordTableRow | file2vector.py:71-75 | Row r of table t sits right after all paragraphs and all rows of the earlier tables |
| Extractors.WordExample | file2vector.py:62-77 | Paragraphs A, B and one table with rows 1 2 and 3 4 give `A`, `B`, `1\t2`, `3\t4` |
| Extractors.AllShapesInOrder | file2vector.py:84-86 | The deck's shape list holds every slide's shapes, slide after slide, in shape order |
| Extractors.PresentationAsShapes | file2vector.py:84-93 | The slide output is the shape fragments over that shape list, so slide boundaries leave no mark |
| Extractors.PptShapeBlock | file2vector.py:84-93 | Each shape's fragments form one contiguous block, and the next shape's block starts right after it |
| Extractors.ShapeLayout | file2vector.py:87-93 | Inside a shape's block the text comes first, then one fragment per table row in order |
| Extractors.WorkbookRowCount | file2vector.py:102-112 | Each sheet contributes exactly max_row fragments, with nothing marking sheet boundaries |
| Extractors.ExcelRow | file2vector.py:104-113 | Row r of sheet s sits after the earlier sheets' rows; it has max_col cells; each cell renders as `str(value)` when the value is truthy and as `""` otherwise |
| Extractors.FalsyCellsRenderEmpty | file2vector.py:111 | None, False, a zero and the empty string render as `""`; True renders as `True` |
| Extractors.ExcelExample | file2vector.py:98-114 | A 2 × 2 used range whose cell (2,2) is empty gives `v11\tv12` and `v21\t` |
| Extractors.PdfBlankPageVanishes | file2vector.py:123-131 | A page with no text (or empty text) and no tables can be removed without changing the output |
| Extractors.PdfPageBlock | file2vector.py:121-131 | Each page's fragments form one block, with the page text first when it is non-empty |
| Extractors.PdfRowHasNoNewline | file2vector.py:130-131 | A PDF row fragment never holds a newline |
| Extractors.PdfSplitBack | file2vector.py:116-133 | When no page text holds a newline and there is some fragment, splitting the output on newlines gives the fragments back |
| DocumentParser.Lookup | file2vector.py:31-37 | The table maps `.docx` and `.doc` to Word, `.pptx` to slides, `.xlsx` to spreadsheets, `.pdf` to PDF, and nothing else |
| DocumentParser.MessageRoundTrip | file2vector.py:46-60 | The three messages ("文件不存在：" + path, "不支持的文件格式：" + extension, "解析失败：" + cause) never collide, and each keeps its payload whole |
| DocumentParser.FileExtension | file2vector.py:50 | The extension is empty or one dot followed by text with no dot and no `/` |
| DocumentParser.Assemble | file2vector.py:57-60 | A decoder success becomes the newline-join of the fragments; a decoder failure becomes a DocumentParseError whose message is "解析失败：" followed by the original error text, and that text can be read back from the message |
| DocumentParser.Outcome | file2vector.py:39-60 | NotFound exactly when the path is missing; Unsupported exactly when it exists and the extension is not in the table; otherwise the selected extractor's result |
| DocumentParser.Parse | file2vector.py:39-60 | The method, which runs the extractor loops, returns exactly `Outcome` |
| DocumentParser.MissingFileFirst | file2vector.py:46-47 | A missing path fails with NotFound carrying the path, whatever the decoders; this is not a DocumentParseError |
| DocumentParser.UnsupportedRunsNothing | file2vector.py:53-55 | An extension outside the table fails the same way under any decoders and names the extension in its message |
| DocumentParser.OnlySelectedDecoderRuns | file2vector.py:53-58 | The outcome depends only on the decoder the extension selects |
| DocumentParser.FailureWrapped | file2vector.py:57-60 | An error after dispatch is a DocumentParseError whose message is "解析失败：" + the selected decoder's error |
| DocumentParser.SuccessUnchanged | file2vector.py:57-58 | A success is exactly the newline-join of the selected extractor's fragments |
| DocumentParser.NamedFileExtension | file2vector.py:50 | For a bare name that does not start with a dot, the extension is the lower-cased dot-led suffix |
| DocumentParser.LegacyPptUnsupported | file2vector.py:50-55 | `slides.ppt` has the extension `.ppt`, which is not in the table |
| DocumentParser.LegacyXlsUnsupported | file2vector.py:50-55 | `book.xls` has the extension `.xls`, which is not in the table |
| DocumentParser.UpperCaseExtension | file2vector.py:50-53 | `Report.PDF` resolves to `.pdf` and the PDF extractor |
| DocumentParser.LegacyWordSupported | file2vector.py:36 | `old.doc` resolves to `.doc` and the Word extractor |
| DocumentParser.NoDotUnsupported | file2vector.py:50-55 | `README` has an empty extension, which is not in the table |
| DocumentParser.DirectoryDotIgnored | file2vector.py:50 | `dir.d/file` has an empty extension |
| DocumentParser.HiddenFileUnsupported | file2vector.py:50 | `data/.pdf` has an empty extension |
| DocumentParser.DoubleDotUnsupported | file2vector.py:50-55 | `..pdf` has an empty extension and is rejected as unsupported with an empty extension |
| DocFind.FileStems | docfind.py:8-12 | The stem of every regular file is in the set, and every stem in the set comes from a regular file |
| DocFind.Candidates | docfind.py:8-15 | A stem qualifies exactly when some regular source file has it and no regular destination file does |
| DocFind.Probe | docfind.py:22-24 | At most one name per probed extension, and every name kept is a regular source file |
| DocFind.CompareAndCopyFiles | docfind.py:6-26 | The stems are visited exactly once each, and the copied names are `PlanFor` of that visiting order |
| DocFind.CopyAll | docfind.py:18-26 | The outer loop visits each candidate exactly once and copies that stem's files |
| DocFind.CopyStem | docfind.py:20-26 | The inner loop appends exactly the stem's existing files, in extension order |
| DocFind.ExtensionsUnambiguous | docfind.py:22-23 | stem + extension determines both the stem and the extension |
| DocFind.DotLed | docfind.py:22 | Each probed extension is a dot followed by dot-free text |
| DocFind.ProbeMembers | docfind.py:22-24 | A name is probed for a stem exactly when it is a regular file spelled stem + one of the extensions |
| DocFind.ProbeInOrder | docfind.py:22-24 | Of two names copied for one stem, the earlier carries the earlier extension |
| DocFind.PlanMembers | docfind.py:18-24 | A name is copied exactly when it is a regular source file spelled as a visited stem + one of the four extensions |
| DocFind.PlanFromSource | docfind.py:24-25 | Every copied name is a regular file of the source folder |
| DocFind.PlanDistinct | docfind.py:18-25 | When each stem is visited once, no name is copied twice |
| DocFind.StemCopiesDistinct | docfind.py:22-25 | The names copied for one stem are distinct |
| DocFind.DestinationBlocksStem | docfind.py:11-15 | A regular destination file of any extension blocks its stem, so nothing spelled as that stem + a probed extension is copied |
| DocFind.DirectoriesIgnored | docfind.py:8-12 | Adding a directory entry to either folder changes neither the candidates nor the plan |
| DocFind.PlanSameFiles | docfind.py:24 | The plan depends only on which names are regular files |
| DocFind.ProbeSameFiles | docfind.py:24 | Probing depends only on which names are regular files |
| DocFind.OneFileStems | docfind.py:8 | A folder with one regular file has exactly that file's stem |
| DocFind.NamedStem | docfind.py:8 | The stem of a bare name followed by a dot-led suffix is the name |
| DocFind.CaseSensitiveStems | docfind.py:8-15 | `A.pdf` in the destination does not block `a.docx`: stems compare case-sensitively |
| DocFind.PlanOneStem | docfind.py:18-24 | Visiting one stem copies exactly that stem's files |
| DocFind.NothingToProbe | docfind.py:22-24 | A stem none of whose probed names is a file copies nothing |
| DocFind.CaseSensitivePlan | docfind.py:18-25 | For the candidate `a` with the source file `a.docx`, exactly `a.docx` is copied |
| DocFind.OtherExtensionsNotCopied | docfind.py:8-25 | `a.tar.gz` makes `a.tar` a candidate, but nothing is copied for it |

## Left out

- The third-party decoders (python-docx, python-pptx, openpyxl, pdfplumber) are opaque. Each one is a function from a path to the decoded document or to the text of the exception it raised. What they decode (merged cells, nested tables, the text of a shape, page-text extraction) is not modelled.
- `os.path.exists` and `os.path.isfile` are inputs: a boolean for the parsed path, and a folder listing that maps each name to "is a regular file". Symbolic links and races with the file system are not modelled.
- DocFind.IsFile: the probe `os.path.isfile(stem + ext)` is modelled as an exact, case-sensitive lookup in the listing, so `DocFind.PlanMembers`, `DocFind.CaseSensitivePlan` and the copier description hold on case-sensitive file systems only. On a case-insensitive file system (the Windows and macOS defaults) the code also copies names such as `stem.PDF` or `a.DOCX` when it probes `stem.pdf` or `a.docx`; the model copies nothing for them.
- `str()` of spreadsheet numbers and dates is not modelled: each such value carries its rendered text. Truthiness is explicit in the value.
- Extractors.ExcelRow: openpyxl reports a used range of at least 1 × 1 even for an empty sheet. The model takes the decoder's `max_row` and `max_col` as given and does not require them to be positive.
- Text.Lower: only ASCII letters are lower-cased; Python's Unicode case mapping is not modelled.
- Paths.SplitExt: POSIX rules only, with `/` as the only separator. Windows paths and drive letters are not modelled.
- The printed "文档解析异常" line in `DocumentParseError`, the `Copied:` line and the script entry points are console output and are left out.
- `shutil.copy` and `os.listdir` are left out. The copier returns the names it would copy, in order, instead of copying them. A failing `shutil.copy` raises and ends the loop, for instance when the destination holds a directory named like a planned file, so the returned plan is an upper bound on what is actually copied; `DocFind.DirectoriesIgnored` holds of the plan, not of the copies.
- DocFind.CompareAndCopyFiles: Python's set iteration order is arbitrary. The method chooses stems nondeterministically and returns the order it used, and the plan is stated relative to that order.
- Extractors.PptShapeBlock: the within-shape layout is stated by Extractors.ShapeLayout, and the two are not combined into one statement on output positions.
- doc2pdf.py and csv2pdf.py are not part of this model.

