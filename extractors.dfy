/**
 * The four extractors of UniversalDocumentParser. Each walks a decoded document,
 * appends text fragments to a list in a fixed order and returns the fragments
 * joined by newlines; a table row becomes one fragment, its cells joined by tabs.
 *
 * For each format a function gives the fragment list (the specification) and a
 * method performs the nested loops of appends of `_parse_word`, `_parse_ppt`,
 * `_parse_excel` or `_parse_pdf`; the method is proved to return the newline-join
 * of the function's list.
 */
module Extractors {

  import opened Results
  import opened Text
  import opened Seqs
  import opened Documents

  /** A table row as one fragment: its cells joined by tabs. */
  function RowFragment(cells: seq<string>): string
  {
    Join(TAB, cells)
  }

  /** One fragment per row of a table, top to bottom. */
  function TableFragments(table: Table): seq<string>
  {
    seq(|table|, i requires 0 <= i < |table| => RowFragment(table[i]))
  }

  /** The row loop: appends each row of the table, its cells joined by tabs. */
  method AppendRows(fragments: seq<string>, table: Table) returns (result: seq<string>)
    ensures result == fragments + TableFragments(table)
  {
    result := fragments;
    for r := 0 to |table|
      invariant result == fragments + TableFragments(table)[..r]
    {
      var rowText := table[r];
      result := result + [Join(TAB, rowText)];
      assert TableFragments(table)[..r + 1] == TableFragments(table)[..r] + [RowFragment(table[r])];
    }
    assert TableFragments(table)[..|table|] == TableFragments(table);
  }

  // ---------------------------------------------------------------- Word

  /** Every paragraph in order, then every row of every table in order. */
  function WordFragments(doc: WordDocument): seq<string>
  {
    doc.paragraphs + FlatMap(doc.tables, TableFragments)
  }

  method ParseWord(doc: WordDocument) returns (text: string)
    ensures text == Join(NL, WordFragments(doc))
  {
    var fragments: seq<string> := [];
    for i := 0 to |doc.paragraphs|
      invariant fragments == doc.paragraphs[..i]
    {
      fragments := fragments + [doc.paragraphs[i]];
    }
    for t := 0 to |doc.tables|
      invariant fragments == doc.paragraphs + FlatMap(doc.tables[..t], TableFragments)
    {
      var table := doc.tables[t];
      fragments := AppendRows(fragments, table);
      assert doc.tables[..t + 1] == doc.tables[..t] + [table];
      FlatMapSnoc(doc.tables[..t], table, TableFragments);
    }
    assert doc.tables[..|doc.tables|] == doc.tables;
    text := Join(NL, fragments);
  }

  // ---------------------------------------------------------------- slides

  /** A shape's own text, if it has one, then one fragment per row of its table, if any. */
  function ShapeFragments(shape: Shape): seq<string>
  {
    (if shape.text.Some? then [shape.text.value] else [])
    + (if shape.table.Some? then TableFragments(shape.table.value) else [])
  }

  function SlideFragments(slide: Slide): seq<string>
  {
    FlatMap(slide, ShapeFragments)
  }

  /** Slides in deck order, shapes in slide order. */
  function PresentationFragments(prs: Presentation): seq<string>
  {
    FlatMap(prs.slides, SlideFragments)
  }

  /** The body of the shape loop: the shape's text, then its table rows. */
  method AppendShape(fragments: seq<string>, shape: Shape) returns (result: seq<string>)
    ensures result == fragments + ShapeFragments(shape)
  {
    result := fragments;
    if shape.text.Some? {
      result := result + [shape.text.value];
    }
    if shape.table.Some? {
      result := AppendRows(result, shape.table.value);
    }
  }

  /** The loop over the shapes of one slide. */
  method AppendSlide(fragments: seq<string>, slide: Slide) returns (result: seq<string>)
    ensures result == fragments + SlideFragments(slide)
  {
    result := fragments;
    for j := 0 to |slide|
      invariant result == fragments + FlatMap(slide[..j], ShapeFragments)
    {
      var shape := slide[j];
      result := AppendShape(result, shape);
      assert slide[..j + 1] == slide[..j] + [shape];
      FlatMapSnoc(slide[..j], shape, ShapeFragments);
      AppendAssoc(fragments, FlatMap(slide[..j], ShapeFragments), ShapeFragments(shape));
    }
    assert slide[..|slide|] == slide;
  }

  method ParsePpt(prs: Presentation) returns (text: string)
    ensures text == Join(NL, PresentationFragments(prs))
  {
    var fragments: seq<string> := [];
    for s := 0 to |prs.slides|
      invariant fragments == FlatMap(prs.slides[..s], SlideFragments)
    {
      var slide := prs.slides[s];
      fragments := AppendSlide(fragments, slide);
      assert prs.slides[..s + 1] == prs.slides[..s] + [slide];
      FlatMapSnoc(prs.slides[..s], slide, SlideFragments);
    }
    assert prs.slides[..|prs.slides|] == prs.slides;
    text := Join(NL, fragments);
  }

  // ---------------------------------------------------------------- spreadsheets

  /** The value of the cell at (row, col); a cell never populated holds no value. */
  function CellAt(sheet: Sheet, row: nat, col: nat): CellValue
  {
    if (row, col) in sheet.cells then sheet.cells[(row, col)] else Empty
  }

  /**
   * A truthy value renders as its text; every falsy value renders as the empty
   * string: a missing value never shows as "None", `False` and zero vanish, `True`
   * shows as "True" and text shows as it is.
   */
  function RenderCell(v: CellValue): (r: string)
    ensures v.Empty? ==> r == ""
    ensures v.Boolean? ==> r == (if v.b then "True" else "")
    ensures v.Number? ==> r == (if v.isZero then "" else v.repr)
    ensures v.TextValue? ==> r == v.s
    ensures v.DateTime? ==> r == v.repr
  {
    if Truthy(v) then StrOf(v) else ""
  }

  /** The rendered cells of row `row` (1-based), columns 1 through maxCol. */
  function RowCells(sheet: Sheet, row: nat): seq<string>
  {
    seq(sheet.maxCol, c requires 0 <= c < sheet.maxCol => RenderCell(CellAt(sheet, row, c + 1)))
  }

  /** One fragment per row 1 through maxRow. */
  function SheetFragments(sheet: Sheet): seq<string>
  {
    seq(sheet.maxRow, r requires 0 <= r < sheet.maxRow => RowFragment(RowCells(sheet, r + 1)))
  }

  /** Sheets in workbook order, with nothing between them. */
  function WorkbookFragments(wb: Workbook): seq<string>
  {
    FlatMap(wb.sheets, SheetFragments)
  }

  /** The row loop of one sheet: appends the rendered rows 1 through maxRow in order. */
  method AppendSheet(fragments: seq<string>, sheet: Sheet) returns (result: seq<string>)
    ensures result == fragments + SheetFragments(sheet)
  {
    result := fragments;
    for row := 1 to sheet.maxRow + 1
      invariant result == fragments + SheetFragments(sheet)[..row - 1]
    {
      var rowText := RowCells(sheet, row);
      result := result + [Join(TAB, rowText)];
      assert SheetFragments(sheet)[..row] == SheetFragments(sheet)[..row - 1] + [RowFragment(RowCells(sheet, row))];
    }
    assert SheetFragments(sheet)[..sheet.maxRow] == SheetFragments(sheet);
  }

  method ParseExcel(wb: Workbook) returns (text: string)
    ensures text == Join(NL, WorkbookFragments(wb))
  {
    var fragments: seq<string> := [];
    for s := 0 to |wb.sheets|
      invariant fragments == FlatMap(wb.sheets[..s], SheetFragments)
    {
      var sheet := wb.sheets[s];
      fragments := AppendSheet(fragments, sheet);
      assert wb.sheets[..s + 1] == wb.sheets[..s] + [sheet];
      FlatMapSnoc(wb.sheets[..s], sheet, SheetFragments);
    }
    assert wb.sheets[..|wb.sheets|] == wb.sheets;
    text := Join(NL, fragments);
  }

  // ---------------------------------------------------------------- PDF

  /** A PDF cell: a missing or empty cell renders as "", any other has each newline turned into a space. */
  function CleanCell(cell: Option<string>): (r: string)
    ensures NL !in r
    ensures cell.None? ==> r == ""
    ensures cell.Some? ==> |r| == |cell.value|
    ensures cell.Some? ==> forall i :: 0 <= i < |r| ==> r[i] == (if cell.value[i] == NL then ' ' else cell.value[i])
  {
    match cell
    case None => ""
    case Some(s) => if s == "" then "" else Replace(s, NL, ' ')
  }

  function CleanRow(row: seq<Option<string>>): seq<string>
  {
    seq(|row|, i requires 0 <= i < |row| => CleanCell(row[i]))
  }

  function PdfTableFragments(table: PdfTable): seq<string>
  {
    seq(|table|, i requires 0 <= i < |table| => RowFragment(CleanRow(table[i])))
  }

  /** The row loop of a PDF table: appends each row, its cleaned cells joined by tabs. */
  method AppendCleanedRows(fragments: seq<string>, table: PdfTable) returns (result: seq<string>)
    ensures result == fragments + PdfTableFragments(table)
  {
    result := fragments;
    for r := 0 to |table|
      invariant result == fragments + PdfTableFragments(table)[..r]
    {
      var cleanedRow := CleanRow(table[r]);
      result := result + [Join(TAB, cleanedRow)];
      assert PdfTableFragments(table)[..r + 1] == PdfTableFragments(table)[..r] + [RowFragment(CleanRow(table[r]))];
    }
    assert PdfTableFragments(table)[..|table|] == PdfTableFragments(table);
  }

  /** The page text as one fragment when it is present and non-empty, else nothing. */
  function PageText(page: Page): seq<string>
  {
    if page.text.Some? && page.text.value != "" then [page.text.value] else []
  }

  function PageFragments(page: Page): seq<string>
  {
    PageText(page) + FlatMap(page.tables, PdfTableFragments)
  }

  /** Pages in physical order. */
  function PdfFragments(pdf: PdfDocument): seq<string>
  {
    FlatMap(pdf.pages, PageFragments)
  }

  /** The body of the page loop: the page text if non-empty, then each table's rows. */
  method AppendPage(fragments: seq<string>, page: Page) returns (result: seq<string>)
    ensures result == fragments + PageFragments(page)
  {
    result := fragments;
    var pageText := page.text;
    if pageText.Some? && pageText.value != "" {
      result := result + [pageText.value];
    }
    for t := 0 to |page.tables|
      invariant result == fragments + PageText(page) + FlatMap(page.tables[..t], PdfTableFragments)
    {
      var table := page.tables[t];
      ghost var done := FlatMap(page.tables[..t], PdfTableFragments);
      result := AppendCleanedRows(result, table);
      assert page.tables[..t + 1] == page.tables[..t] + [table];
      FlatMapSnoc(page.tables[..t], table, PdfTableFragments);
      AppendAssoc(fragments + PageText(page), done, PdfTableFragments(table));
    }
    assert page.tables[..|page.tables|] == page.tables;
  }

  method ParsePdf(pdf: PdfDocument) returns (text: string)
    ensures text == Join(NL, PdfFragments(pdf))
  {
    var fragments: seq<string> := [];
    for p := 0 to |pdf.pages|
      invariant fragments == FlatMap(pdf.pages[..p], PageFragments)
    {
      var page := pdf.pages[p];
      fragments := AppendPage(fragments, page);
      assert pdf.pages[..p + 1] == pdf.pages[..p] + [page];
      FlatMapSnoc(pdf.pages[..p], page, PageFragments);
    }
    assert pdf.pages[..|pdf.pages|] == pdf.pages;
    text := Join(NL, fragments);
  }

  // ---------------------------------------------------------------- assembly

  /** An empty fragment list assembles to the empty string. */
  lemma NoFragmentsNoText()
    ensures Join(NL, []) == ""
  {
  }

  /**
   * A row of n >= 1 cells without embedded tabs holds exactly n - 1 tabs, so an
   * empty cell keeps its column, and splitting the row on tabs gives the cells back.
   */
  lemma {:induction false} RowColumns(cells: seq<string>)
    requires |cells| >= 1
    requires forall k :: 0 <= k < |cells| ==> TAB !in cells[k]
    ensures Count(TAB, RowFragment(cells)) == |cells| - 1
    ensures Split(TAB, RowFragment(cells)) == cells
  {
    JoinCount(TAB, cells);
    SplitJoin(TAB, cells);
  }

  // ---------------------------------------------------------------- Word properties

  /** The number of rows over a list of tables. */
  function TotalRows(tables: seq<Table>): nat
  {
    if tables == [] then 0 else TotalRows(tables[..|tables| - 1]) + |tables[|tables| - 1]|
  }

  lemma {:induction false} TableRowsCount(tables: seq<Table>)
    ensures |FlatMap(tables, TableFragments)| == TotalRows(tables)
  {
    if tables != [] {
      TableRowsCount(tables[..|tables| - 1]);
    }
  }

  /**
   * Every paragraph, empty ones included, comes first and in order; the table rows
   * follow, so there are as many fragments as paragraphs plus table rows.
   */
  lemma WordParagraphsFirst(doc: WordDocument)
    ensures |WordFragments(doc)| == |doc.paragraphs| + TotalRows(doc.tables)
    ensures forall i :: 0 <= i < |doc.paragraphs| ==> WordFragments(doc)[i] == doc.paragraphs[i]
  {
    TableRowsCount(doc.tables);
  }

  /** Row r of table t comes after all paragraphs and all rows of the tables before t. */
  lemma WordTableRow(doc: WordDocument, t: int, r: int)
    requires 0 <= t < |doc.tables| && 0 <= r < |doc.tables[t]|
    ensures |doc.paragraphs| + TotalRows(doc.tables[..t]) + r < |WordFragments(doc)|
    ensures WordFragments(doc)[|doc.paragraphs| + TotalRows(doc.tables[..t]) + r] == RowFragment(doc.tables[t][r])
  {
    var rows := FlatMap(doc.tables, TableFragments);
    var off := TotalRows(doc.tables[..t]);
    FlatMapBlock(doc.tables, TableFragments, t);
    TableRowsCount(doc.tables[..t]);
    assert rows[off + r] == rows[off..off + |doc.tables[t]|][r];
    assert WordFragments(doc)[|doc.paragraphs| + off + r] == rows[off + r];
  }

  /** Paragraphs "A" and "B" with one table of rows 1 2 and 3 4. */
  lemma WordExample()
    ensures WordFragments(WordDocument(["A", "B"], [[["1", "2"], ["3", "4"]]])) == ["A", "B", "1\t2", "3\t4"]
  {
    var table: Table := [["1", "2"], ["3", "4"]];
    var doc := WordDocument(["A", "B"], [table]);
    assert ["1", "2"][1..] == ["2"] && ["3", "4"][1..] == ["4"];
    assert RowFragment(["1", "2"]) == "1\t2";
    assert RowFragment(["3", "4"]) == "3\t4";
    assert TableFragments(table) == ["1\t2", "3\t4"];
    assert doc.tables[..0] == [];
    assert FlatMap(doc.tables, TableFragments) == TableFragments(table);
  }

  // ---------------------------------------------------------------- slide properties

  /** The shapes of the whole deck, slide after slide, each slide's shapes in order. */
  function AllShapes(prs: Presentation): seq<Shape>
  {
    FlatMap(prs.slides, (slide: Slide) => slide)
  }

  /** Shape j of slide i sits in the deck's shape list after the shapes of the earlier slides. */
  lemma AllShapesInOrder(prs: Presentation, i: int, j: int)
    requires 0 <= i < |prs.slides| && 0 <= j < |prs.slides[i]|
    ensures |FlatMap(prs.slides[..i], (slide: Slide) => slide)| + j < |AllShapes(prs)|
    ensures AllShapes(prs)[|FlatMap(prs.slides[..i], (slide: Slide) => slide)| + j] == prs.slides[i][j]
  {
    FlatMapAt(prs.slides, (slide: Slide) => slide, i);
  }

  /** The slide fragments are the shape fragments over the deck's shape list. */
  lemma PresentationAsShapes(prs: Presentation)
    ensures PresentationFragments(prs) == FlatMap(AllShapes(prs), ShapeFragments)
  {
    FlatMapFlatten(prs.slides, SlideFragments, ShapeFragments);
  }

  /** Where the fragments of the n-th shape of the deck begin in the output. */
  function ShapeStart(prs: Presentation, n: int): nat
    requires 0 <= n <= |AllShapes(prs)|
  {
    |FlatMap(AllShapes(prs)[..n], ShapeFragments)|
  }

  /**
   * The fragments of the n-th shape form one contiguous block of the output, and
   * the next shape's block, on the same slide or the next, starts right after it.
   */
  lemma PptShapeBlock(prs: Presentation, n: int)
    requires 0 <= n < |AllShapes(prs)|
    ensures ShapeStart(prs, n + 1) == ShapeStart(prs, n) + |ShapeFragments(AllShapes(prs)[n])|
    ensures ShapeStart(prs, n + 1) <= |PresentationFragments(prs)|
    ensures PresentationFragments(prs)[ShapeStart(prs, n)..ShapeStart(prs, n + 1)] == ShapeFragments(AllShapes(prs)[n])
  {
    var shapes := AllShapes(prs);
    var before := FlatMap(shapes[..n], ShapeFragments);
    var block := ShapeFragments(shapes[n]);
    assert ShapeStart(prs, n + 1) == |before| + |block| by {
      assert shapes[..n + 1] == shapes[..n] + [shapes[n]];
      FlatMapSnoc(shapes[..n], shapes[n], ShapeFragments);
    }
    assert PresentationFragments(prs) == FlatMap(shapes, ShapeFragments) by {
      PresentationAsShapes(prs);
    }
    FlatMapBlock(shapes, ShapeFragments, n);
  }

  /** How many fragments a shape's text contributes: one when it has a text attribute. */
  function TextFragmentCount(shape: Shape): nat
  {
    if shape.text.Some? then 1 else 0
  }

  /** Within a shape's block: the text first, then one fragment per table row. */
  lemma ShapeLayout(shape: Shape)
    ensures |ShapeFragments(shape)| == TextFragmentCount(shape) + (if shape.table.Some? then |shape.table.value| else 0)
    ensures shape.text.Some? ==> ShapeFragments(shape)[0] == shape.text.value
    ensures shape.table.Some? ==> forall r :: 0 <= r < |shape.table.value| ==>
      ShapeFragments(shape)[TextFragmentCount(shape) + r] == RowFragment(shape.table.value[r])
  {
  }

  // ---------------------------------------------------------------- spreadsheet properties

  /** The number of rows scanned over a list of sheets. */
  function TotalMaxRows(sheets: seq<Sheet>): nat
  {
    if sheets == [] then 0 else TotalMaxRows(sheets[..|sheets| - 1]) + sheets[|sheets| - 1].maxRow
  }

  /** Each sheet contributes exactly maxRow fragments and nothing marks sheet boundaries. */
  lemma {:induction false} WorkbookRowCount(wb: Workbook)
    ensures |WorkbookFragments(wb)| == TotalMaxRows(wb.sheets)
    decreases |wb.sheets|
  {
    if wb.sheets != [] {
      WorkbookRowCount(Workbook(wb.sheets[..|wb.sheets| - 1]));
    }
  }

  /**
   * Row r (1-based) of sheet s is the fragment right after the rows of the earlier
   * sheets; it has one rendered cell per column 1..maxCol, and a falsy value renders
   * as the empty string.
   */
  lemma ExcelRow(wb: Workbook, s: int, r: int)
    requires 0 <= s < |wb.sheets| && 1 <= r <= wb.sheets[s].maxRow
    ensures TotalMaxRows(wb.sheets[..s]) + r - 1 < |WorkbookFragments(wb)|
    ensures WorkbookFragments(wb)[TotalMaxRows(wb.sheets[..s]) + r - 1] == RowFragment(RowCells(wb.sheets[s], r))
    ensures |RowCells(wb.sheets[s], r)| == wb.sheets[s].maxCol
    ensures forall c :: 1 <= c <= wb.sheets[s].maxCol ==>
      var v := CellAt(wb.sheets[s], r, c);
      RowCells(wb.sheets[s], r)[c - 1] == (if Truthy(v) then StrOf(v) else "")
  {
    var sheet := wb.sheets[s];
    var out := WorkbookFragments(wb);
    var off := TotalMaxRows(wb.sheets[..s]);
    FlatMapBlock(wb.sheets, SheetFragments, s);
    WorkbookRowCount(Workbook(wb.sheets[..s]));
    assert out[off + r - 1] == out[off..off + sheet.maxRow][r - 1];
    assert out[off + r - 1] == SheetFragments(sheet)[r - 1];
  }

  /** None, False, a zero and the empty string all render as "", True as "True". */
  lemma FalsyCellsRenderEmpty(zero: string)
    ensures RenderCell(Empty) == ""
    ensures RenderCell(Boolean(false)) == "" && RenderCell(Boolean(true)) == "True"
    ensures RenderCell(Number(true, zero)) == ""
    ensures RenderCell(TextValue("")) == ""
  {
  }

  /** A 2 x 2 used range whose cell (2, 2) is empty keeps the trailing empty column. */
  lemma ExcelExample()
    ensures SheetFragments(Sheet(2, 2, map[(1, 1) := TextValue("v11"), (1, 2) := TextValue("v12"), (2, 1) := TextValue("v21")]))
      == ["v11\tv12", "v21\t"]
  {
    var sheet := Sheet(2, 2, map[(1, 1) := TextValue("v11"), (1, 2) := TextValue("v12"), (2, 1) := TextValue("v21")]);
    assert CellAt(sheet, 2, 2) == Empty;
    assert RowCells(sheet, 1) == ["v11", "v12"];
    assert RowCells(sheet, 2) == ["v21", ""];
    assert RowFragment(["v11", "v12"]) == "v11\tv12";
    assert RowFragment(["v21", ""]) == "v21\t";
  }

  // ---------------------------------------------------------------- PDF properties

  /** A page without text and without tables contributes nothing: dropping it changes nothing. */
  lemma PdfBlankPageVanishes(pdf: PdfDocument, k: int)
    requires 0 <= k < |pdf.pages|
    requires pdf.pages[k].text == None || pdf.pages[k].text == Some("")
    requires pdf.pages[k].tables == []
    ensures PdfFragments(PdfDocument(pdf.pages[..k] + pdf.pages[k + 1..])) == PdfFragments(pdf)
  {
    assert PageFragments(pdf.pages[k]) == [];
    FlatMapDrop(pdf.pages, PageFragments, k);
  }

  /**
   * Page k's fragments form one block: its text first when non-empty, then the rows
   * of its tables; each row fragment is free of newlines.
   */
  lemma PdfPageBlock(pdf: PdfDocument, k: int)
    requires 0 <= k < |pdf.pages|
    ensures var page, off := pdf.pages[k], |FlatMap(pdf.pages[..k], PageFragments)|;
      && off + |PageFragments(page)| <= |PdfFragments(pdf)|
      && PdfFragments(pdf)[off..off + |PageFragments(page)|] == PageFragments(page)
      && (page.text.Some? && page.text.value != "" ==> PdfFragments(pdf)[off] == page.text.value)
  {
    FlatMapBlock(pdf.pages, PageFragments, k);
    var page, off := pdf.pages[k], |FlatMap(pdf.pages[..k], PageFragments)|;
    if page.text.Some? && page.text.value != "" {
      assert PdfFragments(pdf)[off] == PdfFragments(pdf)[off..off + |PageFragments(page)|][0];
    }
  }

  /** A table row of a PDF renders without any newline. */
  lemma PdfRowHasNoNewline(row: seq<Option<string>>)
    ensures NL !in RowFragment(CleanRow(row))
  {
    JoinAvoids(TAB, NL, CleanRow(row));
  }

  /**
   * When no page text contains a newline, splitting the assembled text on newlines
   * gives the fragments back.
   */
  lemma PdfSplitBack(pdf: PdfDocument)
    requires forall i :: 0 <= i < |pdf.pages| && pdf.pages[i].text.Some? ==> NL !in pdf.pages[i].text.value
    requires PdfFragments(pdf) != []
    ensures Split(NL, Join(NL, PdfFragments(pdf))) == PdfFragments(pdf)
  {
    var noNewline := (s: string) => NL !in s;
    forall i, k | 0 <= i < |pdf.pages| && 0 <= k < |PageFragments(pdf.pages[i])|
      ensures noNewline(PageFragments(pdf.pages[i])[k])
    {
      var page := pdf.pages[i];
      forall t, r | 0 <= t < |page.tables| && 0 <= r < |PdfTableFragments(page.tables[t])|
        ensures noNewline(PdfTableFragments(page.tables[t])[r])
      {
        PdfRowHasNoNewline(page.tables[t][r]);
      }
      FlatMapAll(page.tables, PdfTableFragments, noNewline);
      var pre := PageText(page);
      if k >= |pre| {
        assert PageFragments(page)[k] == FlatMap(page.tables, PdfTableFragments)[k - |pre|];
      }
    }
    FlatMapAll(pdf.pages, PageFragments, noNewline);
    SplitJoin(NL, PdfFragments(pdf));
  }
}
