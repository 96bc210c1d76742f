/**
 * The decoded documents the four extractors walk. The third-party decoders
 * (python-docx, python-pptx, openpyxl, pdfplumber) are not modelled; what they hand
 * to the extractors is modelled as plain values.
 */
module Documents {

  import opened Results

  /** The text of each cell of one table row, left to right. */
  type Row = seq<string>

  /** A table as its rows, top to bottom. */
  type Table = seq<Row>

  /** A word-processing document: its paragraph texts and its tables, each in document order. */
  datatype WordDocument = WordDocument(paragraphs: seq<string>, tables: seq<Table>)

  /**
   * A slide shape: `text` is present when the shape has a text attribute, `table`
   * when it carries a table.
   */
  datatype Shape = Shape(text: Option<string>, table: Option<Table>)

  /** A slide is its shapes in their defined order. */
  type Slide = seq<Shape>

  datatype Presentation = Presentation(slides: seq<Slide>)

  /**
   * A spreadsheet cell value. The textual form of numbers, durations and dates is
   * produced by the spreadsheet library and is carried as `repr`. A duration (a
   * `timedelta`, read from a duration-formatted cell) is a `Number`: like a number it
   * is falsy exactly when it is zero. Dates, times and datetimes are always truthy.
   */
  datatype CellValue =
    | Empty                                 // no value (None)
    | Boolean(b: bool)
    | Number(isZero: bool, repr: string)    // an int, a float or a timedelta
    | TextValue(s: string)
    | DateTime(repr: string)                // a date, time or datetime

  /** Python truthiness of a cell value. */
  predicate Truthy(v: CellValue)
  {
    match v
    case Empty => false
    case Boolean(b) => b
    case Number(isZero, _) => !isZero
    case TextValue(s) => s != ""
    case DateTime(_) => true
  }

  /** The text Python gives a value. */
  function StrOf(v: CellValue): string
  {
    match v
    case Empty => "None"
    case Boolean(b) => if b then "True" else "False"
    case Number(_, repr) => repr
    case TextValue(s) => s
    case DateTime(repr) => repr
  }

  /**
   * A worksheet: its used range is rows 1..maxRow and columns 1..maxCol; `cells`
   * holds the populated cells by (row, column), both 1-based.
   */
  datatype Sheet = Sheet(maxRow: nat, maxCol: nat, cells: map<(nat, nat), CellValue>)

  datatype Workbook = Workbook(sheets: seq<Sheet>)

  /** A detected PDF table: rows of cells, a cell being absent (None) or a string. */
  type PdfTable = seq<seq<Option<string>>>

  /** A PDF page: its extracted text, if any, and its detected tables in detection order. */
  datatype Page = Page(text: Option<string>, tables: seq<PdfTable>)

  datatype PdfDocument = PdfDocument(pages: seq<Page>)
}
