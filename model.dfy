/** The extractor's records (`TextBlock`, `TableData`, the comparison report) and the inputs
    that the two PDF libraries supply to it, as plain data. */
module Model {
  import opened TextUtil

  /** Page numbers are 1-based, as `enumerate(pdf.pages, 1)` and camelot number them. */
  type PageNum = n: nat | n >= 1 witness 1

  /** A table cell as the libraries report it: a string, or None for a missing cell. */
  type Cell = Option<string>

  type Row = seq<Cell>

  /** A table as a list of rows; rows may differ in length. */
  type Rows = seq<Row>

  /** The backend a table came from. */
  datatype Source = Pdfplumber | CamelotStream | CamelotLattice
  {
    /** The `source` string the table is recorded under. */
    function Name(): string {
      match this
      case Pdfplumber => "pdfplumber"
      case CamelotStream => "camelot_stream"
      case CamelotLattice => "camelot_lattice"
    }
  }

  datatype BlockKind = Heading | Paragraph | ListItem | TableMarker
  {
    /** The `block_type` string. */
    function Name(): string {
      match this
      case Heading => "heading"
      case Paragraph => "paragraph"
      case ListItem => "list_item"
      case TableMarker => "table"
    }
  }

  /** `TextBlock`: `level` is the heading level or list depth, 0 for paragraphs and markers. */
  datatype TextBlock = TextBlock(text: string, kind: BlockKind, level: nat, page: PageNum)

  /** `TableData`: `confidence` is the computed score for layout tables and camelot's
      accuracy for camelot tables. */
  datatype TableData = TableData(data: Rows, page: PageNum, source: Source, confidence: real)

  /** One page as the layout library (pdfplumber) reports it: `extract_text()`, which is None
      for a page without a text layer, and `extract_tables()`. */
  datatype PdfPage = PdfPage(text: Option<string>, tables: seq<Rows>)

  /** One table of a camelot run: `table.page`, `table.df.values.tolist()` and `table.accuracy`. */
  datatype CamelotTable = CamelotTable(page: PageNum, rows: Rows, accuracy: real)

  /** One entry of `comparison_report`: the camelot error line, or the line recording the
      source and confidence chosen for a page. */
  datatype ReportLine =
    | CamelotError(message: string)
    | Selected(page: PageNum, source: Source, confidence: real)

  /** The marker text `[TABLE_{page}_{ordinal}]`. */
  function MarkerText(page: nat, ordinal: nat): string {
    "[TABLE_" + NatToString(page) + "_" + NatToString(ordinal) + "]"
  }

  /** The `table`-kind block that stands where a layout table was found. */
  function MarkerBlock(page: PageNum, ordinal: nat): TextBlock {
    TextBlock(MarkerText(page, ordinal), TableMarker, 0, page)
  }
}
