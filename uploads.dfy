/**
 * An uploaded file as the three readers see it, and the steps each branch of the try-block takes
 * on it. The readers (pandas with openpyxl or xlrd, python-docx, PyPDF2) are not modelled: an
 * upload records what each of them yields on the file's bytes, with an exception at each call
 * the model lets raise: opening the workbook, reading a sheet, opening the document, opening the
 * PDF, reading its page list and extracting a page's text.
 */
module Uploads {
  import opened Wrappers
  import opened FileNames
  import opened LogLines
  import opened Steps

  /** A cell of `read_excel(..., dtype=str)`: its text, or None for an empty cell (NaN), which
      `dropna` removes. */
  type Cell = Option<string>

  /** A sheet name from `ExcelFile.sheet_names`, and what `read_excel` yields for that sheet:
      its data columns (the header row becomes the column labels and is not scanned). */
  datatype Sheet = Sheet(name: string, columns: Outcome<seq<seq<Cell>>>)

  /** The texts python-docx gives for a parsed document: `doc.paragraphs`, and for each table
      its rows of cell texts. Once the document has opened, none of these is taken to raise. */
  datatype WordDocument = WordDocument(paragraphs: seq<string>, tables: seq<seq<seq<string>>>)

  /** What `reader.pages[k].extract_text()` yields; None stands for a missing text. */
  type PageText = Outcome<Option<string>>

  /** A PDF that `PdfReader` opened: its page list, which is read when it is first used. */
  datatype PdfDocument = PdfDocument(pages: Outcome<seq<PageText>>)

  /** An uploaded file: its name, and what each reader's constructor yields on its contents
      (`pd.ExcelFile`, `Document`, `PdfReader`). Only the reader its extension selects is used. */
  datatype Upload = Upload(
    name: string,
    workbook: Outcome<seq<Sheet>>,
    document: Outcome<WordDocument>,
    pdf: Outcome<PdfDocument>)

  /** A non-missing cell is scanned; `str(cell)` is the cell's text itself under `dtype=str`. */
  function CellSteps(cell: Cell): seq<Step> {
    if cell.Some? then [Scan(cell.value)] else []
  }

  function ColumnSteps(column: seq<Cell>): seq<Step> {
    Concat(column, CellSteps)
  }

  /** A sheet is announced before it is read, so a sheet that fails to read is still logged. */
  function SheetSteps(sheet: Sheet): seq<Step> {
    [Log(SheetLine(sheet.name))] +
    match sheet.columns
      case Raises(m) => [Raise(m)]
      case Value(columns) => Concat(columns, ColumnSteps)
  }

  function WorkbookSteps(workbook: Outcome<seq<Sheet>>): seq<Step> {
    match workbook
      case Raises(m) => [Raise(m)]
      case Value(sheets) => Concat(sheets, SheetSteps)
  }

  function TextSteps(text: string): seq<Step> {
    [Scan(text)]
  }

  function RowSteps(row: seq<string>): seq<Step> {
    Concat(row, TextSteps)
  }

  function TableSteps(table: seq<seq<string>>): seq<Step> {
    Concat(table, RowSteps)
  }

  /** The document is logged only once it has been opened; all paragraphs come before all
      tables. */
  function DocumentSteps(document: Outcome<WordDocument>): seq<Step> {
    match document
      case Raises(m) => [Raise(m)]
      case Value(d) => [Log(WordLine)] + Concat(d.paragraphs, TextSteps) + Concat(d.tables, TableSteps)
  }

  /** `if text:` skips a missing text and an empty one. */
  function PageSteps(page: PageText): seq<Step> {
    match page
      case Raises(m) => [Raise(m)]
      case Value(text) => if text.Some? && text.value != "" then [Scan(text.value)] else []
  }

  function PdfSteps(pdf: Outcome<PdfDocument>): seq<Step> {
    match pdf
      case Raises(m) => [Raise(m)]
      case Value(d) =>
        [Log(PdfLine)] +
        match d.pages
          case Raises(m) => [Raise(m)]
          case Value(pages) => Concat(pages, PageSteps)
  }

  /** The body of the try-block for one file. */
  function FileSteps(file: Upload): seq<Step> {
    match KindOfName(file.name)
      case Spreadsheet => WorkbookSteps(file.workbook)
      case Word => DocumentSteps(file.document)
      case Pdf => PdfSteps(file.pdf)
      case Unsupported => [Log(UnsupportedLine(file.name))]
  }
}
