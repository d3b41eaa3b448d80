/**
 * What one uploaded file contributes to the batch: the emails of the texts its reader yields
 * before any exception, and its block of log lines. Each reader is described here by the texts
 * it scans and the lines it logs, without replaying its loops.
 */
module FileProperties {
  import opened Wrappers
  import opened EmailPattern
  import opened FileNames
  import opened LogLines
  import opened Steps
  import opened Uploads

  /** The emails one file adds to the set. */
  ghost function FileFound(file: Upload): set<string> {
    FoundAll(Scanned(Completed(FileSteps(file))))
  }

  /** The lines one file adds to the log: its processing line, the lines of the try-block up to
      any exception, and the error line when there was one. */
  ghost function FileLog(index: nat, total: nat, file: Upload): seq<string> {
    var steps := FileSteps(file);
    [ProcessingLine(index + 1, total, file.name)] + Logged(Completed(steps)) +
    (if FirstRaise(steps).Some? then [ErrorLine(file.name, FirstRaise(steps).value)] else [])
  }

  /** A file's emails are exactly what `findall` returns on the texts it scans. */
  lemma FileFoundMember(file: Upload, e: string)
    ensures e in FileFound(file) <==> exists t :: t in Scanned(Completed(FileSteps(file))) && e in FindAll(t)
  {
    var texts := Scanned(Completed(FileSteps(file)));
    FoundAllMember(texts, e);
    if exists t :: t in texts && e in FindAll(t) {
      var t :| t in texts && e in FindAll(t);
      var k :| 0 <= k < |texts| && texts[k] == t;
    }
  }

  // ---------------------------------------------------------------------------------------
  // Unsupported files and readers that cannot open a file
  // ---------------------------------------------------------------------------------------

  /** An unsupported file is logged as such and adds no email; nothing can raise for it. */
  lemma UnsupportedFile(index: nat, total: nat, file: Upload)
    requires KindOfName(file.name) == Unsupported
    ensures FileLog(index, total, file) == [ProcessingLine(index + 1, total, file.name), UnsupportedLine(file.name)]
    ensures FileFound(file) == {}
  {
    var steps := FileSteps(file);
    assert steps == [Log(UnsupportedLine(file.name))];
    assert steps[1..] == [];
    assert Completed(steps) == steps && FirstRaise(steps).None?;
    assert Logged(steps) == [UnsupportedLine(file.name)] && Scanned(steps) == [];
  }

  /** The reader that the file's extension selects raises m when it opens the file. */
  ghost predicate OpenRaises(file: Upload, m: string) {
    match KindOfName(file.name)
      case Spreadsheet => file.workbook == Raises(m)
      case Word => file.document == Raises(m)
      case Pdf => file.pdf == Raises(m)
      case Unsupported => false
  }

  /** A file its reader cannot open gets its processing line and the error line, and adds no
      email; in particular no stage line appears for it. */
  lemma OpenFails(index: nat, total: nat, file: Upload, m: string)
    requires OpenRaises(file, m)
    ensures FileLog(index, total, file) == [ProcessingLine(index + 1, total, file.name), ErrorLine(file.name, m)]
    ensures FileFound(file) == {}
  {
    var steps := FileSteps(file);
    assert steps == [Raise(m)];
  }

  // ---------------------------------------------------------------------------------------
  // Spreadsheets
  // ---------------------------------------------------------------------------------------

  lemma CellFacts(cell: Cell)
    ensures FirstRaise(CellSteps(cell)).None? && NoLogs(CellSteps(cell))
    ensures Scanned(CellSteps(cell)) == if cell.Some? then [cell.value] else []
  {
    if cell.Some? {
      assert [Scan(cell.value)][1..] == [];
    }
  }

  /** The texts of the non-missing cells of the columns. */
  ghost predicate InColumns(columns: seq<seq<Cell>>, t: string) {
    exists c, k :: 0 <= c < |columns| && 0 <= k < |columns[c]| && columns[c][k] == Some(t)
  }

  /** A column scans each non-missing cell, and nothing else happens. */
  lemma ColumnFacts(column: seq<Cell>)
    ensures FirstRaise(ColumnSteps(column)).None? && NoLogs(ColumnSteps(column))
    ensures forall t :: t in Scanned(ColumnSteps(column)) <==> exists k :: 0 <= k < |column| && column[k] == Some(t)
  {
    forall k | 0 <= k < |column|
      ensures FirstRaise(CellSteps(column[k])).None? && NoLogs(CellSteps(column[k]))
    {
      CellFacts(column[k]);
    }
    ConcatNoRaise(column, CellSteps);
    ConcatNoLogs(column, CellSteps);
    forall t
      ensures t in Scanned(ColumnSteps(column)) <==> exists k :: 0 <= k < |column| && column[k] == Some(t)
    {
      ScannedConcat(column, CellSteps, t);
      forall k | 0 <= k < |column| ensures t in Scanned(CellSteps(column[k])) <==> column[k] == Some(t) {
        CellFacts(column[k]);
      }
    }
  }

  lemma ColumnsFacts(columns: seq<seq<Cell>>)
    ensures FirstRaise(Concat(columns, ColumnSteps)).None? && NoLogs(Concat(columns, ColumnSteps))
    ensures forall t :: t in Scanned(Concat(columns, ColumnSteps)) <==> InColumns(columns, t)
  {
    forall c | 0 <= c < |columns|
      ensures FirstRaise(ColumnSteps(columns[c])).None? && NoLogs(ColumnSteps(columns[c]))
    {
      ColumnFacts(columns[c]);
    }
    ConcatNoRaise(columns, ColumnSteps);
    ConcatNoLogs(columns, ColumnSteps);
    forall t ensures t in Scanned(Concat(columns, ColumnSteps)) <==> InColumns(columns, t) {
      ScannedConcat(columns, ColumnSteps, t);
      forall c | 0 <= c < |columns| ensures
        t in Scanned(ColumnSteps(columns[c])) <==> exists k :: 0 <= k < |columns[c]| && columns[c][k] == Some(t)
      {
        ColumnFacts(columns[c]);
      }
    }
  }

  /** A sheet that reads logs its name and scans its non-missing cells. */
  lemma SheetRead(sheet: Sheet)
    requires sheet.columns.Value?
    ensures FirstRaise(SheetSteps(sheet)).None?
    ensures Logged(SheetSteps(sheet)) == [SheetLine(sheet.name)]
    ensures forall t :: t in Scanned(SheetSteps(sheet)) <==> InColumns(sheet.columns.value, t)
  {
    var line: seq<Step>, body := [Log(SheetLine(sheet.name))], Concat(sheet.columns.value, ColumnSteps);
    assert SheetSteps(sheet) == line + body;
    assert line[1..] == [];
    ColumnsFacts(sheet.columns.value);
    NoLogsLogged(body);
    FirstRaiseAppend(line, body);
    LoggedAppend(line, body);
    ScannedAppend(line, body);
  }

  /** A sheet that fails to read has still been logged. */
  lemma SheetFails(sheet: Sheet)
    requires sheet.columns.Raises?
    ensures FirstRaise(SheetSteps(sheet)) == Some(sheet.columns.message)
    ensures Completed(SheetSteps(sheet)) == [Log(SheetLine(sheet.name))]
  {
    var steps := SheetSteps(sheet);
    assert steps == [Log(SheetLine(sheet.name)), Raise(sheet.columns.message)];
    assert steps[1..][0].Raise?;
  }

  /** One "Reading sheet" line per sheet, in order. */
  function SheetLines(sheets: seq<Sheet>): seq<string> {
    seq(|sheets|, k requires 0 <= k < |sheets| => SheetLine(sheets[k].name))
  }

  /** The texts of the non-missing cells of the sheets. */
  ghost predicate InSheets(sheets: seq<Sheet>, t: string) {
    exists s :: 0 <= s < |sheets| && sheets[s].columns.Value? && InColumns(sheets[s].columns.value, t)
  }

  lemma {:induction false} SheetsLogged(sheets: seq<Sheet>)
    requires forall k :: 0 <= k < |sheets| ==> sheets[k].columns.Value?
    ensures Logged(Concat(sheets, SheetSteps)) == SheetLines(sheets)
    decreases |sheets|
  {
    if sheets != [] {
      SheetRead(sheets[0]);
      SheetsLogged(sheets[1..]);
      LoggedAppend(SheetSteps(sheets[0]), Concat(sheets[1..], SheetSteps));
      assert SheetLines(sheets) == [SheetLine(sheets[0].name)] + SheetLines(sheets[1..]);
    }
  }

  /** Sheets that all read log their names in order and scan all their non-missing cells. */
  lemma SheetsRead(sheets: seq<Sheet>)
    requires forall k :: 0 <= k < |sheets| ==> sheets[k].columns.Value?
    ensures FirstRaise(Concat(sheets, SheetSteps)).None?
    ensures Completed(Concat(sheets, SheetSteps)) == Concat(sheets, SheetSteps)
    ensures Logged(Concat(sheets, SheetSteps)) == SheetLines(sheets)
    ensures forall t :: t in Scanned(Concat(sheets, SheetSteps)) <==> InSheets(sheets, t)
  {
    forall k | 0 <= k < |sheets| ensures FirstRaise(SheetSteps(sheets[k])).None? {
      SheetRead(sheets[k]);
    }
    ConcatNoRaise(sheets, SheetSteps);
    SheetsLogged(sheets);
    forall t ensures t in Scanned(Concat(sheets, SheetSteps)) <==> InSheets(sheets, t) {
      SheetsScanned(sheets, t);
    }
  }

  lemma SheetsScanned(sheets: seq<Sheet>, t: string)
    requires forall k :: 0 <= k < |sheets| ==> sheets[k].columns.Value?
    ensures t in Scanned(Concat(sheets, SheetSteps)) <==> InSheets(sheets, t)
  {
    ScannedConcat(sheets, SheetSteps, t);
    forall s | 0 <= s < |sheets|
      ensures t in Scanned(SheetSteps(sheets[s])) <==> InColumns(sheets[s].columns.value, t)
    {
      SheetRead(sheets[s]);
    }
  }

  /** The sheets before j read and sheet j, if there is one, does not. */
  ghost predicate FirstFailingSheet(sheets: seq<Sheet>, j: nat) {
    && j <= |sheets|
    && (forall k :: 0 <= k < j ==> sheets[k].columns.Value?)
    && (j < |sheets| ==> sheets[j].columns.Raises?)
  }

  lemma SheetsCompleted(sheets: seq<Sheet>, j: nat)
    requires FirstFailingSheet(sheets, j)
    ensures Completed(Concat(sheets, SheetSteps))
         == Concat(sheets[..j], SheetSteps) + (if j < |sheets| then [Log(SheetLine(sheets[j].name))] else [])
    ensures FirstRaise(Concat(sheets, SheetSteps))
         == if j < |sheets| then Some(sheets[j].columns.message) else None
  {
    if j < |sheets| {
      forall k | 0 <= k < j ensures FirstRaise(SheetSteps(sheets[k])).None? {
        SheetRead(sheets[k]);
      }
      SheetFails(sheets[j]);
      ConcatFirstRaise(sheets, SheetSteps, j);
    } else {
      assert sheets[..j] == sheets;
      SheetsRead(sheets);
    }
  }

  /** The sheets whose "Reading sheet" line is logged: those up to and including sheet j. */
  function AttemptedSheets(sheets: seq<Sheet>, j: nat): seq<Sheet>
    requires j <= |sheets|
  {
    sheets[..if j < |sheets| then j + 1 else j]
  }

  lemma AttemptedSheetsLogged(sheets: seq<Sheet>, j: nat)
    requires FirstFailingSheet(sheets, j)
    ensures Logged(Completed(Concat(sheets, SheetSteps))) == SheetLines(AttemptedSheets(sheets, j))
  {
    var before := Concat(sheets[..j], SheetSteps);
    var tail: seq<Step> := if j < |sheets| then [Log(SheetLine(sheets[j].name))] else [];
    SheetsCompleted(sheets, j);
    assert FirstFailingSheet(sheets[..j], j);
    SheetsRead(sheets[..j]);
    LoggedAppend(before, tail);
    if j < |sheets| {
      assert tail[1..] == [];
      assert SheetLines(sheets[..j + 1]) == SheetLines(sheets[..j]) + [SheetLine(sheets[j].name)];
    }
  }

  lemma AttemptedSheetsScanned(sheets: seq<Sheet>, j: nat)
    requires FirstFailingSheet(sheets, j)
    ensures forall t :: t in Scanned(Completed(Concat(sheets, SheetSteps))) <==> InSheets(sheets[..j], t)
  {
    var before := Concat(sheets[..j], SheetSteps);
    var tail: seq<Step> := if j < |sheets| then [Log(SheetLine(sheets[j].name))] else [];
    SheetsCompleted(sheets, j);
    assert FirstFailingSheet(sheets[..j], j);
    SheetsRead(sheets[..j]);
    ScannedAppend(before, tail);
    if j < |sheets| {
      assert tail[1..] == [];
    }
  }

  lemma SheetsTrace(sheets: seq<Sheet>, j: nat)
    requires FirstFailingSheet(sheets, j)
    ensures Logged(Completed(Concat(sheets, SheetSteps))) == SheetLines(AttemptedSheets(sheets, j))
    ensures forall t :: t in Scanned(Completed(Concat(sheets, SheetSteps))) <==> InSheets(sheets[..j], t)
  {
    AttemptedSheetsLogged(sheets, j);
    AttemptedSheetsScanned(sheets, j);
  }


  /** A workbook that opens: every sheet up to the first that fails to read is logged, the
      cells of the sheets before it are scanned, and its exception ends the file. Without
      such a sheet, all sheets are logged and scanned. */
  lemma WorkbookRead(index: nat, total: nat, file: Upload, sheets: seq<Sheet>, j: nat)
    requires KindOfName(file.name) == Spreadsheet && file.workbook == Value(sheets)
    requires FirstFailingSheet(sheets, j)
    ensures FileLog(index, total, file)
         == [ProcessingLine(index + 1, total, file.name)]
          + SheetLines(AttemptedSheets(sheets, j))
          + (if j < |sheets| then [ErrorLine(file.name, sheets[j].columns.message)] else [])
    ensures forall t :: t in Scanned(Completed(FileSteps(file))) <==> InSheets(sheets[..j], t)
  {
    assert FileSteps(file) == Concat(sheets, SheetSteps);
    SheetsCompleted(sheets, j);
    SheetsTrace(sheets, j);
  }

  // ---------------------------------------------------------------------------------------
  // Word documents
  // ---------------------------------------------------------------------------------------

  lemma TextFacts(text: string)
    ensures FirstRaise(TextSteps(text)).None? && NoLogs(TextSteps(text))
    ensures Scanned(TextSteps(text)) == [text]
  {
    assert [Scan(text)][1..] == [];
  }

  lemma TextsFacts(texts: seq<string>)
    ensures FirstRaise(Concat(texts, TextSteps)).None? && NoLogs(Concat(texts, TextSteps))
    ensures forall t :: t in Scanned(Concat(texts, TextSteps)) <==> t in texts
  {
    forall k | 0 <= k < |texts| ensures FirstRaise(TextSteps(texts[k])).None? && NoLogs(TextSteps(texts[k])) {
      TextFacts(texts[k]);
    }
    ConcatNoRaise(texts, TextSteps);
    ConcatNoLogs(texts, TextSteps);
    forall t ensures t in Scanned(Concat(texts, TextSteps)) <==> t in texts {
      ScannedConcat(texts, TextSteps, t);
      forall k | 0 <= k < |texts| ensures t in Scanned(TextSteps(texts[k])) <==> texts[k] == t {
        TextFacts(texts[k]);
      }
    }
  }

  /** The cell texts of a table's rows. */
  ghost predicate InTable(table: seq<seq<string>>, t: string) {
    exists r, c :: 0 <= r < |table| && 0 <= c < |table[r]| && table[r][c] == t
  }

  lemma TableFacts(table: seq<seq<string>>)
    ensures FirstRaise(TableSteps(table)).None? && NoLogs(TableSteps(table))
    ensures forall t :: t in Scanned(TableSteps(table)) <==> InTable(table, t)
  {
    forall r | 0 <= r < |table| ensures FirstRaise(RowSteps(table[r])).None? && NoLogs(RowSteps(table[r])) {
      TextsFacts(table[r]);
    }
    ConcatNoRaise(table, RowSteps);
    ConcatNoLogs(table, RowSteps);
    forall t ensures t in Scanned(TableSteps(table)) <==> InTable(table, t) {
      ScannedConcat(table, RowSteps, t);
      forall r | 0 <= r < |table| ensures t in Scanned(RowSteps(table[r])) <==> t in table[r] {
        TextsFacts(table[r]);
      }
    }
  }

  /** The cell texts of the document's tables. */
  ghost predicate InTables(tables: seq<seq<seq<string>>>, t: string) {
    exists a :: 0 <= a < |tables| && InTable(tables[a], t)
  }

  lemma TablesFacts(tables: seq<seq<seq<string>>>)
    ensures FirstRaise(Concat(tables, TableSteps)).None? && NoLogs(Concat(tables, TableSteps))
    ensures forall t :: t in Scanned(Concat(tables, TableSteps)) <==> InTables(tables, t)
  {
    forall a | 0 <= a < |tables| ensures FirstRaise(TableSteps(tables[a])).None? && NoLogs(TableSteps(tables[a])) {
      TableFacts(tables[a]);
    }
    ConcatNoRaise(tables, TableSteps);
    ConcatNoLogs(tables, TableSteps);
    forall t ensures t in Scanned(Concat(tables, TableSteps)) <==> InTables(tables, t) {
      ScannedConcat(tables, TableSteps, t);
      forall a | 0 <= a < |tables| ensures t in Scanned(TableSteps(tables[a])) <==> InTable(tables[a], t) {
        TableFacts(tables[a]);
      }
    }
  }

  /** A Word document that opens is announced by one stage line and has every paragraph and
      every table cell scanned; nothing after the open can raise. */
  lemma WordRead(index: nat, total: nat, file: Upload, doc: WordDocument)
    requires KindOfName(file.name) == Word && file.document == Value(doc)
    ensures FileLog(index, total, file) == [ProcessingLine(index + 1, total, file.name), WordLine]
    ensures forall t :: t in Scanned(Completed(FileSteps(file))) <==> t in doc.paragraphs || InTables(doc.tables, t)
  {
    var line: seq<Step> := [Log(WordLine)];
    var paragraphs, tables := Concat(doc.paragraphs, TextSteps), Concat(doc.tables, TableSteps);
    assert FileSteps(file) == line + paragraphs + tables;
    assert line[1..] == [];
    TextsFacts(doc.paragraphs);
    TablesFacts(doc.tables);
    NoLogsLogged(paragraphs);
    NoLogsLogged(tables);
    FirstRaiseAppend(line, paragraphs);
    FirstRaiseAppend(line + paragraphs, tables);
    CompletedNoRaise(line + paragraphs + tables);
    LoggedAppend(line, paragraphs);
    LoggedAppend(line + paragraphs, tables);
    ScannedAppend(line, paragraphs);
    ScannedAppend(line + paragraphs, tables);
  }

  // ---------------------------------------------------------------------------------------
  // PDF files
  // ---------------------------------------------------------------------------------------

  lemma PageFacts(page: PageText)
    ensures NoLogs(PageSteps(page))
    ensures FirstRaise(PageSteps(page)) == if page.Raises? then Some(page.message) else None
    ensures Completed(PageSteps(page)) == if page.Raises? then [] else PageSteps(page)
    ensures Scanned(PageSteps(page))
         == if page.Value? && page.value.Some? && page.value.value != "" then [page.value.value] else []
  {
    if page.Raises? {
      assert PageSteps(page)[1..] == [];
    } else if page.value.Some? && page.value.value != "" {
      assert PageSteps(page)[1..] == [];
    }
  }

  /** The pages before j have a text (possibly missing or empty) and page j, if there is one,
      raises. */
  ghost predicate FirstFailingPage(pages: seq<PageText>, j: nat) {
    && j <= |pages|
    && (forall k :: 0 <= k < j ==> pages[k].Value?)
    && (j < |pages| ==> pages[j].Raises?)
  }

  /** The non-empty page texts before page j. */
  ghost predicate InPages(pages: seq<PageText>, j: nat, t: string)
    requires j <= |pages|
  {
    exists k :: 0 <= k < j && pages[k] == Value(Some(t)) && t != ""
  }

  lemma PagesLogFree(pages: seq<PageText>, j: nat)
    requires j <= |pages|
    ensures NoLogs(Concat(pages, PageSteps)) && NoLogs(Concat(pages[..j], PageSteps))
  {
    forall k | 0 <= k < |pages| ensures NoLogs(PageSteps(pages[k])) {
      PageFacts(pages[k]);
    }
    ConcatNoLogs(pages, PageSteps);
    forall k | 0 <= k < j ensures NoLogs(PageSteps(pages[..j][k])) {
      assert pages[..j][k] == pages[k];
    }
    ConcatNoLogs(pages[..j], PageSteps);
  }

  lemma PagesOutcome(pages: seq<PageText>, j: nat)
    requires FirstFailingPage(pages, j)
    ensures Completed(Concat(pages, PageSteps)) == Concat(pages[..j], PageSteps)
    ensures FirstRaise(Concat(pages, PageSteps)) == if j < |pages| then Some(pages[j].message) else None
  {
    forall k | 0 <= k < j ensures FirstRaise(PageSteps(pages[k])).None? {
      PageFacts(pages[k]);
    }
    if j < |pages| {
      PageFacts(pages[j]);
      ConcatFirstRaise(pages, PageSteps, j);
    } else {
      assert pages[..j] == pages;
      ConcatNoRaise(pages, PageSteps);
    }
  }

  lemma PagesScanned(pages: seq<PageText>, j: nat)
    requires j <= |pages|
    ensures forall t :: t in Scanned(Concat(pages[..j], PageSteps)) <==> InPages(pages, j, t)
  {
    forall t ensures t in Scanned(Concat(pages[..j], PageSteps)) <==> InPages(pages, j, t) {
      ScannedConcat(pages[..j], PageSteps, t);
      forall k | 0 <= k < j ensures
        t in Scanned(PageSteps(pages[..j][k])) <==> pages[k] == Value(Some(t)) && t != ""
      {
        assert pages[..j][k] == pages[k];
        PageFacts(pages[k]);
      }
    }
  }

  lemma PagesSteps(pages: seq<PageText>, j: nat)
    requires FirstFailingPage(pages, j)
    ensures NoLogs(Concat(pages, PageSteps)) && NoLogs(Concat(pages[..j], PageSteps))
    ensures Completed(Concat(pages, PageSteps)) == Concat(pages[..j], PageSteps)
    ensures FirstRaise(Concat(pages, PageSteps)) == if j < |pages| then Some(pages[j].message) else None
    ensures forall t :: t in Scanned(Concat(pages[..j], PageSteps)) <==> InPages(pages, j, t)
  {
    PagesLogFree(pages, j);
    PagesOutcome(pages, j);
    PagesScanned(pages, j);
  }


  /** The steps of an opened PDF whose page list could be read. */
  lemma PdfPagesTrace(pages: seq<PageText>, j: nat)
    requires FirstFailingPage(pages, j)
    ensures var steps := [Log(PdfLine)] + Concat(pages, PageSteps);
      && Logged(Completed(steps)) == [PdfLine]
      && FirstRaise(steps) == (if j < |pages| then Some(pages[j].message) else None)
      && forall t :: t in Scanned(Completed(steps)) <==> InPages(pages, j, t)
  {
    var line: seq<Step> := [Log(PdfLine)];
    var body := Concat(pages, PageSteps);
    assert line[1..] == [];
    PagesSteps(pages, j);
    FirstRaiseAppend(line, body);
    CompletedAppend(line, body);
    NoLogsLogged(Concat(pages[..j], PageSteps));
    LoggedAppend(line, Concat(pages[..j], PageSteps));
    ScannedAppend(line, Concat(pages[..j], PageSteps));
  }

  /** A PDF that opens is announced by one stage line; the texts of its pages are scanned up to
      the first page whose text cannot be extracted, whose exception ends the file, and a
      missing or empty text is skipped. */
  lemma PdfRead(index: nat, total: nat, file: Upload, pages: seq<PageText>, j: nat)
    requires KindOfName(file.name) == Pdf && file.pdf == Value(PdfDocument(Value(pages)))
    requires FirstFailingPage(pages, j)
    ensures FileLog(index, total, file)
         == [ProcessingLine(index + 1, total, file.name), PdfLine]
          + (if j < |pages| then [ErrorLine(file.name, pages[j].message)] else [])
    ensures Logged(Completed(FileSteps(file))) == [PdfLine]
    ensures forall t :: t in Scanned(Completed(FileSteps(file))) <==> InPages(pages, j, t)
  {
    assert FileSteps(file) == [Log(PdfLine)] + Concat(pages, PageSteps);
    PdfPagesTrace(pages, j);
  }


  /** A PDF whose page list cannot be read has been announced, and adds no email. */
  lemma PdfPagesFail(index: nat, total: nat, file: Upload, m: string)
    requires KindOfName(file.name) == Pdf && file.pdf == Value(PdfDocument(Raises(m)))
    ensures FileLog(index, total, file)
         == [ProcessingLine(index + 1, total, file.name), PdfLine, ErrorLine(file.name, m)]
    ensures FileFound(file) == {}
  {
    var steps := FileSteps(file);
    assert steps == [Log(PdfLine), Raise(m)];
    assert steps[1..] == [Raise(m)];
    assert Completed(steps[1..]) == [] && FirstRaise(steps[1..]) == Some(m);
    assert Completed(steps) == [Log(PdfLine)];
    assert Logged(Completed(steps)) == [PdfLine];
    assert Scanned(Completed(steps)) == [];
  }

  // ---------------------------------------------------------------------------------------
  // The shape of a file's block of log lines
  // ---------------------------------------------------------------------------------------

  /** Index of the first sheet that fails to read, or the number of sheets. */
  ghost function FailingSheet(sheets: seq<Sheet>): (j: nat)
    ensures FirstFailingSheet(sheets, j)
    decreases |sheets|
  {
    if sheets == [] then 0
    else if sheets[0].columns.Raises? then 0
    else
      var j := FailingSheet(sheets[1..]);
      assert forall k :: 1 <= k < j + 1 ==> sheets[k] == sheets[1..][k - 1];
      j + 1
  }

  /** Index of the first page whose text cannot be extracted, or the number of pages. */
  ghost function FailingPage(pages: seq<PageText>): (j: nat)
    ensures FirstFailingPage(pages, j)
    decreases |pages|
  {
    if pages == [] then 0
    else if pages[0].Raises? then 0
    else
      var j := FailingPage(pages[1..]);
      assert forall k :: 1 <= k < j + 1 ==> pages[k] == pages[1..][k - 1];
      j + 1
  }

  /** A line that is neither a processing line nor an error line. */
  ghost predicate ReportLine(line: string) {
    !IsProcessingLine(line) && !IsErrorLine(line)
  }

  ghost predicate ReportLines(lines: seq<string>) {
    forall k :: 0 <= k < |lines| ==> ReportLine(lines[k])
  }

  lemma SheetLinesReport(sheets: seq<Sheet>)
    ensures ReportLines(SheetLines(sheets))
  {
    forall k | 0 <= k < |sheets| ensures ReportLine(SheetLines(sheets)[k]) {
      LineKinds(0, 0, "", sheets[k].name, "");
    }
  }

  lemma WorkbookLinesReport(file: Upload)
    requires KindOfName(file.name) == Spreadsheet
    ensures ReportLines(Logged(Completed(FileSteps(file))))
  {
    if file.workbook.Raises? {
      OpenFails(0, 0, file, file.workbook.message);
    } else {
      var sheets := file.workbook.value;
      var j := FailingSheet(sheets);
      assert FileSteps(file) == Concat(sheets, SheetSteps);
      SheetsTrace(sheets, j);
      SheetLinesReport(AttemptedSheets(sheets, j));
    }
  }

  lemma WordLinesReport(file: Upload)
    requires KindOfName(file.name) == Word
    ensures ReportLines(Logged(Completed(FileSteps(file))))
  {
    LineKinds(0, 0, "", "", "");
    if file.document.Raises? {
      OpenFails(0, 0, file, file.document.message);
    } else {
      WordRead(0, 0, file, file.document.value);
      assert Logged(Completed(FileSteps(file))) == [WordLine];
    }
  }

  lemma PdfLinesReport(file: Upload)
    requires KindOfName(file.name) == Pdf
    ensures ReportLines(Logged(Completed(FileSteps(file))))
  {
    LineKinds(0, 0, "", "", "");
    if file.pdf.Raises? {
      OpenFails(0, 0, file, file.pdf.message);
    } else if file.pdf.value.pages.Raises? {
      PdfPagesFail(0, 0, file, file.pdf.value.pages.message);
      assert Logged(Completed(FileSteps(file))) == [PdfLine];
    } else {
      var pages := file.pdf.value.pages.value;
      PdfRead(0, 0, file, pages, FailingPage(pages));
    }
  }

  /** Inside the try-block only sheet, stage and unsupported-type lines are logged. */
  lemma TryBlockLinesReport(file: Upload)
    ensures ReportLines(Logged(Completed(FileSteps(file))))
  {
    match KindOfName(file.name)
      case Unsupported =>
        LineKinds(0, 0, file.name, "", "");
        UnsupportedFile(0, 0, file);
        assert Logged(Completed(FileSteps(file))) == [UnsupportedLine(file.name)];
      case Spreadsheet => WorkbookLinesReport(file);
      case Word => WordLinesReport(file);
      case Pdf => PdfLinesReport(file);
  }

  /** A file's block starts with its processing line and contains no other; an error line can
      only be its last line, and is exactly when the try-block raised. */
  lemma FileLogShape(index: nat, total: nat, file: Upload)
    ensures var log := FileLog(index, total, file);
      && log[0] == ProcessingLine(index + 1, total, file.name)
      && (forall k :: 1 <= k < |log| ==> !IsProcessingLine(log[k]))
      && (forall k :: 0 <= k < |log| - 1 ==> !IsErrorLine(log[k]))
      && (IsErrorLine(log[|log| - 1]) <==> FirstRaise(FileSteps(file)).Some?)
  {
    var steps := FileSteps(file);
    var logged := Logged(Completed(steps));
    var log := FileLog(index, total, file);
    TryBlockLinesReport(file);
    if FirstRaise(steps).Some? {
      LineKinds(index + 1, total, file.name, "", FirstRaise(steps).value);
      assert log == [ProcessingLine(index + 1, total, file.name)] + logged + [ErrorLine(file.name, FirstRaise(steps).value)];
    } else {
      LineKinds(index + 1, total, file.name, "", "");
      assert log == [ProcessingLine(index + 1, total, file.name)] + logged;
    }
    forall k | 1 <= k < |logged| + 1 ensures log[k] == logged[k - 1] {
    }
  }
}
