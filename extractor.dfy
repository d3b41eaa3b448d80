/**
 * `extract_emails_from_files`: every uploaded file in turn, its reader's texts scanned with the
 * email pattern into one set, a log of what happened, and the set returned sorted. The
 * functions `ProcessFile` and `Extracted` say what a batch produces; the methods do it the way
 * the program's nested loops do and are proved to agree with them.
 */
module Extractor {
  import opened Wrappers
  import opened EmailPattern
  import opened StringOrder
  import opened FileNames
  import opened LogLines
  import opened Steps
  import opened Uploads

  /** The email set and the log after some of the files. */
  datatype Batch = Batch(emails: set<string>, logs: seq<string>)

  /** One pass of the `for` loop: the processing line, the try-block, and the error line of
      the `except` clause when the block raised. */
  function ProcessFile(acc: Batch, index: nat, total: nat, file: Upload): Batch {
    var p := Run(Progress(acc.emails, acc.logs + [ProcessingLine(index + 1, total, file.name)], None),
                 FileSteps(file));
    Batch(p.emails, if p.failure.Some? then p.logs + [ErrorLine(file.name, p.failure.value)] else p.logs)
  }

  /** The state after the given files, which are the first of `total`. */
  function Extracted(files: seq<Upload>, total: nat): Batch
    decreases |files|
  {
    if files == [] then Batch({}, [])
    else
      var n := |files| - 1;
      ProcessFile(Extracted(files[..n], total), n, total, files[n])
  }

  /** Adds every match of the email pattern in the text to the set, one at a time. */
  method AddMatches(emails: set<string>, text: string) returns (r: set<string>)
    ensures r == emails + Found(text)
  {
    var matches := FindAll(text);
    r := emails;
    for k := 0 to |matches|
      invariant r == emails + set t | 0 <= t < k :: matches[t]
    {
      r := r + {matches[k]};
    }
  }

  /** Scans the cells of one column in order, skipping the missing ones. */
  method ScanColumn(emails0: set<string>, logs: seq<string>, column: seq<Cell>) returns (emails: set<string>)
    ensures Run(Progress(emails0, logs, None), ColumnSteps(column)) == Progress(emails, logs, None)
  {
    ghost var start := Progress(emails0, logs, None);
    emails := emails0;
    for k := 0 to |column|
      invariant Run(start, Concat(column[..k], CellSteps)) == Progress(emails, logs, None)
    {
      RunConcatSnoc(start, column, k, CellSteps);
      if column[k].Some? {
        RunScan(emails, logs, column[k].value);
        emails := AddMatches(emails, column[k].value);
      }
    }
    assert column[..|column|] == column;
  }

  /** One sheet: its name logged, then `read_excel` and every column scanned. */
  method ReadSheet(emails0: set<string>, logs0: seq<string>, sheet: Sheet)
    returns (emails: set<string>, logs: seq<string>, failure: Option<string>)
    ensures Progress(emails, logs, failure) == Run(Progress(emails0, logs0, None), SheetSteps(sheet))
  {
    ghost var start := Progress(emails0, logs0, None);
    ghost var line := [Log(SheetLine(sheet.name))];
    logs := logs0 + [SheetLine(sheet.name)];
    emails, failure := emails0, None;
    RunLog(emails0, logs0, SheetLine(sheet.name));
    if sheet.columns.Raises? {
      failure := Some(sheet.columns.message);
      RunRaiseFirst(emails, logs, sheet.columns.message, []);
      RunAppend(start, line, [Raise(sheet.columns.message)]);
      return;
    }
    var columns := sheet.columns.value;
    ghost var after := Progress(emails0, logs, None);
    for j := 0 to |columns|
      invariant Run(after, Concat(columns[..j], ColumnSteps)) == Progress(emails, logs, None)
    {
      RunConcatSnoc(after, columns, j, ColumnSteps);
      emails := ScanColumn(emails, logs, columns[j]);
    }
    assert columns[..|columns|] == columns;
    RunAppend(start, line, Concat(columns, ColumnSteps));
  }

  /** The spreadsheet branch: `pd.ExcelFile`, then every sheet in turn. */
  method ReadWorkbook(emails0: set<string>, logs0: seq<string>, workbook: Outcome<seq<Sheet>>)
    returns (emails: set<string>, logs: seq<string>, failure: Option<string>)
    ensures Progress(emails, logs, failure) == Run(Progress(emails0, logs0, None), WorkbookSteps(workbook))
  {
    ghost var start := Progress(emails0, logs0, None);
    emails, logs, failure := emails0, logs0, None;
    if workbook.Raises? {
      failure := Some(workbook.message);
      RunRaiseFirst(emails0, logs0, workbook.message, []);
      assert [Raise(workbook.message)] + [] == [Raise(workbook.message)];
      return;
    }
    var sheets := workbook.value;
    for i := 0 to |sheets|
      invariant Run(start, Concat(sheets[..i], SheetSteps)) == Progress(emails, logs, None)
      invariant failure.None?
    {
      RunConcatSnoc(start, sheets, i, SheetSteps);
      emails, logs, failure := ReadSheet(emails, logs, sheets[i]);
      if failure.Some? {
        RunConcatStops(start, sheets, i, SheetSteps);
        return;
      }
    }
    assert sheets[..|sheets|] == sheets;
  }

  /** Paragraph texts, or the cell texts of a table row, each scanned. */
  method ScanTexts(emails0: set<string>, logs: seq<string>, texts: seq<string>) returns (emails: set<string>)
    ensures Run(Progress(emails0, logs, None), Concat(texts, TextSteps)) == Progress(emails, logs, None)
  {
    ghost var start := Progress(emails0, logs, None);
    emails := emails0;
    for k := 0 to |texts|
      invariant Run(start, Concat(texts[..k], TextSteps)) == Progress(emails, logs, None)
    {
      RunConcatSnoc(start, texts, k, TextSteps);
      RunScan(emails, logs, texts[k]);
      emails := AddMatches(emails, texts[k]);
    }
    assert texts[..|texts|] == texts;
  }

  /** Scans a table row by row, and each row cell by cell. */
  method ScanTable(emails0: set<string>, logs: seq<string>, table: seq<seq<string>>) returns (emails: set<string>)
    ensures Run(Progress(emails0, logs, None), TableSteps(table)) == Progress(emails, logs, None)
  {
    ghost var start := Progress(emails0, logs, None);
    emails := emails0;
    for r := 0 to |table|
      invariant Run(start, Concat(table[..r], RowSteps)) == Progress(emails, logs, None)
    {
      RunConcatSnoc(start, table, r, RowSteps);
      emails := ScanTexts(emails, logs, table[r]);
    }
    assert table[..|table|] == table;
  }

  /** The Word branch: `Document`, the stage line, then every paragraph and every table. */
  method ReadWordDocument(emails0: set<string>, logs0: seq<string>, document: Outcome<WordDocument>)
    returns (emails: set<string>, logs: seq<string>, failure: Option<string>)
    ensures Progress(emails, logs, failure) == Run(Progress(emails0, logs0, None), DocumentSteps(document))
  {
    ghost var start := Progress(emails0, logs0, None);
    emails, logs, failure := emails0, logs0, None;
    if document.Raises? {
      failure := Some(document.message);
      RunRaiseFirst(emails0, logs0, document.message, []);
      assert [Raise(document.message)] + [] == [Raise(document.message)];
      return;
    }
    var doc := document.value;
    RunLog(emails, logs, WordLine);
    logs := logs + [WordLine];
    ghost var afterLine := Progress(emails0, logs, None);
    emails := ScanTexts(emails, logs, doc.paragraphs);
    ghost var afterParagraphs := Progress(emails, logs, None);
    for t := 0 to |doc.tables|
      invariant Run(afterParagraphs, Concat(doc.tables[..t], TableSteps)) == Progress(emails, logs, None)
    {
      RunConcatSnoc(afterParagraphs, doc.tables, t, TableSteps);
      emails := ScanTable(emails, logs, doc.tables[t]);
    }
    assert doc.tables[..|doc.tables|] == doc.tables;
    ghost var lineSteps, paragraphSteps := [Log(WordLine)], Concat(doc.paragraphs, TextSteps);
    RunAppend(start, lineSteps, paragraphSteps);
    RunAppend(start, lineSteps + paragraphSteps, Concat(doc.tables, TableSteps));
  }

  /** The PDF branch: `PdfReader`, the stage line, then the text of each page that has one. */
  method ReadPdf(emails0: set<string>, logs0: seq<string>, pdf: Outcome<PdfDocument>)
    returns (emails: set<string>, logs: seq<string>, failure: Option<string>)
    ensures Progress(emails, logs, failure) == Run(Progress(emails0, logs0, None), PdfSteps(pdf))
  {
    ghost var start := Progress(emails0, logs0, None);
    emails, logs, failure := emails0, logs0, None;
    if pdf.Raises? {
      failure := Some(pdf.message);
      RunRaiseFirst(emails0, logs0, pdf.message, []);
      assert [Raise(pdf.message)] + [] == [Raise(pdf.message)];
      return;
    }
    RunLog(emails, logs, PdfLine);
    logs := logs + [PdfLine];
    ghost var afterLine := Progress(emails0, logs, None);
    ghost var line := [Log(PdfLine)];
    if pdf.value.pages.Raises? {
      failure := Some(pdf.value.pages.message);
      RunRaiseFirst(emails0, logs, pdf.value.pages.message, []);
      RunAppend(start, line, [Raise(pdf.value.pages.message)]);
      return;
    }
    var pages := pdf.value.pages.value;
    for k := 0 to |pages|
      invariant Run(afterLine, Concat(pages[..k], PageSteps)) == Progress(emails, logs, None)
    {
      RunConcatSnoc(afterLine, pages, k, PageSteps);
      var page := pages[k];
      if page.Raises? {
        failure := Some(page.message);
        RunRaiseFirst(emails, logs, page.message, []);
        assert [Raise(page.message)] + [] == [Raise(page.message)];
        RunConcatStops(afterLine, pages, k, PageSteps);
        RunAppend(start, line, Concat(pages, PageSteps));
        return;
      }
      var text := page.value;
      if text.Some? && text.value != "" {
        RunScan(emails, logs, text.value);
        emails := AddMatches(emails, text.value);
      }
    }
    assert pages[..|pages|] == pages;
    RunAppend(start, line, Concat(pages, PageSteps));
  }

  /** One pass of the `for` loop over the uploaded files. */
  method ProcessUpload(emailSet0: set<string>, logs0: seq<string>, index: nat, total: nat, file: Upload)
    returns (emailSet: set<string>, logs: seq<string>)
    ensures Batch(emailSet, logs) == ProcessFile(Batch(emailSet0, logs0), index, total, file)
  {
    var name := file.name;
    var extension := Lower(Extension(name));
    logs := logs0 + [ProcessingLine(index + 1, total, name)];
    var failure: Option<string>;
    if extension == ".xls" || extension == ".xlsx" || extension == ".xlsm" {
      emailSet, logs, failure := ReadWorkbook(emailSet0, logs, file.workbook);
    } else if extension == ".docx" {
      emailSet, logs, failure := ReadWordDocument(emailSet0, logs, file.document);
    } else if extension == ".pdf" {
      emailSet, logs, failure := ReadPdf(emailSet0, logs, file.pdf);
    } else {
      RunLog(emailSet0, logs, UnsupportedLine(name));
      emailSet := emailSet0;
      logs := logs + [UnsupportedLine(name)];
      failure := None;
    }
    if failure.Some? {
      logs := logs + [ErrorLine(name, failure.value)];
    }
  }

  /** `extract_emails_from_files(files)`: the sorted emails and the log. */
  method ExtractEmailsFromFiles(files: seq<Upload>) returns (emails: seq<string>, logs: seq<string>)
    ensures StrictlyIncreasing(emails)
    ensures forall e :: e in emails <==> e in Extracted(files, |files|).emails
    ensures logs == Extracted(files, |files|).logs
  {
    var emailSet: set<string> := {};
    logs := [];
    var total := |files|;
    for idx := 0 to |files|
      invariant Batch(emailSet, logs) == Extracted(files[..idx], total)
    {
      assert files[..idx + 1][..idx] == files[..idx] && files[..idx + 1][idx] == files[idx];
      emailSet, logs := ProcessUpload(emailSet, logs, idx, total, files[idx]);
    }
    assert files[..|files|] == files;
    emails := SortedList(emailSet);
  }
}
