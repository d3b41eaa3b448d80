/**
 * The lines the extractor appends to its log, and the decimal rendering of the file counter
 * inside them.
 */
module LogLines {

  function DigitChar(d: nat): (c: char)
    requires d < 10
  {
    ('0' as int + d) as char
  }

  predicate IsDigit(c: char) {
    '0' <= c <= '9'
  }

  /** Python's `str(n)` for a natural number. */
  function Decimal(n: nat): (r: string)
    ensures |r| > 0
    ensures forall k :: 0 <= k < |r| ==> IsDigit(r[k])
    decreases n
  {
    if n < 10 then [DigitChar(n)] else Decimal(n / 10) + [DigitChar(n % 10)]
  }

  /** The number a string of digits denotes. */
  function DigitsValue(s: string): int
    decreases |s|
  {
    if s == [] then 0 else 10 * DigitsValue(s[..|s| - 1]) + (s[|s| - 1] as int - '0' as int)
  }

  /** Reading the counter back gives the number, and there is no leading zero. */
  lemma {:induction false} DecimalRoundTrip(n: nat)
    ensures DigitsValue(Decimal(n)) == n
    ensures Decimal(n)[0] == '0' ==> n == 0
    decreases n
  {
    var r := Decimal(n);
    if n >= 10 {
      DecimalRoundTrip(n / 10);
      assert r[..|r| - 1] == Decimal(n / 10);
      assert r[0] == Decimal(n / 10)[0];
    }
  }

  lemma DecimalInjective(n: nat, m: nat)
    requires Decimal(n) == Decimal(m)
    ensures n == m
  {
    DecimalRoundTrip(n);
    DecimalRoundTrip(m);
  }

  function ProcessingLine(number: nat, total: nat, name: string): string {
    "Processing file " + Decimal(number) + "/" + Decimal(total) + ": **" + name + "**"
  }

  function SheetLine(sheet: string): string {
    "Reading sheet: " + sheet
  }

  const WordLine: string := "Extracting text from Word document"

  const PdfLine: string := "Extracting text from PDF"

  function UnsupportedLine(name: string): string {
    "\U{26A0}\U{FE0F} Unsupported file type: " + name
  }

  /** The line the `except` clause appends; `message` is `str(e)`. */
  function ErrorLine(name: string, message: string): string {
    "\U{274C} Error processing file " + name + ": " + message
  }

  const ProcessingPrefix: string := "Processing file "

  predicate IsProcessingLine(line: string) {
    |line| >= |ProcessingPrefix| && line[..|ProcessingPrefix|] == ProcessingPrefix
  }

  predicate IsErrorLine(line: string) {
    |line| > 0 && line[0] == '\U{274C}'
  }

  /** Processing lines and error lines can be told from every other line by how they begin,
      whatever the file, sheet and exception texts inside them. */
  lemma LineKinds(number: nat, total: nat, name: string, sheet: string, message: string)
    ensures IsProcessingLine(ProcessingLine(number, total, name))
    ensures !IsErrorLine(ProcessingLine(number, total, name))
    ensures !IsProcessingLine(SheetLine(sheet)) && !IsErrorLine(SheetLine(sheet))
    ensures !IsProcessingLine(WordLine) && !IsErrorLine(WordLine)
    ensures !IsProcessingLine(PdfLine) && !IsErrorLine(PdfLine)
    ensures !IsProcessingLine(UnsupportedLine(name)) && !IsErrorLine(UnsupportedLine(name))
    ensures IsErrorLine(ErrorLine(name, message)) && !IsProcessingLine(ErrorLine(name, message))
  {
    var p := ProcessingLine(number, total, name);
    assert p[..|ProcessingPrefix|] == ProcessingPrefix;
    assert SheetLine(sheet)[0] == 'R' && WordLine[0] == 'E' && PdfLine[0] == 'E';
    assert UnsupportedLine(name)[0] == '\U{26A0}';
    assert ErrorLine(name, message)[0] == '\U{274C}';
  }

  /** Digits followed by a separator that is not a digit: the split point is fixed. */
  lemma DigitsSplit(a: string, b: string, x: string, y: string, sep: char)
    requires forall k :: 0 <= k < |a| ==> IsDigit(a[k])
    requires forall k :: 0 <= k < |b| ==> IsDigit(b[k])
    requires !IsDigit(sep)
    requires a + [sep] + x == b + [sep] + y
    ensures a == b && x == y
  {
    var s := a + [sep] + x;
    assert forall k :: 0 <= k < |a| ==> IsDigit(s[k]);
    assert !IsDigit(s[|a|]);
    assert s == b + [sep] + y;
    assert forall k :: 0 <= k < |b| ==> IsDigit(s[k]);
    assert !IsDigit(s[|b|]);
    assert |a| == |b|;
    assert a == s[..|a|] && b == s[..|b|];
    assert x == s[|a| + 1..] && y == s[|b| + 1..];
  }

  lemma ProcessingLineParts(i: nat, n: nat, name: string)
    ensures ProcessingLine(i, n, name)[|ProcessingPrefix|..]
         == Decimal(i) + ['/'] + (Decimal(n) + [':'] + (" **" + name + "**"))
  {
  }

  lemma NameInParts(name: string)
    ensures (" **" + name + "**")[3..|name| + 3] == name
  {
  }

  /** The processing line names its file number, the batch size and the file name unambiguously. */
  lemma ProcessingLineInjective(i: nat, n: nat, name: string, i': nat, n': nat, name': string)
    requires ProcessingLine(i, n, name) == ProcessingLine(i', n', name')
    ensures i == i' && n == n' && name == name'
  {
    ProcessingLineParts(i, n, name);
    ProcessingLineParts(i', n', name');
    var tail, tail' := Decimal(n) + [':'] + (" **" + name + "**"), Decimal(n') + [':'] + (" **" + name' + "**");
    DigitsSplit(Decimal(i), Decimal(i'), tail, tail', '/');
    DigitsSplit(Decimal(n), Decimal(n'), " **" + name + "**", " **" + name' + "**", ':');
    NameInParts(name);
    NameInParts(name');
    DecimalInjective(i, i');
    DecimalInjective(n, n');
  }
}
