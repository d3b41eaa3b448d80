/**
 * How an uploaded file's name selects its reader: `os.path.splitext(filename)[1].lower()`
 * compared with the spreadsheet, Word and PDF extensions. `splitext` is the POSIX one (the
 * separator is '/' only), and `lower` is modelled on ASCII letters.
 */
module FileNames {

  /** Index of the last occurrence of c in s, or -1: Python's `str.rfind`. */
  function RFind(s: string, c: char): (r: int)
    ensures -1 <= r < |s|
    ensures r >= 0 ==> s[r] == c
    ensures forall k :: r < k < |s| ==> s[k] != c
  {
    if |s| == 0 then -1
    else if s[|s| - 1] == c then |s| - 1
    else RFind(s[..|s| - 1], c)
  }

  /** Some character in s[lo..hi] is not a dot. */
  predicate HasNonDot(s: string, lo: int, hi: int)
    requires 0 <= lo && hi <= |s|
  {
    exists k :: lo <= k < hi && s[k] != '.'
  }

  /** The extension `os.path.splitext` reports: from the last dot of the last path component to
      the end, provided that component has a non-dot character before that dot; otherwise "". */
  function Extension(name: string): string {
    var sep := RFind(name, '/');
    var dot := RFind(name, '.');
    if dot > sep && HasNonDot(name, sep + 1, dot) then name[dot..] else ""
  }

  /** d is the dot that starts the extension: the last dot, with no '/' after it, and a non-dot
      character in the same path component before it. Stated without `rfind`. */
  ghost predicate ExtensionDot(name: string, d: int) {
    && 0 <= d < |name| && name[d] == '.'
    && (forall k :: d < k < |name| ==> name[k] != '.' && name[k] != '/')
    && (exists k :: 0 <= k < d && name[k] != '.' && forall j :: k <= j < d ==> name[j] != '/')
  }

  lemma ExtensionAt(name: string, d: int)
    requires ExtensionDot(name, d)
    ensures Extension(name) == name[d..]
  {
    var k :| 0 <= k < d && name[k] != '.' && forall j :: k <= j < d ==> name[j] != '/';
    assert RFind(name, '.') == d;
    var sep := RFind(name, '/');
    assert sep < k;
    assert HasNonDot(name, sep + 1, d);
  }

  lemma ExtensionFromRFind(name: string)
    ensures Extension(name) != "" ==>
      ExtensionDot(name, RFind(name, '.')) && Extension(name) == name[RFind(name, '.')..]
  {
    var sep := RFind(name, '/');
    var dot := RFind(name, '.');
    if dot > sep && HasNonDot(name, sep + 1, dot) {
      var k :| sep + 1 <= k < dot && name[k] != '.';
      assert ExtensionDot(name, dot);
    }
  }

  /** The extension is "" exactly when there is no extension dot, and otherwise it is the suffix
      starting at that dot: a dot followed by no further dot or '/'. */
  lemma ExtensionCharacterized(name: string)
    ensures Extension(name) == "" <==> forall d :: !ExtensionDot(name, d)
    ensures Extension(name) != "" ==>
      exists d :: ExtensionDot(name, d) && Extension(name) == name[d..]
  {
    ExtensionFromRFind(name);
    forall d | ExtensionDot(name, d) ensures Extension(name) != "" {
      ExtensionAt(name, d);
    }
  }

  /** Python's `str.lower` on one character, for ASCII letters. */
  function LowerChar(c: char): char {
    if 'A' <= c <= 'Z' then (c as int + 32) as char else c
  }

  /** Python's `str.lower`, for ASCII letters. */
  function Lower(s: string): string {
    seq(|s|, k requires 0 <= k < |s| => LowerChar(s[k]))
  }

  /** Lowering leaves no ASCII capital, changes nothing else, and lowering twice is lowering once. */
  lemma LowerLowers(s: string)
    ensures |Lower(s)| == |s|
    ensures forall k :: 0 <= k < |s| ==> !('A' <= Lower(s)[k] <= 'Z')
    ensures forall k :: 0 <= k < |s| && !('A' <= s[k] <= 'Z') ==> Lower(s)[k] == s[k]
    ensures Lower(Lower(s)) == Lower(s)
  {
  }

  /** The four branches of the try-block. */
  datatype Kind = Spreadsheet | Word | Pdf | Unsupported

  /** The branch a lowercased extension selects. */
  function KindOf(ext: string): Kind {
    if ext == ".xls" || ext == ".xlsx" || ext == ".xlsm" then Spreadsheet
    else if ext == ".docx" then Word
    else if ext == ".pdf" then Pdf
    else Unsupported
  }

  /** The branch a file name selects. */
  function KindOfName(name: string): Kind {
    KindOf(Lower(Extension(name)))
  }

  lemma LowerRFind(s: string, c: char)
    requires c == '.' || c == '/'
    ensures RFind(Lower(s), c) == RFind(s, c)
  {
    var r := RFind(s, c);
    var r' := RFind(Lower(s), c);
    assert forall k :: 0 <= k < |s| ==> (Lower(s)[k] == c <==> s[k] == c);
    assert r' >= 0 ==> s[r'] == c;
    assert r >= 0 ==> Lower(s)[r] == c;
  }

  /** Lowercasing does not move dots or slashes, so it commutes with taking the extension. */
  lemma {:induction false} LowerExtension(name: string)
    ensures Lower(Extension(name)) == Extension(Lower(name))
  {
    LowerRFind(name, '.');
    LowerRFind(name, '/');
    var l := Lower(name);
    var sep := RFind(name, '/');
    var dot := RFind(name, '.');
    if dot > sep {
      assert forall k :: 0 <= k < |name| ==> (l[k] == '.' <==> name[k] == '.');
      if HasNonDot(name, sep + 1, dot) {
        var k :| sep + 1 <= k < dot && name[k] != '.';
        assert l[k] != '.';
        assert Lower(name[dot..]) == l[dot..];
      }
    }
  }

  /** Names that agree up to ASCII case go to the same reader: "REPORT.PDF" is read as a PDF. */
  lemma KindIgnoresCase(a: string, b: string)
    requires Lower(a) == Lower(b)
    ensures KindOfName(a) == KindOfName(b)
  {
    LowerExtension(a);
    LowerExtension(b);
  }

  /** A name ending in ext, with a character other than '.' and '/' right before it, has ext as
      its extension, whatever comes earlier in the name. */
  lemma ExtensionOfSuffix(name: string, ext: string)
    requires 2 <= |ext| < |name| && ext[0] == '.'
    requires forall k :: 1 <= k < |ext| ==> ext[k] != '.' && ext[k] != '/'
    requires name[|name| - |ext|..] == ext
    requires name[|name| - |ext| - 1] != '.' && name[|name| - |ext| - 1] != '/'
    ensures Extension(name) == ext
  {
    var d := |name| - |ext|;
    forall k | d < k < |name| ensures name[k] != '.' && name[k] != '/' {
      assert name[k] == ext[k - d];
    }
    assert name[d] == ext[0];
    assert name[d - 1] == name[|name| - |ext| - 1];
    assert 0 <= d - 1 < d && name[d - 1] != '.' && forall j :: d - 1 <= j < d ==> name[j] != '/';
    assert ExtensionDot(name, d);
    ExtensionAt(name, d);
  }

  /** A name that reaches one of the readers ends in that reader's extension, up to ASCII case,
      and a non-dot character of the same path component precedes it. */
  lemma SupportedNameEnds(name: string)
    requires KindOfName(name) != Unsupported
    ensures exists d :: ExtensionDot(name, d) && KindOf(Lower(name[d..])) == KindOfName(name)
  {
    ExtensionCharacterized(name);
  }

  lemma MixedCasePdf()
    ensures KindOfName("Report.PDF") == Pdf
  {
    ExtensionOfSuffix("Report.PDF", ".PDF");
    var l := Lower(".PDF");
    assert |l| == 4 && l[0] == '.' && l[1] == 'p' && l[2] == 'd' && l[3] == 'f';
    assert l == ".pdf";
  }

  /** Only the last dot starts the extension. */
  lemma InnerDotExtension()
    ensures Extension("contacts.2024.xlsx") == ".xlsx"
  {
    ExtensionOfSuffix("contacts.2024.xlsx", ".xlsx");
  }

  lemma InnerDotIgnored()
    ensures KindOfName("contacts.2024.xlsx") == Spreadsheet
  {
    InnerDotExtension();
    assert Lower(".xlsx") == ".xlsx";
  }

  /** A leading dot starts a hidden file's name, not an extension. */
  lemma HiddenFileHasNoExtension()
    ensures KindOfName(".pdf") == Unsupported
  {
    var name := ".pdf";
    ExtensionFromRFind(name);
    var dot := RFind(name, '.');
    assert name[0] == '.' && name[1] != '.' && name[2] != '.' && name[3] != '.';
    assert dot == 0;
  }

  lemma LegacyWordUnsupported()
    ensures KindOfName("letter.doc") == Unsupported
  {
    ExtensionOfSuffix("letter.doc", ".doc");
    var l := Lower(".doc");
    assert |l| == 4 && l[0] == '.' && l[1] == 'd' && l[2] == 'o' && l[3] == 'c';
    assert l == ".doc";
  }
}
