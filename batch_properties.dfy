/**
 * What a whole batch produces: the email set is the union of what each file contributes, the
 * log is the files' blocks in input order, every file gets exactly one processing line whatever
 * happened to the files before it, and every file whose try-block raised gets exactly one error
 * line. The returned list holds only strings of the pattern's shape, taken from scanned texts.
 */
module BatchProperties {
  import opened EmailPattern
  import opened FileNames
  import opened LogLines
  import opened Steps
  import opened Uploads
  import opened FileProperties
  import opened Extractor

  /** One pass of the loop adds the file's emails to the set and its block to the log. */
  lemma ProcessFileCharacterized(acc: Batch, index: nat, total: nat, file: Upload)
    ensures ProcessFile(acc, index, total, file)
         == Batch(acc.emails + FileFound(file), acc.logs + FileLog(index, total, file))
  {
    var steps := FileSteps(file);
    var line := [ProcessingLine(index + 1, total, file.name)];
    RunCharacterized(acc.emails, acc.logs + line, steps);
    AppendAssoc(acc.logs, line, Logged(Completed(steps)));
  }

  /** The set never shrinks and the log only grows at its end, whether or not the file failed. */
  lemma ProcessFileGrows(acc: Batch, index: nat, total: nat, file: Upload)
    ensures acc.emails <= ProcessFile(acc, index, total, file).emails
    ensures var logs := ProcessFile(acc, index, total, file).logs;
      |acc.logs| < |logs| && logs[..|acc.logs|] == acc.logs
  {
    ProcessFileCharacterized(acc, index, total, file);
    var logs := acc.logs + FileLog(index, total, file);
    assert logs[..|acc.logs|] == acc.logs;
  }

  /** An unsupported file logs its processing line and the unsupported-type line, and nothing
      else; the email set is unchanged. */
  lemma UnsupportedLeavesSet(acc: Batch, index: nat, total: nat, file: Upload)
    requires KindOfName(file.name) == Unsupported
    ensures ProcessFile(acc, index, total, file)
         == Batch(acc.emails, acc.logs + [ProcessingLine(index + 1, total, file.name), UnsupportedLine(file.name)])
  {
    ProcessFileCharacterized(acc, index, total, file);
    UnsupportedFile(index, total, file);
  }

  // ---------------------------------------------------------------------------------------
  // Per-file pieces put together
  // ---------------------------------------------------------------------------------------

  /** The pieces `f(0, xs[0])`, `f(1, xs[1])`, ... one after the other. */
  ghost function Numbered<T>(xs: seq<T>, f: (nat, T) -> seq<string>): seq<string>
    decreases |xs|
  {
    if xs == [] then [] else Numbered(xs[..|xs| - 1], f) + f(|xs| - 1, xs[|xs| - 1])
  }

  /** The union of `f(x)` over the elements. */
  ghost function Gathered<T>(xs: seq<T>, f: T -> set<string>): set<string>
    decreases |xs|
  {
    if xs == [] then {} else Gathered(xs[..|xs| - 1], f) + f(xs[|xs| - 1])
  }

  lemma {:induction false} GatheredMember<T>(xs: seq<T>, f: T -> set<string>, e: string)
    ensures e in Gathered(xs, f) <==> exists i :: 0 <= i < |xs| && e in f(xs[i])
    decreases |xs|
  {
    if xs != [] {
      var n := |xs| - 1;
      GatheredMember(xs[..n], f, e);
      if e in Gathered(xs[..n], f) {
        var i :| 0 <= i < n && e in f(xs[..n][i]);
        assert xs[..n][i] == xs[i];
      }
      if exists i :: 0 <= i < |xs| && e in f(xs[i]) {
        var i :| 0 <= i < |xs| && e in f(xs[i]);
        if i < n {
          assert xs[..n][i] == xs[i];
        }
      }
    }
  }

  lemma {:induction false} GatheredPrefix<T>(xs: seq<T>, k: nat, f: T -> set<string>)
    requires k <= |xs|
    ensures Gathered(xs[..k], f) <= Gathered(xs, f)
    decreases |xs|
  {
    if k == |xs| {
      assert xs[..k] == xs;
    } else {
      var n := |xs| - 1;
      assert xs[..n][..k] == xs[..k];
      GatheredPrefix(xs[..n], k, f);
    }
  }

  lemma {:induction false} NumberedPrefix<T>(xs: seq<T>, k: nat, f: (nat, T) -> seq<string>)
    requires k <= |xs|
    ensures |Numbered(xs[..k], f)| <= |Numbered(xs, f)|
    ensures Numbered(xs, f)[..|Numbered(xs[..k], f)|] == Numbered(xs[..k], f)
    decreases |xs|
  {
    if k == |xs| {
      assert xs[..k] == xs;
    } else {
      var n := |xs| - 1;
      assert xs[..n][..k] == xs[..k];
      NumberedPrefix(xs[..n], k, f);
      var a, b := Numbered(xs[..k], f), Numbered(xs[..n], f);
      assert (b + f(n, xs[n]))[..|a|] == b[..|a|];
    }
  }

  /** Keeping some lines of each piece keeps those lines of the whole. */
  lemma {:induction false} NumberedMatching<T>(xs: seq<T>, f: (nat, T) -> seq<string>,
                                               keep: string -> bool, g: (nat, T) -> seq<string>)
    requires forall i, x :: Matching(f(i, x), keep) == g(i, x)
    ensures Matching(Numbered(xs, f), keep) == Numbered(xs, g)
    decreases |xs|
  {
    if xs != [] {
      var n := |xs| - 1;
      NumberedMatching(xs[..n], f, keep, g);
      MatchingAppend(Numbered(xs[..n], f), f(n, xs[n]), keep);
    }
  }

  /** When every piece is one line, line i is the piece of element i. */
  lemma {:induction false} NumberedSingletons<T>(xs: seq<T>, f: (nat, T) -> seq<string>, g: (nat, T) -> string)
    requires forall i, x :: f(i, x) == [g(i, x)]
    ensures |Numbered(xs, f)| == |xs|
    ensures forall i :: 0 <= i < |xs| ==> Numbered(xs, f)[i] == g(i, xs[i])
    decreases |xs|
  {
    if xs != [] {
      var n := |xs| - 1;
      NumberedSingletons(xs[..n], f, g);
      var r := Numbered(xs[..n], f);
      assert Numbered(xs, f) == r + [g(n, xs[n])];
      forall i | 0 <= i < |xs| ensures Numbered(xs, f)[i] == g(i, xs[i]) {
        if i < n {
          assert xs[..n][i] == xs[i];
        }
      }
    }
  }

  // ---------------------------------------------------------------------------------------
  // The whole batch
  // ---------------------------------------------------------------------------------------

  /** The block of file number `index` (from 0) of a batch of `total`. */
  ghost function BlockOf(total: nat): (nat, Upload) -> seq<string> {
    (index: nat, file: Upload) => FileLog(index, total, file)
  }

  /** The last pass of the loop, in terms of what the last file contributes. */
  lemma ExtractedLast(files: seq<Upload>, total: nat)
    requires files != []
    ensures var n := |files| - 1; var acc := Extracted(files[..n], total);
      Extracted(files, total) == Batch(acc.emails + FileFound(files[n]), acc.logs + FileLog(n, total, files[n]))
  {
    var n := |files| - 1;
    ProcessFileCharacterized(Extracted(files[..n], total), n, total, files[n]);
  }

  /** The set after some files is the union of what each file contributes; what a file
      contributes depends on that file alone, whatever happened to the files before it. */
  lemma {:induction false} ExtractedEmails(files: seq<Upload>, total: nat)
    ensures Extracted(files, total).emails == Gathered(files, FileFound)
    decreases |files|
  {
    if files != [] {
      ExtractedEmails(files[..|files| - 1], total);
      ExtractedLast(files, total);
    }
  }

  /** The log after some files is the files' blocks in input order. */
  lemma {:induction false} ExtractedLogs(files: seq<Upload>, total: nat)
    ensures Extracted(files, total).logs == Numbered(files, BlockOf(total))
    decreases |files|
  {
    if files != [] {
      var n := |files| - 1;
      ExtractedLogs(files[..n], total);
      ExtractedLast(files, total);
      assert BlockOf(total)(n, files[n]) == FileLog(n, total, files[n]);
    }
  }

  /** Processing more files keeps every email found so far and extends the log at its end. */
  lemma ExtractedGrows(files: seq<Upload>, k: nat, total: nat)
    requires k <= |files|
    ensures Extracted(files[..k], total).emails <= Extracted(files, total).emails
    ensures var logs := Extracted(files, total).logs;
      |Extracted(files[..k], total).logs| <= |logs|
      && logs[..|Extracted(files[..k], total).logs|] == Extracted(files[..k], total).logs
  {
    ExtractedEmails(files, total);
    ExtractedEmails(files[..k], total);
    ExtractedLogs(files, total);
    ExtractedLogs(files[..k], total);
    GatheredPrefix(files, k, FileFound);
    NumberedPrefix(files, k, BlockOf(total));
  }

  // ---------------------------------------------------------------------------------------
  // The batch's processing lines and error lines
  // ---------------------------------------------------------------------------------------

  /** The lines that satisfy `keep`, in order. */
  function Matching(lines: seq<string>, keep: string -> bool): (r: seq<string>)
    ensures |r| <= |lines|
    ensures forall k :: 0 <= k < |r| ==> keep(r[k])
    decreases |lines|
  {
    if lines == [] then []
    else (if keep(lines[0]) then [lines[0]] else []) + Matching(lines[1..], keep)
  }

  lemma {:induction false} MatchingAppend(a: seq<string>, b: seq<string>, keep: string -> bool)
    ensures Matching(a + b, keep) == Matching(a, keep) + Matching(b, keep)
    decreases |a|
  {
    if a == [] {
      assert a + b == b;
    } else {
      assert (a + b)[0] == a[0];
      assert (a + b)[1..] == a[1..] + b;
      MatchingAppend(a[1..], b, keep);
    }
  }

  lemma {:induction false} MatchingNone(lines: seq<string>, keep: string -> bool)
    requires forall k :: 0 <= k < |lines| ==> !keep(lines[k])
    ensures Matching(lines, keep) == []
    decreases |lines|
  {
    if lines != [] {
      assert forall k :: 0 <= k < |lines[1..]| ==> lines[1..][k] == lines[k + 1];
      MatchingNone(lines[1..], keep);
    }
  }

  lemma MatchingOne(line: string, keep: string -> bool)
    ensures Matching([line], keep) == if keep(line) then [line] else []
  {
    assert [line][1..] == [];
  }


  /** Error lines of a file's block: one for a file whose try-block raised, none otherwise. */
  ghost function ErrorLines(file: Upload): seq<string> {
    var failure := FirstRaise(FileSteps(file));
    if failure.Some? then [ErrorLine(file.name, failure.value)] else []
  }

  /** A file's block has exactly one processing line, its own, and the error line of its
      exception if it had one. */
  lemma FileLogLines(index: nat, total: nat, file: Upload)
    ensures Matching(FileLog(index, total, file), IsProcessingLine) == [ProcessingLine(index + 1, total, file.name)]
    ensures Matching(FileLog(index, total, file), IsErrorLine) == ErrorLines(file)
  {
    var steps := FileSteps(file);
    var head := [ProcessingLine(index + 1, total, file.name)];
    var logged := Logged(Completed(steps));
    var tail := ErrorLines(file);
    assert FileLog(index, total, file) == head + logged + tail;
    TryBlockLinesReport(file);
    var message := if FirstRaise(steps).Some? then FirstRaise(steps).value else "";
    LineKinds(index + 1, total, file.name, "", message);
    MatchingOne(head[0], IsProcessingLine);
    MatchingOne(head[0], IsErrorLine);
    MatchingOne(ErrorLine(file.name, message), IsProcessingLine);
    MatchingOne(ErrorLine(file.name, message), IsErrorLine);
    MatchingNone(logged, IsProcessingLine);
    MatchingNone(logged, IsErrorLine);
    assert Matching([], IsProcessingLine) == [] && Matching([], IsErrorLine) == [];
    MatchingAppend(head, logged, IsProcessingLine);
    MatchingAppend(head + logged, tail, IsProcessingLine);
    MatchingAppend(head, logged, IsErrorLine);
    MatchingAppend(head + logged, tail, IsErrorLine);
  }

  ghost function AnnouncedOf(total: nat): (nat, Upload) -> seq<string> {
    (index: nat, file: Upload) => [ProcessingLine(index + 1, total, file.name)]
  }

  ghost function FailuresOf(): (nat, Upload) -> seq<string> {
    (index: nat, file: Upload) => ErrorLines(file)
  }

  /** Every file is numbered and announced exactly once, in input order, even after files that
      raised: an exception never ends the loop. */
  lemma BatchProcessingLines(files: seq<Upload>, total: nat)
    ensures var lines := Matching(Extracted(files, total).logs, IsProcessingLine);
      |lines| == |files|
      && forall i :: 0 <= i < |files| ==> lines[i] == ProcessingLine(i + 1, total, files[i].name)
  {
    ExtractedLogs(files, total);
    BlocksAnnounced(files, total);
  }

  lemma BlocksAnnounced(files: seq<Upload>, total: nat)
    ensures var lines := Matching(Numbered(files, BlockOf(total)), IsProcessingLine);
      |lines| == |files|
      && forall i :: 0 <= i < |files| ==> lines[i] == ProcessingLine(i + 1, total, files[i].name)
  {
    BlocksProcessingLines(files, total);
    AnnouncedLines(files, total);
  }

  lemma BlocksProcessingLines(files: seq<Upload>, total: nat)
    ensures Matching(Numbered(files, BlockOf(total)), IsProcessingLine) == Numbered(files, AnnouncedOf(total))
  {
    BlockAnnounced(total);
    NumberedMatching(files, BlockOf(total), IsProcessingLine, AnnouncedOf(total));
  }

  lemma BlockAnnounced(total: nat)
    ensures forall i, x :: Matching(BlockOf(total)(i, x), IsProcessingLine) == AnnouncedOf(total)(i, x)
  {
    forall i: nat, x: Upload ensures Matching(BlockOf(total)(i, x), IsProcessingLine) == AnnouncedOf(total)(i, x) {
      BlockAnnouncedAt(total, i, x);
    }
  }

  lemma BlockAnnouncedAt(total: nat, i: nat, x: Upload)
    ensures Matching(BlockOf(total)(i, x), IsProcessingLine) == AnnouncedOf(total)(i, x)
  {
    var line := ProcessingLine(i + 1, total, x.name);
    assert AnnouncedOf(total)(i, x) == [line];
    assert BlockOf(total)(i, x) == FileLog(i, total, x);
    FileLogLines(i, total, x);
  }

  lemma AnnouncedLines(files: seq<Upload>, total: nat)
    ensures |Numbered(files, AnnouncedOf(total))| == |files|
    ensures forall i :: 0 <= i < |files| ==> Numbered(files, AnnouncedOf(total))[i] == ProcessingLine(i + 1, total, files[i].name)
  {
    NumberedSingletons(files, AnnouncedOf(total), (index: nat, file: Upload) => ProcessingLine(index + 1, total, file.name));
  }

  /** The error lines of the batch: one for each file whose try-block raised, in input order,
      carrying that file's name and its exception's message. */
  lemma BatchErrorLines(files: seq<Upload>, total: nat)
    ensures Matching(Extracted(files, total).logs, IsErrorLine) == Numbered(files, FailuresOf())
  {
    ExtractedLogs(files, total);
    BlocksFailures(files, total);
  }

  lemma BlocksFailures(files: seq<Upload>, total: nat)
    ensures Matching(Numbered(files, BlockOf(total)), IsErrorLine) == Numbered(files, FailuresOf())
  {
    BlockFailures(total);
    NumberedMatching(files, BlockOf(total), IsErrorLine, FailuresOf());
  }

  lemma BlockFailures(total: nat)
    ensures forall i, x :: Matching(BlockOf(total)(i, x), IsErrorLine) == FailuresOf()(i, x)
  {
    forall i: nat, x: Upload ensures Matching(BlockOf(total)(i, x), IsErrorLine) == FailuresOf()(i, x) {
      BlockFailuresAt(total, i, x);
    }
  }

  lemma BlockFailuresAt(total: nat, i: nat, x: Upload)
    ensures Matching(BlockOf(total)(i, x), IsErrorLine) == FailuresOf()(i, x)
  {
    FileLogLines(i, total, x);
    assert BlockOf(total)(i, x) == FileLog(i, total, x);
  }

  // ---------------------------------------------------------------------------------------
  // The emails of the batch
  // ---------------------------------------------------------------------------------------

  /** The set holds exactly what `findall` returns on the texts the files' readers yield before
      any exception. */
  lemma BatchEmails(files: seq<Upload>, total: nat, e: string)
    ensures e in Extracted(files, total).emails <==> exists i :: 0 <= i < |files| && e in FileFound(files[i])
  {
    ExtractedEmails(files, total);
    GatheredMember(files, FileFound, e);
  }

  /** An email of a file has the pattern's shape and occurs in a text the file's reader yields. */
  lemma FileFoundSound(file: Upload, e: string)
    requires e in FileFound(file)
    ensures InPattern(e)
    ensures exists t :: t in Scanned(Completed(FileSteps(file))) && exists a, b :: 0 <= a <= b <= |t| && e == t[a..b]
  {
    FileFoundMember(file, e);
    var t :| t in Scanned(Completed(FileSteps(file))) && e in FindAll(t);
    FindAllSound(t, e);
  }

  /** Every string the extractor returns has the pattern's shape, and comes from a file of the
      batch whose scanned texts contain it. */
  lemma ResultSound(files: seq<Upload>, total: nat, e: string)
    requires e in Extracted(files, total).emails
    ensures InPattern(e)
    ensures exists i :: 0 <= i < |files| && e in FileFound(files[i])
  {
    BatchEmails(files, total, e);
    var i :| 0 <= i < |files| && e in FileFound(files[i]);
    FileFoundSound(files[i], e);
  }
}
