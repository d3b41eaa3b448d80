/**
 * The effects of one file's try-block, as a sequence of steps: a line appended to the log, a
 * text handed to `findall` whose matches join the email set, or an exception raised by a parser
 * call. Once an exception is raised the rest of the block is skipped; the `except` clause that
 * reports it belongs to the extractor.
 */
module Steps {
  import opened Wrappers
  import opened EmailPattern

  /** What a parser call yields: its value, or the message of the exception it raises. */
  datatype Outcome<+T> = Value(value: T) | Raises(message: string)

  datatype Step = Log(line: string) | Scan(text: string) | Raise(message: string)

  /** The extractor's state inside a try-block: the email set, the log, and the exception that
      ended the block, if any. */
  datatype Progress = Progress(emails: set<string>, logs: seq<string>, failure: Option<string>)

  /** The emails `findall` returns on a text, as a set. */
  function Found(text: string): set<string> {
    set e | e in FindAll(text)
  }

  /** The effect of one step; nothing happens after an exception. */
  function Perform(p: Progress, s: Step): Progress {
    if p.failure.Some? then p
    else match s
      case Log(line) => p.(logs := p.logs + [line])
      case Scan(text) => p.(emails := p.emails + Found(text))
      case Raise(m) => p.(failure := Some(m))
  }

  function Run(p: Progress, steps: seq<Step>): Progress
    decreases |steps|
  {
    if steps == [] then p else Run(Perform(p, steps[0]), steps[1..])
  }

  /** The steps of each element in turn, as a nest of `for` loops produces them. */
  function Concat<T, U>(xs: seq<T>, f: T -> seq<U>): seq<U>
    decreases |xs|
  {
    if xs == [] then [] else f(xs[0]) + Concat(xs[1..], f)
  }

  // ---------------------------------------------------------------------------------------
  // A description of a run that does not replay it step by step.
  // ---------------------------------------------------------------------------------------

  /** The steps before the first exception. */
  function Completed(steps: seq<Step>): seq<Step>
    decreases |steps|
  {
    if steps == [] || steps[0].Raise? then [] else [steps[0]] + Completed(steps[1..])
  }

  /** The message of the first exception, if any. */
  function FirstRaise(steps: seq<Step>): Option<string>
    decreases |steps|
  {
    if steps == [] then None
    else if steps[0].Raise? then Some(steps[0].message)
    else FirstRaise(steps[1..])
  }

  /** The texts the steps hand to `findall`. */
  function Scanned(steps: seq<Step>): seq<string>
    decreases |steps|
  {
    if steps == [] then []
    else if steps[0].Scan? then [steps[0].text] + Scanned(steps[1..])
    else Scanned(steps[1..])
  }

  /** The lines the steps append to the log. */
  function Logged(steps: seq<Step>): seq<string>
    decreases |steps|
  {
    if steps == [] then []
    else if steps[0].Log? then [steps[0].line] + Logged(steps[1..])
    else Logged(steps[1..])
  }

  /** The emails found in any of the texts. */
  function FoundAll(texts: seq<string>): set<string>
    decreases |texts|
  {
    if texts == [] then {} else Found(texts[0]) + FoundAll(texts[1..])
  }

  // ---------------------------------------------------------------------------------------
  // Running steps
  // ---------------------------------------------------------------------------------------

  /** After an exception nothing changes any more. */
  lemma {:induction false} RunSticky(p: Progress, steps: seq<Step>)
    requires p.failure.Some?
    ensures Run(p, steps) == p
    decreases |steps|
  {
    if steps != [] {
      RunSticky(Perform(p, steps[0]), steps[1..]);
    }
  }

  lemma {:induction false} RunAppend(p: Progress, a: seq<Step>, b: seq<Step>)
    ensures Run(p, a + b) == Run(Run(p, a), b)
    decreases |a|
  {
    if a == [] {
      assert a + b == b;
    } else {
      assert (a + b)[0] == a[0] && (a + b)[1..] == a[1..] + b;
      RunAppend(Perform(p, a[0]), a[1..], b);
    }
  }

  lemma RunSnoc(p: Progress, a: seq<Step>, s: Step)
    ensures Run(p, a + [s]) == Perform(Run(p, a), s)
  {
    RunAppend(p, a, [s]);
  }

  /** An exception after the steps `done` ends the run there, whatever follows it. */
  lemma RunRaise(p: Progress, done: seq<Step>, m: string, rest: seq<Step>)
    requires Run(p, done).failure.None?
    ensures Run(p, done + [Raise(m)] + rest) == Run(p, done).(failure := Some(m))
  {
    RunAppend(p, done + [Raise(m)], rest);
    RunSnoc(p, done, Raise(m));
    RunSticky(Run(p, done + [Raise(m)]), rest);
  }

  /** A run from a clean state adds the emails of the texts scanned before the first exception
      and the lines logged before it, and ends with that exception. */
  lemma {:induction false} RunCharacterized(emails: set<string>, logs: seq<string>, steps: seq<Step>)
    ensures Run(Progress(emails, logs, None), steps)
         == Progress(emails + FoundAll(Scanned(Completed(steps))),
                     logs + Logged(Completed(steps)),
                     FirstRaise(steps))
    decreases |steps|, 1
  {
    if steps != [] {
      match steps[0] {
        case Raise(m) =>
          assert Completed(steps) == [];
          RunSticky(Progress(emails, logs, Some(m)), steps[1..]);
        case Log(line) => RunLogFirst(emails, logs, steps);
        case Scan(text) => RunScanFirst(emails, logs, steps);
      }
    }
  }

  lemma AppendAssoc<T>(a: seq<T>, b: seq<T>, c: seq<T>)
    ensures (a + b) + c == a + (b + c)
  {
  }

  /** Completed, Scanned and Logged after a first step that does not raise. */
  lemma CompletedCons(steps: seq<Step>)
    requires steps != [] && !steps[0].Raise?
    ensures Completed(steps) == [steps[0]] + Completed(steps[1..])
    ensures Scanned(Completed(steps))
         == (if steps[0].Scan? then [steps[0].text] else []) + Scanned(Completed(steps[1..]))
    ensures Logged(Completed(steps))
         == (if steps[0].Log? then [steps[0].line] else []) + Logged(Completed(steps[1..]))
    ensures FirstRaise(steps) == FirstRaise(steps[1..])
  {
    var c := [steps[0]] + Completed(steps[1..]);
    assert c[0] == steps[0] && c[1..] == Completed(steps[1..]);
  }

  lemma {:induction false} RunLogFirst(emails: set<string>, logs: seq<string>, steps: seq<Step>)
    requires steps != [] && steps[0].Log?
    ensures Run(Progress(emails, logs, None), steps)
         == Progress(emails + FoundAll(Scanned(Completed(steps))),
                     logs + Logged(Completed(steps)),
                     FirstRaise(steps))
    decreases |steps|, 0
  {
    var line := steps[0].line;
    assert Run(Progress(emails, logs, None), steps) == Run(Progress(emails, logs + [line], None), steps[1..]);
    RunCharacterized(emails, logs + [line], steps[1..]);
    CompletedCons(steps);
    AppendAssoc(logs, [line], Logged(Completed(steps[1..])));
  }

  lemma {:induction false} RunScanFirst(emails: set<string>, logs: seq<string>, steps: seq<Step>)
    requires steps != [] && steps[0].Scan?
    ensures Run(Progress(emails, logs, None), steps)
         == Progress(emails + FoundAll(Scanned(Completed(steps))),
                     logs + Logged(Completed(steps)),
                     FirstRaise(steps))
    decreases |steps|, 0
  {
    var text := steps[0].text;
    assert Run(Progress(emails, logs, None), steps) == Run(Progress(emails + Found(text), logs, None), steps[1..]);
    RunCharacterized(emails + Found(text), logs, steps[1..]);
    CompletedCons(steps);
    var rest := Scanned(Completed(steps[1..]));
    assert ([text] + rest)[0] == text && ([text] + rest)[1..] == rest;
    assert FoundAll([text] + rest) == Found(text) + FoundAll(rest);
  }

  // ---------------------------------------------------------------------------------------
  // The description over concatenations
  // ---------------------------------------------------------------------------------------

  lemma {:induction false} FirstRaiseAppend(a: seq<Step>, b: seq<Step>)
    ensures FirstRaise(a + b) == if FirstRaise(a).Some? then FirstRaise(a) else FirstRaise(b)
    decreases |a|
  {
    if a == [] {
      assert a + b == b;
    } else {
      assert (a + b)[0] == a[0] && (a + b)[1..] == a[1..] + b;
      FirstRaiseAppend(a[1..], b);
    }
  }

  lemma {:induction false} CompletedAppend(a: seq<Step>, b: seq<Step>)
    ensures Completed(a + b) == if FirstRaise(a).Some? then Completed(a) else a + Completed(b)
    decreases |a|
  {
    if a == [] {
      assert a + b == b;
    } else {
      assert (a + b)[0] == a[0] && (a + b)[1..] == a[1..] + b;
      CompletedAppend(a[1..], b);
      if !a[0].Raise? && FirstRaise(a[1..]).None? {
        assert a == [a[0]] + a[1..];
        AppendAssoc([a[0]], a[1..], Completed(b));
      }
    }
  }

  lemma {:induction false} ScannedAppend(a: seq<Step>, b: seq<Step>)
    ensures Scanned(a + b) == Scanned(a) + Scanned(b)
    decreases |a|
  {
    if a == [] {
      assert a + b == b;
    } else {
      assert (a + b)[0] == a[0] && (a + b)[1..] == a[1..] + b;
      ScannedAppend(a[1..], b);
    }
  }

  lemma {:induction false} LoggedAppend(a: seq<Step>, b: seq<Step>)
    ensures Logged(a + b) == Logged(a) + Logged(b)
    decreases |a|
  {
    if a == [] {
      assert a + b == b;
    } else {
      assert (a + b)[0] == a[0] && (a + b)[1..] == a[1..] + b;
      LoggedAppend(a[1..], b);
    }
  }

  lemma {:induction false} FoundAllAppend(a: seq<string>, b: seq<string>)
    ensures FoundAll(a + b) == FoundAll(a) + FoundAll(b)
    decreases |a|
  {
    if a == [] {
      assert a + b == b;
    } else {
      assert (a + b)[0] == a[0] && (a + b)[1..] == a[1..] + b;
      FoundAllAppend(a[1..], b);
    }
  }

  /** An email is found in a list of texts exactly when `findall` returns it on one of them. */
  lemma {:induction false} FoundAllMember(texts: seq<string>, e: string)
    ensures e in FoundAll(texts) <==> exists k :: 0 <= k < |texts| && e in FindAll(texts[k])
    decreases |texts|
  {
    if texts != [] {
      FoundAllMember(texts[1..], e);
      forall k | 1 <= k < |texts| && e in FindAll(texts[k]) ensures e in FoundAll(texts[1..]) {
        assert texts[1..][k - 1] == texts[k];
      }
    }
  }

  // ---------------------------------------------------------------------------------------
  // Concat
  // ---------------------------------------------------------------------------------------

  lemma ConcatStep<T, U>(xs: seq<T>, i: nat, f: T -> seq<U>)
    requires i < |xs|
    ensures Concat(xs[i..], f) == f(xs[i]) + Concat(xs[i + 1..], f)
  {
    assert xs[i..][0] == xs[i] && xs[i..][1..] == xs[i + 1..];
  }

  lemma {:induction false} ConcatAppend<T, U>(xs: seq<T>, ys: seq<T>, f: T -> seq<U>)
    ensures Concat(xs + ys, f) == Concat(xs, f) + Concat(ys, f)
    decreases |xs|
  {
    if xs == [] {
      assert xs + ys == ys;
    } else {
      assert (xs + ys)[0] == xs[0] && (xs + ys)[1..] == xs[1..] + ys;
      ConcatAppend(xs[1..], ys, f);
    }
  }

  lemma ConcatSnoc<T, U>(xs: seq<T>, j: nat, f: T -> seq<U>)
    requires j < |xs|
    ensures Concat(xs[..j + 1], f) == Concat(xs[..j], f) + f(xs[j])
  {
    assert xs[..j + 1] == xs[..j] + [xs[j]];
    ConcatAppend(xs[..j], [xs[j]], f);
    assert [xs[j]][1..] == [];
  }

  /** Running the pieces for the first j + 1 elements is running those for the first j, then
      the piece for element j. */
  lemma RunConcatSnoc<T>(p: Progress, xs: seq<T>, j: nat, f: T -> seq<Step>)
    requires j < |xs|
    ensures Run(p, Concat(xs[..j + 1], f)) == Run(Run(p, Concat(xs[..j], f)), f(xs[j]))
  {
    ConcatSnoc(xs, j, f);
    RunAppend(p, Concat(xs[..j], f), f(xs[j]));
  }

  /** Once the pieces for the first j + 1 elements end in an exception, the later elements
      change nothing. */
  lemma RunConcatStops<T>(p: Progress, xs: seq<T>, j: nat, f: T -> seq<Step>)
    requires j < |xs|
    requires Run(p, Concat(xs[..j + 1], f)).failure.Some?
    ensures Run(p, Concat(xs, f)) == Run(p, Concat(xs[..j + 1], f))
  {
    assert xs == xs[..j + 1] + xs[j + 1..];
    ConcatAppend(xs[..j + 1], xs[j + 1..], f);
    RunAppend(p, Concat(xs[..j + 1], f), Concat(xs[j + 1..], f));
    RunSticky(Run(p, Concat(xs[..j + 1], f)), Concat(xs[j + 1..], f));
  }

  lemma RunScan(emails: set<string>, logs: seq<string>, text: string)
    ensures Run(Progress(emails, logs, None), [Scan(text)]) == Progress(emails + Found(text), logs, None)
  {
    assert [Scan(text)][1..] == [];
  }

  lemma RunLog(emails: set<string>, logs: seq<string>, line: string)
    ensures Run(Progress(emails, logs, None), [Log(line)]) == Progress(emails, logs + [line], None)
  {
    assert [Log(line)][1..] == [];
  }

  lemma RunRaiseFirst(emails: set<string>, logs: seq<string>, m: string, rest: seq<Step>)
    ensures Run(Progress(emails, logs, None), [Raise(m)] + rest) == Progress(emails, logs, Some(m))
  {
    assert ([Raise(m)] + rest)[1..] == rest;
    RunSticky(Progress(emails, logs, Some(m)), rest);
  }

  // ---------------------------------------------------------------------------------------
  // What a concatenation of pieces scans, logs and raises
  // ---------------------------------------------------------------------------------------

  lemma {:induction false} CompletedNoRaise(steps: seq<Step>)
    requires FirstRaise(steps).None?
    ensures Completed(steps) == steps
    decreases |steps|
  {
    if steps != [] {
      CompletedNoRaise(steps[1..]);
      assert steps == [steps[0]] + steps[1..];
    }
  }

  /** No piece raises: nor does the whole, and all of it completes. */
  lemma {:induction false} ConcatNoRaise<T>(xs: seq<T>, f: T -> seq<Step>)
    requires forall k :: 0 <= k < |xs| ==> FirstRaise(f(xs[k])).None?
    ensures FirstRaise(Concat(xs, f)).None?
    ensures Completed(Concat(xs, f)) == Concat(xs, f)
    decreases |xs|
  {
    if xs != [] {
      assert FirstRaise(f(xs[0])).None?;
      forall k | 0 <= k < |xs[1..]| ensures FirstRaise(f(xs[1..][k])).None? {
        assert xs[1..][k] == xs[k + 1];
      }
      ConcatNoRaise(xs[1..], f);
      FirstRaiseAppend(f(xs[0]), Concat(xs[1..], f));
      CompletedNoRaise(Concat(xs, f));
    }
  }

  lemma ConcatSplit<T, U>(xs: seq<T>, f: T -> seq<U>, j: nat)
    requires j < |xs|
    ensures Concat(xs, f) == Concat(xs[..j], f) + (f(xs[j]) + Concat(xs[j + 1..], f))
  {
    assert xs == xs[..j] + xs[j..];
    ConcatAppend(xs[..j], xs[j..], f);
    ConcatStep(xs, j, f);
  }

  lemma PrefixNoRaise<T>(xs: seq<T>, f: T -> seq<Step>, j: nat)
    requires j <= |xs|
    requires forall k :: 0 <= k < j ==> FirstRaise(f(xs[k])).None?
    ensures FirstRaise(Concat(xs[..j], f)).None?
    ensures Completed(Concat(xs[..j], f)) == Concat(xs[..j], f)
  {
    forall k | 0 <= k < j ensures FirstRaise(f(xs[..j][k])).None? {
      assert xs[..j][k] == xs[k];
    }
    ConcatNoRaise(xs[..j], f);
  }

  /** Piece j is the first that raises: the whole completes the pieces before it and the
      completed part of piece j, and raises what piece j raises. */
  lemma ConcatFirstRaise<T>(xs: seq<T>, f: T -> seq<Step>, j: nat)
    requires j < |xs| && FirstRaise(f(xs[j])).Some?
    requires forall k :: 0 <= k < j ==> FirstRaise(f(xs[k])).None?
    ensures FirstRaise(Concat(xs, f)) == FirstRaise(f(xs[j]))
    ensures Completed(Concat(xs, f)) == Concat(xs[..j], f) + Completed(f(xs[j]))
  {
    var before: seq<Step>, piece: seq<Step>, after: seq<Step> := Concat(xs[..j], f), f(xs[j]), Concat(xs[j + 1..], f);
    ConcatSplit(xs, f, j);
    PrefixNoRaise(xs, f, j);
    FirstRaiseAppend(before, piece + after);
    FirstRaiseAppend(piece, after);
    CompletedAppend(before, piece + after);
    CompletedAppend(piece, after);
  }

  /** A text is scanned by the whole exactly when it is scanned by one of the pieces. */
  lemma {:induction false} ScannedConcat<T>(xs: seq<T>, f: T -> seq<Step>, t: string)
    ensures t in Scanned(Concat(xs, f)) <==> exists k :: 0 <= k < |xs| && t in Scanned(f(xs[k]))
    decreases |xs|
  {
    if xs != [] {
      ScannedConcat(xs[1..], f, t);
      ScannedAppend(f(xs[0]), Concat(xs[1..], f));
      if t in Scanned(f(xs[0])) {
        assert 0 <= 0 < |xs| && t in Scanned(f(xs[0]));
      }
      forall k | 1 <= k < |xs| && t in Scanned(f(xs[k]))
        ensures exists k' :: 0 <= k' < |xs[1..]| && t in Scanned(f(xs[1..][k']))
      {
        assert xs[1..][k - 1] == xs[k];
      }
      forall k' | 0 <= k' < |xs[1..]| && t in Scanned(f(xs[1..][k']))
        ensures exists k :: 0 <= k < |xs| && t in Scanned(f(xs[k]))
      {
        assert xs[1..][k'] == xs[k' + 1];
      }
    }
  }

  /** No step appends to the log. */
  ghost predicate NoLogs(steps: seq<Step>) {
    forall k :: 0 <= k < |steps| ==> !steps[k].Log?
  }

  lemma {:induction false} NoLogsLogged(steps: seq<Step>)
    requires NoLogs(steps)
    ensures Logged(steps) == []
    decreases |steps|
  {
    if steps != [] {
      assert NoLogs(steps[1..]) by {
        forall k | 0 <= k < |steps[1..]| ensures !steps[1..][k].Log? {
          assert steps[1..][k] == steps[k + 1];
        }
      }
      NoLogsLogged(steps[1..]);
    }
  }

  lemma {:induction false} ConcatNoLogs<T>(xs: seq<T>, f: T -> seq<Step>)
    requires forall k :: 0 <= k < |xs| ==> NoLogs(f(xs[k]))
    ensures NoLogs(Concat(xs, f))
    decreases |xs|
  {
    if xs != [] {
      assert NoLogs(f(xs[0]));
      forall k | 0 <= k < |xs[1..]| ensures NoLogs(f(xs[1..][k])) {
        assert xs[1..][k] == xs[k + 1];
      }
      ConcatNoLogs(xs[1..], f);
      var a: seq<Step>, b: seq<Step> := f(xs[0]), Concat(xs[1..], f);
      forall k | 0 <= k < |a + b| ensures !(a + b)[k].Log? {
        if k >= |a| {
          assert (a + b)[k] == b[k - |a|];
        }
      }
    }
  }
}
