/**
 * Worked inputs for the email pattern: trailing punctuation left out of a match, a one-letter TLD
 * that yields nothing, and two inputs that show how findall resumes after a match and after a
 * failed start.
 * Each run, dot and match is its own small lemma, then the scan, then the findall result.
 */
module EmailPatternExamples {
  import opened Wrappers
  import opened EmailPattern

  lemma ListOfOne(r: seq<string>, a: string)
    requires |r| == 1 && r[0] == a
    ensures r == [a]
  {
  }

  lemma ListOfTwo(r: seq<string>, a: string, b: string)
    requires |r| == 2 && r[0] == a && r[1] == b
    ensures r == [a, b]
  {
  }

  // "Contact: jane.doe@example.com!": one match, without the final '!'

  lemma ContactRuns(s: string)
    requires s == "Contact: jane.doe@example.com!"
    ensures RunEnd(s, 9, LocalPart) == 17 && RunEnd(s, 18, DomainPart) == 29
  {
    RunStops(s, 9, 17, LocalPart);
    RunStops(s, 18, 29, DomainPart);
  }

  lemma ContactDot(s: string)
    requires s == "Contact: jane.doe@example.com!"
    ensures LastTldDot(s, 18, 26) == Some(25) && RunEnd(s, 26, Tld) == 29
  {
    assert LastTldDot(s, 18, 26) == LastTldDot(s, 18, 25);
    RunStops(s, 26, 29, Tld);
  }

  lemma ContactMatch(s: string)
    requires s == "Contact: jane.doe@example.com!"
    ensures MatchAt(s, 9) == Some(29)
  {
    ContactRuns(s);
    ContactDot(s);
    MatchAtOfParts(s, 9, 17, 25);
  }

  lemma ContactHead(s: string)
    requires s == "Contact: jane.doe@example.com!"
    ensures Spans(s, 0) == Spans(s, 9)
  {
    NoMatchInLocalRun(s, 0, 7);
    NoMatchInLocalRun(s, 8, 8);
    SpansPass(s, 0, 9);
  }

  lemma ContactTail(s: string)
    requires s == "Contact: jane.doe@example.com!"
    ensures Spans(s, 29) == []
  {
    NoMatchInLocalRun(s, 29, 29);
    SpansPass(s, 29, 30);
  }

  lemma ContactSpans(s: string)
    requires s == "Contact: jane.doe@example.com!"
    ensures Spans(s, 0) == [(9, 29)]
  {
    ContactHead(s);
    ContactMatch(s);
    SpansTake(s, 9, 29);
    ContactTail(s);
  }

  lemma FindAllDropsTrailingPunctuationOf(s: string)
    requires s == "Contact: jane.doe@example.com!"
    ensures |FindAll(s)| == 1 && FindAll(s)[0] == s[9..29]
  {
    ContactSpans(s);
    FindAllOfSpans(s, [(9, 29)]);
  }

  lemma FindAllDropsTrailingPunctuationSlices(s: string)
    requires s == "Contact: jane.doe@example.com!"
    ensures s[9..29] == "jane.doe@example.com"
  {
  }

  /** Trailing punctuation is not part of the match. */
  lemma FindAllDropsTrailingPunctuation()
    ensures FindAll("Contact: jane.doe@example.com!") == ["jane.doe@example.com"]
  {
    var s := "Contact: jane.doe@example.com!";
    FindAllDropsTrailingPunctuationOf(s);
    FindAllDropsTrailingPunctuationSlices(s);
    ListOfOne(FindAll(s), "jane.doe@example.com");
  }

  // "a@b.c": the TLD needs two letters

  lemma OneLetterTldNoMatchAt(s: string, p: nat)
    requires s == "a@b.c" && p < 5
    ensures MatchAt(s, p).None?
  {
    if p == 0 {
      RunStops(s, 0, 1, LocalPart);
      RunReaches(s, 2, 5, DomainPart);
    } else if p >= 2 {
      RunReaches(s, p, 5, LocalPart);
    }
  }

  lemma OneLetterTldSpans(s: string)
    requires s == "a@b.c"
    ensures Spans(s, 0) == []
  {
    forall p: nat | p < 5 ensures Matcher(s)(p).None? {
      OneLetterTldNoMatchAt(s, p);
    }
    SpansPass(s, 0, 5);
  }

  /** A one-letter TLD yields no match. */
  lemma FindAllNeedsTwoLetterTld()
    ensures FindAll("a@b.c") == []
  {
    OneLetterTldSpans("a@b.c");
  }

  // "a@b.com.x@y.org": the second match starts where the first one ends

  lemma AdjacentFirstRuns(s: string)
    requires s == "a@b.com.x@y.org"
    ensures RunEnd(s, 0, LocalPart) == 1 && RunEnd(s, 2, DomainPart) == 9
  {
    RunStops(s, 0, 1, LocalPart);
    RunStops(s, 2, 9, DomainPart);
  }

  lemma AdjacentFirstDot(s: string)
    requires s == "a@b.com.x@y.org"
    ensures LastTldDot(s, 2, 6) == Some(3) && RunEnd(s, 4, Tld) == 7
  {
    assert LastTldDot(s, 2, 6) == LastTldDot(s, 2, 4);
    RunStops(s, 4, 7, Tld);
  }

  lemma AdjacentFirstMatch(s: string)
    requires s == "a@b.com.x@y.org"
    ensures MatchAt(s, 0) == Some(7)
  {
    AdjacentFirstRuns(s);
    AdjacentFirstDot(s);
    MatchAtOfParts(s, 0, 1, 3);
  }

  lemma AdjacentSecondRuns(s: string)
    requires s == "a@b.com.x@y.org"
    ensures RunEnd(s, 7, LocalPart) == 9 && RunEnd(s, 10, DomainPart) == 15
  {
    RunStops(s, 7, 9, LocalPart);
    RunReaches(s, 10, 15, DomainPart);
  }

  lemma AdjacentSecondDot(s: string)
    requires s == "a@b.com.x@y.org"
    ensures LastTldDot(s, 10, 12) == Some(11) && RunEnd(s, 12, Tld) == 15
  {
    RunReaches(s, 12, 15, Tld);
  }

  lemma AdjacentSecondMatch(s: string)
    requires s == "a@b.com.x@y.org"
    ensures MatchAt(s, 7) == Some(15)
  {
    AdjacentSecondRuns(s);
    AdjacentSecondDot(s);
    MatchAtOfParts(s, 7, 9, 11);
  }

  lemma AdjacentSpans(s: string)
    requires s == "a@b.com.x@y.org"
    ensures Spans(s, 0) == [(0, 7), (7, 15)]
  {
    AdjacentFirstMatch(s);
    AdjacentSecondMatch(s);
    SpansTake(s, 0, 7);
    SpansTake(s, 7, 15);
  }

  lemma FindAllResumesAtMatchEndOf(s: string)
    requires s == "a@b.com.x@y.org"
    ensures |FindAll(s)| == 2 && FindAll(s)[0] == s[0..7] && FindAll(s)[1] == s[7..15]
  {
    AdjacentSpans(s);
    FindAllOfSpans(s, [(0, 7), (7, 15)]);
  }

  lemma FindAllResumesAtMatchEndSlices(s: string)
    requires s == "a@b.com.x@y.org"
    ensures s[0..7] == "a@b.com" && s[7..15] == ".x@y.org"
  {
  }

  /** The TLD stops at the first non-letter, and the next match starts right there: the second
      match takes the dot that ended the first one into its local part. */
  lemma FindAllResumesAtMatchEnd()
    ensures FindAll("a@b.com.x@y.org") == ["a@b.com", ".x@y.org"]
  {
    var s := "a@b.com.x@y.org";
    FindAllResumesAtMatchEndOf(s);
    FindAllResumesAtMatchEndSlices(s);
    ListOfTwo(FindAll(s), "a@b.com", ".x@y.org");
  }

  // "a@b@c.com": the start at 0 fails, the scan finds the match at 2

  lemma TwoAtsNoMatchAtStart(s: string)
    requires s == "a@b@c.com"
    ensures MatchAt(s, 0).None? && MatchAt(s, 1).None?
  {
    RunStops(s, 0, 1, LocalPart);
    RunStops(s, 2, 3, DomainPart);
  }

  lemma TwoAtsRuns(s: string)
    requires s == "a@b@c.com"
    ensures RunEnd(s, 2, LocalPart) == 3 && RunEnd(s, 4, DomainPart) == 9
  {
    RunStops(s, 2, 3, LocalPart);
    RunReaches(s, 4, 9, DomainPart);
  }

  lemma TwoAtsDot(s: string)
    requires s == "a@b@c.com"
    ensures LastTldDot(s, 4, 6) == Some(5) && RunEnd(s, 6, Tld) == 9
  {
    RunReaches(s, 6, 9, Tld);
  }

  lemma TwoAtsMatch(s: string)
    requires s == "a@b@c.com"
    ensures MatchAt(s, 2) == Some(9)
  {
    TwoAtsRuns(s);
    TwoAtsDot(s);
    MatchAtOfParts(s, 2, 3, 5);
  }

  lemma TwoAtsSpans(s: string)
    requires s == "a@b@c.com"
    ensures Spans(s, 0) == [(2, 9)]
  {
    TwoAtsNoMatchAtStart(s);
    TwoAtsMatch(s);
    SpansSkip(s, 0);
    SpansSkip(s, 1);
    SpansTake(s, 2, 9);
  }

  lemma FindAllRestartsAfterFailedStartOf(s: string)
    requires s == "a@b@c.com"
    ensures |FindAll(s)| == 1 && FindAll(s)[0] == s[2..9]
  {
    TwoAtsSpans(s);
    FindAllOfSpans(s, [(2, 9)]);
  }

  lemma FindAllRestartsAfterFailedStartSlices(s: string)
    requires s == "a@b@c.com"
    ensures s[2..9] == "b@c.com"
  {
  }

  /** A start whose domain runs into a second `@` fails, and the scan tries the next position. */
  lemma FindAllRestartsAfterFailedStart()
    ensures FindAll("a@b@c.com") == ["b@c.com"]
  {
    var s := "a@b@c.com";
    FindAllRestartsAfterFailedStartOf(s);
    FindAllRestartsAfterFailedStartSlices(s);
    ListOfOne(FindAll(s), "b@c.com");
  }
}
