/**
 * The email pattern of `extract_emails_from_files`:
 *
 *     [a-zA-Z0-9._%+-]+@[a-zA-Z0-9.-]+\.[a-z]{2,}      compiled with re.IGNORECASE
 *
 * and Python's `findall` over it. `InPattern` is the regular language itself, written as a
 * grammar; `MatchAt` is what the backtracking matcher returns when it is started at one
 * position; `Spans` and `FindAll` are the left-to-right, non-overlapping scan. The lemmas show
 * that `MatchAt` finds a match exactly when some prefix is in the language, and then the longest
 * one, so `FindAll` returns leftmost-longest, non-overlapping matches.
 */
module EmailPattern {
  import opened Wrappers
  import opened Scanning

  /** `[a-z]` or `[A-Z]` in a `str` pattern under IGNORECASE: the 52 ASCII letters and the four
      code points that fold onto them: U+0130, U+0131, U+017F and U+212A. */
  predicate IsLetter(c: char) {
    ('a' <= c <= 'z') || ('A' <= c <= 'Z') ||
    c == '\U{130}' || c == '\U{131}' || c == '\U{17F}' || c == '\U{212A}'
  }

  /** The three character classes of the pattern. */
  datatype CharClass =
    | LocalPart   // [a-zA-Z0-9._%+-]
    | DomainPart  // [a-zA-Z0-9.-]
    | Tld         // [a-z]

  predicate InClass(c: char, k: CharClass) {
    match k
    case LocalPart =>
      IsLetter(c) || ('0' <= c <= '9') || c == '.' || c == '_' || c == '%' || c == '+' || c == '-'
    case DomainPart =>
      IsLetter(c) || ('0' <= c <= '9') || c == '.' || c == '-'
    case Tld =>
      IsLetter(c)
  }

  /** Every character of m[lo..hi] belongs to class k. */
  ghost predicate AllIn(m: string, lo: int, hi: int, k: CharClass)
    requires 0 <= lo <= hi <= |m|
  {
    forall j :: lo <= j < hi ==> InClass(m[j], k)
  }

  /** m is local-part `@` domain `.` TLD, with the `@` at index `at` and that dot at index `dot`:
      each part non-empty and the TLD at least two letters long. */
  ghost predicate SplitsAt(m: string, at: int, dot: int) {
    && 0 < at && at + 1 < dot && dot + 2 < |m|
    && AllIn(m, 0, at, LocalPart) && m[at] == '@'
    && AllIn(m, at + 1, dot, DomainPart) && m[dot] == '.'
    && AllIn(m, dot + 1, |m|, Tld)
  }

  /** The language of the pattern. */
  ghost predicate InPattern(m: string) {
    exists at: int, dot: int :: SplitsAt(m, at, dot)
  }

  /** End of the longest run of class-k characters of s that starts at i. */
  function RunEnd(s: string, i: nat, k: CharClass): (e: nat)
    requires i <= |s|
    ensures i <= e <= |s|
    decreases |s| - i
  {
    if i < |s| && InClass(s[i], k) then RunEnd(s, i + 1, k) else i
  }

  /** A dot at d followed by two letters: where `\.[a-z]{2,}` can start. */
  predicate IsTldDot(s: string, d: int) {
    0 <= d && d + 2 < |s| && s[d] == '.' && IsLetter(s[d + 1]) && IsLetter(s[d + 2])
  }

  /** The largest d with lo < d <= hi at which `\.[a-z]{2,}` can start. This is the position that
      the greedy `[a-zA-Z0-9.-]+` backs off to. */
  function LastTldDot(s: string, lo: nat, hi: int): (r: Option<nat>)
    ensures r.Some? ==> lo < r.value <= hi && IsTldDot(s, r.value)
    decreases hi - lo
  {
    if hi <= lo then None
    else if IsTldDot(s, hi) then Some(hi)
    else LastTldDot(s, lo, hi - 1)
  }

  /** `pattern.match(s, i)`: the end of the match that starts exactly at i, if there is one.
      The local part is the whole run of local characters (none of them is `@`); the domain is the
      longest run of domain characters cut back to the last dot that two letters follow; the TLD is
      the run of letters after that dot. */
  function MatchAt(s: string, i: nat): (r: Option<nat>)
    requires i <= |s|
    ensures r.Some? ==> i < r.value <= |s|
  {
    var at := RunEnd(s, i, LocalPart);
    if at == i || at == |s| || s[at] != '@' then None
    else
      var domainEnd := RunEnd(s, at + 1, DomainPart);
      match LastTldDot(s, at + 1, domainEnd - 3)
      case None => None
      case Some(dot) => Some(RunEnd(s, dot + 1, Tld))
  }

  /** `pattern.match(s, p)` at every position p, as the matcher that `findall` drives; there is
      no match past the end. */
  function Matcher(s: string): (m: nat -> Option<nat>)
    ensures Advances(m, |s|)
  {
    (p: nat) => if p <= |s| then MatchAt(s, p) else None
  }

  /** No match starts anywhere in [lo, hi). */
  ghost predicate NoMatchIn(s: string, lo: nat, hi: nat) {
    NoneIn(Matcher(s), lo, hi)
  }

  /** The (start, end) positions that `findall` visits from position `from` on: the first position
      where a match starts, that match, then the same again from the match's end. */
  function Spans(s: string, from: nat): (r: seq<(nat, nat)>)
    requires from <= |s|
    ensures forall k :: 0 <= k < |r| ==> from <= r[k].0 < r[k].1 <= |s|
  {
    Scan(Matcher(s), |s|, from)
  }

  /** One step of the scan: a match at `from` is taken whole and the scan resumes at its end. */
  lemma SpansTake(s: string, from: nat, e: nat)
    requires from < |s| && MatchAt(s, from) == Some(e)
    ensures Spans(s, from) == [(from, e)] + Spans(s, e)
  {
    assert Matcher(s)(from) == Some(e);
    ScanTake(Matcher(s), |s|, from, e);
  }

  /** One step of the scan: where no match starts, the scan moves one position on. */
  lemma SpansSkip(s: string, from: nat)
    requires from < |s| && MatchAt(s, from).None?
    ensures Spans(s, from) == Spans(s, from + 1)
  {
    assert Matcher(s)(from).None?;
    ScanSkip(Matcher(s), |s|, from);
  }

  /** Where no match starts in [lo, hi), the scan passes over it. */
  lemma SpansPass(s: string, lo: nat, hi: nat)
    requires lo <= hi <= |s| && NoMatchIn(s, lo, hi)
    ensures Spans(s, lo) == Spans(s, hi)
  {
    ScanPass(Matcher(s), |s|, lo, hi);
  }

  /** `pattern.findall(s)`: the matched substrings, left to right. */
  function FindAll(s: string): (r: seq<string>)
    ensures |r| == |Spans(s, 0)|
  {
    var sp := Spans(s, 0);
    seq(|sp|, k requires 0 <= k < |sp| => s[sp[k].0 .. sp[k].1])
  }

  /** RunEnd is the end of a run: every character before it is in class k, and the one at it
      (if any) is not. */
  lemma {:induction false} RunEndRun(s: string, i: nat, k: CharClass)
    requires i <= |s|
    ensures AllIn(s, i, RunEnd(s, i, k), k)
    ensures RunEnd(s, i, k) < |s| ==> !InClass(s[RunEnd(s, i, k)], k)
    decreases |s| - i
  {
    if i < |s| && InClass(s[i], k) {
      RunEndRun(s, i + 1, k);
    }
  }

  /** A run of class-k characters from i to j means the longest run from i reaches j. */
  lemma {:induction false} RunReaches(s: string, i: nat, j: nat, k: CharClass)
    requires i <= j <= |s|
    requires forall x :: i <= x < j ==> InClass(s[x], k)
    ensures RunEnd(s, i, k) >= j
    decreases j - i
  {
    if i < j {
      RunReaches(s, i + 1, j, k);
    }
  }

  /** A run of class-k characters from i that stops at a character outside k is the longest run. */
  lemma RunStops(s: string, i: nat, j: nat, k: CharClass)
    requires i <= j < |s|
    requires forall x :: i <= x < j ==> InClass(s[x], k)
    requires !InClass(s[j], k)
    ensures RunEnd(s, i, k) == j
  {
    RunReaches(s, i, j, k);
    RunEndRun(s, i, k);
  }

  /** SplitsAt on the slice s[i..e], restated on s itself with absolute indices. */
  ghost predicate SplitsIn(s: string, i: int, e: int, at: int, dot: int) {
    && 0 <= i < at && at + 1 < dot && dot + 2 < e <= |s|
    && AllIn(s, i, at, LocalPart) && s[at] == '@'
    && AllIn(s, at + 1, dot, DomainPart) && s[dot] == '.'
    && AllIn(s, dot + 1, e, Tld)
  }

  lemma SplitsInSlice(s: string, i: nat, e: nat, a: int, d: int)
    requires i <= e <= |s|
    ensures SplitsAt(s[i..e], a, d) <==> SplitsIn(s, i, e, i + a, i + d)
  {
    var m := s[i..e];
    assert forall j :: 0 <= j < |m| ==> m[j] == s[i + j];
    if SplitsAt(m, a, d) {
      assert AllIn(s, i, i + a, LocalPart) by {
        forall x | i <= x < i + a ensures InClass(s[x], LocalPart) { assert s[x] == m[x - i]; }
      }
      assert AllIn(s, i + a + 1, i + d, DomainPart) by {
        forall x | i + a + 1 <= x < i + d ensures InClass(s[x], DomainPart) { assert s[x] == m[x - i]; }
      }
      assert AllIn(s, i + d + 1, e, Tld) by {
        forall x | i + d + 1 <= x < e ensures InClass(s[x], Tld) { assert s[x] == m[x - i]; }
      }
    }
    if SplitsIn(s, i, e, i + a, i + d) {
      assert AllIn(m, 0, a, LocalPart) by {
        forall j | 0 <= j < a ensures InClass(m[j], LocalPart) { assert m[j] == s[i + j]; }
      }
      assert AllIn(m, a + 1, d, DomainPart) by {
        forall j | a + 1 <= j < d ensures InClass(m[j], DomainPart) { assert m[j] == s[i + j]; }
      }
      assert AllIn(m, d + 1, |m|, Tld) by {
        forall j | d + 1 <= j < |m| ensures InClass(m[j], Tld) { assert m[j] == s[i + j]; }
      }
    }
  }

  /** Where the match MatchAt finds puts its `@` and the dot before its TLD. */
  lemma MatchAtParts(s: string, i: nat) returns (at: nat, dot: nat)
    requires i <= |s| && MatchAt(s, i).Some?
    ensures at == RunEnd(s, i, LocalPart) && i < at < |s| && s[at] == '@'
    ensures at + 1 < dot <= RunEnd(s, at + 1, DomainPart) - 3 && IsTldDot(s, dot)
    ensures MatchAt(s, i) == Some(RunEnd(s, dot + 1, Tld))
  {
    at := RunEnd(s, i, LocalPart);
    dot := LastTldDot(s, at + 1, RunEnd(s, at + 1, DomainPart) - 3).value;
  }

  /** The parts MatchAt picks split s[i..e] as the pattern requires. */
  lemma PartsSplit(s: string, i: nat, at: nat, dot: nat)
    requires i < at < |s| && at == RunEnd(s, i, LocalPart) && s[at] == '@'
    requires at + 1 < dot <= RunEnd(s, at + 1, DomainPart) - 3 && IsTldDot(s, dot)
    ensures SplitsIn(s, i, RunEnd(s, dot + 1, Tld), at, dot)
  {
    RunReaches(s, dot + 1, dot + 3, Tld);
    RunEndRun(s, i, LocalPart);
    RunEndRun(s, at + 1, DomainPart);
    RunEndRun(s, dot + 1, Tld);
    assert AllIn(s, at + 1, dot, DomainPart);
  }

  /** What MatchAt finds is in the language. */
  lemma MatchAtSound(s: string, i: nat)
    requires i <= |s| && MatchAt(s, i).Some?
    ensures InPattern(s[i..MatchAt(s, i).value])
  {
    var at, dot := MatchAtParts(s, i);
    var e := RunEnd(s, dot + 1, Tld);
    PartsSplit(s, i, at, dot);
    SplitsInSlice(s, i, e, at - i, dot - i);
    assert SplitsAt(s[i..e], at - i, dot - i);
  }

  /** MatchAt assembled from its parts: the run of local characters, the `@` after it, the dot
      chosen in the domain run, and the run of TLD letters after that dot. */
  lemma MatchAtOfParts(s: string, i: nat, at: nat, dot: nat)
    requires i < at < |s| && RunEnd(s, i, LocalPart) == at && s[at] == '@'
    requires LastTldDot(s, at + 1, RunEnd(s, at + 1, DomainPart) - 3) == Some(dot)
    ensures MatchAt(s, i) == Some(RunEnd(s, dot + 1, Tld))
  {
  }

  /** For a match split at `at` and `dot`, the local run stops at the `@` and the domain run
      reaches the end of the match. */
  lemma SplitsInRuns(s: string, i: nat, e: nat, at: nat, dot: nat)
    requires SplitsIn(s, i, e, at, dot)
    ensures RunEnd(s, i, LocalPart) == at
    ensures RunEnd(s, at + 1, DomainPart) >= e
  {
    RunStops(s, i, at, LocalPart);
    assert AllIn(s, at + 1, e, DomainPart) by {
      forall x | at + 1 <= x < e ensures InClass(s[x], DomainPart) {
        if x > dot { assert InClass(s[x], Tld); }
      }
    }
    RunReaches(s, at + 1, e, DomainPart);
  }

  /** A candidate dot in (lo, hi] means the last one is there, at or after it. */
  lemma {:induction false} LastTldDotReaches(s: string, lo: nat, hi: int, d: nat)
    requires lo < d <= hi && IsTldDot(s, d)
    ensures LastTldDot(s, lo, hi).Some? && LastTldDot(s, lo, hi).value >= d
    decreases hi - lo
  {
    if !IsTldDot(s, hi) {
      LastTldDotReaches(s, lo, hi - 1, d);
    }
  }

  /** A dot at or after the dot of a match, where the TLD can start, is that same dot or lies past
      the match: the run of letters after it reaches the end of the match. */
  lemma TldRunCovers(s: string, e: nat, d': nat, d: nat)
    requires d' + 2 < e <= |s| && AllIn(s, d' + 1, e, Tld)
    requires d' <= d && IsTldDot(s, d)
    ensures RunEnd(s, d + 1, Tld) >= e
  {
    if d == d' {
      RunReaches(s, d + 1, e, Tld);
    } else if d < e {
      assert false;
    }
  }

  /** A match of s[i..e] split at `at` and `dot` is found by MatchAt, which ends at e or later. */
  lemma MatchAtReaches(s: string, i: nat, e: nat, at: nat, dot: nat)
    requires SplitsIn(s, i, e, at, dot)
    ensures MatchAt(s, i).Some? && e <= MatchAt(s, i).value
  {
    SplitsInRuns(s, i, e, at, dot);
    var domainEnd := RunEnd(s, at + 1, DomainPart);
    assert InClass(s[dot + 1], Tld) && InClass(s[dot + 2], Tld);
    LastTldDotReaches(s, at + 1, domainEnd - 3, dot);
    var d := LastTldDot(s, at + 1, domainEnd - 3).value;
    TldRunCovers(s, e, dot, d);
  }

  /** If any prefix of s[i..] is in the language, MatchAt finds a match, and one at least as long:
      so MatchAt is None exactly when no match starts at i, and otherwise it is the longest one. */
  lemma MatchAtLongest(s: string, i: nat, e': nat)
    requires i <= e' <= |s| && InPattern(s[i..e'])
    ensures MatchAt(s, i).Some? && e' <= MatchAt(s, i).value
  {
    var a, d :| SplitsAt(s[i..e'], a, d);
    SplitsInSlice(s, i, e', a, d);
    MatchAtReaches(s, i, e', i + a, i + d);
  }

  /** A match MatchAt finds is in the language, and no longer prefix is. */
  lemma MatchFound(s: string, i: nat, e: nat)
    requires i <= |s| && MatchAt(s, i) == Some(e)
    ensures InPattern(s[i..e])
    ensures forall e' :: e < e' <= |s| ==> !InPattern(s[i..e'])
  {
    MatchAtSound(s, i);
    forall e' | e < e' <= |s| ensures !InPattern(s[i..e']) {
      if InPattern(s[i..e']) {
        MatchAtLongest(s, i, e');
      }
    }
  }

  /** No prefix of s[p..] is in the language: no match can start at p. */
  ghost predicate NoMatchFrom(s: string, p: int)
    requires 0 <= p <= |s|
  {
    forall e :: p <= e <= |s| ==> !InPattern(s[p..e])
  }

  /** MatchAt fails only where no match can start. */
  lemma MatchAtComplete(s: string, p: nat)
    requires p <= |s| && MatchAt(s, p).None?
    ensures NoMatchFrom(s, p)
  {
    forall e | p <= e <= |s| ensures !InPattern(s[p..e]) {
      if InPattern(s[p..e]) {
        MatchAtLongest(s, p, e);
      }
    }
  }

  /** findall's result: the k-th string is the k-th span of s, the spans are in order and do not
      overlap, and each string is in the language and is the longest match from its start. */
  lemma FindAllLongest(s: string)
    ensures var r, sp := FindAll(s), Spans(s, 0);
      && (forall k :: 0 <= k < |r| ==>
            && r[k] == s[sp[k].0 .. sp[k].1]
            && InPattern(r[k])
            && (forall e :: sp[k].1 < e <= |s| ==> !InPattern(s[sp[k].0 .. e])))
      && (forall k :: 0 < k < |r| ==> sp[k - 1].1 <= sp[k].0)
  {
    var r, sp, m := FindAll(s), Spans(s, 0), Matcher(s);
    assert sp == Scan(m, |s|, 0);
    ScanOrdered(m, |s|, 0);
    ScanMatch(m, |s|, 0);
    forall k | 0 <= k < |r|
      ensures && r[k] == s[sp[k].0 .. sp[k].1]
              && InPattern(r[k])
              && (forall e :: sp[k].1 < e <= |s| ==> !InPattern(s[sp[k].0 .. e]))
    {
      assert m(sp[k].0) == Some(sp[k].1);
      MatchFound(s, sp[k].0, sp[k].1);
    }
  }

  /** findall misses nothing at the ends: no match can start before the first span or after the
      last one (anywhere, when there are none). */
  lemma FindAllLeftmostEnds(s: string)
    ensures var sp := Spans(s, 0);
      && (|sp| == 0 ==> forall p :: 0 <= p <= |s| ==> NoMatchFrom(s, p))
      && (|sp| > 0 ==> forall p :: 0 <= p < sp[0].0 ==> NoMatchFrom(s, p))
      && (|sp| > 0 ==> forall p :: sp[|sp| - 1].1 <= p <= |s| ==> NoMatchFrom(s, p))
  {
    FindAllFirstGap(s);
    FindAllLastGap(s);
    NoMatchAtEnd(s);
  }

  /** No match starts before the first span (anywhere, when there is none). */
  lemma FindAllFirstGap(s: string)
    ensures var sp := Spans(s, 0);
      forall p :: 0 <= p < (if |sp| == 0 then |s| else sp[0].0) ==> NoMatchFrom(s, p)
  {
    var sp, m := Spans(s, 0), Matcher(s);
    ScanFirstGap(m, |s|, 0);
    var first := if |sp| == 0 then |s| else sp[0].0;
    forall p | 0 <= p < first ensures NoMatchFrom(s, p) {
      NoMatchWhereNone(s, p);
    }
  }

  /** No match starts after the last span. */
  lemma FindAllLastGap(s: string)
    ensures var sp := Spans(s, 0);
      |sp| > 0 ==> forall p :: sp[|sp| - 1].1 <= p < |s| ==> NoMatchFrom(s, p)
  {
    var sp, m := Spans(s, 0), Matcher(s);
    ScanLastGap(m, |s|, 0);
    if |sp| > 0 {
      forall p | sp[|sp| - 1].1 <= p < |s| ensures NoMatchFrom(s, p) {
        NoMatchWhereNone(s, p);
      }
    }
  }

  /** Where the matcher fails, no match starts. */
  lemma NoMatchWhereNone(s: string, p: nat)
    requires p < |s| && Matcher(s)(p).None?
    ensures NoMatchFrom(s, p)
  {
    assert MatchAt(s, p).None?;
    MatchAtComplete(s, p);
  }

  /** No match starts at the end of the text: a match is never empty. */
  lemma NoMatchAtEnd(s: string)
    ensures NoMatchFrom(s, |s|)
  {
    assert s[|s|..|s|] == [];
  }

  /** findall misses nothing in between: no match can start between two consecutive spans. */
  lemma FindAllLeftmostBetween(s: string)
    ensures var sp := Spans(s, 0);
      forall k, p :: 0 < k < |sp| && sp[k - 1].1 <= p < sp[k].0 ==> NoMatchFrom(s, p)
  {
    var sp, m := Spans(s, 0), Matcher(s);
    ScanGapsFree(m, |s|, 0);
    forall k, p | 0 < k < |sp| && sp[k - 1].1 <= p < sp[k].0 ensures NoMatchFrom(s, p) {
      assert NoneIn(m, sp[k - 1].1, sp[k].0);
      assert m(p).None?;
      assert MatchAt(s, p).None?;
      MatchAtComplete(s, p);
    }
  }

  /** Every string findall returns is a substring of its input and is in the language. */
  lemma FindAllSound(s: string, m: string)
    requires m in FindAll(s)
    ensures InPattern(m)
    ensures exists a, b :: 0 <= a <= b <= |s| && m == s[a..b]
  {
    FindAllLongest(s);
    var sp := Spans(s, 0);
    var k :| 0 <= k < |FindAll(s)| && FindAll(s)[k] == m;
    assert m == s[sp[k].0 .. sp[k].1];
  }

  /** No match starts inside a run of local characters that does not end in `@`. */
  lemma NoMatchInLocalRun(s: string, lo: nat, hi: nat)
    requires lo <= hi < |s| && AllIn(s, lo, hi, LocalPart)
    requires !InClass(s[hi], LocalPart) && s[hi] != '@'
    ensures NoMatchIn(s, lo, hi + 1)
  {
    forall p: nat | lo <= p <= hi ensures Matcher(s)(p).None? {
      RunStops(s, p, hi, LocalPart);
      assert MatchAt(s, p).None?;
    }
  }

  /** FindAll read off from its spans. */
  lemma FindAllOfSpans(s: string, sp: seq<(nat, nat)>)
    requires Spans(s, 0) == sp
    ensures |FindAll(s)| == |sp|
    ensures forall k :: 0 <= k < |sp| ==> sp[k].0 <= sp[k].1 <= |s| && FindAll(s)[k] == s[sp[k].0 .. sp[k].1]
  {
  }
}
