/**
 * The loop of Python's `findall`, for any matcher: at each position the matcher either gives the
 * end of the match that starts there or fails; a match is taken whole and the scan resumes at
 * its end, otherwise the scan moves one position on. Nothing here depends on the pattern, which
 * `EmailPattern` plugs in.
 */
module Scanning {
  import opened Wrappers

  /** What a matcher for a string of length n promises: a match that starts at p ends after p
      and no later than n. */
  ghost predicate Advances(m: nat -> Option<nat>, n: nat) {
    forall p: nat :: m(p).Some? ==> p < m(p).value <= n
  }

  /** The (start, end) pairs the scan visits from position `from` on. */
  function Scan(m: nat -> Option<nat>, n: nat, from: nat): (r: seq<(nat, nat)>)
    requires from <= n && Advances(m, n)
    ensures forall k :: 0 <= k < |r| ==> from <= r[k].0 < r[k].1 <= n
    decreases n - from
  {
    if from == n then []
    else
      match m(from)
      case Some(e) => [(from, e)] + Scan(m, n, e)
      case None => Scan(m, n, from + 1)
  }

  /** The matcher fails everywhere in [lo, hi). */
  ghost predicate NoneIn(m: nat -> Option<nat>, lo: nat, hi: nat) {
    forall p: nat :: lo <= p < hi ==> m(p).None?
  }

  /** No match starts between two consecutive pairs of r. */
  ghost predicate GapsFree(m: nat -> Option<nat>, r: seq<(nat, nat)>) {
    forall k :: 0 < k < |r| ==> NoneIn(m, r[k - 1].1, r[k].0)
  }

  /** No match starts after the last pair of r. */
  ghost predicate LastGapFree(m: nat -> Option<nat>, n: nat, r: seq<(nat, nat)>) {
    |r| > 0 ==> NoneIn(m, r[|r| - 1].1, n)
  }

  /** One step of the scan: a match at `from` is taken whole and the scan resumes at its end. */
  lemma ScanTake(m: nat -> Option<nat>, n: nat, from: nat, e: nat)
    requires from < n && Advances(m, n) && m(from) == Some(e)
    ensures Scan(m, n, from) == [(from, e)] + Scan(m, n, e)
  {
  }

  /** One step of the scan: where no match starts, the scan moves one position on. */
  lemma ScanSkip(m: nat -> Option<nat>, n: nat, from: nat)
    requires from < n && Advances(m, n) && m(from).None?
    ensures Scan(m, n, from) == Scan(m, n, from + 1)
  {
  }

  /** Every pair the scan yields is a match that the matcher finds at its start. */
  lemma {:induction false} ScanMatch(m: nat -> Option<nat>, n: nat, from: nat)
    requires from <= n && Advances(m, n)
    ensures var r := Scan(m, n, from);
      forall k :: 0 <= k < |r| ==> m(r[k].0) == Some(r[k].1)
    decreases n - from
  {
    if from < n {
      match m(from)
      case Some(e) =>
        ScanMatch(m, n, e);
        ScanTake(m, n, from, e);
      case None =>
        ScanMatch(m, n, from + 1);
        ScanSkip(m, n, from);
    }
  }

  /** The pairs are in order and do not overlap: the scan resumes at the end of each match. */
  lemma {:induction false} ScanOrdered(m: nat -> Option<nat>, n: nat, from: nat)
    requires from <= n && Advances(m, n)
    ensures var r := Scan(m, n, from);
      forall k :: 0 < k < |r| ==> r[k - 1].1 <= r[k].0
    decreases n - from
  {
    if from < n {
      match m(from)
      case Some(e) =>
        ScanOrdered(m, n, e);
        ScanTake(m, n, from, e);
      case None =>
        ScanOrdered(m, n, from + 1);
        ScanSkip(m, n, from);
    }
  }

  /** No match starts between `from` and the first pair (or n, when there is none). */
  lemma {:induction false} ScanFirstGap(m: nat -> Option<nat>, n: nat, from: nat)
    requires from <= n && Advances(m, n)
    ensures var r := Scan(m, n, from);
      NoneIn(m, from, if |r| == 0 then n else r[0].0)
    decreases n - from
  {
    if from < n {
      match m(from)
      case Some(e) =>
        ScanTake(m, n, from, e);
      case None =>
        ScanFirstGap(m, n, from + 1);
        ScanSkip(m, n, from);
    }
  }

  lemma GapsShift(m: nat -> Option<nat>, e: nat, r: seq<(nat, nat)>, rest: seq<(nat, nat)>)
    requires |r| > 0 && r[1..] == rest && r[0].1 == e
    requires GapsFree(m, rest)
    requires |rest| > 0 ==> NoneIn(m, e, rest[0].0)
    ensures GapsFree(m, r)
  {
    forall k | 0 < k < |r| ensures NoneIn(m, r[k - 1].1, r[k].0) {
      assert r[k] == rest[k - 1];
      if k > 1 {
        assert r[k - 1] == rest[k - 2];
      }
    }
  }

  /** No match starts between two pairs. */
  lemma {:induction false} ScanGapsFree(m: nat -> Option<nat>, n: nat, from: nat)
    requires from <= n && Advances(m, n)
    ensures GapsFree(m, Scan(m, n, from))
    decreases n - from
  {
    if from < n {
      match m(from)
      case Some(e) =>
        ScanGapsFree(m, n, e);
        ScanFirstGap(m, n, e);
        ScanTake(m, n, from, e);
        GapsShift(m, e, Scan(m, n, from), Scan(m, n, e));
      case None =>
        ScanGapsFree(m, n, from + 1);
        ScanSkip(m, n, from);
    }
  }

  /** No match starts after the last pair. */
  lemma {:induction false} ScanLastGap(m: nat -> Option<nat>, n: nat, from: nat)
    requires from <= n && Advances(m, n)
    ensures LastGapFree(m, n, Scan(m, n, from))
    decreases n - from
  {
    if from < n {
      match m(from)
      case Some(e) =>
        ScanTake(m, n, from, e);
        var r, rest := Scan(m, n, from), Scan(m, n, e);
        if |rest| > 0 {
          ScanLastGap(m, n, e);
          assert r[|r| - 1] == rest[|rest| - 1];
        } else {
          ScanFirstGap(m, n, e);
          assert r[|r| - 1] == (from, e);
        }
      case None =>
        ScanLastGap(m, n, from + 1);
        ScanSkip(m, n, from);
    }
  }

  /** Where no match starts in [lo, hi), the scan passes over it. */
  lemma {:induction false} ScanPass(m: nat -> Option<nat>, n: nat, lo: nat, hi: nat)
    requires lo <= hi <= n && Advances(m, n) && NoneIn(m, lo, hi)
    ensures Scan(m, n, lo) == Scan(m, n, hi)
    decreases hi - lo
  {
    if lo < hi {
      ScanSkip(m, n, lo);
      ScanPass(m, n, lo + 1, hi);
    }
  }
}
