/**
 * Python's order on `str` and `sorted` over a set of strings. Python compares strings code point
 * by code point, and a proper prefix comes first; `sorted(email_set)` lists the set in that order.
 */
module StringOrder {

  /** Python's `a < b` on `str`. */
  predicate Below(a: string, b: string)
    decreases |a|
  {
    if |a| == 0 then |b| > 0
    else if |b| == 0 then false
    else if a[0] != b[0] then a[0] < b[0]
    else Below(a[1..], b[1..])
  }

  /** The textbook description of the same order: a is a proper prefix of b, or the two first
      differ at some index where a has the smaller code point. */
  ghost predicate LexicographicallyBefore(a: string, b: string) {
    || (|a| < |b| && a == b[..|a|])
    || exists k :: 0 <= k < |a| && k < |b| && a[..k] == b[..k] && a[k] < b[k]
  }

  lemma {:induction false} BelowGivesLexicographic(a: string, b: string)
    requires Below(a, b)
    ensures LexicographicallyBefore(a, b)
    decreases |a|
  {
    if |a| == 0 {
      assert a == b[..0];
    } else if a[0] != b[0] {
      assert a[..0] == b[..0];
    } else {
      var a', b' := a[1..], b[1..];
      BelowGivesLexicographic(a', b');
      if |a'| < |b'| && a' == b'[..|a'|] {
        assert a == [a[0]] + a' && b[..|a|] == [b[0]] + b'[..|a'|];
      } else {
        var k :| 0 <= k < |a'| && k < |b'| && a'[..k] == b'[..k] && a'[k] < b'[k];
        assert a[..k + 1] == [a[0]] + a'[..k] && b[..k + 1] == [b[0]] + b'[..k];
        assert a[k + 1] == a'[k] && b[k + 1] == b'[k];
      }
    }
  }

  lemma {:induction false} LexicographicGivesBelow(a: string, b: string)
    requires LexicographicallyBefore(a, b)
    ensures Below(a, b)
    decreases |a|
  {
    if |a| > 0 {
      var a', b' := a[1..], b[1..];
      if |a| < |b| && a == b[..|a|] {
        assert a[0] == b[0];
        assert a' == b'[..|a'|];
        LexicographicGivesBelow(a', b');
      } else {
        var k :| 0 <= k < |a| && k < |b| && a[..k] == b[..k] && a[k] < b[k];
        if k > 0 {
          assert a[0] == a[..k][0] && b[0] == b[..k][0];
          assert a'[..k - 1] == a[1..k] == b[1..k] == b'[..k - 1];
          assert a'[k - 1] == a[k] && b'[k - 1] == b[k];
          LexicographicGivesBelow(a', b');
        }
      }
    }
  }

  /** Below is the lexicographic order, in both directions. */
  lemma BelowIsLexicographic(a: string, b: string)
    ensures Below(a, b) <==> LexicographicallyBefore(a, b)
  {
    if Below(a, b) {
      BelowGivesLexicographic(a, b);
    }
    if LexicographicallyBefore(a, b) {
      LexicographicGivesBelow(a, b);
    }
  }

  lemma {:induction false} BelowIrreflexive(a: string)
    ensures !Below(a, a)
    decreases |a|
  {
    if |a| > 0 {
      BelowIrreflexive(a[1..]);
    }
  }

  lemma {:induction false} BelowTransitive(a: string, b: string, c: string)
    requires Below(a, b) && Below(b, c)
    ensures Below(a, c)
    decreases |a|
  {
    if |a| > 0 && a[0] == b[0] && b[0] == c[0] {
      BelowTransitive(a[1..], b[1..], c[1..]);
    }
  }

  /** Any two different strings are ordered one way or the other. */
  lemma {:induction false} BelowTotal(a: string, b: string)
    requires a != b
    ensures Below(a, b) || Below(b, a)
    decreases |a|
  {
    if |a| > 0 && |b| > 0 && a[0] == b[0] {
      assert a == [a[0]] + a[1..] && b == [b[0]] + b[1..];
      BelowTotal(a[1..], b[1..]);
    }
  }

  lemma {:induction false} BelowAsymmetric(a: string, b: string)
    requires Below(a, b)
    ensures !Below(b, a)
  {
    if Below(b, a) {
      BelowTransitive(a, b, a);
      BelowIrreflexive(a);
    }
  }

  /** Every element is below each later one: sorted, and so without duplicates. */
  ghost predicate StrictlyIncreasing(s: seq<string>) {
    forall i, j :: 0 <= i < j < |s| ==> Below(s[i], s[j])
  }

  /** m is the least element of the set. */
  predicate IsLeast(m: string, s: set<string>) {
    m in s && forall y :: y in s && y != m ==> Below(m, y)
  }

  lemma {:induction false} LeastExists(s: set<string>)
    requires s != {}
    ensures exists m :: IsLeast(m, s)
    decreases |s|
  {
    var x :| x in s;
    var rest := s - {x};
    if rest == {} {
      assert s == {x};
      assert IsLeast(x, s);
    } else {
      LeastExists(rest);
      var m :| IsLeast(m, rest);
      if Below(x, m) {
        forall y | y in s && y != x ensures Below(x, y) {
          if y != m {
            BelowTransitive(x, m, y);
          }
        }
        assert IsLeast(x, s);
      } else {
        BelowTotal(x, m);
        assert IsLeast(m, s);
      }
    }
  }

  lemma LeastUnique(s: set<string>)
    ensures forall m, m' :: IsLeast(m, s) && IsLeast(m', s) ==> m == m'
  {
    forall m, m' | IsLeast(m, s) && IsLeast(m', s) ensures m == m' {
      if m != m' {
        BelowAsymmetric(m, m');
      }
    }
  }

  /** `sorted(s)`: the elements of the set, each once, in Python's order. */
  function SortedList(s: set<string>): (r: seq<string>)
    ensures StrictlyIncreasing(r)
    ensures forall x :: x in r <==> x in s
    ensures |r| == |s|
    decreases |s|
  {
    if s == {} then []
    else
      LeastExists(s);
      LeastUnique(s);
      var m :| IsLeast(m, s);
      var rest := SortedList(s - {m});
      assert forall j :: 0 <= j < |rest| ==> rest[j] in s - {m};
      [m] + rest
  }

  /** A set has only one strictly increasing listing, so `sorted` is determined by the set: any
      correct sort returns what SortedList returns. */
  lemma {:induction false} IncreasingListingUnique(a: seq<string>, b: seq<string>)
    requires StrictlyIncreasing(a) && StrictlyIncreasing(b)
    requires forall x :: x in a <==> x in b
    ensures a == b
    decreases |a|
  {
    assert a != [] ==> a[0] in a;
    assert b != [] ==> b[0] in b;
    if a != [] && b != [] {
      if a[0] != b[0] {
        var i :| 0 <= i < |b| && b[i] == a[0];
        var j :| 0 <= j < |a| && a[j] == b[0];
        assert Below(b[0], b[i]) && Below(a[0], a[j]);
        BelowAsymmetric(b[0], a[0]);
      }
      forall x ensures x in a[1..] <==> x in b[1..] {
        if x in a[1..] {
          var i' :| 0 <= i' < |a[1..]| && a[1..][i'] == x;
          var i := i' + 1;
          assert a[i] in a;
          var l :| 0 <= l < |b| && b[l] == x;
          if l == 0 {
            assert Below(a[0], a[i]);
            BelowIrreflexive(x);
          }
          assert b[1..][l - 1] == x;
        }
        if x in b[1..] {
          var i' :| 0 <= i' < |b[1..]| && b[1..][i'] == x;
          var i := i' + 1;
          assert b[i] in b;
          var l :| 0 <= l < |a| && a[l] == x;
          if l == 0 {
            assert Below(b[0], b[i]);
            BelowIrreflexive(x);
          }
          assert a[1..][l - 1] == x;
        }
      }
      IncreasingListingUnique(a[1..], b[1..]);
      assert a == [a[0]] + a[1..] && b == [b[0]] + b[1..];
    }
  }
}
