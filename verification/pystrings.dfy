/** Python's ordering of `str` values: lexicographic by code point, where a
    proper prefix sorts first. Used by `sorted()` on the release triples. */
module PyStrings {

  /** `a < b` on Python strings. */
  predicate StrLess(a: string, b: string)
    decreases |a|
  {
    if |a| == 0 then |b| > 0
    else if |b| == 0 then false
    else a[0] < b[0] || (a[0] == b[0] && StrLess(a[1..], b[1..]))
  }

  /** The textbook definition of lexicographic order: either `a` is a proper
      prefix of `b`, or the strings first differ at some index `k` where `a`
      has the smaller character. */
  ghost predicate LexLess(a: string, b: string) {
    (|a| < |b| && a == b[..|a|])
    || exists k :: 0 <= k < |a| && k < |b| && a[..k] == b[..k] && a[k] < b[k]
  }

  /** The recursive comparison agrees with the textbook definition. */
  lemma StrLessIsLexLess(a: string, b: string)
    ensures StrLess(a, b) <==> LexLess(a, b)
  {
    if StrLess(a, b) {
      StrLessToLexLess(a, b);
    }
    if LexLess(a, b) {
      LexLessToStrLess(a, b);
    }
  }

  lemma {:induction false} StrLessToLexLess(a: string, b: string)
    requires StrLess(a, b)
    ensures LexLess(a, b)
    decreases |a|
  {
    if |a| == 0 {
      assert a == b[..0];
    } else if a[0] < b[0] {
      assert a[..0] == b[..0];
    } else {
      StrLessToLexLess(a[1..], b[1..]);
      if |a[1..]| < |b[1..]| && a[1..] == b[1..][..|a[1..]|] {
        assert a == [a[0]] + a[1..];
        assert b[..|a|] == [b[0]] + b[1..][..|a[1..]|];
      } else {
        var k :| 0 <= k < |a[1..]| && k < |b[1..]| && a[1..][..k] == b[1..][..k] && a[1..][k] < b[1..][k];
        assert a[..k+1] == [a[0]] + a[1..][..k];
        assert b[..k+1] == [b[0]] + b[1..][..k];
      }
    }
  }

  lemma {:induction false} LexLessToStrLess(a: string, b: string)
    requires LexLess(a, b)
    ensures StrLess(a, b)
    decreases |a|
  {
    if |a| < |b| && a == b[..|a|] {
      if |a| > 0 {
        assert a[0] == b[..|a|][0];
        assert a[1..] == b[1..][..|a[1..]|];
        LexLessToStrLess(a[1..], b[1..]);
      }
    } else {
      var k :| 0 <= k < |a| && k < |b| && a[..k] == b[..k] && a[k] < b[k];
      if k > 0 {
        assert a[0] == a[..k][0] == b[..k][0] == b[0];
        assert a[1..][..k-1] == a[..k][1..];
        assert b[1..][..k-1] == b[..k][1..];
        assert a[1..][k-1] == a[k] && b[1..][k-1] == b[k];
        LexLessToStrLess(a[1..], b[1..]);
      }
    }
  }

  lemma {:induction false} StrLessIrreflexive(a: string)
    ensures !StrLess(a, a)
    decreases |a|
  {
    if |a| > 0 {
      StrLessIrreflexive(a[1..]);
    }
  }

  lemma {:induction false} StrLessTransitive(a: string, b: string, c: string)
    requires StrLess(a, b) && StrLess(b, c)
    ensures StrLess(a, c)
    decreases |a|
  {
    if |a| > 0 && a[0] == b[0] && b[0] == c[0] {
      StrLessTransitive(a[1..], b[1..], c[1..]);
    }
  }

  /** Any two distinct strings are ordered one way or the other. */
  lemma {:induction false} StrLessConnected(a: string, b: string)
    ensures a == b || StrLess(a, b) || StrLess(b, a)
    decreases |a|
  {
    if |a| > 0 && |b| > 0 && a[0] == b[0] {
      StrLessConnected(a[1..], b[1..]);
      if a[1..] == b[1..] {
        assert a == [a[0]] + a[1..] && b == [b[0]] + b[1..];
      }
    }
  }
}
