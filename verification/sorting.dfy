/** The two `sorted` calls of `main` in pages.py: the collections by
    descending build of their title (`reverse=True`, which Python keeps
    stable), and the triples of one collection ascending as tuples. */
module Sorting {
  import opened PyStrings
  import opened Builds
  import opened Grouping

  // ---------------------------------------------------------------------------
  // Triples: tuple order over their three strings.

  /** `x < y` for `(date, tag, url)` tuples of strings. */
  predicate TripleLess(x: Triple, y: Triple) {
    || StrLess(x.date, y.date)
    || (x.date == y.date && StrLess(x.tag, y.tag))
    || (x.date == y.date && x.tag == y.tag && StrLess(x.url, y.url))
  }

  lemma TripleLessIrreflexive(x: Triple)
    ensures !TripleLess(x, x)
  {
    StrLessIrreflexive(x.date);
    StrLessIrreflexive(x.tag);
    StrLessIrreflexive(x.url);
  }

  lemma TripleLessTransitive(x: Triple, y: Triple, z: Triple)
    requires TripleLess(x, y) && TripleLess(y, z)
    ensures TripleLess(x, z)
  {
    if StrLess(x.date, y.date) && StrLess(y.date, z.date) {
      StrLessTransitive(x.date, y.date, z.date);
    } else if x.date == y.date && y.date == z.date {
      if StrLess(x.tag, y.tag) && StrLess(y.tag, z.tag) {
        StrLessTransitive(x.tag, y.tag, z.tag);
      } else if x.tag == y.tag && y.tag == z.tag {
        StrLessTransitive(x.url, y.url, z.url);
      }
    }
  }

  lemma TripleLessConnected(x: Triple, y: Triple)
    ensures x == y || TripleLess(x, y) || TripleLess(y, x)
  {
    StrLessConnected(x.date, y.date);
    StrLessConnected(x.tag, y.tag);
    StrLessConnected(x.url, y.url);
  }

  predicate TriplesSorted(ts: seq<Triple>) {
    forall i, j :: 0 <= i < j < |ts| ==> !TripleLess(ts[j], ts[i])
  }

  /** Inserts `t` in front of the first element that is not below it. */
  function InsertTriple(t: Triple, s: seq<Triple>): (r: seq<Triple>)
    requires TriplesSorted(s)
    ensures TriplesSorted(r)
    ensures multiset(r) == multiset(s) + multiset{t}
    decreases |s|
  {
    if |s| == 0 then [t]
    else if !TripleLess(s[0], t) then
      InsertTripleFront(t, s);
      [t] + s
    else
      var rest := InsertTriple(t, s[1..]);
      assert s == [s[0]] + s[1..];
      InsertTripleBehind(s[0], t, s[1..], rest);
      [s[0]] + rest
  }

  lemma InsertTripleFront(t: Triple, s: seq<Triple>)
    requires TriplesSorted(s) && |s| > 0 && !TripleLess(s[0], t)
    ensures TriplesSorted([t] + s)
  {
    forall j | 0 < j < |s| + 1
      ensures !TripleLess(([t] + s)[j], t)
    {
      if TripleLess(s[j - 1], t) {
        TripleLessConnected(s[0], s[j - 1]);
        if s[0] != s[j - 1] {
          TripleLessTransitive(s[0], s[j - 1], t);
        }
      }
    }
  }

  lemma InsertTripleBehind(h: Triple, t: Triple, s: seq<Triple>, rest: seq<Triple>)
    requires TriplesSorted([h] + s) && TripleLess(h, t)
    requires TriplesSorted(rest) && multiset(rest) == multiset(s) + multiset{t}
    ensures TriplesSorted([h] + rest)
  {
    forall j | 0 <= j < |rest|
      ensures !TripleLess(rest[j], h)
    {
      assert rest[j] in multiset(rest);
      if rest[j] == t {
        TripleLessIrreflexive(h);
        if TripleLess(t, h) {
          TripleLessTransitive(h, t, h);
        }
      } else {
        assert rest[j] in multiset(s);
        var k :| 0 <= k < |s| && s[k] == rest[j];
        assert ([h] + s)[k + 1] == rest[j] && ([h] + s)[0] == h;
      }
    }
  }

  /** `sorted(releases)` for the triples of one collection. */
  function SortTriples(ts: seq<Triple>): (r: seq<Triple>)
    ensures TriplesSorted(r)
    ensures multiset(r) == multiset(ts)
    decreases |ts|
  {
    if |ts| == 0 then []
    else
      assert ts == ts[..|ts| - 1] + [ts[|ts| - 1]];
      InsertTriple(ts[|ts| - 1], SortTriples(ts[..|ts| - 1]))
  }

  /** A sorted permutation is unique, so any correct sort (Python's
      Timsort included) yields exactly `SortTriples`. */
  lemma {:induction false} SortedTriplesUnique(a: seq<Triple>, b: seq<Triple>)
    requires TriplesSorted(a) && TriplesSorted(b)
    requires multiset(a) == multiset(b)
    ensures a == b
    decreases |a|
  {
    assert |a| == |multiset(a)| == |multiset(b)| == |b|;
    if |a| > 0 {
      SortedHeadsEqual(a, b);
      MultisetTail(a);
      MultisetTail(b);
      SortedTriplesUnique(a[1..], b[1..]);
      assert a == [a[0]] + a[1..] && b == [b[0]] + b[1..];
    }
  }

  lemma SortedHeadsEqual(a: seq<Triple>, b: seq<Triple>)
    requires TriplesSorted(a) && TriplesSorted(b)
    requires multiset(a) == multiset(b) && |a| > 0 && |b| > 0
    ensures a[0] == b[0]
  {
    assert a[0] in multiset(b);
    assert b[0] in multiset(a);
    var i :| 0 <= i < |b| && b[i] == a[0];
    var j :| 0 <= j < |a| && a[j] == b[0];
    assert !TripleLess(a[0], b[0]) by {
      if i == 0 { TripleLessIrreflexive(a[0]); }
    }
    assert !TripleLess(b[0], a[0]) by {
      if j == 0 { TripleLessIrreflexive(a[0]); }
    }
    TripleLessConnected(a[0], b[0]);
  }

  lemma MultisetTail<T>(s: seq<T>)
    requires |s| > 0
    ensures multiset(s[1..]) == multiset(s) - multiset{s[0]}
  {
    assert s == [s[0]] + s[1..];
  }

  // ---------------------------------------------------------------------------
  // Collections: descending by build, stable.

  /** A collection together with the build parsed from its title, the key
      Python computes once per item before it sorts. */
  datatype Entry = Entry(build: Build, title: string, triples: seq<Triple>)

  predicate Descending(es: seq<Entry>) {
    forall i, j :: 0 <= i < j < |es| ==> !BuildLess(es[i].build, es[j].build)
  }

  /** The entries whose build is `b`, in their order. */
  function WithBuild(es: seq<Entry>, b: Build): seq<Entry>
    decreases |es|
  {
    if |es| == 0 then []
    else (if es[0].build == b then [es[0]] else []) + WithBuild(es[1..], b)
  }

  /** An entry is picked out exactly when it is present and has build `b`. */
  lemma {:induction false} WithBuildMember(es: seq<Entry>, b: Build, e: Entry)
    ensures e in WithBuild(es, b) <==> e in es && e.build == b
    decreases |es|
  {
    if |es| > 0 {
      WithBuildMember(es[1..], b, e);
      assert es == [es[0]] + es[1..];
    }
  }

  lemma {:induction false} WithBuildNone(es: seq<Entry>, b: Build)
    requires forall j :: 0 <= j < |es| ==> es[j].build != b
    ensures WithBuild(es, b) == []
    decreases |es|
  {
    if |es| > 0 {
      WithBuildNone(es[1..], b);
    }
  }

  lemma {:induction false} WithBuildAppend(s: seq<Entry>, t: seq<Entry>, b: Build)
    ensures WithBuild(s + t, b) == WithBuild(s, b) + WithBuild(t, b)
    decreases |s|
  {
    if |s| > 0 {
      assert (s + t)[1..] == s[1..] + t;
      WithBuildAppend(s[1..], t, b);
    } else {
      assert s + t == t;
    }
  }

  /** Inserts `e` behind every entry whose build is not below its own: after
      the equal builds that came earlier in the input. */
  function InsertEntry(e: Entry, s: seq<Entry>): (r: seq<Entry>)
    requires Descending(s)
    ensures Descending(r)
    ensures multiset(r) == multiset(s) + multiset{e}
    ensures forall b :: WithBuild(r, b) == WithBuild(s, b) + WithBuild([e], b)
    decreases |s|
  {
    if |s| == 0 then [e]
    else if BuildLess(s[0].build, e.build) then
      InsertEntryFront(e, s);
      [e] + s
    else
      var rest := InsertEntry(e, s[1..]);
      assert s == [s[0]] + s[1..];
      InsertEntryBehind(s[0], e, s[1..], rest);
      [s[0]] + rest
  }

  lemma InsertEntryFront(e: Entry, s: seq<Entry>)
    requires Descending(s) && |s| > 0 && BuildLess(s[0].build, e.build)
    ensures Descending([e] + s)
    ensures forall b :: WithBuild([e] + s, b) == WithBuild(s, b) + WithBuild([e], b)
  {
    forall j | 0 <= j < |s|
      ensures BuildLess(s[j].build, e.build)
    {
      if j > 0 {
        BuildLessConnected(s[0].build, s[j].build);
      }
    }
    forall b
      ensures WithBuild([e] + s, b) == WithBuild(s, b) + WithBuild([e], b)
    {
      WithBuildAppend([e], s, b);
      if b == e.build {
        WithBuildNone(s, b);
      } else {
        assert WithBuild([e], b) == [] + WithBuild([e][1..], b);
      }
    }
  }

  lemma InsertEntryBehind(h: Entry, e: Entry, s: seq<Entry>, rest: seq<Entry>)
    requires Descending([h] + s) && !BuildLess(h.build, e.build)
    requires Descending(rest) && multiset(rest) == multiset(s) + multiset{e}
    requires forall b :: WithBuild(rest, b) == WithBuild(s, b) + WithBuild([e], b)
    ensures Descending([h] + rest)
    ensures forall b :: WithBuild([h] + rest, b) == WithBuild([h] + s, b) + WithBuild([e], b)
  {
    forall j | 0 <= j < |rest|
      ensures !BuildLess(h.build, rest[j].build)
    {
      HeadAboveMember(h, e, s, rest[j]);
    }
    DescendingCons(h, rest);
    forall b
      ensures WithBuild([h] + rest, b) == WithBuild([h] + s, b) + WithBuild([e], b)
    {
      WithBuildCons(h, e, s, rest, b);
    }
  }

  /** `h` is not below anything drawn from `s` or equal to `e`. */
  lemma HeadAboveMember(h: Entry, e: Entry, s: seq<Entry>, x: Entry)
    requires Descending([h] + s) && !BuildLess(h.build, e.build)
    requires x in multiset(s) + multiset{e}
    ensures !BuildLess(h.build, x.build)
  {
    if x != e {
      assert x in multiset(s);
      var k :| 0 <= k < |s| && s[k] == x;
      assert ([h] + s)[k + 1] == x && ([h] + s)[0] == h;
    }
  }

  lemma DescendingCons(h: Entry, s: seq<Entry>)
    requires Descending(s)
    requires forall j :: 0 <= j < |s| ==> !BuildLess(h.build, s[j].build)
    ensures Descending([h] + s)
  {
    forall i, j | 0 <= i < j < |[h] + s|
      ensures !BuildLess(([h] + s)[i].build, ([h] + s)[j].build)
    {
      if i == 0 {
        assert ([h] + s)[j] == s[j - 1];
      } else {
        assert ([h] + s)[i] == s[i - 1] && ([h] + s)[j] == s[j - 1];
      }
    }
  }

  lemma WithBuildCons(h: Entry, e: Entry, s: seq<Entry>, rest: seq<Entry>, b: Build)
    requires WithBuild(rest, b) == WithBuild(s, b) + WithBuild([e], b)
    ensures WithBuild([h] + rest, b) == WithBuild([h] + s, b) + WithBuild([e], b)
  {
    WithBuildAppend([h], rest, b);
    WithBuildAppend([h], s, b);
    var p, q, r := WithBuild([h], b), WithBuild(s, b), WithBuild([e], b);
    assert p + (q + r) == p + q + r;
  }

  /** `sorted(..., key=build, reverse=True)`: builds never increase, and the
      entries of any one build keep their input order. */
  function SortByBuild(es: seq<Entry>): (r: seq<Entry>)
    ensures Descending(r)
    ensures multiset(r) == multiset(es)
    ensures forall b :: WithBuild(r, b) == WithBuild(es, b)
    decreases |es|
  {
    if |es| == 0 then []
    else
      var init, last := es[..|es| - 1], es[|es| - 1];
      assert es == init + [last];
      WithBuildsSplit(init, last);
      InsertEntry(last, SortByBuild(init))
  }

  lemma WithBuildsSplit(init: seq<Entry>, last: Entry)
    ensures forall b :: WithBuild(init + [last], b) == WithBuild(init, b) + WithBuild([last], b)
  {
    forall b {
      WithBuildAppend(init, [last], b);
    }
  }

  /** Being descending and stable fixes the order completely, so any stable
      sort (Python's Timsort included) yields exactly `SortByBuild`. */
  lemma {:induction false} StableOrderUnique(a: seq<Entry>, b: seq<Entry>)
    requires Descending(a) && Descending(b)
    requires forall k :: WithBuild(a, k) == WithBuild(b, k)
    ensures a == b
    decreases |a|
  {
    if |a| > 0 || |b| > 0 {
      HeadsAgree(a, b);
      TailsAgree(a, b);
      StableOrderUnique(a[1..], b[1..]);
      assert a == [a[0]] + a[1..] && b == [b[0]] + b[1..];
    }
  }

  /** Two such orders start with the same entry: the first entry of either
      has a build no other entry is above, and among those it comes first. */
  lemma HeadsAgree(a: seq<Entry>, b: seq<Entry>)
    requires Descending(a) && Descending(b)
    requires forall k :: WithBuild(a, k) == WithBuild(b, k)
    requires |a| > 0 || |b| > 0
    ensures |a| > 0 && |b| > 0 && a[0] == b[0]
  {
    if |a| > 0 {
      WithBuildMember(a, a[0].build, a[0]);
      WithBuildMember(b, a[0].build, a[0]);
    }
    if |b| > 0 {
      WithBuildMember(b, b[0].build, b[0]);
      WithBuildMember(a, b[0].build, b[0]);
    }
    var x, y := a[0], b[0];
    var i :| 0 <= i < |a| && a[i] == y;
    var j :| 0 <= j < |b| && b[j] == x;
    assert !BuildLess(x.build, y.build) by {
      if i == 0 { BuildLessIrreflexive(x.build); }
    }
    assert !BuildLess(y.build, x.build) by {
      if j == 0 { BuildLessIrreflexive(y.build); }
    }
    BuildLessConnected(x.build, y.build);
    var k := x.build;
    assert WithBuild(a, k) == [x] + WithBuild(a[1..], k);
    assert WithBuild(b, k) == [y] + WithBuild(b[1..], k);
    assert x == WithBuild(a, k)[0] == WithBuild(b, k)[0] == y;
  }

  /** Dropping a shared first entry keeps the builds' subsequences equal. */
  lemma TailsAgree(a: seq<Entry>, b: seq<Entry>)
    requires |a| > 0 && |b| > 0 && a[0] == b[0]
    requires forall k :: WithBuild(a, k) == WithBuild(b, k)
    ensures forall k :: WithBuild(a[1..], k) == WithBuild(b[1..], k)
  {
    forall k
      ensures WithBuild(a[1..], k) == WithBuild(b[1..], k)
    {
      TailAgrees(a, b, k);
    }
  }

  lemma TailAgrees(a: seq<Entry>, b: seq<Entry>, k: Build)
    requires |a| > 0 && |b| > 0 && a[0] == b[0]
    requires WithBuild(a, k) == WithBuild(b, k)
    ensures WithBuild(a[1..], k) == WithBuild(b[1..], k)
  {
    var ta, tb := WithBuild(a[1..], k), WithBuild(b[1..], k);
    if k == a[0].build {
      assert WithBuild(a, k) == [a[0]] + ta;
      assert WithBuild(b, k) == [a[0]] + tb;
      assert ta == ([a[0]] + ta)[1..];
      assert tb == ([a[0]] + tb)[1..];
    } else {
      assert WithBuild(a, k) == [] + ta;
      assert WithBuild(b, k) == [] + tb;
      assert [] + ta == ta && [] + tb == tb;
    }
  }

  // ---------------------------------------------------------------------------
  // Stability by position.

  /** Number of entries of build `b` before index `i`. */
  function Rank(s: seq<Entry>, b: Build, i: nat): nat
    requires i <= |s|
  {
    |WithBuild(s[..i], b)|
  }

  lemma RankStep(s: seq<Entry>, b: Build, i: nat)
    requires i < |s|
    ensures WithBuild(s[..i + 1], b) == WithBuild(s[..i], b) + (if s[i].build == b then [s[i]] else [])
  {
    assert s[..i + 1] == s[..i] + [s[i]];
    WithBuildAppend(s[..i], [s[i]], b);
    assert WithBuild([s[i]], b) == (if s[i].build == b then [s[i]] else []) + WithBuild([], b);
  }

  lemma RankSplit(s: seq<Entry>, b: Build, i: nat, j: nat)
    requires i <= j <= |s|
    ensures WithBuild(s[..j], b) == WithBuild(s[..i], b) + WithBuild(s[i..j], b)
  {
    assert s[..j] == s[..i] + s[i..j];
    WithBuildAppend(s[..i], s[i..j], b);
  }

  /** An entry of build `b` sits in the filtered list at its rank. */
  lemma RankAt(s: seq<Entry>, b: Build, i: nat)
    requires i < |s| && s[i].build == b
    ensures Rank(s, b, i) < |WithBuild(s, b)|
    ensures WithBuild(s, b)[Rank(s, b, i)] == s[i]
  {
    RankSplit(s, b, i, |s|);
    assert s[..|s|] == s;
    assert s[i..|s|][0] == s[i];
  }

  lemma RankMonotone(s: seq<Entry>, b: Build, i: nat, j: nat)
    requires i < j <= |s| && s[i].build == b
    ensures Rank(s, b, i) < Rank(s, b, j)
  {
    RankSplit(s, b, i, j);
    assert s[i..j][0] == s[i];
  }

  /** Every element of the filtered list comes from a position of that rank. */
  lemma {:induction false} RankInverse(s: seq<Entry>, b: Build, p: nat) returns (q: nat)
    requires p < |WithBuild(s, b)|
    ensures q < |s| && s[q].build == b && Rank(s, b, q) == p
    decreases |s|
  {
    var n := |s| - 1;
    assert s[..|s|] == s;
    RankStep(s, b, n);
    if p < Rank(s, b, n) {
      q := RankInverse(s[..n], b, p);
      assert s[..n][..q] == s[..q];
    } else {
      q := n;
    }
  }

  /** Two entries of equal build come out of `SortByBuild` in their input
      order: the positions they came from are in the same order. */
  lemma SortByBuildKeepsTies(es: seq<Entry>, i: nat, j: nat) returns (qi: nat, qj: nat)
    requires i < j < |SortByBuild(es)|
    requires SortByBuild(es)[i].build == SortByBuild(es)[j].build
    ensures qi < qj < |es|
    ensures es[qi] == SortByBuild(es)[i] && es[qj] == SortByBuild(es)[j]
  {
    var sorted := SortByBuild(es);
    var b := sorted[i].build;
    RankAt(sorted, b, i);
    RankAt(sorted, b, j);
    RankMonotone(sorted, b, i, j);
    qi := RankInverse(es, b, Rank(sorted, b, i));
    qj := RankInverse(es, b, Rank(sorted, b, j));
    RankAt(es, b, qi);
    RankAt(es, b, qj);
    if qj <= qi {
      if qj < qi {
        RankMonotone(es, b, qj, qi);
      }
    }
  }
}
