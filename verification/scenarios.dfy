/** Worked cases of the whole pipeline on small release lists. */
module Scenarios {
  import opened Wrappers
  import opened PyStrings
  import opened Grouping
  import opened Sorting
  import opened Render

  /** With no releases the page is the bare head: not one `</body>`. */
  lemma ExampleNoReleases()
    ensures Page([]) == Some(Header)
  {
    assert Dedup([]) == [];
    assert Keyed([]) == Some([]);
    assert SortByBuild([]) == [];
    assert Header + [] == Header;
  }

  /** Two releases of one title collapse into one collection holding both
      triples in input order. */
  lemma SharedTitle(r1: Release, r2: Release)
    requires r1.name == r2.name
    ensures Dedup([r1, r2]) == [Collection(r1.name, [TripleOf(r1), TripleOf(r2)])]
  {
    var n, t1, t2 := r1.name, TripleOf(r1), TripleOf(r2);
    DedupSnoc([], r1);
    assert [] + [r1] == [r1];
    assert Dedup([]) == [];
    var c1 := Dedup([r1]);
    AddEffect([], n, t1);
    assert c1 == [Collection(n, [t1])];
    DedupSnoc([r1], r2);
    assert [r1] + [r2] == [r1, r2];
    assert Titles(c1) == [n];
    assert FirstIndex(Titles(c1), n) == 0;
    var c2 := Add(c1, n, t2);
    assert c2 == c1[0 := Collection(n, [t1] + [t2])];
    assert [t1] + [t2] == [t1, t2];
    assert Dedup([r1, r2]) == c2;
  }

  /** One more record is one more `Add`. */
  lemma DedupSnoc(rs: seq<Release>, r: Release)
    ensures Dedup(rs + [r]) == Add(Dedup(rs), r.name, TripleOf(r))
  {
    assert (rs + [r])[..|rs|] == rs;
  }

  /** Two triples out of order are swapped. */
  lemma SortTwo(a: Triple, b: Triple)
    requires TripleLess(a, b)
    ensures SortTriples([b, a]) == [a, b]
  {
    TripleLessIrreflexive(a);
    if TripleLess(b, a) {
      TripleLessTransitive(a, b, a);
    }
    assert TriplesSorted([a, b]);
    assert multiset([b, a]) == multiset([a, b]);
    SortedTriplesUnique(SortTriples([b, a]), [a, b]);
  }

  /** The releases of one title, listed newest first by the API, end up in
      one collection ordered by date, backticks stripped. */
  lemma ExampleSharedTitle()
    ensures var title := "macOS 14.1 (23B74)";
      var t1 := Triple("2023-10-01", "v1", "https://x/1");
      var t2 := Triple("2023-10-02", "v2", "https://x/2");
      && Dedup([Release(title, Some("`2023-10-02`"), "v2", "https://x/2"),
                Release(title, Some("`2023-10-01`"), "v1", "https://x/1")])
         == [Collection(title, [t2, t1])]
      && SortTriples([t2, t1]) == [t1, t2]
  {
    var title := "macOS 14.1 (23B74)";
    var r2 := Release(title, Some("`2023-10-02`"), "v2", "https://x/2");
    var r1 := Release(title, Some("`2023-10-01`"), "v1", "https://x/1");
    assert "`" + "2023-10-01" + "`" == "`2023-10-01`";
    assert "`" + "2023-10-02" + "`" == "`2023-10-02`";
    var t1 := ExampleTriple(r1, "2023-10-01");
    var t2 := ExampleTriple(r2, "2023-10-02");
    SharedTitle(r2, r1);
    ExampleDatesOrdered();
    SortTwo(t1, t2);
  }

  /** A release whose body is a backticked date reads as that date. */
  lemma ExampleTriple(r: Release, d: string) returns (t: Triple)
    requires |d| > 0 && d[0] != '`' && d[|d| - 1] != '`'
    requires r.body == Some("`" + d + "`")
    ensures t == Triple(d, r.tagName, r.htmlUrl) == TripleOf(r)
  {
    StripWrapped(d);
    t := Triple(d, r.tagName, r.htmlUrl);
  }

  /** The earlier date sorts first. */
  lemma ExampleDatesOrdered()
    ensures TripleLess(Triple("2023-10-01", "v1", "https://x/1"),
                       Triple("2023-10-02", "v2", "https://x/2"))
  {
    var d1, d2 := "2023-10-01", "2023-10-02";
    assert d1[..9] == d2[..9] && d1[9] < d2[9];
    StrLessIsLexLess(d1, d2);
  }

  /** A date wrapped in one backtick on each side is read without them. */
  lemma StripWrapped(d: string)
    requires |d| > 0 && d[0] != '`' && d[|d| - 1] != '`'
    ensures StripTicks("`" + d + "`") == d
  {
    var s := "`" + d + "`";
    assert s[1..1 + |d|] == d && s[..1] == "`" && s[1 + |d|..] == "`";
    StripTicksUnique(s, d, 1);
  }

  /** Spaces inside the backticks are kept, and a space sorts before every
      digit: the date " 2023-10-02 " comes before "2023-10-01". */
  lemma ExampleSpacedDateFirst()
    ensures StrLess(" 2023-10-02 ", "2023-10-01")
  {
  }
}
