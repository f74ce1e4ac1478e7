/** Grouping of release records by title (`dedup` in pages.py): every record
    becomes a `(date, tag, url)` triple appended, in input order, to the list
    kept under its exact `name`; titles keep the order of first appearance,
    as a Python dict does. */
module Grouping {
  import opened Wrappers

  /** The fields of one release record that the program reads. A JSON `null`
      body is `None`. */
  datatype Release = Release(name: string, body: Option<string>, tagName: string, htmlUrl: string)

  /** `(date, tag, url)`: the release body with backticks stripped (it holds
      the release date), the tag name and the release page. */
  datatype Triple = Triple(date: string, tag: string, url: string)

  /** One entry of the dict: a title and its triples in insertion order. */
  datatype Collection = Collection(title: string, triples: seq<Triple>)

  // ---------------------------------------------------------------------------
  // `str.strip('`')`

  predicate AllTicks(s: string) {
    forall k :: 0 <= k < |s| ==> s[k] == '`'
  }

  /** Neither end is a backtick. */
  predicate Unticked(r: string) {
    |r| == 0 || (r[0] != '`' && r[|r| - 1] != '`')
  }

  /** `r` sits at index `i` of `s` with nothing but backticks around it. */
  predicate Framed(s: string, r: string, i: nat) {
    && i + |r| <= |s|
    && s[i..i + |r|] == r
    && AllTicks(s[..i])
    && AllTicks(s[i + |r|..])
  }

  /** Number of backticks that open `s`. */
  function LeadingTicks(s: string): (n: nat)
    ensures n <= |s| && AllTicks(s[..n])
    ensures n == |s| || s[n] != '`'
    decreases |s|
  {
    if |s| > 0 && s[0] == '`' then
      var n := 1 + LeadingTicks(s[1..]);
      assert s[..n] == [s[0]] + s[1..][..n - 1];
      n
    else 0
  }

  /** Number of backticks that close `s`. */
  function TrailingTicks(s: string): (n: nat)
    ensures n <= |s| && AllTicks(s[|s| - n..])
    ensures n == |s| || s[|s| - n - 1] != '`'
    decreases |s|
  {
    if |s| > 0 && s[|s| - 1] == '`' then
      var n := 1 + TrailingTicks(s[..|s| - 1]);
      assert s[|s| - n..] == s[..|s| - 1][|s| - n..] + [s[|s| - 1]];
      n
    else 0
  }

  /** `s.strip('`')`: only backticks are removed, and only at the two ends;
      spaces inside the backticks stay. */
  function StripTicks(s: string): (r: string)
    ensures Unticked(r)
    ensures Framed(s, r, LeadingTicks(s))
  {
    var i := LeadingTicks(s);
    var t := s[i..];
    var r := t[..|t| - TrailingTicks(t)];
    assert s[i..i + |r|] == r;
    assert s[i + |r|..] == t[|t| - TrailingTicks(t)..];
    assert |r| > 0 ==> r[0] == s[i];
    r
  }

  lemma {:induction false} LeadingTicksExact(s: string, i: nat)
    requires i <= |s| && AllTicks(s[..i])
    requires i == |s| || s[i] != '`'
    ensures LeadingTicks(s) == i
    decreases i
  {
    if i > 0 {
      assert s[0] == s[..i][0];
      assert s[1..][..i - 1] == s[..i][1..];
      LeadingTicksExact(s[1..], i - 1);
    }
  }

  lemma {:induction false} TrailingTicksExact(s: string, n: nat)
    requires n <= |s| && AllTicks(s[|s| - n..])
    requires n == |s| || s[|s| - n - 1] != '`'
    ensures TrailingTicks(s) == n
    decreases n
  {
    if n > 0 {
      assert s[|s| - 1] == s[|s| - n..][n - 1];
      var u := s[..|s| - 1];
      assert u[|u| - (n - 1)..] == s[|s| - n..][..n - 1];
      TrailingTicksExact(u, n - 1);
    }
  }

  /** The strip is determined by its description: whatever `r` is framed by
      backticks in `s` without starting or ending with one is the result. */
  lemma StripTicksUnique(s: string, r: string, i: nat)
    requires Framed(s, r, i) && Unticked(r)
    ensures StripTicks(s) == r
  {
    var j := i + |r|;
    if |r| > 0 {
      assert s[i] == r[0];
      LeadingTicksExact(s, i);
      var t := s[i..];
      assert t[|t| - (|s| - j)..] == s[j..];
      assert t[|t| - (|s| - j) - 1] == r[|r| - 1];
      TrailingTicksExact(t, |s| - j);
      assert t[..|r|] == r;
    } else {
      assert AllTicks(s) by {
        assert s == s[..i] + s[i..];
      }
      LeadingTicksExact(s, |s|);
    }
  }

  /** Stripping twice strips nothing more. */
  lemma StripTicksIdempotent(s: string)
    ensures StripTicks(StripTicks(s)) == StripTicks(s)
  {
    var r := StripTicks(s);
    assert r[0..|r|] == r && r[..0] == [] && r[|r|..] == [];
    StripTicksUnique(r, r, 0);
  }

  /** A body wrapped in backticks and spaces keeps its spaces. */
  lemma ExampleStripKeepsSpaces()
    ensures StripTicks("`` 2023-10-02 `") == " 2023-10-02 "
  {
    var s := "`` 2023-10-02 `";
    assert s[2..2 + 12] == " 2023-10-02 ";
    assert s[..2] == "``" && s[14..] == "`";
    StripTicksUnique(s, " 2023-10-02 ", 2);
  }

  // ---------------------------------------------------------------------------
  // The dict as an association list.

  /** The triple appended for one release; a missing body reads as "". */
  function TripleOf(r: Release): Triple {
    var body := match r.body case Some(b) => b case None => "";
    Triple(StripTicks(body), r.tagName, r.htmlUrl)
  }

  function Titles(cs: seq<Collection>): (ts: seq<string>)
    ensures |ts| == |cs|
    ensures forall k :: 0 <= k < |cs| ==> ts[k] == cs[k].title
  {
    seq(|cs|, k requires 0 <= k < |cs| => cs[k].title)
  }

  function Names(rs: seq<Release>): (ns: seq<string>)
    ensures |ns| == |rs|
    ensures forall k :: 0 <= k < |rs| ==> ns[k] == rs[k].name
  {
    seq(|rs|, k requires 0 <= k < |rs| => rs[k].name)
  }

  /** Index of the first `x` in `s`, or `|s|` when there is none. */
  function FirstIndex(s: seq<string>, x: string): (k: nat)
    ensures k <= |s|
    ensures k < |s| ==> s[k] == x
    ensures forall j :: 0 <= j < k ==> s[j] != x
    decreases |s|
  {
    if |s| == 0 then 0
    else if s[0] == x then 0
    else 1 + FirstIndex(s[1..], x)
  }

  predicate DistinctTitles(cs: seq<Collection>) {
    forall a, b :: 0 <= a < b < |cs| ==> cs[a].title != cs[b].title
  }

  /** `collections.setdefault(name, []).append(t)`. */
  function Add(cs: seq<Collection>, name: string, t: Triple): seq<Collection> {
    var k := FirstIndex(Titles(cs), name);
    if k < |cs| then cs[k := Collection(name, cs[k].triples + [t])]
    else cs + [Collection(name, [t])]
  }

  /** `dedup(releases)`: the loop over the records, in order. */
  function Dedup(rs: seq<Release>): seq<Collection>
    decreases |rs|
  {
    if |rs| == 0 then []
    else
      var last := rs[|rs| - 1];
      Add(Dedup(rs[..|rs| - 1]), last.name, TripleOf(last))
  }

  // ---------------------------------------------------------------------------
  // Reference definitions the grouping is measured against.

  /** The triples of the records named `name`, in input order. */
  function Select(rs: seq<Release>, name: string): seq<Triple>
    decreases |rs|
  {
    if |rs| == 0 then []
    else
      var last := rs[|rs| - 1];
      Select(rs[..|rs| - 1], name) + (if last.name == name then [TripleOf(last)] else [])
  }

  /** Number of triples held by all collections. */
  function Total(cs: seq<Collection>): nat
    decreases |cs|
  {
    if |cs| == 0 then 0 else Total(cs[..|cs| - 1]) + |cs[|cs| - 1].triples|
  }

  lemma NamesSnoc(rs: seq<Release>)
    requires |rs| > 0
    ensures Names(rs) == Names(rs[..|rs| - 1]) + [rs[|rs| - 1].name]
  {
  }

  /** What one `setdefault(...).append(...)` does to the list. */
  lemma AddEffect(cs: seq<Collection>, name: string, t: Triple)
    ensures var k := FirstIndex(Titles(cs), name);
      k < |cs| ==>
        && Titles(Add(cs, name, t)) == Titles(cs)
        && Add(cs, name, t)[k].triples == cs[k].triples + [t]
        && forall j :: 0 <= j < |cs| && j != k ==> Add(cs, name, t)[j] == cs[j]
    ensures name !in Titles(cs) ==>
        && Titles(Add(cs, name, t)) == Titles(cs) + [name]
        && Add(cs, name, t) == cs + [Collection(name, [t])]
  {
  }

  // ---------------------------------------------------------------------------
  // What `dedup` guarantees.

  /** The keys are the distinct names of the records, each exactly once,
      compared case-sensitively as whole strings. */
  lemma {:induction false} DedupTitles(rs: seq<Release>)
    ensures DistinctTitles(Dedup(rs))
    ensures forall n :: n in Titles(Dedup(rs)) <==> n in Names(rs)
    decreases |rs|
  {
    if |rs| > 0 {
      var init, last := rs[..|rs| - 1], rs[|rs| - 1];
      DedupTitles(init);
      NamesSnoc(rs);
      var cs := Dedup(init);
      AddEffect(cs, last.name, TripleOf(last));
      var k := FirstIndex(Titles(cs), last.name);
      if k < |cs| {
        assert Titles(Dedup(rs)) == Titles(cs);
        assert last.name in Titles(cs);
      } else {
        assert Titles(Dedup(rs)) == Titles(cs) + [last.name];
        assert forall a :: 0 <= a < |cs| ==> cs[a].title == Titles(cs)[a] != last.name;
      }
    }
  }

  /** Each collection holds exactly the triples of the records bearing its
      title, in input order: nothing is lost, moved or reordered. */
  lemma {:induction false} DedupContents(rs: seq<Release>)
    ensures forall k :: 0 <= k < |Dedup(rs)| ==> Dedup(rs)[k].triples == Select(rs, Dedup(rs)[k].title)
    decreases |rs|
  {
    if |rs| > 0 {
      var init, last := rs[..|rs| - 1], rs[|rs| - 1];
      DedupContents(init);
      DedupTitles(init);
      var cs := Dedup(init);
      var t := TripleOf(last);
      AddEffect(cs, last.name, t);
      var k := FirstIndex(Titles(cs), last.name);
      var r := Dedup(rs);
      assert r == Add(cs, last.name, t);
      if k < |cs| {
        forall j | 0 <= j < |r|
          ensures r[j].triples == Select(rs, r[j].title)
        {
          if j != k {
            assert cs[j].title != last.name by {
              assert cs[j].title == Titles(cs)[j] && cs[k].title == Titles(cs)[k];
            }
          }
        }
      } else {
        assert last.name !in Names(init);
        SelectAbsent(init, last.name);
        forall j | 0 <= j < |r|
          ensures r[j].triples == Select(rs, r[j].title)
        {
          if j < |cs| {
            assert cs[j].title == Titles(cs)[j] != last.name;
          }
        }
      }
    }
  }

  /** No record named `name`, no triples under `name`. */
  lemma {:induction false} SelectAbsent(rs: seq<Release>, name: string)
    requires name !in Names(rs)
    ensures Select(rs, name) == []
    decreases |rs|
  {
    if |rs| > 0 {
      NamesSnoc(rs);
      assert rs[|rs| - 1].name == Names(rs)[|rs| - 1];
      SelectAbsent(rs[..|rs| - 1], name);
    }
  }

  /** Titles come out in the order in which their first record appears. */
  lemma {:induction false} DedupFirstSeenOrder(rs: seq<Release>)
    ensures forall a, b :: 0 <= a < b < |Dedup(rs)| ==>
      FirstIndex(Names(rs), Dedup(rs)[a].title) < FirstIndex(Names(rs), Dedup(rs)[b].title)
    decreases |rs|
  {
    if |rs| > 0 {
      var init, last := rs[..|rs| - 1], rs[|rs| - 1];
      DedupFirstSeenOrder(init);
      DedupTitles(init);
      NamesSnoc(rs);
      AddKeepsOrder(Dedup(init), Names(init), last.name, TripleOf(last));
    }
  }

  /** `Add` keeps the collections in first-seen order of the names read so
      far, `name` being the one read last. */
  lemma AddKeepsOrder(cs: seq<Collection>, names: seq<string>, name: string, t: Triple)
    requires forall a, b :: 0 <= a < b < |cs| ==>
      FirstIndex(names, cs[a].title) < FirstIndex(names, cs[b].title)
    requires forall n :: n in Titles(cs) <==> n in names
    ensures var r := Add(cs, name, t);
      forall a, b :: 0 <= a < b < |r| ==>
        FirstIndex(names + [name], r[a].title) < FirstIndex(names + [name], r[b].title)
  {
    var r := Add(cs, name, t);
    AddEffect(cs, name, t);
    forall k | 0 <= k < |cs|
      ensures FirstIndex(names + [name], cs[k].title) == FirstIndex(names, cs[k].title) < |names|
    {
      assert cs[k].title == Titles(cs)[k];
      FirstIndexAppend(names, name, cs[k].title);
    }
    if FirstIndex(Titles(cs), name) < |cs| {
      assert forall k :: 0 <= k < |cs| ==> r[k].title == Titles(r)[k] == Titles(cs)[k] == cs[k].title;
    } else {
      assert name !in names;
      FirstIndexAppend(names, name, name);
    }
  }

  lemma {:induction false} FirstIndexAppend(s: seq<string>, y: string, x: string)
    requires x in s || x == y
    ensures FirstIndex(s + [y], x) == if x in s then FirstIndex(s, x) else |s|
    decreases |s|
  {
    if |s| > 0 && s[0] != x {
      assert (s + [y])[1..] == s[1..] + [y];
      FirstIndexAppend(s[1..], y, x);
    }
  }

  /** One triple per record: the collections hold as many triples as there
      were records. */
  lemma {:induction false} DedupTotal(rs: seq<Release>)
    ensures Total(Dedup(rs)) == |rs|
    decreases |rs|
  {
    if |rs| > 0 {
      var init, last := rs[..|rs| - 1], rs[|rs| - 1];
      DedupTotal(init);
      var cs := Dedup(init);
      var k := FirstIndex(Titles(cs), last.name);
      if k < |cs| {
        TotalUpdate(cs, k, Collection(last.name, cs[k].triples + [TripleOf(last)]));
      } else {
        assert (cs + [Collection(last.name, [TripleOf(last)])])[..|cs|] == cs;
      }
    }
  }

  lemma {:induction false} TotalUpdate(cs: seq<Collection>, k: nat, c: Collection)
    requires k < |cs|
    ensures Total(cs[k := c]) == Total(cs) - |cs[k].triples| + |c.triples|
    decreases |cs|
  {
    var n := |cs| - 1;
    if k < n {
      assert cs[k := c][..n] == cs[..n][k := c];
      TotalUpdate(cs[..n], k, c);
    } else {
      assert cs[k := c][..n] == cs[..n];
    }
  }
}
