/** The body of `main` after the fetch in pages.py: group the releases, sort
    the collections by descending build and each collection's triples
    ascending, and emit the page. The page is the sequence of `print`
    arguments, except the head, whose one multi-line literal gives one element
    per line. A field holding a line break still sits inside one element. */
module Render {
  import opened Wrappers
  import opened Builds
  import opened Grouping
  import opened Html
  import opened Sorting

  /** The fixed head of the page, one element per line of the literal. */
  const Header: seq<string> := [
    "<!DOCTYPE html>",
    "<head>",
    "  <title>macOS Installer Archive</title>",
    "  <style>",
    ".collection + .collection {",
    "  margin-top: 1em;",
    "}",
    "",
    ".monospace {",
    "  font-family: monospace;",
    "}",
    "  </style>",
    "</head>",
    "<body>"
  ]

  const OpenCollection: string := "  <div class=\"collection\">"
  const CloseCollection: string := "  </div>"
  const OpenEntry: string := "    <div>"
  const CloseEntry: string := "    </div>"
  const CloseBody: string := "</body>"
  const CloseHtml: string := "</html>"

  const TitleOpen: string := "    <strong>"
  const TitleClose: string := "</strong>"
  const LinkOpen: string := "      <a class=\"monospace\" href=\""
  const LinkMiddle: string := "\">"
  const LinkClose: string := "</a>"
  const DateOpen: string := "      <span class=\"monospace\">"
  const DateClose: string := "</span>"

  function TitleLine(title: string): string {
    TitleOpen + Escape(title) + TitleClose
  }

  function LinkLine(t: Triple): string {
    LinkOpen + (Escape(t.url) + LinkMiddle + Escape(t.tag)) + LinkClose
  }

  function DateLine(t: Triple): string {
    DateOpen + Escape(t.date) + DateClose
  }

  /** The four `print` arguments of one triple, for every triple in turn. */
  function TripleLines(ts: seq<Triple>): (lines: seq<string>)
    ensures |lines| == 4 * |ts|
    decreases |ts|
  {
    if |ts| == 0 then []
    else [OpenEntry, LinkLine(ts[0]), DateLine(ts[0]), CloseEntry] + TripleLines(ts[1..])
  }

  /** One iteration of the outer loop, for the triples in the order given.
      The closing `</body>` and `</html>` are printed inside the loop, so
      every collection ends with them. */
  function CollectionLines(title: string, ts: seq<Triple>): seq<string> {
    [OpenCollection, TitleLine(title)]
    + TripleLines(ts)
    + [CloseCollection, CloseBody, CloseHtml]
  }

  /** The loop body sorts the triples of its collection first. */
  function Block(e: Entry): seq<string> {
    CollectionLines(e.title, SortTriples(e.triples))
  }

  function Blocks(es: seq<Entry>): seq<string>
    decreases |es|
  {
    if |es| == 0 then [] else Block(es[0]) + Blocks(es[1..])
  }

  /** The sort key of every collection, computed before sorting; `None` as
      soon as one title has no build, where Python raises. */
  function Keyed(cs: seq<Collection>): (r: Option<seq<Entry>>)
    ensures r.None? <==> exists k :: 0 <= k < |cs| && FromTitle(cs[k].title).None?
    ensures r.Some? ==> |r.value| == |cs|
    ensures r.Some? ==> forall k :: 0 <= k < |cs| ==>
      FromTitle(cs[k].title) == Some(r.value[k].build)
      && r.value[k].title == cs[k].title && r.value[k].triples == cs[k].triples
    decreases |cs|
  {
    if |cs| == 0 then Some([])
    else
      match FromTitle(cs[0].title)
      case None => None
      case Some(b) =>
        match Keyed(cs[1..])
        case None => None
        case Some(rest) => Some([Entry(b, cs[0].title, cs[0].triples)] + rest)
  }

  /** The whole output for a list of releases, or `None` when the program
      aborts on a title without a build. */
  function Page(rs: seq<Release>): Option<seq<string>> {
    match Keyed(Dedup(rs))
    case None => None
    case Some(es) => Some(Header + Blocks(SortByBuild(es)))
  }

  // ---------------------------------------------------------------------------
  // When the program aborts.

  /** The page is produced exactly when every release title carries a build. */
  lemma PageFailsOnBadTitle(rs: seq<Release>)
    ensures Page(rs).None? <==> exists i :: 0 <= i < |rs| && FromTitle(rs[i].name).None?
  {
    var cs := Dedup(rs);
    assert Page(rs).None? <==> Keyed(cs).None?;
    if i :| 0 <= i < |rs| && FromTitle(rs[i].name).None? {
      var k := CollectionOfRelease(rs, i);
      assert FromTitle(cs[k].title).None?;
    }
    if k :| 0 <= k < |cs| && FromTitle(cs[k].title).None? {
      var i := ReleaseOfCollection(rs, k);
      assert FromTitle(rs[i].name).None?;
    }
  }

  /** The collection a release was filed under. */
  lemma CollectionOfRelease(rs: seq<Release>, i: nat) returns (k: nat)
    requires i < |rs|
    ensures k < |Dedup(rs)| && Dedup(rs)[k].title == rs[i].name
  {
    var cs := Dedup(rs);
    DedupTitles(rs);
    assert rs[i].name == Names(rs)[i];
    assert rs[i].name in Titles(cs);
    k :| 0 <= k < |cs| && Titles(cs)[k] == rs[i].name;
  }

  /** A release filed under a collection. */
  lemma ReleaseOfCollection(rs: seq<Release>, k: nat) returns (i: nat)
    requires k < |Dedup(rs)|
    ensures i < |rs| && rs[i].name == Dedup(rs)[k].title
  {
    var cs := Dedup(rs);
    DedupTitles(rs);
    assert cs[k].title == Titles(cs)[k];
    assert cs[k].title in Names(rs);
    i :| 0 <= i < |rs| && Names(rs)[i] == cs[k].title;
  }

  // ---------------------------------------------------------------------------
  // The closing tags.

  function CountLine(lines: seq<string>, l: string): (n: nat)
    ensures n <= |lines|
    decreases |lines|
  {
    if |lines| == 0 then 0
    else (if lines[0] == l then 1 else 0) + CountLine(lines[1..], l)
  }

  lemma {:induction false} CountLineAppend(a: seq<string>, b: seq<string>, l: string)
    ensures CountLine(a + b, l) == CountLine(a, l) + CountLine(b, l)
    decreases |a|
  {
    if |a| > 0 {
      assert (a + b)[1..] == a[1..] + b;
      CountLineAppend(a[1..], b, l);
    } else {
      assert a + b == b;
    }
  }

  /** The `print` arguments of the triples never close the document: each
      starts with an indentation space. */
  lemma {:induction false} TripleLinesIndented(ts: seq<Triple>)
    ensures forall k :: 0 <= k < |TripleLines(ts)| ==>
      |TripleLines(ts)[k]| > 0 && TripleLines(ts)[k][0] == ' '
    decreases |ts|
  {
    if |ts| > 0 {
      TripleLinesIndented(ts[1..]);
      var head := [OpenEntry, LinkLine(ts[0]), DateLine(ts[0]), CloseEntry];
      assert LinkLine(ts[0])[0] == ' ' && DateLine(ts[0])[0] == ' ';
      assert TripleLines(ts) == head + TripleLines(ts[1..]);
    }
  }

  lemma CountIndented(lines: seq<string>, l: string)
    requires |l| > 0 && l[0] != ' '
    requires forall k :: 0 <= k < |lines| ==> |lines[k]| > 0 && lines[k][0] == ' '
    ensures CountLine(lines, l) == 0
  {
    CountAbsent(lines, l);
  }

  lemma {:induction false} CountAbsent(lines: seq<string>, l: string)
    requires forall k :: 0 <= k < |lines| ==> lines[k] != l
    ensures CountLine(lines, l) == 0
    decreases |lines|
  {
    if |lines| > 0 {
      CountAbsent(lines[1..], l);
    }
  }

  /** Every collection prints `</body>` and `</html>` exactly once. */
  lemma BlockClosesOnce(e: Entry, l: string)
    requires l == CloseBody || l == CloseHtml
    ensures CountLine(Block(e), l) == 1
  {
    var ts := TripleLines(SortTriples(e.triples));
    TripleLinesIndented(SortTriples(e.triples));
    CountIndented(ts, l);
    var head := [OpenCollection, TitleLine(e.title)];
    var tail := [CloseCollection, CloseBody, CloseHtml];
    assert TitleLine(e.title)[0] == ' ';
    CountIndented(head, l);
    CountLineAppend(head, ts, l);
    CountLineAppend(head + ts, tail, l);
    assert CloseBody != CloseHtml && CloseCollection != l;
    assert CountLine(tail, l) == 1 by {
      assert CloseBody[2] != CloseHtml[2];
      assert tail[1..] == [CloseBody, CloseHtml] && tail[2..] == [CloseHtml] && tail[3..] == [];
      assert CountLine(tail, l) == CountLine(tail[1..], l);
      assert CountLine(tail[1..], l) == (if CloseBody == l then 1 else 0) + CountLine(tail[2..], l);
      assert CountLine(tail[2..], l) == (if CloseHtml == l then 1 else 0);
    }
    assert Block(e) == head + ts + tail;
  }

  lemma {:induction false} BlocksCloseOnceEach(es: seq<Entry>, l: string)
    requires l == CloseBody || l == CloseHtml
    ensures CountLine(Blocks(es), l) == |es|
    decreases |es|
  {
    if |es| > 0 {
      BlocksCloseOnceEach(es[1..], l);
      BlockClosesOnce(es[0], l);
      CountLineAppend(Block(es[0]), Blocks(es[1..]), l);
    }
  }

  lemma HeaderHasNoClosers(l: string)
    requires l == CloseBody || l == CloseHtml
    ensures CountLine(Header, l) == 0
  {
    assert Header[0] != l && Header[1] != l && Header[2] != l && Header[3] != l;
    assert Header[4] != l && Header[5] != l && Header[6] != l && Header[7] != l;
    assert Header[8] != l && Header[9] != l && Header[10] != l && Header[11] != l;
    assert Header[12][3] == 'e' && Header[13] != l;
    CountAbsent(Header, l);
  }

  /** `</body>` and `</html>` appear once per collection: several times in a
      page with several collections, and not at all in a page without any. */
  lemma ClosingTagsPerCollection(rs: seq<Release>)
    requires Page(rs).Some?
    ensures CountLine(Page(rs).value, CloseBody) == |Dedup(rs)|
    ensures CountLine(Page(rs).value, CloseHtml) == |Dedup(rs)|
  {
    var es := Keyed(Dedup(rs)).value;
    var sorted := SortByBuild(es);
    assert |sorted| == |multiset(sorted)| == |multiset(es)| == |es|;
    assert Page(rs).value == Header + Blocks(sorted);
    PageClosesOnceEach(sorted, CloseBody);
    PageClosesOnceEach(sorted, CloseHtml);
  }

  lemma PageClosesOnceEach(sorted: seq<Entry>, l: string)
    requires l == CloseBody || l == CloseHtml
    ensures CountLine(Header + Blocks(sorted), l) == |sorted|
  {
    HeaderHasNoClosers(l);
    CountLineAppend(Header, Blocks(sorted), l);
    BlocksCloseOnceEach(sorted, l);
  }

  // ---------------------------------------------------------------------------
  // Reading the page back. A reader that knows the layout recovers every
  // collection from the sequence of `print` arguments: escaping keeps each
  // user field inside its slot, whatever characters the release metadata
  // holds.

  /** The middle of `line` when it is `pre + middle + post`. */
  function Between(line: string, pre: string, post: string): Option<string> {
    if |line| >= |pre| + |post| && line[..|pre|] == pre && line[|line| - |post|..] == post
    then Some(line[|pre|..|line| - |post|])
    else None
  }

  lemma BetweenOf(pre: string, middle: string, post: string)
    ensures Between(pre + middle + post, pre, post) == Some(middle)
  {
    var line := pre + middle + post;
    assert line[..|pre|] == pre;
    assert line[|line| - |post|..] == post;
    assert line[|pre|..|line| - |post|] == middle;
  }

  /** Index of the first `"` in `s`, or `|s|`. */
  function FirstQuote(s: string): (k: nat)
    ensures k <= |s|
    ensures k < |s| ==> s[k] == '"'
    ensures forall j :: 0 <= j < k ==> s[j] != '"'
    decreases |s|
  {
    if |s| == 0 then 0
    else if s[0] == '"' then 0
    else 1 + FirstQuote(s[1..])
  }

  lemma {:induction false} FirstQuoteAt(s: string, k: nat)
    requires k < |s| && s[k] == '"'
    requires forall j :: 0 <= j < k ==> s[j] != '"'
    ensures FirstQuote(s) == k
    decreases k
  {
    if k > 0 {
      FirstQuoteAt(s[1..], k - 1);
    }
  }

  /** The `(url, tag)` of an anchor line. */
  function ReadLink(line: string): Option<(string, string)> {
    match Between(line, LinkOpen, LinkClose)
    case None => None
    case Some(inner) =>
      var q := FirstQuote(inner);
      if q + 2 <= |inner| && inner[q..q + 2] == LinkMiddle
      then Some((Unescape(inner[..q]), Unescape(inner[q + 2..])))
      else None
  }

  /** The escaped url cannot hold `"`, so the first `"` ends it. */
  lemma ReadLinkLine(t: Triple)
    ensures ReadLink(LinkLine(t)) == Some((t.url, t.tag))
  {
    var u, g := Escape(t.url), Escape(t.tag);
    ReadLinkOf(u, g);
    UnescapeEscape(t.url);
    UnescapeEscape(t.tag);
  }

  lemma ReadLinkOf(u: string, g: string)
    requires forall k :: 0 <= k < |u| ==> u[k] != '"'
    ensures ReadLink(LinkOpen + (u + LinkMiddle + g) + LinkClose) == Some((Unescape(u), Unescape(g)))
  {
    var inner := u + LinkMiddle + g;
    BetweenOf(LinkOpen, inner, LinkClose);
    assert Between(LinkOpen + inner + LinkClose, LinkOpen, LinkClose) == Some(inner);
    LinkInner(u, g);
    FirstQuoteAt(inner, |u|);
    assert FirstQuote(inner) == |u|;
  }

  /** Where the pieces of the anchor's inside sit. */
  lemma LinkInner(u: string, g: string)
    ensures var inner := u + LinkMiddle + g;
      && inner[|u|] == '"'
      && (forall j :: 0 <= j < |u| ==> inner[j] == u[j])
      && inner[|u|..|u| + 2] == LinkMiddle
      && inner[..|u|] == u && inner[|u| + 2..] == g
  {
  }

  /** The text of a field line. */
  function ReadField(line: string, pre: string, post: string): Option<string> {
    match Between(line, pre, post)
    case None => None
    case Some(e) => Some(Unescape(e))
  }

  lemma ReadFieldLine(pre: string, s: string, post: string)
    ensures ReadField(pre + Escape(s) + post, pre, post) == Some(s)
  {
    BetweenOf(pre, Escape(s), post);
    UnescapeEscape(s);
  }

  /** Reads the triples that open `lines`; returns them and what follows. */
  function ReadTriples(lines: seq<string>): (r: Option<(seq<Triple>, seq<string>)>)
    ensures r.Some? ==> |r.value.1| <= |lines|
    decreases |lines|
  {
    if |lines| >= 4 && lines[0] == OpenEntry then
      match (ReadLink(lines[1]), ReadField(lines[2], DateOpen, DateClose))
      case (Some((url, tag)), Some(date)) =>
        if lines[3] == CloseEntry then
          match ReadTriples(lines[4..])
          case None => None
          case Some((ts, rest)) => Some(([Triple(date, tag, url)] + ts, rest))
        else None
      case _ => None
    else Some(([], lines))
  }

  /** Reads collection after collection to the end of `lines`. */
  function ReadBlocks(lines: seq<string>): Option<seq<Collection>>
    decreases |lines|
  {
    if |lines| == 0 then Some([])
    else if |lines| >= 2 && lines[0] == OpenCollection then
      match ReadField(lines[1], TitleOpen, TitleClose)
      case None => None
      case Some(title) =>
        match ReadTriples(lines[2..])
        case None => None
        case Some((ts, rest)) =>
          if |rest| >= 3 && rest[..3] == [CloseCollection, CloseBody, CloseHtml] then
            match ReadBlocks(rest[3..])
            case None => None
            case Some(cs) => Some([Collection(title, ts)] + cs)
          else None
    else None
  }

  function ReadPage(lines: seq<string>): Option<seq<Collection>> {
    if |lines| >= |Header| && lines[..|Header|] == Header
    then ReadBlocks(lines[|Header|..])
    else None
  }

  /** What the page shows of each entry: its title and its sorted triples. */
  function Shown(es: seq<Entry>): (cs: seq<Collection>)
    ensures |cs| == |es|
    ensures forall k :: 0 <= k < |es| ==> cs[k] == Collection(es[k].title, SortTriples(es[k].triples))
  {
    seq(|es|, k requires 0 <= k < |es| => Collection(es[k].title, SortTriples(es[k].triples)))
  }

  /** Reading one triple's four lines and then the rest. */
  lemma ReadTriplesStep(t: Triple, more: seq<string>, ts: seq<Triple>, rest: seq<string>)
    requires ReadTriples(more) == Some((ts, rest))
    ensures ReadTriples([OpenEntry, LinkLine(t), DateLine(t), CloseEntry] + more) == Some(([t] + ts, rest))
  {
    var lines := [OpenEntry, LinkLine(t), DateLine(t), CloseEntry] + more;
    assert lines[0] == OpenEntry && lines[1] == LinkLine(t) && lines[2] == DateLine(t);
    assert lines[3] == CloseEntry && lines[4..] == more;
    ReadLinkLine(t);
    ReadFieldLine(DateOpen, t.date, DateClose);
    assert ReadField(lines[2], DateOpen, DateClose) == Some(t.date);
  }

  lemma {:induction false} ReadTripleLines(ts: seq<Triple>, rest: seq<string>)
    requires |rest| == 0 || rest[0] != OpenEntry
    ensures ReadTriples(TripleLines(ts) + rest) == Some((ts, rest))
    decreases |ts|
  {
    if |ts| == 0 {
      ReadTriplesEnd(rest);
      assert TripleLines(ts) + rest == rest;
    } else {
      ReadTripleLines(ts[1..], rest);
      ReadTriplesCons(ts, rest);
    }
  }

  /** Reading stops at a line that does not open an entry. */
  lemma ReadTriplesEnd(rest: seq<string>)
    requires |rest| == 0 || rest[0] != OpenEntry
    ensures ReadTriples(rest) == Some(([], rest))
  {
  }

  lemma ReadTriplesCons(ts: seq<Triple>, rest: seq<string>)
    requires |ts| > 0
    requires ReadTriples(TripleLines(ts[1..]) + rest) == Some((ts[1..], rest))
    ensures ReadTriples(TripleLines(ts) + rest) == Some((ts, rest))
  {
    ReadTriplesStep(ts[0], TripleLines(ts[1..]) + rest, ts[1..], rest);
    TripleLinesCons(ts, rest);
    assert ts == [ts[0]] + ts[1..];
  }

  lemma TripleLinesCons(ts: seq<Triple>, rest: seq<string>)
    requires |ts| > 0
    ensures TripleLines(ts) + rest
      == [OpenEntry, LinkLine(ts[0]), DateLine(ts[0]), CloseEntry] + (TripleLines(ts[1..]) + rest)
  {
    var four, tail := [OpenEntry, LinkLine(ts[0]), DateLine(ts[0]), CloseEntry], TripleLines(ts[1..]);
    assert TripleLines(ts) == four + tail;
    ConcatAssoc(four, tail, rest);
  }

  lemma ConcatAssoc(a: seq<string>, b: seq<string>, c: seq<string>)
    ensures a + b + c == a + (b + c)
  {
  }

  lemma ReadBlocksUnfold(lines: seq<string>, title: string, ts: seq<Triple>, rest: seq<string>, cs: seq<Collection>)
    requires |lines| >= 2 && lines[0] == OpenCollection
    requires ReadField(lines[1], TitleOpen, TitleClose) == Some(title)
    requires ReadTriples(lines[2..]) == Some((ts, rest))
    requires |rest| >= 3 && rest[..3] == [CloseCollection, CloseBody, CloseHtml]
    requires ReadBlocks(rest[3..]) == Some(cs)
    ensures ReadBlocks(lines) == Some([Collection(title, ts)] + cs)
  {
  }

  lemma CollectionLinesLayout(title: string, ts: seq<Triple>, more: seq<string>)
    ensures var lines := CollectionLines(title, ts) + more;
      && |lines| >= 2 && lines[0] == OpenCollection && lines[1] == TitleLine(title)
      && lines[2..] == TripleLines(ts) + ([CloseCollection, CloseBody, CloseHtml] + more)
  {
    var lines := CollectionLines(title, ts) + more;
    assert lines == [OpenCollection, TitleLine(title)] + (TripleLines(ts) + ([CloseCollection, CloseBody, CloseHtml] + more));
  }

  lemma ReadTriplesBeforeClose(ts: seq<Triple>, more: seq<string>)
    ensures var rest := [CloseCollection, CloseBody, CloseHtml] + more;
      && ReadTriples(TripleLines(ts) + rest) == Some((ts, rest))
      && |rest| >= 3 && rest[..3] == [CloseCollection, CloseBody, CloseHtml] && rest[3..] == more
  {
    var rest := [CloseCollection, CloseBody, CloseHtml] + more;
    assert rest[0][2] != OpenEntry[2];
    ReadTripleLines(ts, rest);
  }

  /** Reading one collection's lines and then the rest. */
  lemma ReadBlocksStep(title: string, ts: seq<Triple>, more: seq<string>, cs: seq<Collection>)
    requires ReadBlocks(more) == Some(cs)
    ensures ReadBlocks(CollectionLines(title, ts) + more) == Some([Collection(title, ts)] + cs)
  {
    var rest := [CloseCollection, CloseBody, CloseHtml] + more;
    CollectionLinesLayout(title, ts, more);
    ReadFieldLine(TitleOpen, title, TitleClose);
    ReadTriplesBeforeClose(ts, more);
    ReadBlocksUnfold(CollectionLines(title, ts) + more, title, ts, rest, cs);
  }

  lemma {:induction false} ReadBlocksOf(es: seq<Entry>)
    ensures ReadBlocks(Blocks(es)) == Some(Shown(es))
    decreases |es|
  {
    if |es| > 0 {
      ReadBlocksOf(es[1..]);
      ReadBlocksStep(es[0].title, SortTriples(es[0].triples), Blocks(es[1..]), Shown(es[1..]));
      assert Blocks(es) == CollectionLines(es[0].title, SortTriples(es[0].triples)) + Blocks(es[1..]);
      ShownCons(es);
    } else {
      assert Shown(es) == [];
    }
  }

  lemma ShownCons(es: seq<Entry>)
    requires |es| > 0
    ensures Shown(es) == [Collection(es[0].title, SortTriples(es[0].triples))] + Shown(es[1..])
  {
    var a, b := Shown(es), [Collection(es[0].title, SortTriples(es[0].triples))] + Shown(es[1..]);
    assert |a| == |b|;
    forall k | 0 <= k < |a|
      ensures a[k] == b[k]
    {
      if k > 0 {
        assert b[k] == Shown(es[1..])[k - 1];
      }
    }
  }

  /** The printed page reads back as the sorted collections it was made from. */
  lemma ReadPageOf(es: seq<Entry>)
    ensures ReadPage(Header + Blocks(es)) == Some(Shown(es))
  {
    var lines := Header + Blocks(es);
    assert lines[..|Header|] == Header && lines[|Header|..] == Blocks(es);
    ReadBlocksOf(es);
  }

  // ---------------------------------------------------------------------------
  // The page as a whole.

  /** `x`'s collection may be printed before `y`'s: both titles carry a build
      and `x`'s is not the lower one. */
  predicate PrintedBefore(x: string, y: string) {
    && FromTitle(x).Some? && FromTitle(y).Some?
    && !BuildLess(FromTitle(x).value, FromTitle(y).value)
  }

  /** Every entry of the sorted list is one of the keyed collections. */
  lemma SortedEntryOrigin(es: seq<Entry>, k: nat) returns (j: nat)
    requires k < |SortByBuild(es)|
    ensures j < |es| && SortByBuild(es)[k] == es[j]
  {
    assert SortByBuild(es)[k] in multiset(es);
    var i :| 0 <= i < |es| && es[i] == SortByBuild(es)[k];
    j := i;
  }

  /** The collections the page reads back as. */
  lemma PageShows(rs: seq<Release>)
    requires Page(rs).Some?
    ensures ReadPage(Page(rs).value) == Some(Shown(SortByBuild(Keyed(Dedup(rs)).value)))
    ensures |Shown(SortByBuild(Keyed(Dedup(rs)).value))| == |Dedup(rs)|
  {
    var es := Keyed(Dedup(rs)).value;
    ReadPageOf(SortByBuild(es));
    assert |SortByBuild(es)| == |multiset(SortByBuild(es))| == |multiset(es)| == |es|;
  }

  /** Each shown collection is one of `dedup`'s, carried over unchanged apart
      from the order of its triples. */
  lemma ShownOrigin(rs: seq<Release>, k: nat) returns (j: nat)
    requires Page(rs).Some?
    requires k < |Shown(SortByBuild(Keyed(Dedup(rs)).value))|
    ensures j < |Dedup(rs)|
    ensures var shown := Shown(SortByBuild(Keyed(Dedup(rs)).value));
      && shown[k].title == Dedup(rs)[j].title
      && shown[k].triples == SortTriples(Dedup(rs)[j].triples)
      && FromTitle(shown[k].title) == Some(SortByBuild(Keyed(Dedup(rs)).value)[k].build)
  {
    var es := Keyed(Dedup(rs)).value;
    j := SortedEntryOrigin(es, k);
  }

  /** The page shows each distinct release title, and nothing else. */
  lemma PageTitles(rs: seq<Release>)
    requires Page(rs).Some?
    ensures ReadPage(Page(rs).value).Some?
    ensures var shown := ReadPage(Page(rs).value).value;
      && |shown| == |Dedup(rs)|
      && forall n :: n in Titles(shown) <==> n in Names(rs)
  {
    PageShows(rs);
    var shown := Shown(SortByBuild(Keyed(Dedup(rs)).value));
    forall n | n in Names(rs)
      ensures n in Titles(shown)
    {
      NameShown(rs, n);
    }
    forall n | n in Titles(shown)
      ensures n in Names(rs)
    {
      var k :| 0 <= k < |shown| && Titles(shown)[k] == n;
      ShownName(rs, k);
    }
  }

  lemma NameShown(rs: seq<Release>, n: string)
    requires Page(rs).Some? && n in Names(rs)
    ensures n in Titles(Shown(SortByBuild(Keyed(Dedup(rs)).value)))
  {
    DedupTitles(rs);
    var cs := Dedup(rs);
    assert n in Titles(cs);
    var j :| 0 <= j < |cs| && Titles(cs)[j] == n;
    var es := Keyed(cs).value;
    var k := SortedHasEntry(es, j);
    assert Titles(Shown(SortByBuild(es)))[k] == n;
  }

  /** Every keyed collection is somewhere in the sorted list. */
  lemma SortedHasEntry(es: seq<Entry>, j: nat) returns (k: nat)
    requires j < |es|
    ensures k < |SortByBuild(es)| && SortByBuild(es)[k] == es[j]
  {
    assert es[j] in multiset(SortByBuild(es));
    var i :| 0 <= i < |SortByBuild(es)| && SortByBuild(es)[i] == es[j];
    k := i;
  }

  lemma ShownName(rs: seq<Release>, k: nat)
    requires Page(rs).Some? && k < |Shown(SortByBuild(Keyed(Dedup(rs)).value))|
    ensures Shown(SortByBuild(Keyed(Dedup(rs)).value))[k].title in Names(rs)
  {
    DedupTitles(rs);
    var j := ShownOrigin(rs, k);
    assert Titles(Dedup(rs))[j] == Dedup(rs)[j].title;
  }

  /** Under each title the page lists the triples of exactly the releases of
      that title, sorted ascending. */
  lemma PageContents(rs: seq<Release>)
    requires Page(rs).Some?
    ensures ReadPage(Page(rs).value).Some?
    ensures var shown := ReadPage(Page(rs).value).value;
      forall k :: 0 <= k < |shown| ==> shown[k].triples == SortTriples(Select(rs, shown[k].title))
  {
    PageShows(rs);
    DedupContents(rs);
    var shown := Shown(SortByBuild(Keyed(Dedup(rs)).value));
    forall k | 0 <= k < |shown|
      ensures shown[k].triples == SortTriples(Select(rs, shown[k].title))
    {
      var j := ShownOrigin(rs, k);
    }
  }

  /** Collections are printed by non-increasing build of their titles. */
  lemma PageOrder(rs: seq<Release>)
    requires Page(rs).Some?
    ensures ReadPage(Page(rs).value).Some?
    ensures var shown := ReadPage(Page(rs).value).value;
      forall i, j :: 0 <= i < j < |shown| ==> PrintedBefore(shown[i].title, shown[j].title)
  {
    PageShows(rs);
    var sorted := SortByBuild(Keyed(Dedup(rs)).value);
    var shown := Shown(sorted);
    forall k | 0 <= k < |shown|
      ensures FromTitle(shown[k].title) == Some(sorted[k].build)
    {
      var j := ShownOrigin(rs, k);
    }
  }

  /** Collections whose titles carry equal builds keep the order in which
      their titles first appear among the releases: Python's sort is stable
      even with `reverse=True`. */
  lemma PageTies(rs: seq<Release>)
    requires Page(rs).Some?
    ensures ReadPage(Page(rs).value).Some?
    ensures var shown := ReadPage(Page(rs).value).value;
      forall i, j :: 0 <= i < j < |shown| && FromTitle(shown[i].title) == FromTitle(shown[j].title) ==>
        FirstIndex(Names(rs), shown[i].title) < FirstIndex(Names(rs), shown[j].title)
  {
    PageShows(rs);
    var cs := Dedup(rs);
    var es := Keyed(cs).value;
    var sorted := SortByBuild(es);
    var shown := Shown(sorted);
    forall i, j | 0 <= i < j < |shown| && FromTitle(shown[i].title) == FromTitle(shown[j].title)
      ensures FirstIndex(Names(rs), shown[i].title) < FirstIndex(Names(rs), shown[j].title)
    {
      var _ := ShownOrigin(rs, i);
      var _ := ShownOrigin(rs, j);
      var qi, qj := SortByBuildKeepsTies(es, i, j);
      DedupFirstSeenOrder(rs);
      assert shown[i].title == cs[qi].title && shown[j].title == cs[qj].title;
    }
  }

  // ---------------------------------------------------------------------------
  // No markup from the releases. Every field reaches the page through
  // `html.escape`, so a title such as `<script>` is shown as text: the only
  // `<`, `>`, `"` and `'` of the page are those of its fixed markup.

  /** A field slot as printed: none of `<`, `>`, `"` or `'` appears raw. */
  predicate NoMarkup(s: string) {
    forall k :: 0 <= k < |s| ==> s[k] != '<' && s[k] != '>' && s[k] != '"' && s[k] != '\''
  }

  /** `line` is `pre + slot + post` with a slot free of markup. */
  predicate SlotFree(line: string, pre: string, post: string) {
    match Between(line, pre, post)
    case Some(slot) => NoMarkup(slot)
    case None => false
  }

  /** `line` is the anchor with a url slot and a tag slot free of markup. */
  predicate LinkFree(line: string) {
    match Between(line, LinkOpen, LinkClose)
    case None => false
    case Some(inner) =>
      var q := FirstQuote(inner);
      && q + 2 <= |inner| && inner[q..q + 2] == LinkMiddle
      && NoMarkup(inner[..q]) && NoMarkup(inner[q + 2..])
  }

  /** Every `<`, `>`, `"` and `'` of the argument belongs to the page's own
      markup: the argument is fixed text, or its user slots hold none. */
  predicate TemplateOnly(line: string) {
    || line in Header
    || line in [OpenCollection, CloseCollection, OpenEntry, CloseEntry, CloseBody, CloseHtml]
    || SlotFree(line, TitleOpen, TitleClose)
    || SlotFree(line, DateOpen, DateClose)
    || LinkFree(line)
  }

  predicate AllTemplateOnly(lines: seq<string>) {
    forall k :: 0 <= k < |lines| ==> TemplateOnly(lines[k])
  }

  lemma AllTemplateOnlyAppend(a: seq<string>, b: seq<string>)
    requires AllTemplateOnly(a) && AllTemplateOnly(b)
    ensures AllTemplateOnly(a + b)
  {
    forall k | 0 <= k < |a + b|
      ensures TemplateOnly((a + b)[k])
    {
      if k < |a| {
        assert (a + b)[k] == a[k];
      } else {
        assert (a + b)[k] == b[k - |a|];
      }
    }
  }

  /** The title argument holds no raw markup between `<strong>` and `</strong>`. */
  lemma TitleLineNoMarkup(title: string)
    ensures SlotFree(TitleLine(title), TitleOpen, TitleClose)
  {
    BetweenOf(TitleOpen, Escape(title), TitleClose);
  }

  /** The date argument holds no raw markup inside its `<span>`. */
  lemma DateLineNoMarkup(t: Triple)
    ensures SlotFree(DateLine(t), DateOpen, DateClose)
  {
    BetweenOf(DateOpen, Escape(t.date), DateClose);
  }

  /** The anchor argument holds no raw markup in its url or its tag: the url
      cannot close the `href` attribute and the tag cannot open an element. */
  lemma LinkLineNoMarkup(t: Triple)
    ensures LinkFree(LinkLine(t))
  {
    var u, g := Escape(t.url), Escape(t.tag);
    var inner := u + LinkMiddle + g;
    BetweenOf(LinkOpen, inner, LinkClose);
    assert Between(LinkLine(t), LinkOpen, LinkClose) == Some(inner);
    LinkInner(u, g);
    FirstQuoteAt(inner, |u|);
  }

  lemma {:induction false} TripleLinesNoMarkup(ts: seq<Triple>)
    ensures AllTemplateOnly(TripleLines(ts))
    decreases |ts|
  {
    if |ts| > 0 {
      TripleLinesNoMarkup(ts[1..]);
      LinkLineNoMarkup(ts[0]);
      DateLineNoMarkup(ts[0]);
      var head := [OpenEntry, LinkLine(ts[0]), DateLine(ts[0]), CloseEntry];
      assert TemplateOnly(head[0]) && TemplateOnly(head[3]);
      assert AllTemplateOnly(head);
      AllTemplateOnlyAppend(head, TripleLines(ts[1..]));
    }
  }

  lemma BlockNoMarkup(e: Entry)
    ensures AllTemplateOnly(Block(e))
  {
    var head := [OpenCollection, TitleLine(e.title)];
    var tail := [CloseCollection, CloseBody, CloseHtml];
    TitleLineNoMarkup(e.title);
    assert TemplateOnly(head[0]);
    assert AllTemplateOnly(head);
    assert AllTemplateOnly(tail);
    TripleLinesNoMarkup(SortTriples(e.triples));
    AllTemplateOnlyAppend(head, TripleLines(SortTriples(e.triples)));
    AllTemplateOnlyAppend(head + TripleLines(SortTriples(e.triples)), tail);
  }

  lemma {:induction false} BlocksNoMarkup(es: seq<Entry>)
    ensures AllTemplateOnly(Blocks(es))
    decreases |es|
  {
    if |es| > 0 {
      BlockNoMarkup(es[0]);
      BlocksNoMarkup(es[1..]);
      AllTemplateOnlyAppend(Block(es[0]), Blocks(es[1..]));
    }
  }

  /** Whatever the release metadata holds, no `print` argument of the page
      carries raw markup outside the page's own fixed text. */
  lemma PageNoRawMarkup(rs: seq<Release>)
    ensures Page(rs).Some? ==> AllTemplateOnly(Page(rs).value)
  {
    if Page(rs).Some? {
      var sorted := SortByBuild(Keyed(Dedup(rs)).value);
      assert Page(rs).value == Header + Blocks(sorted);
      assert AllTemplateOnly(Header);
      BlocksNoMarkup(sorted);
      AllTemplateOnlyAppend(Header, Blocks(sorted));
    }
  }
}
