# macOS installer archive page — a Dafny model of pages.py

`pages.py` fetches the GitHub releases of an archive of macOS installers and
prints one HTML page that lists them. This project models the pure part of
that pipeline:

- **Titles and builds.** `Build.from_title` finds the leftmost
  `(<digits><A-Z><digits>[a-z])` group in a release title and turns it into
  the tuple `(major, minor, beta, seq)`. Tuples are compared
  lexicographically, and `beta` (27 when there is no lowercase letter) is
  compared before `seq`.
- **Grouping.** `dedup` groups the release records by their exact `name`.
  Each record becomes a `(date, tag, url)` triple. The date is the body with
  backticks stripped from both ends, or `""` when there is no body.
- **Rendering.** The part of `main` after the fetch:
  - it sorts the collections by descending build;
  - Python's sort is stable, so collections with equal builds keep their
    first-seen order;
  - it sorts each collection's triples ascending;
  - it prints every user field through `html.escape`;
  - it closes `</body>` and `</html>` inside the per-collection loop.

Modules:

- `Wrappers`: `Option`.
- `PyStrings`: Python's `str` ordering, proved equal to the textbook
  lexicographic order.
- `Builds`: the regular-expression search, `Build.from_title` and the tuple
  order.
- `Grouping`: `str.strip('`')`, and `dedup` as an ordered association list.
- `Html`: `html.escape(s, quote=True)`, and a decoder for its five entities, used to show that escaping loses nothing.
- `Sorting`: the triple sort, and the stable descending sort by build.
- `Render`: the sequence of `print` arguments, and a reader that parses them back.
- `Scenarios`: small worked cases.

The page is modelled as the sequence of `print` arguments; the head, one
multi-line literal, is given line by line. `Page`
returns `None` where the program raises: a title with no build group makes
`re.search(...)` return `None`, and `.groups()` then fails.

## Model

| member | source | states |
|---|---|---|
| Builds.BuildLess | pages.py:9-13 | `<` on the `NamedTuple`: the four fields compared in declaration order, major, minor, beta, seq. No ensures of its own; `Builds.BuildLessIrreflexive`, `Builds.BuildLessTransitive`, `Builds.BuildLessConnected` and `Builds.BetaBeforeSequence` state what it is. |
| Builds.BuildLessIrreflexive | pages.py:9-13 | No tuple is below itself. |
| Builds.DecimalValue | pages.py:18-20 | `int()` of a run of ASCII digits, read in base 10; the value is never negative. No ensures beyond that. `Builds.DecimalValueDigit` and `Builds.DecimalValueAppend` together fix its value on every digit run. `Builds.DecimalValueBelow` bounds it, and `Builds.LeadingZero` shows that leading zeros do not count. |
| Builds.DecimalValueDigit | pages.py:18-20 | A single digit is worth its distance from `0`, a number from 0 to 9. |
| Builds.DecimalValueAppend | pages.py:18-20 | Positional notation: the digits of `a` followed by those of `b` are worth `a` times `10` to the power of the length of `b`, plus `b`. This holds for every split of every digit run. |
| Builds.DecimalValueBelow | pages.py:18-20 | A run of `n` digits is worth less than `10` to the power `n`. |
| Builds.FromTitle | pages.py:15-22 | No result exactly when the title holds no group. Otherwise the result is the tuple of the leftmost group. `major` and `sequence` are at least 0 and `minor` is in 0..25. |
| Builds.ToBuild | pages.py:18-22 | `minor` is the rank of the uppercase letter, in 0..25. `beta` is in 1..26 when a lowercase letter is present. `beta` is 27 exactly when the letter is absent. `Builds.MinorFollowsLetter`, `Builds.BetaFollowsLetter` and `Builds.LongerMajorIsLater` tie the field values to the letters and digits of the title. |
| Builds.Search | pages.py:17 | `re.search` from an index on: a reported match really occurs there, and no match starts earlier. `None` means no match at or after the index. |
| Builds.MatchAt | pages.py:17 | Whatever the scanner reports at an index is an occurrence of the pattern there. |
| Builds.MatchAtExact | pages.py:17 | The scanner is exact: a group occurs at an index if and only if the scanner reports that group there. |
| Builds.FromTitleFirstGroup | pages.py:17-22 | A title made of a prefix with no group, then a group, then anything at all, yields that group's tuple. Whatever follows the first group does not matter. |
| Builds.LeadingZero | pages.py:18-20 | `int()` ignores leading zeros: a `0` before a digit run does not change its value. |
| Builds.ExampleLeadingZero | pages.py:15-22 | `macOS (10B05)` gives `(10, 1, 27, 5)`: the `05` reads as 5. |
| Builds.BuildLessTransitive | pages.py:9-13 | The tuple order is transitive. |
| Builds.BuildLessConnected | pages.py:9-13 | Any two tuples are equal or one is below the other. |
| Builds.BetaBeforeSequence | pages.py:9-13 | With the same major and minor, any beta build sorts below the final build, whatever the two sequence numbers are. This holds because `beta` comes before `seq` in the tuple. |
| Builds.MinorFollowsLetter | pages.py:9-22 | `ord(minor) - ord('A')` follows alphabetical order. One group's minor field is below another's exactly when its letter is earlier, and the fields are equal exactly when the letters are. With equal major numbers, the earlier letter is the lower build. |
| Builds.BetaFollowsLetter | pages.py:9-22 | `ord(beta) - ord('a') + 1` follows alphabetical order in the same way. With equal major and minor, the earlier beta letter is the lower build. |
| Builds.LongerMajorIsLater | pages.py:9-22 | A major number with more digits, and no leading zero, is the higher build, whatever the other fields are. |
| Builds.ExampleFinal | pages.py:15-22 | `macOS 14.1 (23B74)` gives `(23, 1, 27, 74)`. |
| Builds.ExampleBeta | pages.py:15-22 | `macOS (123A45b)` gives `(123, 0, 2, 45)`. |
| Builds.ExampleFinalAboveLaterBeta | pages.py:9-22 | `(23B74)` sorts above `(23B80a)`. |
| Builds.ExampleNoMatch | pages.py:17 | A lowercase minor letter, as in `(23b74)`, gives no match. |
| PyStrings.StrLess | pages.py:75 | `a < b` on Python strings, compared character by character. No ensures of its own; `PyStrings.StrLessIsLexLess` proves it equal to the prefix-or-first-difference definition, and the next rows give its order laws. |
| PyStrings.StrLessIrreflexive | pages.py:75 | No string is below itself. |
| PyStrings.StrLessIsLexLess | pages.py:75 | Python's `str` comparison is the lexicographic order: a proper prefix, or the first differing character is smaller. |
| PyStrings.StrLessTransitive | pages.py:75 | The string order is transitive. |
| PyStrings.StrLessConnected | pages.py:75 | Any two strings are equal or ordered one way or the other. |
| Grouping.StripTicks | pages.py:41 | The result neither starts nor ends with a backtick. It sits in the body with only backticks around it. |
| Grouping.StripTicksUnique | pages.py:41 | Any string framed only by backticks in the body, and not itself starting or ending with one, is the strip result. |
| Grouping.StripTicksIdempotent | pages.py:41 | Stripping twice gives the same as stripping once. |
| Grouping.ExampleStripKeepsSpaces | pages.py:41 | A body of two backticks, then `" 2023-10-02 "`, then one backtick, becomes `" 2023-10-02 "`. Only backticks go and the spaces stay. |
| Grouping.TripleOf | pages.py:40-43 | The triple appended for one record: the body stripped of backticks, or `""` for a missing body, then the tag and the url. No ensures of its own; `Grouping.StripTicks` states the stripping and `Scenarios.ExampleTriple` a worked record. |
| Grouping.Add | pages.py:40 | One `collections.setdefault(name, []).append(t)` on the dict kept as an association list. No ensures of its own; `Grouping.AddEffect` and `Grouping.AddKeepsOrder` state its effect. |
| Grouping.AddEffect | pages.py:40 | When the name is already a key, the keys stay the same, that key's list gains `t` at its end, and every other entry is unchanged. When it is not, a new key holding `[t]` is added last. |
| Grouping.Dedup | pages.py:37-45 | `dedup(releases)`: the dict as an association list, built by `Add` record by record. No ensures of its own; `Grouping.DedupTitles`, `Grouping.DedupContents`, `Grouping.DedupFirstSeenOrder` and `Grouping.DedupTotal` state what it is. |
| Grouping.DedupTitles | pages.py:37-45 | The titles of `dedup` are pairwise distinct. A string is a title exactly when some record has that name, compared exactly. |
| Grouping.DedupContents | pages.py:39-44 | Each collection holds exactly the triples of the records with its name, in input order. |
| Grouping.DedupFirstSeenOrder | pages.py:38-40 | Collections appear in the order of the first record of each name. |
| Grouping.AddKeepsOrder | pages.py:40 | One `setdefault(...).append(...)` keeps the collections in first-seen order. |
| Grouping.DedupTotal | pages.py:37-45 | The collections hold as many triples as there were records. |
| Grouping.SelectAbsent | pages.py:40 | A name no record carries has no triples. |
| Html.EscapeChar | pages.py:74-78 | The replacement of one character by `html.escape(s, quote=True)`: `&`, `<`, `>`, `"` and `'` become their entities and any other character stays. The replacement is never empty; `Html.UnescapeEscape` shows it is undone by the decoder. |
| Html.Escape | pages.py:74-78 | Escaping never shortens a field. It leaves no `<`, `>`, `"` or `'` in it. |
| Html.UnescapeEscape | pages.py:74-78 | Decoding the five entities recovers the field, so escaping loses nothing. |
| Html.EscapeInjective | pages.py:74-78 | Distinct fields are printed as distinct text. |
| Html.EscapePlain | pages.py:74-78 | Text without any of the five special characters is printed as it is. |
| Html.ExampleBoldTag | pages.py:74 | `<b>` is printed as `&lt;b&gt;`. |
| Sorting.TripleLess | pages.py:75 | `<` on `(date, tag, url)` tuples of strings: by date, then tag, then url. No ensures of its own; `Sorting.TripleLessIrreflexive`, `Sorting.TripleLessTransitive` and `Sorting.TripleLessConnected` make it a strict total order. |
| Sorting.TripleLessIrreflexive | pages.py:75 | No triple is below itself. |
| Sorting.TripleLessTransitive | pages.py:75 | The triple order is transitive. |
| Sorting.TripleLessConnected | pages.py:75 | Any two triples are equal or ordered one way or the other. |
| Sorting.SortTriples | pages.py:75 | `sorted(releases)`: the result is ascending by `(date, tag, url)` and is a permutation of the input. |
| Sorting.SortedTriplesUnique | pages.py:75 | Two ascending permutations of the same triples are equal, so the result does not depend on the sorting algorithm. |
| Sorting.InsertTriple | pages.py:75 | Inserting into an ascending list keeps it ascending and adds exactly the one triple. |
| Sorting.SortByBuild | pages.py:52-55 | `sorted(..., key=Build, reverse=True)`: builds never increase, the result is a permutation, and the entries of each build keep their input order. |
| Sorting.InsertEntry | pages.py:52-55 | Inserting an entry behind every entry whose build is not lower keeps the order descending and stable. |
| Sorting.StableOrderUnique | pages.py:52-55 | Two descending orders that keep each build's entries in the same order are equal. So Python's stable sort gives exactly `SortByBuild`. |
| Sorting.SortByBuildKeepsTies | pages.py:52-55 | Two sorted entries with the same build come from input positions in the same order. |
| Render.Page | pages.py:52-82 | `main` after the fetch: `None` where the program raises, otherwise the head (the `Header` constant, one element per line of the literal at pages.py:57-71) followed by one block per collection in `SortByBuild` order. No ensures of its own; `Render.PageFailsOnBadTitle`, `Render.ReadPageOf`, `Render.PageTitles`, `Render.PageContents`, `Render.PageOrder`, `Render.PageTies`, `Render.ClosingTagsPerCollection`, `Render.PageNoRawMarkup` and `Scenarios.ExampleNoReleases` state what it is. |
| Render.Blocks | pages.py:72-82 | The outer loop: one block per sorted entry, in order. No ensures of its own; `Render.ReadPageOf` and `Render.ClosingTagsPerCollection` state it. |
| Render.Block | pages.py:72-82 | One iteration of the outer loop, whose triples are sorted first as at pages.py:75. No ensures of its own; `Render.BlockClosesOnce` and `Render.ReadPageOf` state it. |
| Render.CollectionLines | pages.py:73-82 | The `print` arguments of one collection: the opening `div`, the title, four arguments per triple, then `</div>`, `</body>` and `</html>`. No ensures of its own; `Render.BlockClosesOnce` and `Render.ReadPageOf` state it. |
| Render.TitleLine | pages.py:74 | The `<strong>` argument holding the escaped title. No ensures of its own. `Render.ReadFieldLine` gives the title back from it, and `Render.TitleLineNoMarkup` shows the title slot holds no raw markup. |
| Render.LinkLine | pages.py:77 | The anchor argument holding the escaped url and tag. No ensures of its own. `Render.ReadLinkLine` gives both back from it, and `Render.LinkLineNoMarkup` shows neither slot holds raw markup. |
| Render.DateLine | pages.py:78 | The `<span>` argument holding the escaped date. No ensures of its own. `Render.ReadFieldLine` gives the date back from it, and `Render.DateLineNoMarkup` shows the date slot holds no raw markup. |
| Render.TripleLines | pages.py:75-79 | The inner loop: four `print` arguments per triple, so four times as many arguments as triples. `Render.ReadTripleLines` reads the triples back from them, and `Render.TripleLinesIndented` shows none of them is a closing `</body>` or `</html>`. |
| Render.TitleLineNoMarkup | pages.py:74 | Between `<strong>` and `</strong>` the title argument holds no raw `<`, `>`, `"` or `'`. |
| Render.LinkLineNoMarkup | pages.py:77 | Neither the url slot nor the tag slot of the anchor holds a raw `<`, `>`, `"` or `'`. So the url cannot close the `href` attribute and the tag cannot open an element. |
| Render.DateLineNoMarkup | pages.py:78 | Inside the `<span>` the date argument holds no raw `<`, `>`, `"` or `'`. |
| Render.TripleLinesNoMarkup | pages.py:75-79 | Every argument of the inner loop is fixed text or has markup-free user slots. |
| Render.BlockNoMarkup | pages.py:72-82 | Every argument of one collection is fixed text or has markup-free user slots. |
| Render.PageNoRawMarkup | pages.py:52-82 | Whatever the release metadata holds, every `print` argument of the page is fixed text or has user slots with no raw `<`, `>`, `"` or `'`. So a title such as `<script>` is shown as text, never as markup. |
| Render.Keyed | pages.py:52-53 | The key is computed for every collection. No result exactly when some title has no build. Otherwise each entry carries its collection's title, triples and build. |
| Render.PageFailsOnBadTitle | pages.py:52-55 | The page is produced exactly when every release title carries a build. |
| Render.ClosingTagsPerCollection | pages.py:72-82 | `</body>` and `</html>` are each printed once per collection, so never when there are no collections. |
| Render.BlockClosesOnce | pages.py:72-82 | One collection's lines hold one `</body>` and one `</html>`. |
| Render.ReadPageOf | pages.py:57-82 | The sequence of `print` arguments reads back as the head followed by, for each sorted collection, its title and its triples in sorted order. |
| Render.ReadLinkLine | pages.py:77 | The anchor line gives back its url and tag. The escaped url has no `"`, so the first `"` ends it. |
| Render.ReadFieldLine | pages.py:74-78 | A title or date line gives back the field. |
| Render.PageTitles | pages.py:52-82 | The page shows one collection per distinct release name, and shows no other titles. |
| Render.PageContents | pages.py:72-79 | Under each title the page lists the triples of exactly the releases with that name, sorted ascending. |
| Render.PageOrder | pages.py:52-55 | Collections are printed by non-increasing build of their titles. |
| Render.PageTies | pages.py:52-55 | Collections whose titles carry equal builds are printed in the order their names first appear among the releases. |
| Scenarios.ExampleNoReleases | pages.py:57-82 | With no releases the page is the head alone. |
| Scenarios.SharedTitle | pages.py:37-45 | Two releases with the same name form one collection, holding their triples in input order. |
| Scenarios.ExampleTriple | pages.py:40-43 | A record whose body is a date wrapped in single backticks gives the triple of that date, its tag and its url. |
| Scenarios.SortTwo | pages.py:75 | Two triples out of order are swapped by the sort. |
| Scenarios.ExampleSharedTitle | pages.py:37-75 | Releases listed newest first, with backticked dates, end up as one collection whose triples are ordered by date. |
| Scenarios.ExampleSpacedDateFirst | pages.py:75 | A date kept with surrounding spaces, `" 2023-10-02 "`, sorts before `"2023-10-01"`. |

## Left out

- **`get_releases`** (pages.py:24-35): the HTTP requests, the `Link`-header pagination and the status assertion. The release list is an input `seq<Release>`.
- **Reading `GITHUB_TOKEN`** (pages.py:50): the process environment is not part of this model.
- **JSON decoding of the API responses**: a `Release` holds only the four fields the program reads. `name` is a string, so a JSON `null` name is left out; in Python it would make `from_title` raise.
- Builds.ToBuild: Python's default limit on `int()` string conversion is not modelled. Since CPython 3.11 (and the 3.7-3.10 security releases) `int()` of a decimal string longer than 4300 digits raises `ValueError`, so the program would abort; the model gives the value, and `Builds.FromTitle` and `Render.Page` a result.
- **Non-ASCII digits**: Python's `\d` and `int()` also accept other Unicode decimal digits. Only ASCII `0`-`9` is modelled.
- **`print`**: printing is modelled as the returned sequence of `print` arguments. The multi-line head literal is one element per line, and the final newline of each `print` is implied.
- **Line breaks inside fields**: `html.escape` keeps `\n` and `\r`, so a title, url, tag or date holding one is printed over several output lines. The model keeps such a field inside one element and does not split the printed text at line breaks.
- **Module-level entry point** (pages.py:84-85): not modelled.
- **Html.Unescape**: this is not Python's `html.unescape`. It decodes exactly the five entities `html.escape` produces, and is used only to show that escaping loses nothing.
- **Python's Timsort**: not modelled step by step. Insertion sorts are used instead. `Sorting.SortedTriplesUnique` and `Sorting.StableOrderUnique` show that any sort meeting the same promises gives the same result.
- **A whole page for concrete releases**: not computed. The page-level properties are stated for all inputs instead.

The program prints `</body>` and `</html>` inside the loop over collections. A page with several collections therefore holds several of each, and a page with none holds neither. The model reproduces this as written; `Render.ClosingTagsPerCollection` states it.
