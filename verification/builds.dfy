/** The build identifier of a release title (`Build` and `Build.from_title` in
    pages.py): the leftmost `(<digits><A-Z><digits>[a-z])` group of the title,
    read as the tuple `(major, minor, beta, seq)` and compared field by field. */
module Builds {
  import opened Wrappers

  /** The tuple is built in the order major, minor, beta, seq: `beta` is
      compared before `sequence` (Python's `seq`), although the title writes it first. */
  datatype Build = Build(major: int, minor: int, beta: int, sequence: int)

  /** Python compares tuples lexicographically, field by field. */
  predicate BuildLess(x: Build, y: Build) {
    || x.major < y.major
    || (x.major == y.major && x.minor < y.minor)
    || (x.major == y.major && x.minor == y.minor && x.beta < y.beta)
    || (x.major == y.major && x.minor == y.minor && x.beta == y.beta && x.sequence < y.sequence)
  }

  /** `beta` when the group carries no lowercase letter: after every letter a-z. */
  const NoBeta: int := 27

  // ---------------------------------------------------------------------------
  // Character classes. Python's `\d` also accepts non-ASCII digits; the model
  // is restricted to ASCII `0`-`9`.

  predicate IsDigit(c: char) { '0' <= c <= '9' }
  predicate IsUpper(c: char) { 'A' <= c <= 'Z' }
  predicate IsLower(c: char) { 'a' <= c <= 'z' }

  predicate AllDigits(s: string) {
    forall k :: 0 <= k < |s| ==> IsDigit(s[k])
  }

  /** `int()` of a run of decimal digits. */
  function DecimalValue(ds: string): (n: nat)
    requires AllDigits(ds)
    decreases |ds|
  {
    if |ds| == 0 then 0
    else
      assert AllDigits(ds[..|ds| - 1]);
      DecimalValue(ds[..|ds| - 1]) * 10 + (ds[|ds| - 1] as int - '0' as int)
  }

  // ---------------------------------------------------------------------------
  // The regular expression as data: one match is a `Group`, and `GroupText`
  // is the text that the match spans.

  /** The four capture groups of one match; `beta` is the optional letter. */
  datatype Group = Group(major: string, minor: char, sequence: string, beta: Option<char>)

  predicate ValidGroup(g: Group) {
    && |g.major| > 0 && AllDigits(g.major)
    && IsUpper(g.minor)
    && |g.sequence| > 0 && AllDigits(g.sequence)
    && (g.beta.Some? ==> IsLower(g.beta.value))
  }

  function BetaText(b: Option<char>): string {
    match b
    case None => ""
    case Some(c) => [c]
  }

  function GroupText(g: Group): string {
    "(" + g.major + [g.minor] + g.sequence + BetaText(g.beta) + ")"
  }

  /** The regular expression matches `g` starting at index `i` of `t`. */
  predicate OccursAt(t: string, i: nat, g: Group) {
    && ValidGroup(g)
    && i + |GroupText(g)| <= |t|
    && t[i..i + |GroupText(g)|] == GroupText(g)
  }

  /** The title holds no match at all. */
  ghost predicate NoGroup(t: string) {
    forall i: nat, g :: !OccursAt(t, i, g)
  }

  /** `g` at `i` is the match `re.search` reports: nothing matches further left. */
  ghost predicate FirstOccurrence(t: string, i: nat, g: Group) {
    && OccursAt(t, i, g)
    && forall j: nat, h :: j < i ==> !OccursAt(t, j, h)
  }

  // ---------------------------------------------------------------------------
  // The scanner.

  /** End of the run of digits starting at `i`. */
  function DigitsEnd(t: string, i: nat): (j: nat)
    requires i <= |t|
    ensures i <= j <= |t|
    ensures forall k :: i <= k < j ==> IsDigit(t[k])
    ensures j == |t| || !IsDigit(t[j])
    decreases |t| - i
  {
    if i < |t| && IsDigit(t[i]) then DigitsEnd(t, i + 1) else i
  }

  /** Tries the regular expression at index `i` only. Digit runs are greedy and
      cannot give back a character to the letter that follows them, so at most
      one match can start at any index and no backtracking is needed. */
  function MatchAt(t: string, i: nat): (r: Option<Group>)
    requires i <= |t|
    ensures r.Some? ==> OccursAt(t, i, r.value)
  {
    if i < |t| && t[i] == '(' then
      var a := DigitsEnd(t, i + 1);
      if a > i + 1 && a < |t| && IsUpper(t[a]) then
        var b := DigitsEnd(t, a + 1);
        if b > a + 1 && b < |t| && t[b] == ')' then
          var g := Group(t[i + 1..a], t[a], t[a + 1..b], None);
          Scanned(t, i, a, b, b + 1, g);
          Some(g)
        else if b > a + 1 && b + 1 < |t| && IsLower(t[b]) && t[b + 1] == ')' then
          var g := Group(t[i + 1..a], t[a], t[a + 1..b], Some(t[b]));
          Scanned(t, i, a, b, b + 2, g);
          Some(g)
        else
          None
      else
        None
    else
      None
  }

  /** The text between `i` and `e` that the scanner split at `a` and `b` is
      the text of the group it built from the pieces. */
  lemma MatchedText(t: string, i: nat, a: nat, b: nat, e: nat, g: Group)
    requires i < a < b < e <= |t|
    requires g.major == t[i + 1..a] && g.minor == t[a] && g.sequence == t[a + 1..b]
    requires t[i] == '(' && t[e - 1] == ')'
    requires BetaText(g.beta) == t[b..e - 1]
    ensures GroupText(g) == t[i..e]
  {
    SliceSplit(t, i, i + 1, a);
    SliceSplit(t, i, a, a + 1);
    SliceSplit(t, i, a + 1, b);
    SliceSplit(t, i, b, e - 1);
    SliceSplit(t, i, e - 1, e);
    assert t[i..i + 1] == "(" && t[a..a + 1] == [g.minor] && t[e - 1..e] == ")";
  }

  /** What the scanner built from the pieces it found is a match at `i`. */
  lemma Scanned(t: string, i: nat, a: nat, b: nat, e: nat, g: Group)
    requires i < a < b < e <= |t|
    requires a == DigitsEnd(t, i + 1) && b == DigitsEnd(t, a + 1)
    requires g.major == t[i + 1..a] && g.minor == t[a] && g.sequence == t[a + 1..b]
    requires t[i] == '(' && t[e - 1] == ')' && IsUpper(t[a]) && a > i + 1 && b > a + 1
    requires g.beta.None? ==> e == b + 1
    requires g.beta.Some? ==> e == b + 2 && g.beta.value == t[b] && IsLower(t[b])
    ensures OccursAt(t, i, g)
  {
    DigitsSlice(t, i + 1);
    DigitsSlice(t, a + 1);
    assert ValidGroup(g);
    assert BetaText(g.beta) == t[b..e - 1];
    MatchedText(t, i, a, b, e, g);
  }

  /** The run the scanner reads is all digits. */
  lemma DigitsSlice(t: string, i: nat)
    requires i <= |t|
    ensures AllDigits(t[i..DigitsEnd(t, i)])
  {
    var j := DigitsEnd(t, i);
    forall k | 0 <= k < j - i
      ensures IsDigit(t[i..j][k])
    {
      assert t[i..j][k] == t[i + k];
    }
  }

  lemma SubSlice(t: string, i: nat, j: nat, x: nat, y: nat)
    requires i <= j <= |t| && x <= y <= j - i
    ensures t[i..j][x..y] == t[i + x..i + y]
  {
    assert forall k :: 0 <= k < y - x ==> t[i..j][x..y][k] == t[i + x + k];
  }

  lemma SliceSplit(t: string, i: nat, m: nat, e: nat)
    requires i <= m <= e <= |t|
    ensures t[i..e] == t[i..m] + t[m..e]
  {
  }

  /** The match text read back from `t`: where `g` occurs, its characters sit
      at fixed offsets from `i`. */
  lemma {:induction false} OccurrenceLayout(t: string, i: nat, g: Group)
    requires OccursAt(t, i, g)
    ensures t[i] == '('
    ensures t[i + 1..i + 1 + |g.major|] == g.major
    ensures t[i + 1 + |g.major|] == g.minor
    ensures t[i + 2 + |g.major|..i + 2 + |g.major| + |g.sequence|] == g.sequence
    ensures g.beta.None? ==> t[i + 2 + |g.major| + |g.sequence|] == ')'
    ensures g.beta.Some? ==>
      t[i + 2 + |g.major| + |g.sequence|] == g.beta.value && t[i + 3 + |g.major| + |g.sequence|] == ')'
  {
    var text := GroupText(g);
    var n, m, s := |text|, |g.major|, |g.sequence|;
    GroupTextLayout(g);
    var w := t[i..i + n];
    assert w == text;
    assert t[i] == w[0];
    SubSlice(t, i, i + n, 1, 1 + m);
    assert t[i + 1 + m] == w[1 + m];
    SubSlice(t, i, i + n, 2 + m, 2 + m + s);
    assert t[i + 2 + m + s] == w[2 + m + s];
    if g.beta.Some? {
      assert t[i + 3 + m + s] == w[3 + m + s];
    }
  }

  /** Where the parts of a group sit in its text. */
  lemma GroupTextLayout(g: Group)
    ensures var text, m, s := GroupText(g), |g.major|, |g.sequence|;
      && |text| == 3 + m + s + |BetaText(g.beta)|
      && text[0] == '('
      && text[1..1 + m] == g.major
      && text[1 + m] == g.minor
      && text[2 + m..2 + m + s] == g.sequence
      && (g.beta.None? ==> text[2 + m + s] == ')')
      && (g.beta.Some? ==> text[2 + m + s] == g.beta.value && text[3 + m + s] == ')')
  {
    var p1 := "(" + g.major;
    var p2 := p1 + [g.minor];
    var p3 := p2 + g.sequence;
    var p4 := p3 + BetaText(g.beta);
    assert GroupText(g) == p4 + ")";
    assert p1[1..] == g.major;
    assert p3[|p2|..] == g.sequence;
  }

  /** The scanner misses nothing: it reports exactly the match at `i`, and a
      second match at the same index cannot exist. */
  lemma MatchAtExact(t: string, i: nat)
    requires i <= |t|
    ensures forall g :: OccursAt(t, i, g) <==> MatchAt(t, i) == Some(g)
  {
    forall g | OccursAt(t, i, g)
      ensures MatchAt(t, i) == Some(g)
    {
      MatchAtComplete(t, i, g);
    }
  }

  lemma {:induction false} MatchAtComplete(t: string, i: nat, g: Group)
    requires OccursAt(t, i, g)
    ensures MatchAt(t, i) == Some(g)
  {
    OccurrenceLayout(t, i, g);
    var a := i + 1 + |g.major|;
    var b := a + 1 + |g.sequence|;
    DigitsAt(t, i + 1, g.major);
    DigitsRun(t, i + 1, a);
    DigitsAt(t, a + 1, g.sequence);
    DigitsRun(t, a + 1, b);
    assert t[i + 1..a] == g.major && t[a] == g.minor && t[a + 1..b] == g.sequence;
    if g.beta.None? {
      MatchAtFinal(t, i, a, b, g);
    } else {
      MatchAtBeta(t, i, a, b, g);
    }
  }

  /** The scanner's path for a group without a beta letter. */
  lemma MatchAtFinal(t: string, i: nat, a: nat, b: nat, g: Group)
    requires i + 1 < a && a + 1 < b < |t|
    requires t[i] == '(' && IsUpper(t[a]) && t[b] == ')'
    requires DigitsEnd(t, i + 1) == a && DigitsEnd(t, a + 1) == b
    requires g == Group(t[i + 1..a], t[a], t[a + 1..b], None)
    ensures MatchAt(t, i) == Some(g)
  {
  }

  /** The scanner's path for a group with a beta letter. */
  lemma MatchAtBeta(t: string, i: nat, a: nat, b: nat, g: Group)
    requires i + 1 < a && a + 1 < b && b + 1 < |t|
    requires t[i] == '(' && IsUpper(t[a]) && IsLower(t[b]) && t[b + 1] == ')'
    requires DigitsEnd(t, i + 1) == a && DigitsEnd(t, a + 1) == b
    requires g == Group(t[i + 1..a], t[a], t[a + 1..b], Some(t[b]))
    ensures MatchAt(t, i) == Some(g)
  {
    assert t[b] != ')';
  }

  /** A run of digits copied into `t` at `i`. */
  lemma DigitsAt(t: string, i: nat, ds: string)
    requires i + |ds| <= |t| && t[i..i + |ds|] == ds && AllDigits(ds)
    ensures forall k :: i <= k < i + |ds| ==> IsDigit(t[k])
  {
    forall k | i <= k < i + |ds|
      ensures IsDigit(t[k])
    {
      assert t[k] == t[i..i + |ds|][k - i];
    }
  }

  /** A maximal digit run is found exactly. */
  lemma {:induction false} DigitsRun(t: string, i: nat, j: nat)
    requires i <= j < |t|
    requires forall k :: i <= k < j ==> IsDigit(t[k])
    requires !IsDigit(t[j])
    ensures DigitsEnd(t, i) == j
    decreases j - i
  {
    if i < j {
      DigitsRun(t, i + 1, j);
    }
  }

  /** `re.search` from index `i` on: the leftmost match, or none. */
  function Search(t: string, i: nat): (r: Option<(nat, Group)>)
    requires i <= |t|
    ensures r.Some? ==> i <= r.value.0 && OccursAt(t, r.value.0, r.value.1)
    ensures r.Some? ==> forall j: nat, h :: i <= j < r.value.0 ==> !OccursAt(t, j, h)
    ensures r.None? ==> forall j: nat, h :: i <= j ==> !OccursAt(t, j, h)
    decreases |t| - i
  {
    if i == |t| then
      None
    else
      MatchAtExact(t, i);
      match MatchAt(t, i)
      case Some(g) => Some((i, g))
      case None => Search(t, i + 1)
  }

  /** The tuple a match stands for. */
  function ToBuild(g: Group): (b: Build)
    requires ValidGroup(g)
    ensures b.major >= 0 && b.sequence >= 0
    ensures 0 <= b.minor <= 25
    ensures g.beta.Some? ==> 1 <= b.beta <= 26
    ensures b.beta == NoBeta <==> g.beta.None?
  {
    Build(
      DecimalValue(g.major),
      g.minor as int - 'A' as int,
      match g.beta
      case Some(c) => c as int - 'a' as int + 1
      case None => NoBeta,
      DecimalValue(g.sequence))
  }

  /** `Build.from_title`: `None` where Python raises because the search found
      nothing; otherwise the tuple of the leftmost match. */
  function FromTitle(t: string): (r: Option<Build>)
    ensures r.None? <==> NoGroup(t)
    ensures forall i: nat, g :: FirstOccurrence(t, i, g) ==> r == Some(ToBuild(g))
    ensures r.Some? ==> 0 <= r.value.minor <= 25 && 1 <= r.value.beta <= NoBeta
    ensures r.Some? ==> r.value.major >= 0 && r.value.sequence >= 0
  {
    match Search(t, 0)
    case Some((i, g)) =>
      FirstOccurrenceUnique(t, i, g);
      Some(ToBuild(g))
    case None => None
  }

  /** Two leftmost matches are the same match. */
  lemma FirstOccurrenceUnique(t: string, i: nat, g: Group)
    requires FirstOccurrence(t, i, g)
    ensures forall j: nat, h :: FirstOccurrence(t, j, h) ==> j == i && h == g
  {
    forall j: nat, h | FirstOccurrence(t, j, h)
      ensures j == i && h == g
    {
      assert !(j < i) && !(i < j);
      MatchAtExact(t, i);
    }
  }

  // ---------------------------------------------------------------------------
  // The order on builds.

  lemma BuildLessIrreflexive(x: Build)
    ensures !BuildLess(x, x)
  {}

  lemma BuildLessTransitive(x: Build, y: Build, z: Build)
    requires BuildLess(x, y) && BuildLess(y, z)
    ensures BuildLess(x, z)
  {}

  /** Distinct builds are always ordered, so sorting by build is total. */
  lemma BuildLessConnected(x: Build, y: Build)
    ensures x == y || BuildLess(x, y) || BuildLess(y, x)
  {}

  /** For two matches with the same major and minor, a beta build (lowercase
      letter) sorts below the build without one whatever the sequence numbers
      are: `beta` is the third field of the tuple and `sequence` the fourth. */
  lemma BetaBeforeSequence(g: Group, h: Group)
    requires ValidGroup(g) && ValidGroup(h)
    requires g.major == h.major && g.minor == h.minor
    requires g.beta.Some? && h.beta.None?
    ensures BuildLess(ToBuild(g), ToBuild(h))
  {}

  /** Leading zeros do not change the value of a digit run: `int("05") == 5`. */
  lemma {:induction false} LeadingZero(ds: string)
    requires AllDigits(ds)
    ensures AllDigits("0" + ds) && DecimalValue("0" + ds) == DecimalValue(ds)
    decreases |ds|
  {
    var z := "0" + ds;
    if |ds| > 0 {
      assert z[..|z| - 1] == "0" + ds[..|ds| - 1];
      LeadingZero(ds[..|ds| - 1]);
    }
  }

  /** `10 ** n`. */
  function Pow10(n: nat): (p: nat)
    ensures p >= 1
  {
    if n == 0 then 1 else 10 * Pow10(n - 1)
  }

  /** One digit is worth its distance from `0`. */
  lemma DecimalValueDigit(d: char)
    requires IsDigit(d)
    ensures AllDigits([d]) && DecimalValue([d]) == d as int - '0' as int
    ensures 0 <= DecimalValue([d]) <= 9
  {
  }

  /** Positional notation: the digits of `a` followed by those of `b` are
      worth `a` shifted by `|b|` places plus `b`. With `DecimalValueDigit`
      this fixes the value of every digit run, whichever way it is split. */
  lemma {:induction false} DecimalValueAppend(a: string, b: string)
    requires AllDigits(a) && AllDigits(b)
    ensures AllDigits(a + b)
    ensures DecimalValue(a + b) == DecimalValue(a) * Pow10(|b|) + DecimalValue(b)
    decreases |b|
  {
    if |b| == 0 {
      assert a + b == a;
    } else {
      var init := b[..|b| - 1];
      var d := b[|b| - 1] as int - '0' as int;
      assert AllDigits(init);
      assert (a + b)[..|a + b| - 1] == a + init;
      assert (a + b)[|a + b| - 1] == b[|b| - 1];
      DecimalValueAppend(a, init);
      assert DecimalValue(a + b) == DecimalValue(a + init) * 10 + d;
      assert DecimalValue(b) == DecimalValue(init) * 10 + d;
      ShiftStep(DecimalValue(a), Pow10(|init|), DecimalValue(init), d);
    }
  }

  /** One more digit shifts both parts of `x * p + v` by one place. */
  lemma ShiftStep(x: int, p: int, v: int, d: int)
    ensures (x * p + v) * 10 + d == x * (p * 10) + (v * 10 + d)
  {
  }

  /** A run of `n` digits is worth less than `10 ** n`, so a longer run
      without leading zeros is always the larger number. */
  lemma {:induction false} DecimalValueBelow(ds: string)
    requires AllDigits(ds)
    ensures DecimalValue(ds) < Pow10(|ds|)
    decreases |ds|
  {
    if |ds| > 0 {
      var init := ds[..|ds| - 1];
      assert AllDigits(init);
      DecimalValueBelow(init);
      assert DecimalValue(ds) <= (Pow10(|init|) - 1) * 10 + 9;
    }
  }

  // ---------------------------------------------------------------------------
  // The fields of the tuple follow the letters of the title.

  /** `ord(minor) - ord('A')` ranks the uppercase letters in alphabetical
      order: under the same major number, a later letter is a later build,
      and two groups share the minor field exactly when they share the letter. */
  lemma MinorFollowsLetter(g: Group, h: Group)
    requires ValidGroup(g) && ValidGroup(h)
    ensures ToBuild(g).minor < ToBuild(h).minor <==> g.minor < h.minor
    ensures ToBuild(g).minor == ToBuild(h).minor <==> g.minor == h.minor
    ensures (DecimalValue(g.major) == DecimalValue(h.major) && g.minor < h.minor) ==>
      BuildLess(ToBuild(g), ToBuild(h))
  {
  }

  /** `ord(beta) - ord('a') + 1` ranks the lowercase letters in alphabetical
      order: with the same major and minor, a later beta letter is a later
      build, and two betas share the field exactly when they share the letter. */
  lemma BetaFollowsLetter(g: Group, h: Group)
    requires ValidGroup(g) && ValidGroup(h)
    requires g.beta.Some? && h.beta.Some?
    ensures ToBuild(g).beta < ToBuild(h).beta <==> g.beta.value < h.beta.value
    ensures ToBuild(g).beta == ToBuild(h).beta <==> g.beta.value == h.beta.value
    ensures (DecimalValue(g.major) == DecimalValue(h.major) && g.minor == h.minor
      && g.beta.value < h.beta.value) ==> BuildLess(ToBuild(g), ToBuild(h))
  {
  }

  /** The numeric fields are the values of their digit runs: a major number
      with more digits (and no leading zero) is the higher build. */
  lemma LongerMajorIsLater(g: Group, h: Group)
    requires ValidGroup(g) && ValidGroup(h)
    requires |g.major| < |h.major| && h.major[0] != '0'
    ensures BuildLess(ToBuild(g), ToBuild(h))
  {
    var head, rest := [h.major[0]], h.major[1..];
    assert h.major == head + rest;
    assert AllDigits(rest);
    DecimalValueDigit(h.major[0]);
    DecimalValueAppend(head, rest);
    DecimalValueBelow(g.major);
    PowMonotone(|g.major|, |rest|);
    ShiftAtLeast(DecimalValue(head), Pow10(|rest|), DecimalValue(rest));
  }

  lemma ShiftAtLeast(x: nat, p: nat, y: nat)
    requires x >= 1
    ensures x * p + y >= p
  {
  }

  lemma {:induction false} PowMonotone(m: nat, n: nat)
    requires m <= n
    ensures Pow10(m) <= Pow10(n)
    decreases n
  {
    if m < n {
      PowMonotone(m, n - 1);
    }
  }

  // ---------------------------------------------------------------------------
  // Which match wins.

  /** The opening parenthesis appears in a match's text only as its first
      character. */
  lemma ParenOnlyFirst(g: Group)
    requires ValidGroup(g)
    ensures forall k :: 0 < k < |GroupText(g)| ==> GroupText(g)[k] != '('
  {
    var m, s := |g.major|, |g.sequence|;
    assert forall k :: 0 <= k < m ==> GroupText(g)[1 + k] == g.major[k];
    assert forall k :: 0 <= k < s ==> GroupText(g)[2 + m + k] == g.sequence[k];
  }

  /** A title without `(` has no match. */
  lemma NoParenNoGroup(t: string)
    requires forall k :: 0 <= k < |t| ==> t[k] != '('
    ensures NoGroup(t)
  {
    forall i: nat, g | OccursAt(t, i, g)
      ensures false
    {
      OccurrenceLayout(t, i, g);
    }
  }

  /** If the text before a match holds no match of its own, that match is the
      one `from_title` reads, whatever follows it. A match that started
      earlier would have to run into the `(` that opens this one. */
  lemma {:induction false} FromTitleFirstGroup(p: string, g: Group, q: string)
    requires ValidGroup(g) && NoGroup(p)
    ensures FromTitle(p + GroupText(g) + q) == Some(ToBuild(g))
  {
    var t := p + GroupText(g) + q;
    assert t[|p|..|p| + |GroupText(g)|] == GroupText(g);
    assert OccursAt(t, |p|, g);
    forall j: nat, h | j < |p|
      ensures !OccursAt(t, j, h)
    {
      var n := |GroupText(h)|;
      if ValidGroup(h) && j + n <= |p| {
        assert t[j..j + n] == p[j..j + n];
        assert !OccursAt(p, j, h);
      } else if ValidGroup(h) && j + n <= |t| {
        ParenOnlyFirst(h);
        assert t[j..j + n][|p| - j] == '(' != GroupText(h)[|p| - j];
      }
    }
    assert FirstOccurrence(t, |p|, g);
  }

  // Examples from the release titles the program sorts.

  lemma ExampleFinal()
    ensures FromTitle("macOS 14.1 (23B74)") == Some(Build(23, 1, NoBeta, 74))
  {
    var g := Group("23", 'B', "74", None);
    var p := "macOS 14.1 ";
    assert ValidGroup(g);
    NoParenNoGroup(p);
    FromTitleFirstGroup(p, g, "");
    assert p + GroupText(g) + "" == "macOS 14.1 (23B74)";
    assert DecimalValue("23") == 23;
    assert DecimalValue("74") == 74;
  }

  lemma ExampleBeta()
    ensures FromTitle("macOS (123A45b)") == Some(Build(123, 0, 2, 45))
  {
    var g := Group("123", 'A', "45", Some('b'));
    assert ValidGroup(g);
    NoParenNoGroup("macOS ");
    FromTitleFirstGroup("macOS ", g, "");
    assert "macOS " + GroupText(g) + "" == "macOS (123A45b)";
    assert DecimalValue("12") == 12;
    assert DecimalValue(g.major) == 123;
    assert DecimalValue(g.sequence) == 45;
    assert ToBuild(g) == Build(123, 0, 2, 45);
  }

  lemma ExampleLeadingZero()
    ensures FromTitle("macOS (10B05)") == Some(Build(10, 1, NoBeta, 5))
  {
    var g := Group("10", 'B', "05", None);
    assert ValidGroup(g);
    NoParenNoGroup("macOS ");
    FromTitleFirstGroup("macOS ", g, "");
    assert "macOS " + GroupText(g) + "" == "macOS (10B05)";
    LeadingZero("5");
    assert "0" + "5" == g.sequence;
    assert DecimalValue(g.major) == 10;
    assert ToBuild(g) == Build(10, 1, NoBeta, 5);
  }

  /** `(23B74)` sorts above `(23B80a)`: the final build outranks the later
      beta because `beta` is compared before `sequence`. */
  lemma ExampleFinalAboveLaterBeta()
    ensures BuildLess(ToBuild(Group("23", 'B', "80", Some('a'))), ToBuild(Group("23", 'B', "74", None)))
  {
    BetaBeforeSequence(Group("23", 'B', "80", Some('a')), Group("23", 'B', "74", None));
  }

  /** The title `(23B74)` has no match when the letter is lowercase. */
  lemma ExampleNoMatch()
    ensures FromTitle("macOS (23b74)") == None
  {
    var t := "macOS (23b74)";
    assert DigitsEnd(t, 7) == 9 && !IsUpper(t[9]);
    assert MatchAt(t, 6) == None;
    MatchAtExact(t, 6);
    forall i: nat, g
      ensures !OccursAt(t, i, g)
    {
      var n := |GroupText(g)|;
      if i != 6 && ValidGroup(g) && i + n <= |t| {
        assert t[i..i + n][0] == t[i] != '(';
      }
    }
  }
}
