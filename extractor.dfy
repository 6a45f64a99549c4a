/**
 * Name extraction from a certificate's first-page text (`extract_name_from_pdf`,
 * manual_certificate_renamer.py, lines 73-87). Opening the PDF and reading its text is
 * external: the page text is an input, absent when the document could not be read.
 *
 * The regular expression `inform\s+(mr\.|ms\.|mrs\.)?\s*([a-z\s]+)\(` is matched by hand.
 * `re.search` tries start positions from the left; at one start, the backtracking matcher
 * takes the first success in its order (greedy `\s+`, the honorific group tried before
 * skipping it, greedy `\s*`, greedy name class). Because '(' is outside `[a-z\s]`, the name
 * group always ends at the end of the run of name-class characters, and the outcome of the
 * backtracking search has the closed form written in `MatchAt`.
 */
module TextExtractor {
  import opened Wrappers
  import opened PyStr
  import opened Normalizer

  /** The phrase that marks the line holding the name (line 82). */
  const Anchor := "we are glad to inform"

  /** `[a-z\s]`. */
  predicate InNameClass(c: char) {
    'a' <= c <= 'z' || IsSpace(c)
  }

  /** `mr\.|ms\.|mrs\.`. */
  predicate IsHonorific(s: string) {
    s == "mr." || s == "ms." || s == "mrs."
  }

  /** First position at or after `i` that is not whitespace. */
  function SkipSpaces(line: string, i: nat): (j: nat)
    requires i <= |line|
    ensures i <= j <= |line|
    ensures forall k :: i <= k < j ==> IsSpace(line[k])
    ensures j == |line| || !IsSpace(line[j])
    decreases |line| - i
  {
    if i < |line| && IsSpace(line[i]) then SkipSpaces(line, i + 1) else i
  }

  /** First position at or after `i` that is outside `[a-z\s]`. */
  function SkipNameClass(line: string, i: nat): (j: nat)
    requires i <= |line|
    ensures i <= j <= |line|
    ensures forall k :: i <= k < j ==> InNameClass(line[k])
    ensures j == |line| || !InNameClass(line[j])
    decreases |line| - i
  {
    if i < |line| && InNameClass(line[i]) then SkipNameClass(line, i + 1) else i
  }

  /** Length of the honorific at `q`, the alternatives tried in the pattern's order; 0 if none. */
  function HonorificAt(line: string, q: nat): (n: nat)
    ensures n == 0 || (q + n <= |line| && IsHonorific(line[q..q + n]))
  {
    if OccursAt(line, "mr.", q) then 3
    else if OccursAt(line, "ms.", q) then 3
    else if OccursAt(line, "mrs.", q) then 4
    else 0
  }

  /** Where one match of the pattern lies: "inform" at `start`, whitespace up to `spacesEnd`,
      the honorific (possibly empty) up to `honorificEnd`, whitespace up to `nameStart`,
      the name group up to `nameEnd`, and '(' at `nameEnd`. */
  datatype Match = Match(start: nat, spacesEnd: nat, honorificEnd: nat, nameStart: nat, nameEnd: nat)

  /** `m` describes a match of the pattern in `line`. */
  predicate PatternAt(line: string, m: Match) {
    && m.start + 6 < m.spacesEnd <= m.honorificEnd <= m.nameStart < m.nameEnd < |line|
    && line[m.start..m.start + 6] == "inform"
    && (forall k :: m.start + 6 <= k < m.spacesEnd ==> IsSpace(line[k]))
    && (m.honorificEnd == m.spacesEnd || IsHonorific(line[m.spacesEnd..m.honorificEnd]))
    && (forall k :: m.honorificEnd <= k < m.nameStart ==> IsSpace(line[k]))
    && (forall k :: m.nameStart <= k < m.nameEnd ==> InNameClass(line[k]))
    && line[m.nameEnd] == '('
  }

  /** The match the backtracking matcher finds when it starts at `p`, if any.
      With an honorific, the name group starts after the whitespace that follows it, or on the
      last of those whitespace characters when '(' comes straight after them. Without one,
      `\s+` must keep its first whitespace character and the name group takes the rest. */
  function MatchAt(line: string, p: nat): (r: Option<Match>)
    ensures r.Some? ==> r.value.start == p && r.value.nameEnd < |line| && line[r.value.nameEnd] == '('
  {
    if !(p + 6 < |line| && line[p..p + 6] == "inform" && IsSpace(line[p + 6])) then None
    else
      var q := SkipSpaces(line, p + 6);
      var n := HonorificAt(line, q);
      var h := if n > 0 then q + n else p + 7;
      var e := SkipNameClass(line, h);
      if e == h || e == |line| || line[e] != '(' then None
      else
        var s := SkipSpaces(line, h);
        var g := if s < e then s else e - 1;
        if n > 0 then Some(Match(p, q, q + n, g, e)) else Some(Match(p, g, g, g, e))
  }

  /** `re.search` from position `p` on: the match at the leftmost start position. */
  function SearchFrom(line: string, p: nat): (r: Option<Match>)
    requires p <= |line|
    ensures r.Some? ==> p <= r.value.start <= |line| && MatchAt(line, r.value.start) == r
    decreases |line| - p
  {
    var here := MatchAt(line, p);
    if here.Some? then here
    else if p == |line| then None
    else SearchFrom(line, p + 1)
  }

  function Search(line: string): Option<Match> {
    SearchFrom(line, 0)
  }

  /** Lines 84-86: the normalised name group of the pattern's match in the line. */
  function ParseLine(line: string): Option<string> {
    match Search(line)
    case None => None
    case Some(m) => Some(Normalize(line[m.nameStart..m.nameEnd]))
  }

  /** `next((line for line in lines if anchor in line), None)`, as an index. */
  function FirstAnchorLine(lines: seq<string>): (r: Option<nat>)
    ensures r.Some? ==>
      && r.value < |lines|
      && Contains(lines[r.value], Anchor)
      && forall j :: 0 <= j < r.value ==> !Contains(lines[j], Anchor)
    ensures r.None? ==> forall j :: 0 <= j < |lines| ==> !Contains(lines[j], Anchor)
  {
    if |lines| == 0 then None
    else if Contains(lines[0], Anchor) then Some(0)
    else
      match FirstAnchorLine(lines[1..])
      case None => None
      case Some(k) => Some(k + 1)
  }

  /** Lines 82-87 on the lower-cased page text. A line holding the anchor is never empty,
      so the truth test on line 83 always passes. */
  function ExtractFromText(text: string): (r: Option<string>)
    ensures (forall j :: 0 <= j < |SplitLines(text)| ==> !Contains(SplitLines(text)[j], Anchor)) ==> r.None?
  {
    var lines := SplitLines(text);
    match FirstAnchorLine(lines)
    case None => None
    case Some(k) => ParseLine(lines[k])
  }

  /** `extract_name_from_pdf`: `None` when the document could not be read, otherwise the
      page text is lower-cased (line 76) and parsed. */
  function ExtractName(page: Option<string>): (r: Option<string>)
    ensures page.None? ==> r.None?
  {
    match page
    case None => None
    case Some(text) => ExtractFromText(Lower(text))
  }

  // ---------------------------------------------------------------------
  // Properties

  /** Every match of the pattern starting at `m.start` is found by `MatchAt` there. */
  lemma MatchAtComplete(line: string, m: Match)
    requires PatternAt(line, m)
    ensures MatchAt(line, m.start).Some?
  {
    var p := m.start;
    assert line[p..p + 6] == "inform";
    assert IsSpace(line[p + 6]);
    var q := SkipSpaces(line, p + 6);
    if m.honorificEnd > m.spacesEnd {
      CompleteWithHonorific(line, m, q);
    } else {
      CompleteWithoutHonorific(line, m, q);
    }
    MatchAtSucceeds(line, p, q, m.nameEnd);
  }

  /** What `MatchAt` needs in order to succeed at `p`, `q` being the end of the whitespace. */
  lemma MatchAtSucceeds(line: string, p: nat, q: nat, e: nat)
    requires p + 6 < |line| && line[p..p + 6] == "inform" && IsSpace(line[p + 6])
    requires q == SkipSpaces(line, p + 6)
    requires var n := HonorificAt(line, q);
      var h := if n > 0 then q + n else p + 7;
      h < e < |line| && SkipNameClass(line, h) == e && line[e] == '('
    ensures MatchAt(line, p).Some?
  {
  }

  lemma CompleteWithHonorific(line: string, m: Match, q: nat)
    requires PatternAt(line, m) && m.honorificEnd > m.spacesEnd
    requires q == SkipSpaces(line, m.start + 6)
    ensures var n := HonorificAt(line, q);
      n > 0 && q + n < m.nameEnd && SkipNameClass(line, q + n) == m.nameEnd
  {
    var hon := line[m.spacesEnd..m.honorificEnd];
    assert hon[0] == 'm' && line[m.spacesEnd] == hon[0];
    assert q == m.spacesEnd;
    HonorificAtExact(line, q, m.honorificEnd - m.spacesEnd);
    SkipNameClassExact(line, m.honorificEnd, m.nameEnd);
  }

  lemma CompleteWithoutHonorific(line: string, m: Match, q: nat)
    requires PatternAt(line, m) && m.honorificEnd == m.spacesEnd
    requires q == SkipSpaces(line, m.start + 6)
    ensures HonorificAt(line, q) == 0
    ensures m.start + 7 < m.nameEnd && SkipNameClass(line, m.start + 7) == m.nameEnd
  {
    assert q <= m.nameEnd;
    var n := HonorificAt(line, q);
    if n > 0 {
      HonorificChars(line, q, n);
    }
    SkipNameClassExact(line, m.start + 7, m.nameEnd);
  }

  /** A match found by `MatchAt` is a match of the pattern. */
  lemma MatchAtSound(line: string, p: nat)
    requires MatchAt(line, p).Some?
    ensures PatternAt(line, MatchAt(line, p).value)
  {
    var q := SkipSpaces(line, p + 6);
    var n := HonorificAt(line, q);
    var h := if n > 0 then q + n else p + 7;
    NameGroupBounds(line, h, SkipNameClass(line, h));
  }

  /** The search from `p` stops at or before any later start position where `MatchAt`
      succeeds, so no start it passes over has a match. */
  lemma {:induction false} SearchFromLeftmost(line: string, p: nat, i: nat)
    requires p <= i <= |line| && MatchAt(line, i).Some?
    ensures SearchFrom(line, p).Some? && SearchFrom(line, p).value.start <= i
    decreases i - p
  {
    if MatchAt(line, p).None? {
      SearchFromLeftmost(line, p + 1, i);
    }
  }

  /** `re.search` semantics: the match found starts at the leftmost position where the
      pattern matches at all, and there is none when nothing is found. */
  lemma SearchIsLeftmost(line: string)
    ensures Search(line).Some? ==>
      && PatternAt(line, Search(line).value)
      && forall m :: PatternAt(line, m) ==> Search(line).value.start <= m.start
    ensures Search(line).None? ==> forall m :: !PatternAt(line, m)
  {
    if Search(line).Some? {
      MatchAtSound(line, Search(line).value.start);
    }
    forall m | PatternAt(line, m)
      ensures Search(line).Some? && Search(line).value.start <= m.start
    {
      MatchAtComplete(line, m);
      SearchFromLeftmost(line, 0, m.start);
    }
  }

  /** A name extracted from page text comes from the first line holding the anchor: it is the
      normalised name group of the leftmost match of the pattern in that line, a run of
      `[a-z\s]` standing immediately before a '('. */
  lemma ExtractFromTextSound(text: string)
    requires ExtractFromText(text).Some?
    ensures exists k, m :: ExtractedAt(SplitLines(text), k, m, ExtractFromText(text).value)
  {
    var lines := SplitLines(text);
    var k := FirstAnchorLine(lines).value;
    SearchIsLeftmost(lines[k]);
    var m := Search(lines[k]).value;
    assert ExtractedAt(lines, k, m, ExtractFromText(text).value);
  }

  /** Once the first line holding the anchor is fixed, a name is extracted exactly when the
      pattern matches somewhere in that line; a later line holding the anchor is never tried. */
  lemma ExtractFromTextComplete(text: string, k: nat)
    requires FirstAnchorLine(SplitLines(text)) == Some(k)
    ensures ExtractFromText(text).Some? <==> exists m :: PatternAt(SplitLines(text)[k], m)
  {
    SearchIsLeftmost(SplitLines(text)[k]);
  }

  /** `name` is the normalised name group of `m`, the leftmost match of the pattern in line `k`,
      the first line holding the anchor. */
  ghost predicate ExtractedAt(lines: seq<string>, k: nat, m: Match, name: string) {
    && k < |lines|
    && Contains(lines[k], Anchor)
    && (forall j :: 0 <= j < k ==> !Contains(lines[j], Anchor))
    && PatternAt(lines[k], m)
    && (forall m' :: PatternAt(lines[k], m') ==> m.start <= m'.start)
    && name == Normalize(lines[k][m.nameStart..m.nameEnd])
  }

  // ---------------------------------------------------------------------
  // Helper lemmas

  /** The search passes over start positions where the pattern does not match. */
  lemma {:induction false} SearchSkips(line: string, p: nat, j: nat)
    requires p <= j <= |line|
    requires forall i :: p <= i < j ==> MatchAt(line, i).None?
    ensures SearchFrom(line, p) == SearchFrom(line, j)
    decreases j - p
  {
    if p < j {
      assert MatchAt(line, p).None?;
      assert SearchFrom(line, p) == SearchFrom(line, p + 1);
      SearchSkips(line, p + 1, j);
    }
  }

  /** The name group of `MatchAt`: whitespace from `h` up to its start, then a non-empty run of
      the name class up to `e`. */
  lemma NameGroupBounds(line: string, h: nat, e: nat)
    requires h < e <= |line| && e == SkipNameClass(line, h)
    ensures var s := SkipSpaces(line, h);
      var g := if s < e then s else e - 1;
      && h <= g < e
      && (forall k :: h <= k < g ==> IsSpace(line[k]))
      && (forall k :: g <= k < e ==> InNameClass(line[k]))
  {
  }

  lemma SkipNameClassExact(line: string, i: nat, j: nat)
    requires i <= j < |line| && !InNameClass(line[j])
    requires forall k :: i <= k < j ==> InNameClass(line[k])
    ensures SkipNameClass(line, i) == j
  {
  }

  /** The three honorifics exclude one another, so the one present is the one found. */
  lemma HonorificAtExact(line: string, q: nat, n: nat)
    requires q + n <= |line| && IsHonorific(line[q..q + n])
    ensures HonorificAt(line, q) == n
  {
    var hon := line[q..q + n];
    if hon == "mrs." {
      assert line[q + 2] == hon[2] == 's';
      assert !OccursAt(line, "mr.", q) by { assert line[q..q + 3][2] == line[q + 2]; }
      assert !OccursAt(line, "ms.", q) by { assert line[q..q + 3][1] == line[q + 1] == hon[1]; }
    } else if hon == "ms." {
      assert !OccursAt(line, "mr.", q) by { assert line[q..q + 3][1] == line[q + 1] == hon[1]; }
    }
  }

  /** An honorific holds no '(' and ends in '.'. */
  lemma HonorificChars(line: string, q: nat, n: nat)
    requires n > 0 && q + n <= |line| && IsHonorific(line[q..q + n])
    ensures line[q + n - 1] == '.'
    ensures forall k :: q <= k < q + n ==> line[k] != '('
  {
    var hon := line[q..q + n];
    assert forall k :: q <= k < q + n ==> line[k] == hon[k - q];
    assert hon[n - 1] == '.';
    assert forall i :: 0 <= i < n ==> hon[i] != '(';
  }
}
/** The example line of the extractor's documentation, worked through. */
module ExtractorExample {
  import opened Wrappers
  import opened PyStr
  import opened TextExtractor
  import opened Normalizer

  const Prefix := "we are glad to "
  const Name := "john" + " " + "doe" + " "
  const Line := Prefix + "inform" + " " + "mr." + " " + Name + "(" + "certificate)"

  const Found := Match(15, 22, 25, 26, 35)

  lemma FoundIsMatch()
    ensures PatternAt(Line, Found)
    ensures MatchAt(Line, 15) == Some(Found)
    ensures Line[26..35] == Name
  {
    assert |Prefix| == 15 && |Name| == 9;
    assert Line[15..21] == "inform";
    assert Line[22..25] == "mr.";
    assert Line[26..35] == Name;
    assert forall k :: 26 <= k < 35 ==> InNameClass(Line[k]);
    assert SkipSpaces(Line, 21) == 22;
    assert OccursAt(Line, "mr.", 22);
    assert HonorificAt(Line, 22) == 3;
    SkipNameClassExact(Line, 25, 35);
    assert SkipSpaces(Line, 25) == 26;
  }

  lemma SearchFindsFound()
    ensures Search(Line) == Some(Found)
  {
    FoundIsMatch();
    forall p | 0 <= p < 15 ensures MatchAt(Line, p).None? {
      assert Line[p] == Prefix[p];
      assert Prefix[p] in Prefix;
      NoMatchWithoutI(Line, p);
    }
    SearchSkips(Line, 0, 15);
  }

  /** The pattern starts with 'i'. */
  lemma NoMatchWithoutI(line: string, p: nat)
    requires p < |line| && line[p] != 'i'
    ensures MatchAt(line, p).None?
  {
    if p + 6 < |line| {
      assert line[p..p + 6][0] == line[p];
    }
  }

  lemma NameWithoutM(h: string)
    requires |h| > 0 && h[0] == 'm'
    ensures !Contains(Name, h)
  {
    forall i: nat | i <= |Name| ensures !OccursAt(Name, h, i) {
    }
  }

  lemma SplitTwo(a: string, b: string)
    requires IsToken(a) && IsToken(b)
    ensures Split(a + " " + b + " ") == [a, b]
  {
    assert a + " " + b + " " == a + " " + (b + " ");
    SplitTokenThenRest(a, b + " ");
    assert b + " " == b + " " + "";
    SplitTokenThenRest(b, "");
  }

  lemma SplitName()
    ensures Split(Name) == ["john", "doe"]
  {
    assert IsToken("john") && IsToken("doe");
    SplitTwo("john", "doe");
  }

  lemma NameLower()
    ensures Lower(Name) == Name
  {
    assert |Name| == 9;
    forall k | 0 <= k < 9 ensures Lower(Name)[k] == Name[k] {
    }
  }

  lemma NameKeepsHonorificFree()
    ensures RemoveAll(RemoveAll(RemoveAll(Lower(Name), "mr."), "ms."), "mrs.") == Name
  {
    NameLower();
    NameWithoutM("mr.");
    NameWithoutM("ms.");
    NameWithoutM("mrs.");
    RemoveAllAbsent(Name, "mr.");
    RemoveAllAbsent(Name, "ms.");
    RemoveAllAbsent(Name, "mrs.");
  }

  lemma JoinName()
    ensures Join(Split(Name)) == "john doe"
  {
    SplitName();
    assert JoinWith(" ", ["doe"]) == "doe";
    assert Join(["john", "doe"]) == "john" + " " + "doe";
  }

  lemma StripKeeps(s: string)
    requires s != [] && !IsSpace(s[0]) && !IsSpace(s[|s| - 1])
    ensures Strip(s) == s
  {
  }

  lemma StripJoined()
    ensures Strip("john doe") == "john doe"
  {
    var s := "john" + " " + "doe";
    assert s[0] == 'j' && s[|s| - 1] == 'e';
    StripKeeps(s);
  }

  lemma NormalizeThrough(name: string, cleaned: string, joined: string)
    requires RemoveAll(RemoveAll(RemoveAll(Lower(name), "mr."), "ms."), "mrs.") == cleaned
    requires Join(Split(cleaned)) == joined && Strip(joined) == joined
    ensures Normalize(name) == joined
  {
  }

  lemma NormalizeName()
    ensures Normalize(Name) == "john doe"
  {
    NameKeepsHonorificFree();
    JoinName();
    StripJoined();
    NormalizeThrough(Name, Name, "john doe");
  }

  /** `"we are glad to inform mr. john doe (certificate)"` yields the name "john doe". */
  lemma Example()
    ensures ParseLine(Line) == Some("john doe")
  {
    FoundIsMatch();
    SearchFindsFound();
    NormalizeName();
  }
}
