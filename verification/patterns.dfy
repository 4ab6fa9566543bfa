/**
  The compiled patterns the translator searches for, written out as
  matchers over strings, and the three ways the translator uses them:
  leftmost search, `finditer`/`findall` and `sub`.

  Every pattern is case-insensitive.  `\s` is ASCII whitespace, `\b` before
  a letter means "at the start of the text or after a non-word character".
  All patterns used here are deterministic: at a given start position at
  most one end position is in the pattern's language, so the matcher
  returns that end, and each matcher's contract states the language as a
  shape predicate over positions.
 */
module RegexPatterns {
  import opened Wrappers
  import opened Text
  import opened Regex

  datatype Pattern =
    | ForceIndex      // \s+FORCE\s+INDEX\s*\([^)]+\)
    | UseIndex        // \s+USE\s+INDEX\s*\([^)]+\)
    | IgnoreIndex     // \s+IGNORE\s+INDEX\s*\([^)]+\)
    | IfCall          // \bIF\s*\(
    | IfNullCall      // \bIFNULL\s*\(
    | DateFormatCall  // \bDATE_FORMAT\s*\(\s*([^,]+?)\s*,\s*['"]%Y-%m-%d['"]\s*\)

  /** `\b` in front of a word character at `i`. */
  predicate WordStart(s: string, i: nat)
    requires i <= |s|
  {
    i == 0 || !IsWordChar(s[i - 1])
  }

  /** Every character of `s[a..b]` is whitespace. */
  predicate SpacesBetween(s: string, a: nat, b: nat)
    requires a <= b <= |s|
  {
    forall k :: a <= k < b ==> IsSpace(s[k])
  }

  /** No character of `s[a..b]` is `c`. */
  predicate LacksBetween(s: string, a: nat, b: nat, c: char)
    requires a <= b <= |s|
  {
    forall k :: a <= k < b ==> s[k] != c
  }

  /** Length of the run of whitespace starting at `j`: what a greedy `\s*` takes. */
  function SpacesAt(s: string, j: nat): (n: nat)
    requires j <= |s|
    ensures j + n <= |s| && SpacesBetween(s, j, j + n)
    ensures j + n == |s| || !IsSpace(s[j + n])
    decreases |s| - j
  {
    if j < |s| && IsSpace(s[j]) then 1 + SpacesAt(s, j + 1) else 0
  }

  /** The first position at or after `j` holding `c`. */
  function FindChar(s: string, j: nat, c: char): (r: Option<nat>)
    requires j <= |s|
    ensures r.Some? ==> j <= r.value < |s| && s[r.value] == c && LacksBetween(s, j, r.value, c)
    ensures r.None? ==> LacksBetween(s, j, |s|, c)
    decreases |s| - j
  {
    if j == |s| then None else if s[j] == c then Some(j) else FindChar(s, j + 1, c)
  }

  /** A whitespace run that ends in front of a non-space character is the
      whole run: the only place a greedy `\s*` can stop. */
  lemma SpaceRunIsMaximal(s: string, j: nat, m: nat)
    requires j <= m < |s| && SpacesBetween(s, j, m) && !IsSpace(s[m])
    ensures m == j + SpacesAt(s, j)
  {
  }

  /** The first `c` at or after `j` is the one at `m` when there is none before it. */
  lemma FirstCharAt(s: string, j: nat, m: nat, c: char)
    requires j <= m < |s| && LacksBetween(s, j, m, c) && s[m] == c
    ensures FindChar(s, j, c) == Some(m)
  {
  }

  // ---------------------------------------------------------------------
  // \bNAME\s*\(   (IF and IFNULL)
  // ---------------------------------------------------------------------

  /** `s[i..e]` is in the language of `\bNAME\s*\(` at `i`. */
  predicate CallShape(name: string, s: string, i: nat, e: nat) {
    && i + |name| < e <= |s|
    && WordStart(s, i)
    && LiteralAtIgnoringCase(s, i, name)
    && SpacesBetween(s, i + |name|, e - 1)
    && s[e - 1] == '('
  }

  function CallMatch(name: string, s: string, i: nat): (r: Option<nat>)
    requires i <= |s|
    ensures forall e: nat :: r == Some(e) <==> CallShape(name, s, i, e)
  {
    if WordStart(s, i) && LiteralAtIgnoringCase(s, i, name) then
      var j := i + |name| + SpacesAt(s, i + |name|);
      assert forall e: nat :: CallShape(name, s, i, e) ==> e == j + 1 by {
        forall e: nat | CallShape(name, s, i, e) ensures e == j + 1 {
          SpaceRunIsMaximal(s, i + |name|, e - 1);
        }
      }
      if j < |s| && s[j] == '(' then Some(j + 1) else None
    else None
  }

  /** The IF pattern takes `if (` in lower case with a space before the
      parenthesis, but neither `IFNULL(` (no parenthesis after `IF`) nor
      the `IF` inside `DIF(` (no word boundary). */
  lemma IfCallExamples()
    ensures CallMatch("IF", "if (", 0) == Some(4)
    ensures forall i: nat | i <= 7 :: CallMatch("IF", "IFNULL(", i).None?
    ensures forall i: nat | i <= 4 :: CallMatch("IF", "DIF(", i).None?
  {
    assert CallShape("IF", "if (", 0, 4);
    forall i: nat | i <= 7 ensures CallMatch("IF", "IFNULL(", i).None? {
      var s := "IFNULL(";
      if i == 0 {
        assert !IsSpace(s[2]);
        assert SpacesAt(s, 2) == 0;
      }
    }
    forall i: nat | i <= 4 ensures CallMatch("IF", "DIF(", i).None? {
      var s := "DIF(";
      if i == 1 {
        assert !WordStart(s, 1);
      }
    }
  }

  // ---------------------------------------------------------------------
  // \s+KW\s+INDEX\s*\([^)]+\)   (FORCE, USE and IGNORE)
  // ---------------------------------------------------------------------

  /** Where the parts of an index-hint match sit: the keyword at `keyword`,
      INDEX at `index`, the opening parenthesis at `open`, and the match
      ends at `end`. */
  datatype HintSpan = HintSpan(keyword: nat, index: nat, open: nat, end: nat)

  /** The keyword starts with a letter, so no whitespace run can swallow it. */
  predicate IsKeyword(kw: string) {
    |kw| > 0 && IsLetter(kw[0])
  }

  /** `s[i..sp.end]` is in the language of `\s+KW\s+INDEX\s*\([^)]+\)`,
      with its parts where `sp` says. */
  predicate HintShape(kw: string, s: string, i: nat, sp: HintSpan) {
    && i < sp.keyword && sp.keyword + |kw| < sp.index && sp.index + 5 <= sp.open && sp.open + 2 < sp.end <= |s|
    && SpacesBetween(s, i, sp.keyword)
    && LiteralAtIgnoringCase(s, sp.keyword, kw)
    && SpacesBetween(s, sp.keyword + |kw|, sp.index)
    && LiteralAtIgnoringCase(s, sp.index, "INDEX")
    && SpacesBetween(s, sp.index + 5, sp.open)
    && s[sp.open] == '('
    && LacksBetween(s, sp.open + 1, sp.end - 1, ')')
    && s[sp.end - 1] == ')'
  }

  function HintMatch(kw: string, s: string, i: nat): Option<HintSpan>
    requires i <= |s| && IsKeyword(kw)
  {
    if i < |s| && IsSpace(s[i]) then HintKeyword(kw, s, i + SpacesAt(s, i)) else None
  }

  /** The rest of an index-hint match, from the keyword at `a` on. */
  function HintKeyword(kw: string, s: string, a: nat): Option<HintSpan>
    requires IsKeyword(kw)
  {
    if LiteralAtIgnoringCase(s, a, kw) then HintIndex(s, a, a + |kw|) else None
  }

  /** The rest of an index-hint match after the keyword, which ends at `b`. */
  function HintIndex(s: string, a: nat, b: nat): Option<HintSpan>
    requires b <= |s|
  {
    var c := b + SpacesAt(s, b);
    if c > b && LiteralAtIgnoringCase(s, c, "INDEX") then HintList(s, a, c, c + 5 + SpacesAt(s, c + 5))
    else None
  }

  /** The parenthesised index list of an index-hint match, opening at `d`. */
  function HintList(s: string, a: nat, c: nat, d: nat): Option<HintSpan> {
    if d < |s| && s[d] == '(' then
      match FindChar(s, d + 1, ')')
      case Some(k) => if k > d + 1 then Some(HintSpan(a, c, d, k + 1)) else None
      case None => None
    else None
  }

  /** Any match of an index-hint pattern is the one the matcher finds. */
  lemma HintComplete(kw: string, s: string, i: nat, sp: HintSpan)
    requires IsKeyword(kw) && HintShape(kw, s, i, sp)
    ensures HintMatch(kw, s, i) == Some(sp)
  {
    HintRuns(kw, s, i, sp);
    FirstCharAt(s, sp.open + 1, sp.end - 1, ')');
    assert HintList(s, sp.keyword, sp.index, sp.open) == Some(sp);
    HintIndexAt(s, sp, sp.keyword + |kw|);
    HintKeywordAt(kw, s, sp);
  }

  /** From the keyword on, the matcher takes the keyword and then what
      follows it. */
  lemma HintKeywordAt(kw: string, s: string, sp: HintSpan)
    requires IsKeyword(kw) && LiteralAtIgnoringCase(s, sp.keyword, kw)
    requires HintIndex(s, sp.keyword, sp.keyword + |kw|) == Some(sp)
    ensures HintKeyword(kw, s, sp.keyword) == Some(sp)
  {
  }

  lemma HintIndexAt(s: string, sp: HintSpan, b: nat)
    requires b < sp.index <= |s| && LiteralAtIgnoringCase(s, sp.index, "INDEX")
    requires sp.index == b + SpacesAt(s, b)
    requires sp.open == sp.index + 5 + SpacesAt(s, sp.index + 5)
    requires HintList(s, sp.keyword, sp.index, sp.open) == Some(sp)
    ensures HintIndex(s, sp.keyword, b) == Some(sp)
  {
  }

  /** The three whitespace runs of an index-hint match are maximal. */
  lemma HintRuns(kw: string, s: string, i: nat, sp: HintSpan)
    requires IsKeyword(kw) && HintShape(kw, s, i, sp)
    ensures sp.keyword == i + SpacesAt(s, i)
    ensures sp.index == sp.keyword + |kw| + SpacesAt(s, sp.keyword + |kw|)
    ensures sp.open == sp.index + 5 + SpacesAt(s, sp.index + 5)
  {
    assert !IsSpace(s[sp.keyword]) by { assert SameIgnoringCase(s[sp.keyword + 0], kw[0]); }
    SpaceRunIsMaximal(s, i, sp.keyword);
    assert !IsSpace(s[sp.index]) by { assert SameIgnoringCase(s[sp.index + 0], "INDEX"[0]); }
    SpaceRunIsMaximal(s, sp.keyword + |kw|, sp.index);
    SpaceRunIsMaximal(s, sp.index + 5, sp.open);
  }

  /** What the matcher finds is a match of the pattern. */
  lemma HintSound(kw: string, s: string, i: nat)
    requires i <= |s| && IsKeyword(kw) && HintMatch(kw, s, i).Some?
    ensures HintShape(kw, s, i, HintMatch(kw, s, i).value)
  {
  }

  /** The index-hint matcher finds exactly the pattern's one match at `i`. */
  lemma HintMatchSpec(kw: string, s: string, i: nat)
    requires i <= |s| && IsKeyword(kw)
    ensures forall sp :: HintMatch(kw, s, i) == Some(sp) <==> HintShape(kw, s, i, sp)
  {
    forall sp | HintShape(kw, s, i, sp)
      ensures HintMatch(kw, s, i) == Some(sp)
    {
      HintComplete(kw, s, i, sp);
    }
    if HintMatch(kw, s, i).Some? {
      HintSound(kw, s, i);
    }
  }

  // ---------------------------------------------------------------------
  // \bDATE_FORMAT\s*\(\s*([^,]+?)\s*,\s*['"]%Y-%m-%d['"]\s*\)
  // ---------------------------------------------------------------------

  /** Where the parts of a DATE_FORMAT match sit: the first argument is
      `s[open..comma]`, the format's opening quote is at `quote`, and the
      match ends at `end`. */
  datatype DateSpan = DateSpan(open: nat, comma: nat, quote: nat, end: nat)

  const DateFormatName := "DATE_FORMAT"
  const IsoFormat := "%Y-%m-%d"

  predicate IsQuote(c: char) {
    c == '\'' || c == '"'
  }

  /** `s[comma..end]` is in the language of `,\s*['"]%Y-%m-%d['"]\s*\)`,
      with the opening quote at `quote`. */
  predicate FormatShape(s: string, comma: nat, quote: nat, end: nat) {
    && comma < quote && quote + 10 < end <= |s|
    && s[comma] == ','
    && SpacesBetween(s, comma + 1, quote)
    && IsQuote(s[quote])
    && LiteralAtIgnoringCase(s, quote + 1, IsoFormat)
    && IsQuote(s[quote + 9])
    && SpacesBetween(s, quote + 10, end - 1)
    && s[end - 1] == ')'
  }

  /** The format argument and closing parenthesis after the comma at `comma`. */
  function FormatMatch(s: string, comma: nat): Option<(nat, nat)>
    requires comma < |s|
  {
    var q := comma + 1 + SpacesAt(s, comma + 1);
    if s[comma] == ',' && q + 10 <= |s| && IsQuote(s[q]) && LiteralAtIgnoringCase(s, q + 1, IsoFormat) && IsQuote(s[q + 9]) then
      var k := q + 10 + SpacesAt(s, q + 10);
      if k < |s| && s[k] == ')' then Some((q, k + 1)) else None
    else None
  }

  /** The format matcher finds exactly the one way the tail of the pattern
      matches after `comma`. */
  lemma FormatMatchSpec(s: string, comma: nat)
    requires comma < |s|
    ensures forall q: nat, e: nat :: FormatMatch(s, comma) == Some((q, e)) <==> FormatShape(s, comma, q, e)
  {
    forall q: nat, e: nat | FormatShape(s, comma, q, e)
      ensures FormatMatch(s, comma) == Some((q, e))
    {
      SpaceRunIsMaximal(s, comma + 1, q);
      SpaceRunIsMaximal(s, q + 10, e - 1);
    }
  }

  /** `s[i..sp.end]` is in the language of the DATE_FORMAT pattern, with its
      parts where `sp` says: the name and parenthesis, a non-empty first
      argument without commas, then the format. */
  predicate DateShape(s: string, i: nat, sp: DateSpan) {
    && i <= |s| && sp.open < sp.comma <= |s|
    && CallShape(DateFormatName, s, i, sp.open)
    && LacksBetween(s, sp.open, sp.comma, ',')
    && FormatShape(s, sp.comma, sp.quote, sp.end)
  }

  function DateMatch(s: string, i: nat): Option<DateSpan>
    requires i <= |s|
  {
    match CallMatch(DateFormatName, s, i)
    case None => None
    case Some(open) =>
      match FindChar(s, open, ',')
      case None => None
      case Some(c) =>
        if c > open then
          match FormatMatch(s, c)
          case None => None
          case Some((q, e)) => Some(DateSpan(open, c, q, e))
        else None
  }

  /** The DATE_FORMAT matcher finds exactly the pattern's one match at `i`. */
  lemma DateMatchSpec(s: string, i: nat)
    requires i <= |s|
    ensures forall sp :: DateMatch(s, i) == Some(sp) <==> DateShape(s, i, sp)
  {
    forall sp | DateShape(s, i, sp)
      ensures DateMatch(s, i) == Some(sp)
    {
      FirstCharAt(s, sp.open, sp.comma, ',');
      FormatMatchSpec(s, sp.comma);
    }
    match DateMatch(s, i)
    case None =>
    case Some(sp) => FormatMatchSpec(s, sp.comma);
  }

  /** Group 1 of the DATE_FORMAT pattern, given the first argument `a`
      (everything between the parenthesis and the comma).  The leading
      `\s*` is greedy but must leave the lazy group at least one character;
      the lazy group then stops at the first point from which only
      whitespace remains. */
  function ArgGroup(a: string): (r: string)
    requires |a| > 0
    ensures exists x, y :: (0 <= x < y <= |a| && r == a[x..y]
      && AllSpace(a[..x]) && AllSpace(a[y..])
      && (x + 1 == |a| || !IsSpace(a[x]))
      && (y == x + 1 || !IsSpace(a[y - 1])))
    ensures !AllSpace(a) ==> r == Strip(a)
  {
    var x := LeadingSpaces(a);
    if x == |a| then
      var r := a[|a| - 1..];
      assert 0 <= |a| - 1 < |a| <= |a| && r == a[|a| - 1..|a|]
        && AllSpace(a[..|a| - 1]) && AllSpace(a[|a|..]);
      r
    else
      var y := |a| - TrailingSpaces(a);
      assert !IsSpace(a[x]) && x < y;
      var r := Strip(a);
      assert r == a[x..y];
      assert 0 <= x < y <= |a| && AllSpace(a[..x]) && AllSpace(a[y..]);
      assert !IsSpace(a[y - 1]);
      assert !AllSpace(a) by { assert !IsSpace(a[x]); }
      r
  }

  // ---------------------------------------------------------------------
  // The patterns, search, finditer, findall and sub
  // ---------------------------------------------------------------------

  /** Where the match of `p` that starts at `i` ends, if one does. */
  function MatchAt(p: Pattern, s: string, i: nat): (r: Option<nat>)
    requires i <= |s|
    ensures r.Some? ==> i < r.value <= |s|
  {
    match p
    case ForceIndex => HintEnd("FORCE", s, i)
    case UseIndex => HintEnd("USE", s, i)
    case IgnoreIndex => HintEnd("IGNORE", s, i)
    case IfCall => CallMatch("IF", s, i)
    case IfNullCall => CallMatch("IFNULL", s, i)
    case DateFormatCall =>
      match DateMatch(s, i)
      case Some(sp) => DateMatchSpec(s, i); Some(sp.end)
      case None => None
  }

  function HintEnd(kw: string, s: string, i: nat): (r: Option<nat>)
    requires i <= |s| && IsKeyword(kw)
    ensures r.Some? ==> i < r.value <= |s|
  {
    match HintMatch(kw, s, i)
    case Some(sp) => HintSound(kw, s, i); Some(sp.end)
    case None => None
  }

  /** The pattern as a matcher over any text. */
  function PatternMatcher(p: Pattern): Matcher {
    (s: string, i: nat) => if i <= |s| then MatchAt(p, s, i) else None
  }

  lemma PatternMatcherWellFormed(p: Pattern)
    ensures WellFormed(PatternMatcher(p))
  {
  }

  /** `find_all_pattern_positions(pattern, s)`: every match in order,
      `text == s[start..end]`, no two overlapping, none missed. */
  function FindAllPatternPositions(p: Pattern, s: string): (r: seq<Found>)
    ensures forall k :: 0 <= k < |r| ==> r[k].start < r[k].end <= |s| && r[k].text == s[r[k].start..r[k].end]
    ensures forall k :: 0 <= k < |r| ==> PatternMatcher(p)(s, r[k].start) == Some(r[k].end)
    ensures forall k :: 0 <= k < |r| - 1 ==> r[k].end <= r[k + 1].start
    ensures forall k :: 0 <= k <= |r| ==> NoMatchBetween(PatternMatcher(p), s, GapStart(r, 0, k), GapEnd(r, |s|, k))
    ensures Ordered(s, 0, r)
  {
    PatternMatcherWellFormed(p);
    var r := FindAll(PatternMatcher(p), s);
    OrderedSpans(s, 0, r);
    r
  }

  /** `count_pattern_occurrences(pattern, s)`. */
  function CountPatternOccurrences(p: Pattern, s: string): (n: nat)
    ensures n == |FindAllPatternPositions(p, s)|
  {
    PatternMatcherWellFormed(p);
    Count(PatternMatcher(p), s)
  }

  /** `pattern.sub(rep, s)`: exactly the matches `find_all_pattern_positions`
      reports are replaced, and the text between them is kept. */
  function PatternSub(p: Pattern, rep: Replacer, s: string): (r: string)
    ensures r == Stitch(rep, s, 0, FindAllPatternPositions(p, s))
  {
    PatternMatcherWellFormed(p);
    Sub(PatternMatcher(p), rep, s)
  }
}
