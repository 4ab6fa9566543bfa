/**
  The three rewriters that are a single `re.sub` each: index-hint removal,
  the IFNULL rename and the DATE_FORMAT rewrite.
 */
module Rewriters {
  import opened Wrappers
  import opened Text
  import opened Regex
  import opened RegexPatterns

  /** The replacement `''`. */
  function Erase(): Replacer {
    (s: string, i: nat) => ""
  }

  const Coalesce := "COALESCE("

  /** The replacement `'COALESCE('`. */
  function Rename(): Replacer {
    (s: string, i: nat) => Coalesce
  }

  /** `pattern.sub('', q)` for one index-hint pattern. */
  function StripHint(p: Pattern, q: string): (r: string)
    requires p.ForceIndex? || p.UseIndex? || p.IgnoreIndex?
    ensures var ms := FindAllPatternPositions(p, q);
      && r == Stitch(Erase(), q, 0, ms)
      && |r| + MatchedLength(ms) == |q|
    ensures |FindAllPatternPositions(p, q)| == 0 <==> r == q
  {
    ErasedLength(p, q);
    PatternSub(p, Erase(), q)
  }

  /** Erasing the matches shortens the text by exactly their total length,
      which is positive as soon as there is one. */
  lemma ErasedLength(p: Pattern, q: string)
    ensures var ms := FindAllPatternPositions(p, q);
      && |Stitch(Erase(), q, 0, ms)| + MatchedLength(ms) == |q|
      && (|ms| > 0 <==> MatchedLength(ms) > 0)
      && (|ms| == 0 ==> Stitch(Erase(), q, 0, ms) == q)
  {
    var ms := FindAllPatternPositions(p, q);
    StitchLength(Erase(), 0, q, 0, ms);
    if |ms| > 0 {
      assert ms[0].start < ms[0].end;
    }
  }

  /** `remove_index_hints`: FORCE, then USE, then IGNORE hints removed,
      each together with the whitespace in front of it.  Nothing is ever
      added, and a query without any hint comes back unchanged. */
  function RemoveIndexHints(q: string): (r: string)
    ensures |r| <= |q|
    ensures (&& |FindAllPatternPositions(ForceIndex, q)| == 0
             && |FindAllPatternPositions(UseIndex, q)| == 0
             && |FindAllPatternPositions(IgnoreIndex, q)| == 0) ==> r == q
  {
    StripHint(IgnoreIndex, StripHint(UseIndex, StripHint(ForceIndex, q)))
  }

  /** `convert_ifnull_to_coalesce`: every `IFNULL(` call opening (whatever
      its case, with any whitespace before the parenthesis) becomes
      `COALESCE(`; the text between matches, arguments included, is kept.
      The query grows by the difference in length, once per match. */
  function IfNullToCoalesce(q: string): (r: string)
    ensures var ms := FindAllPatternPositions(IfNullCall, q);
      && r == Stitch(Rename(), q, 0, ms)
      && |r| + MatchedLength(ms) == |q| + |Coalesce| * |ms|
    ensures |FindAllPatternPositions(IfNullCall, q)| == 0 ==> r == q
  {
    var ms := FindAllPatternPositions(IfNullCall, q);
    StitchLength(Rename(), |Coalesce|, q, 0, ms);
    PatternSub(IfNullCall, Rename(), q)
  }

  /** The replacement template `TO_CHAR(\1, 'YYYY-MM-DD')` filled in for
      the DATE_FORMAT match at `i`. */
  function ToChar(s: string, i: nat): string {
    if i <= |s| then
      match DateMatch(s, i)
      case Some(sp) =>
        DateMatchSpec(s, i);
        "TO_CHAR(" + ArgGroup(s[sp.open..sp.comma]) + ", 'YYYY-MM-DD')"
      case None => ""
    else ""
  }

  /** At a DATE_FORMAT match whose first argument is not blank, the
      replacement carries that argument with its whitespace margins cut
      off, and the ISO format in PostgreSQL's spelling. */
  lemma ToCharAtMatch(s: string, i: nat, sp: DateSpan)
    requires DateShape(s, i, sp) && !AllSpace(s[sp.open..sp.comma])
    ensures ToChar(s, i) == "TO_CHAR(" + Strip(s[sp.open..sp.comma]) + ", 'YYYY-MM-DD')"
  {
    DateMatchSpec(s, i);
  }

  function ToCharReplacer(): Replacer {
    (s: string, i: nat) => ToChar(s, i)
  }

  /** `convert_date_format`: every match of the DATE_FORMAT pattern is
      replaced by its TO_CHAR form; the text between matches is kept. */
  function ConvertDateFormat(q: string): (r: string)
    ensures r == Stitch(ToCharReplacer(), q, 0, FindAllPatternPositions(DateFormatCall, q))
    ensures |FindAllPatternPositions(DateFormatCall, q)| == 0 ==> r == q
  {
    PatternSub(DateFormatCall, ToCharReplacer(), q)
  }

  /** Each match `ConvertDateFormat` replaces is a DATE_FORMAT call in the
      exact shape of the pattern. */
  lemma DateFormatMatchesAreCalls(q: string, k: nat)
    requires k < |FindAllPatternPositions(DateFormatCall, q)|
    ensures var m := FindAllPatternPositions(DateFormatCall, q)[k];
      exists sp :: DateShape(q, m.start, sp) && sp.end == m.end
  {
    var m := FindAllPatternPositions(DateFormatCall, q)[k];
    DateMatchSpec(q, m.start);
    var sp := DateMatch(q, m.start).value;
    assert DateShape(q, m.start, sp);
  }
}
