/**
  The worked examples in the docstrings of `remove_index_hints`,
  `convert_ifnull_to_coalesce` and `convert_date_format`, as concrete
  instances of the model.

  Each example text has exactly one match of the pattern that rewrites
  it.  `OnlyMatch` turns "a match here and none anywhere else" into the
  list `finditer` reports, and `StitchOne` turns that list into the
  result of `sub`.  The positions where no match starts are covered a
  stretch at a time: a call pattern needs its name's first letter, and
  an index-hint pattern needs whitespace followed by its keyword.
 */
module RewriterExamples {
  import opened Wrappers
  import opened Text
  import opened Regex
  import opened RegexPatterns
  import opened Rewriters
  import DocExamples
  import IfRewriter
  import Pipeline

  // ---------------------------------------------------------------------
  // finditer and sub with one match or none
  // ---------------------------------------------------------------------

  /** A pattern that matches at `i`, up to `e`, and nowhere before `i` or
      from `e` on, is reported with that one match. */
  lemma OnlyMatch(p: Pattern, s: string, i: nat, e: nat)
    requires i < e <= |s| && MatchAt(p, s, i) == Some(e)
    requires forall j :: 0 <= j < i ==> MatchAt(p, s, j).None?
    requires forall j :: e <= j <= |s| ==> MatchAt(p, s, j).None?
    ensures FindAllPatternPositions(p, s) == [Found(i, e, s[i..e])]
  {
    PatternMatcherWellFormed(p);
    var m := PatternMatcher(p);
    MatcherIsMatchAt(p, s);
    SearchFinds(m, s, 0, i);
    SearchMisses(m, s, e);
    assert FindAllFrom(m, s, e) == [];
    assert FindAllFrom(m, s, 0) == [Found(i, e, s[i..e])];
  }

  /** On positions inside the text the matcher is `MatchAt`. */
  lemma MatcherIsMatchAt(p: Pattern, s: string)
    ensures forall j :: 0 <= j <= |s| ==> PatternMatcher(p)(s, j) == MatchAt(p, s, j)
  {
  }

  /** The leftmost search from `from` stops at the first match. */
  lemma SearchFinds(m: Matcher, s: string, from: nat, i: nat)
    requires WellFormed(m) && from <= i <= |s| && m(s, i).Some?
    requires forall j :: from <= j < i ==> m(s, j).None?
    ensures Search(m, s, from) == Some(i)
  {
  }

  /** The leftmost search from `from` finds nothing when nothing matches
      from there on. */
  lemma SearchMisses(m: Matcher, s: string, from: nat)
    requires WellFormed(m) && from <= |s|
    requires forall j :: from <= j <= |s| ==> m(s, j).None?
    ensures Search(m, s, from).None?
  {
  }

  /** A pattern that matches nowhere is reported with no match. */
  lemma NoMatch(p: Pattern, s: string)
    requires forall j :: 0 <= j <= |s| ==> MatchAt(p, s, j).None?
    ensures FindAllPatternPositions(p, s) == []
  {
  }

  /** `sub` over a single match: the text around it is kept and the match
      is replaced. */
  lemma StitchOne(rep: Replacer, s: string, i: nat, e: nat)
    requires i <= e <= |s|
    ensures Ordered(s, 0, [Found(i, e, s[i..e])])
    ensures Stitch(rep, s, 0, [Found(i, e, s[i..e])]) == s[..i] + rep(s, i) + s[e..]
  {
    var ms := [Found(i, e, s[i..e])];
    assert ms[1..] == [];
    assert s[0..i] == s[..i];
  }

  // ---------------------------------------------------------------------
  // Where a pattern cannot start
  // ---------------------------------------------------------------------

  /** `\bNAME\s*\(` starts only at a letter of the name's first kind. */
  lemma NoCallBetween(name: string, s: string, a: nat, b: nat)
    requires |name| > 0 && a <= b <= |s|
    requires forall k :: a <= k < b ==> !SameIgnoringCase(s[k], name[0])
    ensures forall j :: a <= j < b ==> CallMatch(name, s, j).None?
  {
    forall j | a <= j < b ensures CallMatch(name, s, j).None? {
      assert !SameIgnoringCase(s[j + 0], name[0]);
    }
  }

  /** Nor does it start at the end of the text. */
  lemma NoCallAtEnd(name: string, s: string)
    requires |name| > 0
    ensures CallMatch(name, s, |s|).None?
  {
  }

  /** An index-hint pattern starts only at whitespace. */
  lemma NoHintWithoutSpace(kw: string, s: string, a: nat, b: nat)
    requires IsKeyword(kw) && a <= b <= |s|
    requires forall k :: a <= k < b ==> !IsSpace(s[k])
    ensures forall j :: a <= j < b ==> HintMatch(kw, s, j).None?
  {
  }

  /** A single space followed by something that is not the keyword starts
      no index hint: the keyword's `k`-th letter is missing. */
  lemma NoHintAtSpace(kw: string, s: string, j: nat, k: nat)
    requires IsKeyword(kw) && j + 1 < |s|
    requires IsSpace(s[j]) && !IsSpace(s[j + 1])
    requires k < |kw| && (j + 1 + k < |s| ==> !SameIgnoringCase(s[j + 1 + k], kw[k]))
    ensures HintMatch(kw, s, j).None?
  {
    assert SpacesAt(s, j + 1) == 0;
    assert !LiteralAtIgnoringCase(s, j + 1, kw);
  }

  /** No pattern starts at the end of the text. */
  lemma NoneAtEnd(p: Pattern, s: string)
    ensures MatchAt(p, s, |s|).None?
  {
  }

  // ---------------------------------------------------------------------
  // Texts put together from pieces
  // ---------------------------------------------------------------------

  /** A front without the name's first letter starts no call. */
  lemma NoCallInFront(name: string, front: string, rest: string)
    requires |name| > 0
    requires forall k :: 0 <= k < |front| ==> !SameIgnoringCase(front[k], name[0])
    ensures forall j :: 0 <= j < |front| ==> CallMatch(name, front + rest, j).None?
  {
    var t := front + rest;
    forall k | 0 <= k < |front| ensures !SameIgnoringCase(t[k], name[0]) {
      assert t[k] == front[k];
    }
    NoCallBetween(name, t, 0, |front|);
  }

  /** Nor does a back without it, up to the end of the text. */
  lemma NoCallInBack(name: string, front: string, back: string)
    requires |name| > 0
    requires forall k :: 0 <= k < |back| ==> !SameIgnoringCase(back[k], name[0])
    ensures forall j :: |front| <= j <= |front + back| ==> CallMatch(name, front + back, j).None?
  {
    var t := front + back;
    forall k | |front| <= k < |t| ensures !SameIgnoringCase(t[k], name[0]) {
      assert t[k] == back[k - |front|];
    }
    NoCallBetween(name, t, |front|, |t|);
    NoCallAtEnd(name, t);
  }

  /** The name right after a front that ends outside a word, followed by
      `(`, is a call. */
  lemma CallAfterFront(name: string, front: string, rest: string)
    requires |name| > 0 && |rest| > 0 && rest[0] == '('
    requires |front| == 0 || !IsWordChar(front[|front| - 1])
    ensures CallMatch(name, front + name + rest, |front|) == Some(|front| + |name| + 1)
  {
    var t := front + name + rest;
    var i := |front|;
    assert WordStart(t, i) by {
      if i > 0 { assert t[i - 1] == front[i - 1]; }
    }
    assert LiteralAtIgnoringCase(t, i, name) by {
      forall k | 0 <= k < |name| ensures SameIgnoringCase(t[i + k], name[k]) {
        assert t[i + k] == name[k];
      }
    }
    assert t[i + |name|] == '(';
    assert SpacesAt(t, i + |name|) == 0;
  }

  /** Where an index hint could start at a space in `t` (at `k`), the
      next character is not whitespace and does not begin the keyword:
      it differs from the keyword's first letter, or the one after it
      differs from the second. */
  predicate HintBlockedAt(kw: string, t: string, k: nat)
    requires |kw| >= 2 && k < |t|
  {
    IsSpace(t[k]) ==>
      && k + 1 < |t| && !IsSpace(t[k + 1])
      && (!SameIgnoringCase(t[k + 1], kw[0]) || (k + 2 < |t| && !SameIgnoringCase(t[k + 2], kw[1])))
  }

  /** A front blocked at every space starts no index hint. */
  lemma NoHintInFront(kw: string, front: string, rest: string)
    requires IsKeyword(kw) && |kw| >= 2
    requires forall k :: 0 <= k < |front| ==> HintBlockedAt(kw, front, k)
    ensures forall j :: 0 <= j < |front| ==> HintMatch(kw, front + rest, j).None?
  {
    var t := front + rest;
    forall j | 0 <= j < |front| ensures HintMatch(kw, t, j).None? {
      assert HintBlockedAt(kw, front, j);
      assert t[j] == front[j];
      if IsSpace(front[j]) {
        assert t[j + 1] == front[j + 1];
        if SameIgnoringCase(front[j + 1], kw[0]) {
          assert t[j + 2] == front[j + 2];
          NoHintAtSpace(kw, t, j, 1);
        } else {
          NoHintAtSpace(kw, t, j, 0);
        }
      }
    }
  }

  /** Nor does a blocked back, up to the end of the text. */
  lemma NoHintInBack(kw: string, front: string, back: string)
    requires IsKeyword(kw) && |kw| >= 2
    requires forall k :: 0 <= k < |back| ==> HintBlockedAt(kw, back, k)
    ensures forall j :: |front| <= j <= |front + back| ==> HintMatch(kw, front + back, j).None?
  {
    var t := front + back;
    var n := |front|;
    forall j | n <= j <= |t| ensures HintMatch(kw, t, j).None? {
      if j < |t| {
        assert HintBlockedAt(kw, back, j - n);
        assert t[j] == back[j - n];
        if IsSpace(back[j - n]) {
          assert t[j + 1] == back[j - n + 1];
          if SameIgnoringCase(back[j - n + 1], kw[0]) {
            assert t[j + 2] == back[j - n + 2];
            NoHintAtSpace(kw, t, j, 1);
          } else {
            NoHintAtSpace(kw, t, j, 0);
          }
        }
      }
    }
  }

  /** `front KW INDEX (list) back` holds the hint right after the front,
      up to the end of the list. */
  lemma HintAfterFront(kw: string, front: string, list: string, back: string)
    requires IsKeyword(kw) && |list| > 0
    requires forall k :: 0 <= k < |list| ==> list[k] != ')'
    ensures var t := front + " " + kw + " INDEX (" + list + ")" + back;
      HintMatch(kw, t, |front|) == Some(HintSpan(|front| + 1, |front| + |kw| + 2, |front| + |kw| + 8, |t| - |back|))
  {
    var t := front + " " + kw + " INDEX (" + list + ")" + back;
    var i := |front|;
    var sp := HintSpan(i + 1, i + |kw| + 2, i + |kw| + 8, |t| - |back|);
    assert t[i] == ' ' && t[i + |kw| + 1] == ' ' && t[sp.open - 1] == ' ' && t[sp.open] == '(';
    assert LiteralAtIgnoringCase(t, sp.keyword, kw) by {
      forall k | 0 <= k < |kw| ensures SameIgnoringCase(t[sp.keyword + k], kw[k]) {
        assert t[sp.keyword + k] == kw[k];
      }
    }
    assert LiteralAtIgnoringCase(t, sp.index, "INDEX") by {
      forall k | 0 <= k < 5 ensures SameIgnoringCase(t[sp.index + k], "INDEX"[k]) {
        assert t[sp.index + k] == "INDEX"[k];
      }
    }
    assert LacksBetween(t, sp.open + 1, sp.end - 1, ')') by {
      forall k | sp.open + 1 <= k < sp.end - 1 ensures t[k] != ')' {
        assert t[k] == list[k - sp.open - 1];
      }
    }
    assert t[sp.end - 1] == ')';
    assert HintShape(kw, t, i, sp);
    HintComplete(kw, t, i, sp);
  }

  /** Two texts blocked at every space are blocked at every space when
      glued: a blocked space is never a text's last character. */
  lemma BlockedConcat(kw: string, a: string, b: string)
    requires |kw| >= 2
    requires forall k :: 0 <= k < |a| ==> HintBlockedAt(kw, a, k)
    requires forall k :: 0 <= k < |b| ==> HintBlockedAt(kw, b, k)
    ensures forall k :: 0 <= k < |a + b| ==> HintBlockedAt(kw, a + b, k)
  {
    var t := a + b;
    forall k | 0 <= k < |t| ensures HintBlockedAt(kw, t, k) {
      if k < |a| {
        assert HintBlockedAt(kw, a, k);
        assert t[k] == a[k];
        if IsSpace(a[k]) {
          assert t[k + 1] == a[k + 1];
          if k + 2 < |a| {
            assert t[k + 2] == a[k + 2];
          }
        }
      } else {
        var j := k - |a|;
        assert HintBlockedAt(kw, b, j);
        assert t[k] == b[j];
        if IsSpace(b[j]) {
          assert t[k + 1] == b[j + 1];
          if j + 2 < |b| {
            assert t[k + 2] == b[j + 2];
          }
        }
      }
    }
  }

  /** A front that holds no `IF` and does not end inside a word starts no
      IFNULL call. */
  lemma NoIfNullInFront(front: string, rest: string)
    requires DocExamples.NoIfPair(front)
    requires |front| == 0 || !IsWordChar(front[|front| - 1])
    ensures forall j :: 0 <= j < |front| ==> CallMatch("IFNULL", front + rest, j).None?
  {
    var t := front + rest;
    forall j | 0 <= j < |front| ensures CallMatch("IFNULL", t, j).None? {
      assert t[j] == front[j];
      if j + 1 < |front| {
        assert t[j + 1] == front[j + 1];
        assert !(SameIgnoringCase(t[j], "IFNULL"[0]) && SameIgnoringCase(t[j + 1], "IFNULL"[1]));
      } else {
        assert !SameIgnoringCase(t[j], "IFNULL"[0]);
      }
    }
  }

  /** No underscore anywhere in the text. */
  predicate NoUnderscore(t: string) {
    forall k :: 0 <= k < |t| ==> t[k] != '_'
  }

  lemma UnderscoreConcat(a: string, b: string)
    requires NoUnderscore(a) && NoUnderscore(b)
    ensures NoUnderscore(a + b)
  {
    var t := a + b;
    forall k | 0 <= k < |t| ensures t[k] != '_' {
      if k < |a| {
        assert t[k] == a[k];
      } else {
        assert t[k] == b[k - |a|];
      }
    }
  }

  /** DATE_FORMAT holds an underscore, so a text without one has no call
      to rewrite and comes out unchanged. */
  lemma NoDateWithoutUnderscore(t: string)
    requires NoUnderscore(t)
    ensures ConvertDateFormat(t) == t
  {
    forall j | 0 <= j <= |t| ensures MatchAt(DateFormatCall, t, j).None? {
      if j + |DateFormatName| <= |t| {
        assert DateFormatName[4] == '_';
        assert !SameIgnoringCase(t[j + 4], DateFormatName[4]);
      }
    }
    NoMatch(DateFormatCall, t);
  }

  // ---------------------------------------------------------------------
  // One rewrite between a front and a back
  // ---------------------------------------------------------------------

  /** A query with one IFNULL call, after a front without an `IF` and
      before a back without an `I`, has that call renamed and the rest
      kept. */
  lemma IfNullOnly(s: string, front: string, back: string)
    requires s == front + "IFNULL" + "(" + back
    requires |front| == 0 || !IsWordChar(front[|front| - 1])
    requires DocExamples.NoIfPair(front)
    requires forall k :: 0 <= k < |back| ==> !SameIgnoringCase(back[k], 'I')
    ensures IfNullToCoalesce(s) == front + Coalesce + back
  {
    var name := "IFNULL";
    var i := |front|;
    assert s == front + name + ("(" + back);
    CallAfterFront(name, front, "(" + back);
    assert s == front + (name + ("(" + back));
    NoIfNullInFront(front, name + ("(" + back));
    assert s == (front + name + "(") + back;
    NoCallInBack(name, front + name + "(", back);
    OnlyMatch(IfNullCall, s, i, i + 7);
    StitchOne(Rename(), s, i, i + 7);
    assert s[..i] == front && s[i + 7..] == back;
  }

  /** The format argument of the DATE_FORMAT pattern as `'%Y-%m-%d'`,
      with the closing parenthesis. */
  const IsoTail := ", '" + IsoFormat + "')"

  /** A text ending in `IsoTail` has the format part of the pattern there. */
  lemma FormatAtTail(u: string)
    ensures FormatShape(u + IsoTail, |u|, |u| + 2, |u| + |IsoTail|)
  {
    var t := u + IsoTail;
    var c := |u|;
    assert t[c] == ',' && t[c + 1] == ' ' && t[c + 2] == '\'';
    assert LiteralAtIgnoringCase(t, c + 3, IsoFormat) by {
      forall k | 0 <= k < |IsoFormat| ensures SameIgnoringCase(t[c + 3 + k], IsoFormat[k]) {
        assert t[c + 3 + k] == IsoFormat[k];
      }
    }
    assert t[c + 11] == '\'' && t[c + 12] == ')';
  }

  /** A DATE_FORMAT query put together from a front and a first argument. */
  predicate DateQuery(s: string, front: string, arg: string) {
    s == front + DateFormatName + ("(" + arg + IsoTail)
  }

  /** Where the parts of the match in a `DateQuery` sit. */
  function DateSpanOf(front: string, arg: string): DateSpan {
    var open := |front| + |DateFormatName| + 1;
    DateSpan(open, open + |arg|, open + |arg| + 2, open + |arg| + |IsoTail|)
  }

  /** The call after the front has the shape of the DATE_FORMAT pattern. */
  lemma DateAfterFront(s: string, front: string, arg: string)
    requires DateQuery(s, front, arg)
    requires |front| == 0 || !IsWordChar(front[|front| - 1])
    requires |arg| > 0 && forall k :: 0 <= k < |arg| ==> arg[k] != ','
    ensures DateShape(s, |front|, DateSpanOf(front, arg))
  {
    var sp := DateSpanOf(front, arg);
    DateCallHere(s, front, arg);
    DateArgHere(s, front, arg);
    var u := front + DateFormatName + "(" + arg;
    assert s == u + IsoTail;
    FormatAtTail(u);
  }

  lemma DateCallHere(s: string, front: string, arg: string)
    requires DateQuery(s, front, arg)
    requires |front| == 0 || !IsWordChar(front[|front| - 1])
    ensures CallShape(DateFormatName, s, |front|, DateSpanOf(front, arg).open)
  {
    CallAfterFront(DateFormatName, front, "(" + arg + IsoTail);
  }

  lemma DateArgHere(s: string, front: string, arg: string)
    requires DateQuery(s, front, arg)
    requires forall k :: 0 <= k < |arg| ==> arg[k] != ','
    ensures var sp := DateSpanOf(front, arg);
      sp.comma <= |s| && LacksBetween(s, sp.open, sp.comma, ',')
  {
    var sp := DateSpanOf(front, arg);
    forall k | sp.open <= k < sp.comma ensures s[k] != ',' {
      assert s[k] == arg[k - sp.open];
    }
  }

  /** The call after the front is the one DATE_FORMAT match. */
  lemma DateFound(s: string, front: string, arg: string)
    requires DateQuery(s, front, arg)
    requires |front| == 0 || !IsWordChar(front[|front| - 1])
    requires forall k :: 0 <= k < |front| ==> !SameIgnoringCase(front[k], 'D')
    requires |arg| > 0 && forall k :: 0 <= k < |arg| ==> arg[k] != ','
    ensures FindAllPatternPositions(DateFormatCall, s) == [Found(|front|, |s|, s[|front|..|s|])]
  {
    DateMatchHere(s, front, arg);
    DateNoneBefore(s, front, arg);
    NoneAtEnd(DateFormatCall, s);
    OnlyMatch(DateFormatCall, s, |front|, |s|);
  }

  /** No DATE_FORMAT match starts in the front. */
  lemma DateNoneBefore(s: string, front: string, arg: string)
    requires DateQuery(s, front, arg)
    requires forall k :: 0 <= k < |front| ==> !SameIgnoringCase(front[k], 'D')
    ensures forall j :: 0 <= j < |front| ==> MatchAt(DateFormatCall, s, j).None?
  {
    var rest := "(" + arg + IsoTail;
    assert s == front + (DateFormatName + rest);
    NoCallInFront(DateFormatName, front, DateFormatName + rest);
  }

  lemma DateMatchHere(s: string, front: string, arg: string)
    requires DateQuery(s, front, arg)
    requires |front| == 0 || !IsWordChar(front[|front| - 1])
    requires |arg| > 0 && forall k :: 0 <= k < |arg| ==> arg[k] != ','
    ensures MatchAt(DateFormatCall, s, |front|) == Some(|s|)
  {
    DateAfterFront(s, front, arg);
    DateMatchSpec(s, |front|);
  }

  /** The TO_CHAR text for the match after the front. */
  lemma ToCharHere(s: string, front: string, arg: string)
    requires DateQuery(s, front, arg)
    requires |front| == 0 || !IsWordChar(front[|front| - 1])
    requires |arg| > 0 && !IsSpace(arg[0]) && !IsSpace(arg[|arg| - 1])
    requires forall k :: 0 <= k < |arg| ==> arg[k] != ','
    ensures ToChar(s, |front|) == "TO_CHAR(" + arg + ", 'YYYY-MM-DD')"
  {
    var sp := DateSpanOf(front, arg);
    DateAfterFront(s, front, arg);
    assert s[sp.open..sp.comma] == arg;
    DocExamples.StripNone(arg);
    ToCharAtMatch(s, |front|, sp);
  }

  /** A query with one DATE_FORMAT call in the ISO format, and no other `D`
      in front of it, has that call rewritten to TO_CHAR. */
  lemma DateOnly(s: string, front: string, arg: string)
    requires DateQuery(s, front, arg)
    requires |front| == 0 || !IsWordChar(front[|front| - 1])
    requires forall k :: 0 <= k < |front| ==> !SameIgnoringCase(front[k], 'D')
    requires |arg| > 0 && !IsSpace(arg[0]) && !IsSpace(arg[|arg| - 1])
    requires forall k :: 0 <= k < |arg| ==> arg[k] != ','
    ensures ConvertDateFormat(s) == front + ("TO_CHAR(" + arg + ", 'YYYY-MM-DD')")
  {
    DateStitched(s, front, arg);
    ToCharHere(s, front, arg);
  }

  /** `sub` keeps the front and puts the TO_CHAR text in place of the match. */
  lemma DateStitched(s: string, front: string, arg: string)
    requires DateQuery(s, front, arg)
    requires |front| == 0 || !IsWordChar(front[|front| - 1])
    requires forall k :: 0 <= k < |front| ==> !SameIgnoringCase(front[k], 'D')
    requires |arg| > 0 && forall k :: 0 <= k < |arg| ==> arg[k] != ','
    ensures ConvertDateFormat(s) == front + ToChar(s, |front|)
  {
    var i := |front|;
    DateFound(s, front, arg);
    StitchOne(ToCharReplacer(), s, i, |s|);
    assert ToCharReplacer()(s, i) == ToChar(s, i);
    assert s[..i] == front && s[|s|..] == [];
  }

  /** The index-hint pattern of `kw`. */
  predicate HintPattern(p: Pattern, kw: string) {
    || (p == ForceIndex && kw == "FORCE")
    || (p == UseIndex && kw == "USE")
    || (p == IgnoreIndex && kw == "IGNORE")
  }

  /** A query whose spaces are all blocked for `kw` keeps its text. */
  lemma HintNone(p: Pattern, kw: string, front: string, back: string)
    requires HintPattern(p, kw)
    requires forall k :: 0 <= k < |front| ==> HintBlockedAt(kw, front, k)
    requires forall k :: 0 <= k < |back| ==> HintBlockedAt(kw, back, k)
    ensures StripHint(p, front + back) == front + back
  {
    NoHintInFront(kw, front, back);
    NoHintInBack(kw, front, back);
    NoMatch(p, front + back);
  }

  /** A query put together from a front, one index hint and a back. */
  predicate HintQuery(s: string, kw: string, front: string, list: string, back: string) {
    s == front + " " + kw + " INDEX (" + list + ")" + back
  }

  /** A query holding one `kw INDEX (list)` hint, with all spaces around
      it blocked, loses the hint and keeps the text on both sides. */
  lemma HintOnly(p: Pattern, kw: string, s: string, front: string, list: string, back: string)
    requires HintPattern(p, kw) && HintQuery(s, kw, front, list, back)
    requires forall k :: 0 <= k < |front| ==> HintBlockedAt(kw, front, k)
    requires forall k :: 0 <= k < |back| ==> HintBlockedAt(kw, back, k)
    requires |list| > 0 && forall k :: 0 <= k < |list| ==> list[k] != ')'
    ensures StripHint(p, s) == front + back
  {
    HintFound(p, kw, s, front, list, back);
    EraseOne(p, s, |front|, |s| - |back|);
  }

  /** Erasing the one match of a hint pattern keeps the text around it. */
  lemma EraseOne(p: Pattern, s: string, i: nat, e: nat)
    requires HintPattern(p, "FORCE") || HintPattern(p, "USE") || HintPattern(p, "IGNORE")
    requires i <= e <= |s| && FindAllPatternPositions(p, s) == [Found(i, e, s[i..e])]
    ensures StripHint(p, s) == s[..i] + s[e..]
  {
    StitchOne(Erase(), s, i, e);
    assert Erase()(s, i) == "";
  }

  /** The hint after the front is the one match of its pattern. */
  lemma HintFound(p: Pattern, kw: string, s: string, front: string, list: string, back: string)
    requires HintPattern(p, kw) && HintQuery(s, kw, front, list, back)
    requires forall k :: 0 <= k < |front| ==> HintBlockedAt(kw, front, k)
    requires forall k :: 0 <= k < |back| ==> HintBlockedAt(kw, back, k)
    requires |list| > 0 && forall k :: 0 <= k < |list| ==> list[k] != ')'
    ensures |front| < |s| - |back| && s[..|front|] == front && s[|s| - |back|..] == back
    ensures FindAllPatternPositions(p, s) == [Found(|front|, |s| - |back|, s[|front|..|s| - |back|])]
  {
    HintMatchHere(p, kw, s, front, list, back);
    HintOnlyMatch(p, kw, s, front, back);
  }

  /** A match right after a blocked front that reaches a blocked back is
      the only one. */
  lemma HintOnlyMatch(p: Pattern, kw: string, s: string, front: string, back: string)
    requires HintPattern(p, kw) && |front| < |s| - |back|
    requires s[..|front|] == front && s[|s| - |back|..] == back
    requires MatchAt(p, s, |front|) == Some(|s| - |back|)
    requires forall k :: 0 <= k < |front| ==> HintBlockedAt(kw, front, k)
    requires forall k :: 0 <= k < |back| ==> HintBlockedAt(kw, back, k)
    ensures FindAllPatternPositions(p, s) == [Found(|front|, |s| - |back|, s[|front|..|s| - |back|])]
  {
    HintNoneBefore(p, kw, s, front);
    HintNoneAfter(p, kw, s, back);
    OnlyMatch(p, s, |front|, |s| - |back|);
  }

  /** The hint after the front is a match of its pattern. */
  lemma HintMatchHere(p: Pattern, kw: string, s: string, front: string, list: string, back: string)
    requires HintPattern(p, kw) && HintQuery(s, kw, front, list, back)
    requires |list| > 0 && forall k :: 0 <= k < |list| ==> list[k] != ')'
    ensures |front| < |s| - |back| && s[..|front|] == front && s[|s| - |back|..] == back
    ensures MatchAt(p, s, |front|) == Some(|s| - |back|)
  {
    HintPartsKept(s, kw, front, list, back);
    HintEndHere(s, kw, front, list, back);
    match p
    case ForceIndex =>
    case UseIndex =>
    case IgnoreIndex =>
  }

  lemma HintEndHere(s: string, kw: string, front: string, list: string, back: string)
    requires IsKeyword(kw) && HintQuery(s, kw, front, list, back)
    requires |list| > 0 && forall k :: 0 <= k < |list| ==> list[k] != ')'
    ensures |front| < |s| && HintEnd(kw, s, |front|) == Some(|s| - |back|)
  {
    HintAfterFront(kw, front, list, back);
  }

  lemma HintPartsKept(s: string, kw: string, front: string, list: string, back: string)
    requires HintQuery(s, kw, front, list, back)
    ensures |front| < |s| - |back| && s[..|front|] == front && s[|s| - |back|..] == back
  {
  }

  /** No match of the hint pattern starts in a blocked front. */
  lemma HintNoneBefore(p: Pattern, kw: string, s: string, front: string)
    requires HintPattern(p, kw) && |front| <= |s| && s[..|front|] == front
    requires forall k :: 0 <= k < |front| ==> HintBlockedAt(kw, front, k)
    ensures forall j :: 0 <= j < |front| ==> MatchAt(p, s, j).None?
  {
    assert s == front + s[|front|..];
    NoHintInFront(kw, front, s[|front|..]);
  }

  /** Nor in a blocked back, up to the end of the text. */
  lemma HintNoneAfter(p: Pattern, kw: string, s: string, back: string)
    requires HintPattern(p, kw) && |back| <= |s| && s[|s| - |back|..] == back
    requires forall k :: 0 <= k < |back| ==> HintBlockedAt(kw, back, k)
    ensures forall j :: |s| - |back| <= j <= |s| ==> MatchAt(p, s, j).None?
  {
    var f := s[..|s| - |back|];
    assert s == f + back;
    NoHintInBack(kw, f, back);
  }

  // ---------------------------------------------------------------------
  // The examples
  // ---------------------------------------------------------------------

  const IfNullFront := "SELECT "
  const IfNullBack := "amount, 0)"
  const IfNullText := IfNullFront + "IFNULL" + "(" + IfNullBack
  const IfNullResult := IfNullFront + Coalesce + IfNullBack

  /** `convert_ifnull_to_coalesce("SELECT IFNULL(amount, 0)")`. */
  lemma IfNullExample()
    ensures IfNullToCoalesce("SELECT IFNULL(amount, 0)") == "SELECT COALESCE(amount, 0)"
  {
    IfNullTextIs();
    IfNullResultIs();
    IfNullPiecesClear();
    DocExamples.LiteralClear(IfNullFront);
    IfNullOnly(IfNullText, IfNullFront, IfNullBack);
  }

  lemma IfNullTextIs()
    ensures IfNullText == "SELECT IFNULL(amount, 0)"
  {
  }

  lemma IfNullResultIs()
    ensures IfNullResult == "SELECT COALESCE(amount, 0)"
  {
  }

  lemma IfNullPiecesClear()
    ensures !IsWordChar(IfNullFront[|IfNullFront| - 1])
    ensures forall k :: 0 <= k < |IfNullBack| ==> !SameIgnoringCase(IfNullBack[k], 'I')
  {
  }

  const DateFront := "SELECT "
  const DateArg := "posting_date"
  const DateText := DateFront + DateFormatName + ("(" + DateArg + IsoTail)

  /** `convert_date_format("SELECT DATE_FORMAT(posting_date, '%Y-%m-%d')")`.
      The expected text is the docstring's, cut where the TO_CHAR template
      puts the first argument. */
  lemma DateExample()
    ensures ConvertDateFormat("SELECT DATE_FORMAT(posting_date, '%Y-%m-%d')")
      == "SELECT " + "TO_CHAR(" + "posting_date" + ", 'YYYY-MM-DD')"
  {
    DateTextIs();
    DateResultIs();
    DatePiecesClear();
    DateOnly(DateText, DateFront, DateArg);
  }

  lemma DateTextIs()
    ensures DateText == "SELECT DATE_FORMAT(posting_date, '%Y-%m-%d')"
  {
    DatePiecesAre();
    assert DateText == "SELECT DATE_FORMAT(" + "posting_date, '%Y-%m-%d')";
  }

  lemma DateResultIs()
    ensures DateFront + ("TO_CHAR(" + DateArg + ", 'YYYY-MM-DD')") == "SELECT " + "TO_CHAR(" + "posting_date" + ", 'YYYY-MM-DD')"
  {
    DatePiecesAre();
  }

  /** The pieces spell the docstring's text. */
  lemma DatePiecesAre()
    ensures DateFront == "SELECT " && DateFormatName == "DATE_FORMAT" && DateArg == "posting_date"
    ensures IsoTail == ", '%Y-%m-%d')"
  {
  }

  lemma DatePiecesClear()
    ensures !IsWordChar(DateFront[|DateFront| - 1])
    ensures forall k :: 0 <= k < |DateFront| ==> !SameIgnoringCase(DateFront[k], 'D')
    ensures |DateArg| > 0 && !IsSpace(DateArg[0]) && !IsSpace(DateArg[|DateArg| - 1])
    ensures forall k :: 0 <= k < |DateArg| ==> DateArg[k] != ','
  {
  }

  const ForceFront := "SELECT * FROM tab"
  const ForceList := "idx_name"
  const ForceText := ForceFront + " " + "FORCE" + " INDEX (" + ForceList + ")"

  /** `remove_index_hints("SELECT * FROM tab FORCE INDEX (idx_name)")`: the
      FORCE pass removes the hint, and the USE and IGNORE passes find
      nothing in what is left. */
  lemma ForceHintExample()
    ensures RemoveIndexHints("SELECT * FROM tab FORCE INDEX (idx_name)") == "SELECT * FROM tab"
  {
    ForceTextIs();
    ForceFrontBlocked();
    HintOnly(ForceIndex, "FORCE", ForceText, ForceFront, ForceList, "");
    HintNone(UseIndex, "USE", ForceFront, "");
    HintNone(IgnoreIndex, "IGNORE", ForceFront, "");
    assert ForceFront + "" == ForceFront;
  }

  lemma ForceTextIs()
    ensures ForceText == "SELECT * FROM tab FORCE INDEX (idx_name)"
  {
  }

  lemma ForceFrontBlocked()
    ensures forall k :: 0 <= k < |ForceFront| ==> HintBlockedAt("FORCE", ForceFront, k)
    ensures forall k :: 0 <= k < |ForceFront| ==> HintBlockedAt("USE", ForceFront, k)
    ensures forall k :: 0 <= k < |ForceFront| ==> HintBlockedAt("IGNORE", ForceFront, k)
    ensures |ForceList| > 0 && forall k :: 0 <= k < |ForceList| ==> ForceList[k] != ')'
  {
  }

  const UseFront := "FROM tabGL Entry"
  const UseList := "posting_date"
  const UseBack := " " + "USE" + " INDEX (" + UseList + ")"

  /** `remove_index_hints("FROM tabGL Entry USE INDEX (posting_date)")`: the
      FORCE pass finds nothing, the USE pass removes the hint, and the
      IGNORE pass finds nothing in what is left. */
  lemma UseHintExample()
    ensures RemoveIndexHints("FROM tabGL Entry USE INDEX (posting_date)") == "FROM tabGL Entry"
  {
    UseTextIs();
    UseFrontBlocked();
    UseBackBlocked();
    HintNone(ForceIndex, "FORCE", UseFront, UseBack);
    assert HintQuery(UseFront + UseBack, "USE", UseFront, UseList, "");
    HintOnly(UseIndex, "USE", UseFront + UseBack, UseFront, UseList, "");
    HintNone(IgnoreIndex, "IGNORE", UseFront, "");
    assert UseFront + "" == UseFront;
  }

  lemma UseTextIs()
    ensures UseFront + UseBack == "FROM tabGL Entry USE INDEX (posting_date)"
  {
  }

  lemma UseFrontBlocked()
    ensures forall k :: 0 <= k < |UseFront| ==> HintBlockedAt("FORCE", UseFront, k)
    ensures forall k :: 0 <= k < |UseFront| ==> HintBlockedAt("USE", UseFront, k)
    ensures forall k :: 0 <= k < |UseFront| ==> HintBlockedAt("IGNORE", UseFront, k)
    ensures |UseList| > 0 && forall k :: 0 <= k < |UseList| ==> UseList[k] != ')'
  {
  }

  lemma UseBackBlocked()
    ensures forall k :: 0 <= k < |UseBack| ==> HintBlockedAt("FORCE", UseBack, k)
  {
  }

  // ---------------------------------------------------------------------
  // The whole pipeline
  // ---------------------------------------------------------------------

  const PipeTail := ")" + " FROM t"
  const PipeSelect := DocExamples.NestedTextWith(PipeTail)
  const PipeList := "idx1"
  const PipeCond := "x,0)>0"
  const PipeCall := "IFNULL" + "(" + PipeCond
  const PipeWhere := " WHERE " + PipeCall
  const PipeText := PipeSelect + " " + "FORCE" + " INDEX (" + PipeList + ")" + PipeWhere
  /** What stands before the IFNULL call once the IF pass is done. */
  const PipeBefore := PipeTail + " WHERE "
  const PipeCaseFront := DocExamples.NestedResultWith(PipeBefore)
  const PipeResult := PipeCaseFront + Coalesce + PipeCond

  /** `apply_all_query_transformations` on a query with an `IF` inside
      `SUM(...)`, a FORCE INDEX hint and an IFNULL call: the hint pass
      removes the hint, the IF pass writes the CASE expression, the IFNULL
      pass renames the call, and the DATE_FORMAT pass finds nothing. */
  lemma PipelineExample()
    ensures Pipeline.ApplyAll(Pipeline.SqlText("SELECT SUM(IF(status='Active', amount, 0)) FROM t FORCE INDEX (idx1) WHERE IFNULL(x,0)>0"))
         == Pipeline.SqlText("SELECT SUM(CASE WHEN status='Active' THEN amount ELSE 0 END) FROM t WHERE COALESCE(x,0)>0")
  {
    PipeTextIs();
    PipeResultIs();
    PipeHintsRemoved();
    PipeIfConverted();
    PipeIfNullRenamed();
    PipeNoDate();
  }

  /** Regrouping a concatenation. */
  lemma Regroup(a: string, b: string, c: string)
    ensures a + (b + c) == a + b + c
  {
  }

  /** Text after a call or a CASE expression can be counted as part of
      its back. */
  lemma BackGrows(front: string, inner: string, c: string, t: string, e: string, b1: string, b2: string)
    ensures DocExamples.CallText(front, inner, b1) + b2 == DocExamples.CallText(front, inner, b1 + b2)
    ensures DocExamples.CaseText(front, c, t, e, b1) + b2 == DocExamples.CaseText(front, c, t, e, b1 + b2)
  {
  }

  lemma PipeTextIs()
    ensures PipeText == "SELECT SUM(IF(status='Active', amount, 0)) FROM t FORCE INDEX (idx1) WHERE IFNULL(x,0)>0"
  {
    PipeSelectIs();
    PipeHintIs();
    PipeWhereIs();
    PipeTextJoins();
    assert PipeText == PipeSelect + (" " + "FORCE" + " INDEX (" + PipeList + ")") + PipeWhere;
  }

  lemma PipeSelectIs()
    ensures PipeSelect == "SELECT SUM(IF(status='Active', amount, 0))" + " FROM t"
  {
    DocExamples.NestedTextIs();
    BackGrows(DocExamples.NestedFront, DocExamples.NestedInner, "", "", "", ")", " FROM t");
  }

  lemma PipeHintIs()
    ensures " " + "FORCE" + " INDEX (" + PipeList + ")" == " FORCE INDEX (idx1)"
  {
  }

  lemma PipeWhereIs()
    ensures PipeWhere == " WHERE IFNULL(x,0)>0"
  {
  }

  /** The example query cut where its pieces meet. */
  lemma PipeTextJoins()
    ensures "SELECT SUM(IF(status='Active', amount, 0)) FROM t FORCE INDEX (idx1) WHERE IFNULL(x,0)>0"
         == "SELECT SUM(IF(status='Active', amount, 0)) FROM t FORCE INDEX (idx1)" + " WHERE IFNULL(x,0)>0"
    ensures "SELECT SUM(IF(status='Active', amount, 0)) FROM t FORCE INDEX (idx1)"
         == "SELECT SUM(IF(status='Active', amount, 0))" + " FROM t" + " FORCE INDEX (idx1)"
  {
  }

  lemma PipeResultIs()
    ensures PipeResult == "SELECT SUM(CASE WHEN status='Active' THEN amount ELSE 0 END) FROM t WHERE COALESCE(x,0)>0"
  {
    DocExamples.NestedResultIs();
    PipeCaseJoins();
    PipeResultJoins();
    PipeResultFrontJoins();
    BackGrows(DocExamples.NestedFront, "", "status='Active'", "amount", "0", ")", " FROM t");
    BackGrows(DocExamples.NestedFront, "", "status='Active'", "amount", "0", PipeTail, " WHERE ");
  }

  /** The expected result cut where its pieces meet. */
  lemma PipeCaseJoins()
    ensures "SELECT SUM(" + "CASE WHEN " + "status='Active'" + " THEN " + "amount" + " ELSE " + "0" + " END" + ")"
         == "SELECT SUM(CASE WHEN status='Active' THEN amount ELSE 0 END)"
  {
    PipeCaseHalves();
    PipeCaseCut();
    Regroup6("SELECT SUM(" + "CASE WHEN " + "status='Active'", " THEN ", "amount", " ELSE ", "0", " END", ")");
  }

  lemma PipeCaseHalves()
    ensures "SELECT SUM(" + "CASE WHEN " + "status='Active'" == "SELECT SUM(CASE WHEN status='Active'"
    ensures " THEN " + "amount" + " ELSE " + "0" + " END" + ")" == " THEN amount ELSE 0 END)"
  {
  }

  lemma PipeCaseCut()
    ensures "SELECT SUM(CASE WHEN status='Active' THEN amount ELSE 0 END)"
         == "SELECT SUM(CASE WHEN status='Active'" + " THEN amount ELSE 0 END)"
  {
  }

  lemma Regroup6(x: string, a: string, b: string, c: string, d: string, e: string, f: string)
    ensures x + a + b + c + d + e + f == x + (a + b + c + d + e + f)
  {
  }

  lemma PipeResultJoins()
    ensures "SELECT SUM(CASE WHEN status='Active' THEN amount ELSE 0 END) FROM t WHERE COALESCE(x,0)>0"
         == "SELECT SUM(CASE WHEN status='Active' THEN amount ELSE 0 END) FROM t WHERE " + "COALESCE(x,0)>0"
  {
  }

  lemma PipeResultFrontJoins()
    ensures "SELECT SUM(CASE WHEN status='Active' THEN amount ELSE 0 END) FROM t WHERE "
         == "SELECT SUM(CASE WHEN status='Active' THEN amount ELSE 0 END)" + " FROM t" + " WHERE "
    ensures "COALESCE(x,0)>0" == "COALESCE(" + "x,0)>0"
  {
  }

  /** The FORCE pass removes the hint; the USE and IGNORE passes find
      nothing. */
  lemma PipeHintsRemoved()
    ensures RemoveIndexHints(PipeText) == PipeSelect + PipeWhere
  {
    PipeSelectBlocked();
    PipeWhereBlocked(PipeWhere);
    PipeChunksBlocked(PipeList);
    assert HintQuery(PipeText, "FORCE", PipeSelect, PipeList, PipeWhere);
    HintOnly(ForceIndex, "FORCE", PipeText, PipeSelect, PipeList, PipeWhere);
    HintNone(UseIndex, "USE", PipeSelect, PipeWhere);
    HintNone(IgnoreIndex, "IGNORE", PipeSelect, PipeWhere);
  }

  /** Every space of the SELECT part is blocked for all three hints. */
  lemma PipeSelectBlocked()
    ensures forall k :: 0 <= k < |PipeSelect| ==> HintBlockedAt("FORCE", PipeSelect, k)
    ensures forall k :: 0 <= k < |PipeSelect| ==> HintBlockedAt("USE", PipeSelect, k)
    ensures forall k :: 0 <= k < |PipeSelect| ==> HintBlockedAt("IGNORE", PipeSelect, k)
  {
    PipeChunksBlocked(DocExamples.NestedFront);
    PipeChunksBlocked("IF(");
    PipeInnerBlocked(DocExamples.NestedInner);
    PipeChunksBlocked(")");
    PipeChunksBlocked(PipeTail);
    CallTextBlocked("FORCE", DocExamples.NestedFront, DocExamples.NestedInner, PipeTail);
    CallTextBlocked("USE", DocExamples.NestedFront, DocExamples.NestedInner, PipeTail);
    CallTextBlocked("IGNORE", DocExamples.NestedFront, DocExamples.NestedInner, PipeTail);
  }

  /** A call text whose pieces are blocked is blocked. */
  lemma CallTextBlocked(kw: string, front: string, inner: string, back: string)
    requires |kw| >= 2
    requires forall k :: 0 <= k < |front| ==> HintBlockedAt(kw, front, k)
    requires forall k :: 0 <= k < |"IF("| ==> HintBlockedAt(kw, "IF(", k)
    requires forall k :: 0 <= k < |inner| ==> HintBlockedAt(kw, inner, k)
    requires forall k :: 0 <= k < |")"| ==> HintBlockedAt(kw, ")", k)
    requires forall k :: 0 <= k < |back| ==> HintBlockedAt(kw, back, k)
    ensures var t := DocExamples.CallText(front, inner, back);
      forall k :: 0 <= k < |t| ==> HintBlockedAt(kw, t, k)
  {
    BlockedConcat(kw, front, "IF(");
    BlockedConcat(kw, front + "IF(", inner);
    BlockedConcat(kw, front + "IF(" + inner, ")");
    BlockedConcat(kw, front + "IF(" + inner + ")", back);
  }

  /** The short pieces of the example: each space is followed by a
      character that begins none of the hint keywords. */
  lemma PipeChunksBlocked(t: string)
    requires t in {DocExamples.NestedFront, "IF(", ")", PipeTail, PipeList}
    ensures forall k :: 0 <= k < |t| ==> HintBlockedAt("FORCE", t, k)
    ensures forall k :: 0 <= k < |t| ==> HintBlockedAt("USE", t, k)
    ensures forall k :: 0 <= k < |t| ==> HintBlockedAt("IGNORE", t, k)
    ensures |PipeList| > 0 && forall k :: 0 <= k < |PipeList| ==> PipeList[k] != ')'
  {
  }

  /** And the two long ones. */
  lemma PipeInnerBlocked(t: string)
    requires t == DocExamples.NestedInner
    ensures forall k :: 0 <= k < |t| ==> HintBlockedAt("FORCE", t, k)
    ensures forall k :: 0 <= k < |t| ==> HintBlockedAt("USE", t, k)
    ensures forall k :: 0 <= k < |t| ==> HintBlockedAt("IGNORE", t, k)
  {
  }

  lemma PipeWhereBlocked(t: string)
    requires t == PipeWhere
    ensures forall k :: 0 <= k < |t| ==> HintBlockedAt("FORCE", t, k)
    ensures forall k :: 0 <= k < |t| ==> HintBlockedAt("USE", t, k)
    ensures forall k :: 0 <= k < |t| ==> HintBlockedAt("IGNORE", t, k)
  {
  }

  /** The IF pass converts the one call; the IFNULL behind it is no
      occurrence. */
  lemma PipeIfConverted()
    ensures IfRewriter.ConvertIfToCase(PipeSelect + PipeWhere) == PipeCaseFront + PipeCall
  {
    var back := PipeBefore + PipeCall;
    BackGrows(DocExamples.NestedFront, DocExamples.NestedInner, "", "", "", PipeTail, PipeWhere);
    Regroup(PipeTail, " WHERE ", PipeCall);
    PipeBackInWords();
    DocExamples.NestedConverts(back);
    BackGrows(DocExamples.NestedFront, "", "status='Active'", "amount", "0", PipeBefore, PipeCall);
  }

  /** The text after the call holds no `IF` but the one that begins
      IFNULL. */
  lemma PipeBackInWords()
    ensures DocExamples.NoIfPair(PipeBefore)
    ensures DocExamples.IfOnlyInWords(PipeBefore + PipeCall)
  {
    PipeChunksClear(")");
    PipeChunksClear(" ");
    PipeChunksClear("FROM t");
    PipeChunksClear(" WHERE ");
    PipeChunksClear("(");
    PipeChunksClear(PipeCond);
    DocExamples.NoIfPairConcat(" ", "FROM t");
    assert " " + "FROM t" == " FROM t";
    DocExamples.NoIfPairConcat(")", " FROM t");
    DocExamples.NoIfPairConcat(PipeTail, " WHERE ");
    DocExamples.NoIfPairInWords(PipeBefore);
    IfNullInWords("IFNULL");
    DocExamples.NoIfPairInWords("(");
    DocExamples.NoIfPairInWords(PipeCond);
    DocExamples.InWordsConcat("IFNULL", "(");
    DocExamples.InWordsConcat("IFNULL" + "(", PipeCond);
    assert PipeBefore[|PipeBefore| - 1] == ' ';
    DocExamples.InWordsConcat(PipeBefore, PipeCall);
  }

  lemma IfNullInWords(t: string)
    requires t == "IFNULL"
    ensures DocExamples.IfOnlyInWords(t)
  {
  }

  /** The short pieces around the IFNULL call hold no `IF`, and the
      argument part holds no `I`. */
  lemma PipeChunksClear(t: string)
    requires t in {")", " ", "FROM t", " WHERE ", "(", PipeCond}
    ensures DocExamples.NoInnerF(t) && DocExamples.NoIfPair(t)
    ensures forall k :: 0 <= k < |PipeCond| ==> !SameIgnoringCase(PipeCond[k], 'I')
  {
    DocExamples.InnerFClear(t);
  }

  /** The IFNULL pass renames the call behind the CASE expression. */
  lemma PipeIfNullRenamed()
    ensures IfNullToCoalesce(PipeCaseFront + PipeCall) == PipeResult
  {
    PipeBackInWords();
    PipeChunksClear(PipeCond);
    DocExamples.NestedPiecesClear(PipeBefore);
    CaseTextEnd(DocExamples.NestedFront, "status='Active'", "amount", "0", PipeBefore);
    Regroup(PipeCaseFront, "IFNULL", "(" + PipeCond);
    Regroup(PipeCaseFront + "IFNULL", "(", PipeCond);
    IfNullOnly(PipeCaseFront + PipeCall, PipeCaseFront, PipeCond);
  }

  /** A CASE text ends where its back ends. */
  lemma CaseTextEnd(front: string, c: string, t: string, e: string, back: string)
    requires |back| > 0
    ensures var f := DocExamples.CaseText(front, c, t, e, back);
      |f| > 0 && f[|f| - 1] == back[|back| - 1]
  {
  }

  /** The DATE_FORMAT pass finds nothing: the result holds no underscore. */
  lemma PipeNoDate()
    ensures ConvertDateFormat(PipeResult) == PipeResult
  {
    UnderscoreFree(DocExamples.NestedFront);
    UnderscoreFree("status='Active'");
    UnderscoreFree("amount");
    UnderscoreFree("0");
    UnderscoreFree(PipeBefore);
    UnderscoreFree(Coalesce);
    UnderscoreFree(PipeCond);
    CaseTextNoUnderscore(DocExamples.NestedFront, "status='Active'", "amount", "0", PipeBefore);
    UnderscoreConcat(PipeCaseFront, Coalesce);
    UnderscoreConcat(PipeCaseFront + Coalesce, PipeCond);
    NoDateWithoutUnderscore(PipeResult);
  }

  lemma CaseTextNoUnderscore(front: string, c: string, t: string, e: string, back: string)
    requires NoUnderscore(front) && NoUnderscore(c) && NoUnderscore(t) && NoUnderscore(e) && NoUnderscore(back)
    ensures NoUnderscore(DocExamples.CaseText(front, c, t, e, back))
  {
    UnderscoreFree(IfRewriter.CaseHead);
    UnderscoreFree(" THEN ");
    UnderscoreFree(" ELSE ");
    UnderscoreFree(" END");
    UnderscoreConcat(c, " THEN ");
    UnderscoreConcat(c + " THEN ", t);
    UnderscoreConcat(c + " THEN " + t, " ELSE ");
    UnderscoreConcat(c + " THEN " + t + " ELSE ", e);
    var rest := c + " THEN " + t + " ELSE " + e;
    UnderscoreConcat(rest, " END");
    UnderscoreConcat(IfRewriter.CaseHead, rest + " END");
    UnderscoreConcat(front, IfRewriter.CaseHead + (rest + " END"));
    UnderscoreConcat(front + (IfRewriter.CaseHead + (rest + " END")), back);
  }

  /** The pieces of the result hold no underscore. */
  lemma UnderscoreFree(t: string)
    requires t in {DocExamples.NestedFront, "status='Active'", "amount", "0", PipeBefore, Coalesce, PipeCond,
                   IfRewriter.CaseHead, " THEN ", " ELSE ", " END"}
    ensures NoUnderscore(t)
  {
  }
}
