/**
  The worked examples in the rewriters' docstrings, as concrete instances
  of the model: `split_by_comma` on a text with a nested call and a quoted
  comma, and `convert_if_to_case` on a bare and on a nested `IF`.

  Each example text is put together from pieces of at most eight
  characters, and a lemma per short stretch of the text takes the
  characters it reads as its precondition, so that the splitter and the
  scanner are unfolded one character at a time.  A separate lemma shows
  that the pieces spell the docstring's literal.
 */
module DocExamples {
  import opened Wrappers
  import opened Text
  import opened RegexPatterns
  import opened Scanner
  import opened IfRewriter

  // ---------------------------------------------------------------------
  // Single steps of the splitter and the scanner
  // ---------------------------------------------------------------------

  /** One character that the splitter adds to the current part. */
  lemma SplitKeep(t: string, i: nat, quote: Quote, depth: int, current: string, parts: seq<string>,
                  quote': Quote, depth': int, current': string)
    requires i < |t|
    requires IsQuoteMark(t[i]) || quote.QuotedBy? || t[i] != ',' || depth != 0
    requires SplitStep(ScanState(quote, depth), t, i) == ScanState(quote', depth')
    requires current' == current + [t[i]]
    ensures SplitLoop(t, i, quote, depth, current, parts) == SplitLoop(t, i + 1, quote', depth', current', parts)
  {
    SplitLoopUnfold(t, i, quote, depth, current, parts);
  }

  /** A top-level comma: the current part is finished. */
  lemma SplitCut(t: string, i: nat, current: string, parts: seq<string>, parts': seq<string>)
    requires i < |t| && t[i] == ','
    requires parts' == parts + [current]
    ensures SplitLoop(t, i, Unquoted, 0, current, parts) == SplitLoop(t, i + 1, Unquoted, 0, "", parts')
  {
    SplitLoopUnfold(t, i, Unquoted, 0, current, parts);
  }

  /** One character the scanner reads without reaching depth zero. */
  lemma ScanOn(t: string, pos: nat, st: ScanState, st': ScanState)
    requires pos < |t| && st.depth > 0 && st'.depth > 0
    requires ScanStep(st, t, pos) == st'
    ensures FindCloseFrom(t, pos, st) == FindCloseFrom(t, pos + 1, st')
  {
  }

  /** The ')' that brings the depth to zero. */
  lemma ScanStop(t: string, pos: nat, st: ScanState)
    requires pos < |t| && st.depth > 0
    requires ScanStep(st, t, pos).depth == 0
    ensures FindCloseFrom(t, pos, st) == Some(pos + 1)
  {
  }

  // ---------------------------------------------------------------------
  // Texts the search finds nothing in
  // ---------------------------------------------------------------------

  /** No `I` is followed by an `F`, in either case. */
  predicate NoIfPair(t: string) {
    forall k :: 0 <= k < |t| - 1 ==> !(SameIgnoringCase(t[k], 'I') && SameIgnoringCase(t[k + 1], 'F'))
  }

  /** No `F`, in either case, after the first character: a cheaper way to
      see that no `IF` ends inside a short literal. */
  predicate NoInnerF(t: string) {
    forall k :: 0 < k < |t| ==> !SameIgnoringCase(t[k], 'F')
  }

  lemma InnerFClear(t: string)
    requires NoInnerF(t)
    ensures NoIfPair(t)
  {
    forall k | 0 <= k < |t| - 1 ensures !(SameIgnoringCase(t[k], 'I') && SameIgnoringCase(t[k + 1], 'F')) {
      assert !SameIgnoringCase(t[k + 1], 'F');
    }
  }

  /** Every `IF`, in either case, is followed by a letter: it only begins
      a longer word such as `IFNULL`. */
  predicate IfOnlyInWords(t: string) {
    forall k :: 0 <= k < |t| - 1 && SameIgnoringCase(t[k], 'I') && SameIgnoringCase(t[k + 1], 'F') ==>
      k + 2 < |t| && IsLetter(t[k + 2])
  }

  /** A text without an `IF` trivially has all of them inside words. */
  lemma NoIfPairInWords(t: string)
    requires NoIfPair(t)
    ensures IfOnlyInWords(t)
  {
  }

  /** No occurrence of `IF(` starts at `j` of such a text: the letter after
      the `IF` is neither whitespace nor '('. */
  lemma InWordsNoCall(t: string, j: nat)
    requires IfOnlyInWords(t) && j <= |t|
    ensures CallMatch("IF", t, j).None?
  {
    if j + 1 < |t| && SameIgnoringCase(t[j], "IF"[0]) && SameIgnoringCase(t[j + 1], "IF"[1]) {
      assert j + 2 < |t| && IsLetter(t[j + 2]);
      assert !IsSpace(t[j + 2]) && t[j + 2] != '(';
    }
  }

  /** Such a text holds no occurrence of `IF(` at all. */
  lemma InWordsNoMatch(t: string)
    requires IfOnlyInWords(t)
    ensures FirstIf(t).None?
  {
    forall j | 0 <= j <= |t| ensures CallMatch("IF", t, j).None? {
      InWordsNoCall(t, j);
    }
  }

  /** Both sentinels spell `IF` at their offset 6 followed by `_`, which is
      not a letter, so such a text holds neither. */
  lemma InWordsSentinelFree(t: string)
    requires IfOnlyInWords(t)
    ensures SentinelFree(t)
  {
    SentinelAbsent(t, NotIfMark);
    SentinelAbsent(t, BadIfMark);
  }

  lemma SentinelAbsent(t: string, m: string)
    requires IfOnlyInWords(t)
    requires |m| > 8 && m[6] == 'I' && m[7] == 'F' && !IsLetter(m[8])
    ensures !Contains(t, m)
  {
    forall i: nat | i <= |t| ensures !LiteralAt(t, i, m) {
      LiteralAtIsSlice(t, i, m);
      if i + |m| <= |t| {
        var w := t[i..i + |m|];
        assert w[6] == t[i + 6] && w[7] == t[i + 7] && w[8] == t[i + 8];
        if SameIgnoringCase(t[i + 6], 'I') && SameIgnoringCase(t[i + 6 + 1], 'F') {
          assert IsLetter(t[i + 8]);
          assert w[8] != m[8];
        } else {
          assert w[6] != m[6] || w[7] != m[7];
        }
      }
    }
  }

  /** Nothing before `s` can start an occurrence when no `I` is there. */
  lemma NoMatchBefore(q: string, s: nat)
    requires s <= |q|
    requires forall k :: 0 <= k < s ==> !SameIgnoringCase(q[k], 'I')
    ensures forall j :: 0 <= j < s ==> CallMatch("IF", q, j).None?
  {
    forall j | 0 <= j < s ensures CallMatch("IF", q, j).None? {
      assert !SameIgnoringCase(q[j], "IF"[0]);
    }
  }

  /** The leftmost occurrence is the first place the pattern matches. */
  lemma FirstIfAt(q: string, s: nat, e: nat)
    requires CallShape("IF", q, s, e)
    requires forall j :: 0 <= j < s ==> CallMatch("IF", q, j).None?
    ensures FirstIf(q) == Some((s, e))
  {
    assert CallMatch("IF", q, s) == Some(e);
    var r := FirstIf(q);
    assert r.Some?;
    assert CallMatch("IF", q, r.value.0) == Some(r.value.1);
  }

  /** A text whose first turn converts its one occurrence and leaves no
      other: the loop stops after that turn and nothing is restored. */
  lemma ConvertOnce(q: string, s: nat, e: nat, r: string)
    requires FirstIf(q) == Some((s, e)) && Step(q, s, e) == r && IfOnlyInWords(r)
    ensures ConvertIfToCase(q) == r
  {
    InWordsNoMatch(r);
    assert Loop(q, 0) == Loop(r, 1);
    InWordsSentinelFree(r);
    ReplaceAllAbsent(r, NotIfMark, IfOpen);
    ReplaceAllAbsent(r, BadIfMark, IfOpen);
  }

  /** Gluing two texts without an `IF` keeps it out, unless one is
      formed where they meet. */
  lemma NoIfPairConcat(a: string, b: string)
    requires NoIfPair(a) && NoIfPair(b)
    requires |a| == 0 || |b| == 0 || !(SameIgnoringCase(a[|a| - 1], 'I') && SameIgnoringCase(b[0], 'F'))
    ensures NoIfPair(a + b)
  {
    var t := a + b;
    forall k | 0 <= k < |t| - 1
      ensures !(SameIgnoringCase(t[k], 'I') && SameIgnoringCase(t[k + 1], 'F'))
    {
      if k + 1 < |a| {
        assert t[k] == a[k] && t[k + 1] == a[k + 1];
      } else if k + 1 == |a| {
        assert t[k] == a[|a| - 1] && t[k + 1] == b[0];
      } else {
        assert t[k] == b[k - |a|] && t[k + 1] == b[k - |a| + 1];
      }
    }
  }

  /** Gluing two texts whose every `IF` is inside a word keeps that, when
      no `IF` is formed where they meet. */
  lemma InWordsConcat(a: string, b: string)
    requires IfOnlyInWords(a) && IfOnlyInWords(b)
    requires |a| == 0 || |b| == 0 || !(SameIgnoringCase(a[|a| - 1], 'I') && SameIgnoringCase(b[0], 'F'))
    ensures IfOnlyInWords(a + b)
  {
    var t := a + b;
    forall k | 0 <= k < |t| - 1
      ensures SameIgnoringCase(t[k], 'I') && SameIgnoringCase(t[k + 1], 'F') ==> k + 2 < |t| && IsLetter(t[k + 2])
    {
      if k + 1 < |a| {
        assert t[k] == a[k] && t[k + 1] == a[k + 1];
        if k + 2 < |a| {
          assert t[k + 2] == a[k + 2];
        }
      } else if k + 1 == |a| {
        assert t[k] == a[|a| - 1] && t[k + 1] == b[0];
      } else {
        assert t[k] == b[k - |a|] && t[k + 1] == b[k - |a| + 1];
        if k + 2 < |t| {
          assert t[k + 2] == b[k - |a| + 2];
        }
      }
    }
  }


  /** A front without an `I` starts no occurrence. */
  lemma NoMatchInFront(front: string, rest: string)
    requires forall k :: 0 <= k < |front| ==> !SameIgnoringCase(front[k], 'I')
    ensures forall j :: 0 <= j < |front| ==> CallMatch("IF", front + rest, j).None?
  {
    var q := front + rest;
    forall k | 0 <= k < |front| ensures !SameIgnoringCase(q[k], 'I') {
      assert q[k] == front[k];
    }
    NoMatchBefore(q, |front|);
  }

  /** The text of a call `IF(inner)` between `front` and `back`, as one
      turn cuts it up. */
  function CallText(front: string, inner: string, back: string): string {
    front + "IF(" + inner + ")" + back
  }

  lemma CallTextParts(front: string, inner: string, back: string)
    ensures var q := CallText(front, inner, back);
      var close := |front| + 3 + |inner| + 1;
      && close <= |q|
      && q[..|front|] == front
      && q[close..] == back
      && Interior(q, |front| + 3, close) == inner
  {
    var q := CallText(front, inner, back);
    var close := |front| + 3 + |inner| + 1;
    assert q[..|front|] == front;
    assert q[close..] == back;
    assert q[|front| + 3..close - 1] == inner;
  }

  /** The CASE expression over three stripped parts between `front` and
      `back`, as the turn writes it. */
  function CaseText(front: string, c: string, t: string, e: string, back: string): string {
    front + (CaseHead + (c + " THEN " + t + " ELSE " + e + " END")) + back
  }

  /** The short literals the examples are put together from hold no
      `IF`. */
  lemma LiteralClear(t: string)
    requires t in {"", "SELECT ", "SELECT S" + "UM(", ")", "a > 0", "1", "0", "status='Active'", "amount",
                   CaseHead, " THEN ", " ELSE ", " END"}
    ensures NoInnerF(t) && NoIfPair(t)
  {
    InnerFClear(t);
  }

  /** A CASE expression whose parts hold no `IF` holds none: its keywords
      hold none, and no `IF` is formed where two pieces meet, since every
      keyword begins with a space or `C` and ends with a space or `D`. */
  lemma CaseTextClear(front: string, c: string, t: string, e: string, back: string)
    requires NoIfPair(front) && NoIfPair(c) && NoIfPair(t) && NoIfPair(e) && NoIfPair(back)
    ensures NoIfPair(CaseText(front, c, t, e, back))
  {
    LiteralClear(CaseHead);
    LiteralClear(" THEN ");
    LiteralClear(" ELSE ");
    LiteralClear(" END");
    var s1 := c + " THEN ";
    NoIfPairConcat(c, " THEN ");
    NoIfPairConcat(s1, t);
    NoIfPairConcat(s1 + t, " ELSE ");
    NoIfPairConcat(s1 + t + " ELSE ", e);
    var s2 := s1 + t + " ELSE " + e;
    NoIfPairConcat(s2, " END");
    var rest := s2 + " END";
    assert CaseHead[|CaseHead| - 1] == ' ';
    NoIfPairConcat(CaseHead, rest);
    assert (CaseHead + rest)[0] == 'C';
    NoIfPairConcat(front, CaseHead + rest);
    var all := front + (CaseHead + rest);
    assert all[|all| - 1] == 'D';
    NoIfPairConcat(all, back);
  }

  /** A text with no whitespace at either end strips to itself. */
  lemma StripNone(s: string)
    requires |s| > 0 && !IsSpace(s[0]) && !IsSpace(s[|s| - 1])
    ensures Strip(s) == s
  {
    assert s[0..|s|] == s;
  }

  /** A text with one space in front strips to the rest. */
  lemma StripOneLead(s: string)
    requires |s| > 1 && IsSpace(s[0]) && !IsSpace(s[1]) && !IsSpace(s[|s| - 1])
    ensures Strip(s) == s[1..]
  {
    assert LeadingSpaces(s[1..]) == 0;
  }

  /** An argument after a comma and one space strips to its text. */
  lemma StripPart(t: string, rest: string)
    requires t == " " + rest && |rest| > 0 && !IsSpace(rest[0]) && !IsSpace(rest[|rest| - 1])
    ensures Strip(t) == rest
  {
    StripOneLead(t);
    assert t[1..] == rest;
  }

  // ---------------------------------------------------------------------
  // split_by_comma("a > 0, SUM(x, y), 'hello, world'")
  // ---------------------------------------------------------------------

  const SplitText := "a > 0, S" + "UM(x, y)" + ", 'hello" + ", world'"

  /** The docstring example: the comma inside the nested call and the one
      inside the quoted string do not split. */
  lemma SplitByCommaExample()
    ensures SplitByComma("a > 0, SUM(x, y), 'hello, world'") == ["a > 0", " SUM(x, y)", " 'hello, world'"]
  {
    SplitTextIs();
    SplitTextSplits(SplitText);
  }

  lemma SplitTextIs()
    ensures SplitText == "a > 0, SUM(x, y), 'hello, world'"
  {
  }

  lemma SplitTextChars0(t: string)
    requires t == SplitText
    ensures |t| == 32 && t[0] == 'a' && t[1] == ' ' && t[2] == '>' && t[3] == ' ' && t[4] == '0'
  {
  }

  lemma SplitTextChars1(t: string)
    requires t == SplitText
    ensures |t| == 32 && t[4] == '0' && t[5] == ',' && t[6] == ' ' && t[7] == 'S' && t[8] == 'U' && t[9] == 'M'
  {
  }

  lemma SplitTextChars2(t: string)
    requires t == SplitText
    ensures |t| == 32 && t[9] == 'M' && t[10] == '(' && t[11] == 'x' && t[12] == ',' && t[13] == ' ' && t[14] == 'y'
  {
  }

  lemma SplitTextChars3(t: string)
    requires t == SplitText
    ensures |t| == 32 && t[14] == 'y' && t[15] == ')' && t[16] == ',' && t[17] == ' ' && t[18] == '\'' && t[19] == 'h'
  {
  }

  lemma SplitTextChars4(t: string)
    requires t == SplitText
    ensures |t| == 32 && t[19] == 'h' && t[20] == 'e' && t[21] == 'l' && t[22] == 'l' && t[23] == 'o' && t[24] == ','
  {
  }

  lemma SplitTextChars5(t: string)
    requires t == SplitText
    ensures |t| == 32 && t[24] == ',' && t[25] == ' ' && t[26] == 'w' && t[27] == 'o' && t[28] == 'r' && t[29] == 'l'
  {
  }

  lemma SplitTextChars6(t: string)
    requires t == SplitText
    ensures |t| == 32 && t[29] == 'l' && t[30] == 'd' && t[31] == '\''
  {
  }

  /** The splitter over the example text, a stretch at a time. */
  lemma SplitTextSplits(t: string)
    requires t == SplitText
    ensures SplitByComma(t) == ["a > 0", " SUM(x, y)", " 'hello, world'"]
  {
    SplitTextChars0(t);
    SplitTextChars1(t);
    SplitTextChars2(t);
    SplitTextChars3(t);
    SplitTextChars4(t);
    SplitTextChars5(t);
    SplitTextChars6(t);
    SplitTextRun0(t);
    SplitTextRun1(t);
    SplitTextRun2(t);
    SplitTextRun3(t);
    SplitTextRun4(t);
    SplitTextRun5(t);
    SplitTextRun6(t);
  }

  lemma SplitTextRun0(t: string)
    requires |t| == 32 && t[0] == 'a' && t[1] == ' ' && t[2] == '>' && t[3] == ' ' && t[4] == '0'
    ensures SplitLoop(t, 0, Unquoted, 0, "", [])
      == SplitLoop(t, 5, Unquoted, 0, "a > 0", [])
  {
    SplitKeep(t, 0, Unquoted, 0, "", [], Unquoted, 0, "a");
    SplitKeep(t, 1, Unquoted, 0, "a", [], Unquoted, 0, "a ");
    SplitKeep(t, 2, Unquoted, 0, "a ", [], Unquoted, 0, "a >");
    SplitKeep(t, 3, Unquoted, 0, "a >", [], Unquoted, 0, "a > ");
    SplitKeep(t, 4, Unquoted, 0, "a > ", [], Unquoted, 0, "a > 0");
  }

  lemma SplitTextRun1(t: string)
    requires |t| == 32 && t[4] == '0' && t[5] == ',' && t[6] == ' ' && t[7] == 'S' && t[8] == 'U' && t[9] == 'M'
    ensures SplitLoop(t, 5, Unquoted, 0, "a > 0", [])
      == SplitLoop(t, 10, Unquoted, 0, " SUM", ["a > 0"])
  {
    SplitCut(t, 5, "a > 0", [], ["a > 0"]);
    SplitKeep(t, 6, Unquoted, 0, "", ["a > 0"], Unquoted, 0, " ");
    SplitKeep(t, 7, Unquoted, 0, " ", ["a > 0"], Unquoted, 0, " S");
    SplitKeep(t, 8, Unquoted, 0, " S", ["a > 0"], Unquoted, 0, " SU");
    SplitKeep(t, 9, Unquoted, 0, " SU", ["a > 0"], Unquoted, 0, " SUM");
  }

  lemma SplitTextRun2(t: string)
    requires |t| == 32 && t[9] == 'M' && t[10] == '(' && t[11] == 'x' && t[12] == ',' && t[13] == ' ' && t[14] == 'y'
    ensures SplitLoop(t, 10, Unquoted, 0, " SUM", ["a > 0"])
      == SplitLoop(t, 15, Unquoted, 1, " SUM(x, y", ["a > 0"])
  {
    SplitKeep(t, 10, Unquoted, 0, " SUM", ["a > 0"], Unquoted, 1, " SUM(");
    SplitKeep(t, 11, Unquoted, 1, " SUM(", ["a > 0"], Unquoted, 1, " SUM(x");
    SplitKeep(t, 12, Unquoted, 1, " SUM(x", ["a > 0"], Unquoted, 1, " SUM(x,");
    SplitKeep(t, 13, Unquoted, 1, " SUM(x,", ["a > 0"], Unquoted, 1, " SUM(x, ");
    SplitKeep(t, 14, Unquoted, 1, " SUM(x, ", ["a > 0"], Unquoted, 1, " SUM(x, y");
  }

  lemma SplitTextRun3(t: string)
    requires |t| == 32 && t[14] == 'y' && t[15] == ')' && t[16] == ',' && t[17] == ' ' && t[18] == '\'' && t[19] == 'h'
    ensures SplitLoop(t, 15, Unquoted, 1, " SUM(x, y", ["a > 0"])
      == SplitLoop(t, 20, QuotedBy('\''), 0, " 'h", ["a > 0", " SUM(x, y)"])
  {
    SplitKeep(t, 15, Unquoted, 1, " SUM(x, y", ["a > 0"], Unquoted, 0, " SUM(x, y)");
    SplitCut(t, 16, " SUM(x, y)", ["a > 0"], ["a > 0", " SUM(x, y)"]);
    SplitKeep(t, 17, Unquoted, 0, "", ["a > 0", " SUM(x, y)"], Unquoted, 0, " ");
    SplitKeep(t, 18, Unquoted, 0, " ", ["a > 0", " SUM(x, y)"], QuotedBy('\''), 0, " '");
    SplitKeep(t, 19, QuotedBy('\''), 0, " '", ["a > 0", " SUM(x, y)"], QuotedBy('\''), 0, " 'h");
  }

  lemma SplitTextRun4(t: string)
    requires |t| == 32 && t[19] == 'h' && t[20] == 'e' && t[21] == 'l' && t[22] == 'l' && t[23] == 'o' && t[24] == ','
    ensures SplitLoop(t, 20, QuotedBy('\''), 0, " 'h", ["a > 0", " SUM(x, y)"])
      == SplitLoop(t, 25, QuotedBy('\''), 0, " 'hello,", ["a > 0", " SUM(x, y)"])
  {
    SplitKeep(t, 20, QuotedBy('\''), 0, " 'h", ["a > 0", " SUM(x, y)"], QuotedBy('\''), 0, " 'he");
    SplitKeep(t, 21, QuotedBy('\''), 0, " 'he", ["a > 0", " SUM(x, y)"], QuotedBy('\''), 0, " 'hel");
    SplitKeep(t, 22, QuotedBy('\''), 0, " 'hel", ["a > 0", " SUM(x, y)"], QuotedBy('\''), 0, " 'hell");
    SplitKeep(t, 23, QuotedBy('\''), 0, " 'hell", ["a > 0", " SUM(x, y)"], QuotedBy('\''), 0, " 'hello");
    SplitKeep(t, 24, QuotedBy('\''), 0, " 'hello", ["a > 0", " SUM(x, y)"], QuotedBy('\''), 0, " 'hello,");
  }

  lemma SplitTextRun5(t: string)
    requires |t| == 32 && t[24] == ',' && t[25] == ' ' && t[26] == 'w' && t[27] == 'o' && t[28] == 'r' && t[29] == 'l'
    ensures SplitLoop(t, 25, QuotedBy('\''), 0, " 'hello,", ["a > 0", " SUM(x, y)"])
      == SplitLoop(t, 30, QuotedBy('\''), 0, " 'hello, worl", ["a > 0", " SUM(x, y)"])
  {
    SplitKeep(t, 25, QuotedBy('\''), 0, " 'hello,", ["a > 0", " SUM(x, y)"], QuotedBy('\''), 0, " 'hello, ");
    SplitKeep(t, 26, QuotedBy('\''), 0, " 'hello, ", ["a > 0", " SUM(x, y)"], QuotedBy('\''), 0, " 'hello, w");
    SplitKeep(t, 27, QuotedBy('\''), 0, " 'hello, w", ["a > 0", " SUM(x, y)"], QuotedBy('\''), 0, " 'hello, wo");
    SplitKeep(t, 28, QuotedBy('\''), 0, " 'hello, wo", ["a > 0", " SUM(x, y)"], QuotedBy('\''), 0, " 'hello, wor");
    SplitKeep(t, 29, QuotedBy('\''), 0, " 'hello, wor", ["a > 0", " SUM(x, y)"], QuotedBy('\''), 0, " 'hello, worl");
  }

  lemma SplitTextRun6(t: string)
    requires |t| == 32 && t[29] == 'l' && t[30] == 'd' && t[31] == '\''
    ensures SplitLoop(t, 30, QuotedBy('\''), 0, " 'hello, worl", ["a > 0", " SUM(x, y)"])
      == SplitLoop(t, 32, Unquoted, 0, " 'hello, world'", ["a > 0", " SUM(x, y)"])
  {
    SplitKeep(t, 30, QuotedBy('\''), 0, " 'hello, worl", ["a > 0", " SUM(x, y)"], QuotedBy('\''), 0, " 'hello, world");
    SplitKeep(t, 31, QuotedBy('\''), 0, " 'hello, world", ["a > 0", " SUM(x, y)"], Unquoted, 0, " 'hello, world'");
  }

  // ---------------------------------------------------------------------
  // convert_if_to_case("SELECT IF(a > 0, 1, 0)")
  // ---------------------------------------------------------------------

  const BareFront := "SELECT "
  const BareInner := "a > 0, 1" + ", 0"
  const BareBack := ""
  const BareText := CallText(BareFront, BareInner, BareBack)
  const BareResult := CaseText(BareFront, "a > 0", "1", "0", BareBack)

  /** The first docstring example: a bare `IF` becomes a CASE expression.
      The expected text is the docstring's, cut where the CASE template puts
      the three parts. */
  lemma BareExample()
    ensures ConvertIfToCase("SELECT IF(a > 0, 1, 0)") == "SELECT " + "CASE WHEN " + "a > 0" + " THEN " + "1" + " ELSE " + "0" + " END"
  {
    BareTextIs();
    BareResultIs();
    BareFirstIf();
    BareStep();
    BareResultClear();
    ConvertOnce(BareText, 7, 10, BareResult);
  }

  /** The pieces spell the docstring's text. */
  lemma BarePiecesAre()
    ensures BareFront == "SELECT " && BareInner == "a > 0, 1, 0" && BareBack == ""
  {
  }

  lemma BareTextIs()
    ensures BareText == "SELECT IF(a > 0, 1, 0)"
  {
    BarePiecesAre();
  }

  lemma BareResultIs()
    ensures BareResult == "SELECT " + "CASE WHEN " + "a > 0" + " THEN " + "1" + " ELSE " + "0" + " END"
  {
    BarePiecesAre();
  }

  /** Nothing in the result is an occurrence or a sentinel. */
  lemma BareResultClear()
    ensures IfOnlyInWords(BareResult)
  {
    LiteralClear(BareFront);
    LiteralClear("a > 0");
    LiteralClear("1");
    LiteralClear("0");
    LiteralClear(BareBack);
    CaseTextClear(BareFront, "a > 0", "1", "0", BareBack);
    NoIfPairInWords(BareResult);
  }

  lemma BareFirstIf()
    ensures FirstIf(BareText) == Some((7, 10))
  {
    var q := BareText;
    BareCallChars(q);
    assert CallShape("IF", q, 7, 10);
    NoMatchInFront(BareFront, "IF(" + BareInner + ")" + BareBack);
    assert q == BareFront + ("IF(" + BareInner + ")" + BareBack);
    FirstIfAt(q, 7, 10);
  }

  lemma BareCallChars(t: string)
    requires t == BareText
    ensures |t| == 22 && t[6] == ' ' && t[7] == 'I' && t[8] == 'F' && t[9] == '('
  {
  }

  /** The turn at the occurrence writes the CASE expression over the
      stripped parts. */
  lemma BareStep()
    ensures Step(BareText, 7, 10) == BareResult
  {
    BareClassify();
    CallTextParts(BareFront, BareInner, BareBack);
    BareStrips();
  }

  lemma BareStrips()
    ensures Strip("a > 0") == "a > 0" && Strip(" 1") == "1" && Strip(" 0") == "0"
  {
    StripNone("a > 0");
    StripPart(" 1", "1");
    StripPart(" 0", "0");
  }


  /** The scanner finds the call's ')' and the interior splits into
      three parts. */
  lemma BareClassify()
    ensures Classify(BareText, 7, 10) == Convertible(22, ["a > 0", " 1", " 0"])
  {
    var q := BareText;
    BareCallChars(q);
    assert CallShape("IF", q, 7, 10);
    BareCloses(q);
    CallTextParts(BareFront, BareInner, BareBack);
    BareInnerSplits(BareInner);
    ConvertibleWhen(q, 7, 10, 22);
  }

  lemma BareCloses(t: string)
    requires t == BareText
    ensures FindClose(t, 9) == Some(22)
  {
    BareChars0(t);
    BareChars1(t);
    BareScan0(t);
    BareScan1(t);
  }

  lemma BareScan0(t: string)
    requires |t| == 22 && t[9] == '(' && t[10] == 'a' && t[11] == ' ' && t[12] == '>' && t[13] == ' ' && t[14] == '0' && t[15] == ','
    ensures FindCloseFrom(t, 10, ScanState(Unquoted, 1)) == FindCloseFrom(t, 16, ScanState(Unquoted, 1))
  {
    ScanOn(t, 10, ScanState(Unquoted, 1), ScanState(Unquoted, 1));
    ScanOn(t, 11, ScanState(Unquoted, 1), ScanState(Unquoted, 1));
    ScanOn(t, 12, ScanState(Unquoted, 1), ScanState(Unquoted, 1));
    ScanOn(t, 13, ScanState(Unquoted, 1), ScanState(Unquoted, 1));
    ScanOn(t, 14, ScanState(Unquoted, 1), ScanState(Unquoted, 1));
    ScanOn(t, 15, ScanState(Unquoted, 1), ScanState(Unquoted, 1));
  }

  lemma BareScan1(t: string)
    requires |t| == 22 && t[15] == ',' && t[16] == ' ' && t[17] == '1' && t[18] == ',' && t[19] == ' ' && t[20] == '0' && t[21] == ')'
    ensures FindCloseFrom(t, 16, ScanState(Unquoted, 1)) == Some(22)
  {
    ScanOn(t, 16, ScanState(Unquoted, 1), ScanState(Unquoted, 1));
    ScanOn(t, 17, ScanState(Unquoted, 1), ScanState(Unquoted, 1));
    ScanOn(t, 18, ScanState(Unquoted, 1), ScanState(Unquoted, 1));
    ScanOn(t, 19, ScanState(Unquoted, 1), ScanState(Unquoted, 1));
    ScanOn(t, 20, ScanState(Unquoted, 1), ScanState(Unquoted, 1));
    ScanStop(t, 21, ScanState(Unquoted, 1));
  }

  lemma BareChars0(t: string)
    requires t == BareText
    ensures |t| == 22 && t[9] == '(' && t[10] == 'a' && t[11] == ' ' && t[12] == '>' && t[13] == ' ' && t[14] == '0' && t[15] == ','
  {
  }

  lemma BareChars1(t: string)
    requires t == BareText
    ensures |t| == 22 && t[15] == ',' && t[16] == ' ' && t[17] == '1' && t[18] == ',' && t[19] == ' ' && t[20] == '0' && t[21] == ')'
  {
  }

  lemma BareInnerChars0(t: string)
    requires t == BareInner
    ensures |t| == 11 && t[0] == 'a' && t[1] == ' ' && t[2] == '>' && t[3] == ' ' && t[4] == '0'
  {
  }

  lemma BareInnerChars1(t: string)
    requires t == BareInner
    ensures |t| == 11 && t[4] == '0' && t[5] == ',' && t[6] == ' ' && t[7] == '1' && t[8] == ',' && t[9] == ' '
  {
  }

  lemma BareInnerChars2(t: string)
    requires t == BareInner
    ensures |t| == 11 && t[9] == ' ' && t[10] == '0'
  {
  }

  /** `split_by_comma` on the interior of the call. */
  lemma BareInnerSplits(t: string)
    requires t == BareInner
    ensures SplitByComma(t) == ["a > 0", " 1", " 0"]
  {
    BareInnerChars0(t);
    BareInnerChars1(t);
    BareInnerChars2(t);
    BareInnerRun0(t);
    BareInnerRun1(t);
    BareInnerRun2(t);
  }

  lemma BareInnerRun0(t: string)
    requires |t| == 11 && t[0] == 'a' && t[1] == ' ' && t[2] == '>' && t[3] == ' ' && t[4] == '0'
    ensures SplitLoop(t, 0, Unquoted, 0, "", [])
      == SplitLoop(t, 5, Unquoted, 0, "a > 0", [])
  {
    SplitKeep(t, 0, Unquoted, 0, "", [], Unquoted, 0, "a");
    SplitKeep(t, 1, Unquoted, 0, "a", [], Unquoted, 0, "a ");
    SplitKeep(t, 2, Unquoted, 0, "a ", [], Unquoted, 0, "a >");
    SplitKeep(t, 3, Unquoted, 0, "a >", [], Unquoted, 0, "a > ");
    SplitKeep(t, 4, Unquoted, 0, "a > ", [], Unquoted, 0, "a > 0");
  }

  lemma BareInnerRun1(t: string)
    requires |t| == 11 && t[4] == '0' && t[5] == ',' && t[6] == ' ' && t[7] == '1' && t[8] == ',' && t[9] == ' '
    ensures SplitLoop(t, 5, Unquoted, 0, "a > 0", [])
      == SplitLoop(t, 10, Unquoted, 0, " ", ["a > 0", " 1"])
  {
    SplitCut(t, 5, "a > 0", [], ["a > 0"]);
    SplitKeep(t, 6, Unquoted, 0, "", ["a > 0"], Unquoted, 0, " ");
    SplitKeep(t, 7, Unquoted, 0, " ", ["a > 0"], Unquoted, 0, " 1");
    SplitCut(t, 8, " 1", ["a > 0"], ["a > 0", " 1"]);
    SplitKeep(t, 9, Unquoted, 0, "", ["a > 0", " 1"], Unquoted, 0, " ");
  }

  lemma BareInnerRun2(t: string)
    requires |t| == 11 && t[9] == ' ' && t[10] == '0'
    ensures SplitLoop(t, 10, Unquoted, 0, " ", ["a > 0", " 1"])
      == SplitLoop(t, 11, Unquoted, 0, " 0", ["a > 0", " 1"])
  {
    SplitKeep(t, 10, Unquoted, 0, " ", ["a > 0", " 1"], Unquoted, 0, " 0");
  }

  // ---------------------------------------------------------------------
  // convert_if_to_case("SELECT SUM(IF(status='Active', amount, 0))")
  // ---------------------------------------------------------------------

  const NestedFront := "SELECT S" + "UM("
  const NestedInner := "status='" + "Active'," + " amount," + " 0"
  const NestedBack := ")"

  /** The nested call followed by `back`; the docstring's text has `)`
      there, and the pipeline's example goes on after it. */
  function NestedTextWith(back: string): string {
    CallText(NestedFront, NestedInner, back)
  }

  /** What the turn makes of it. */
  function NestedResultWith(back: string): string {
    CaseText(NestedFront, "status='Active'", "amount", "0", back)
  }

  /** The second docstring example: an `IF` inside `SUM(...)`, with a quoted
      string among its arguments; the expected text is cut the same way. */
  lemma NestedExample()
    ensures ConvertIfToCase("SELECT SUM(IF(status='Active', amount, 0))") == "SELECT SUM(" + "CASE WHEN " + "status='Active'" + " THEN " + "amount" + " ELSE " + "0" + " END" + ")"
  {
    NestedTextIs();
    NestedResultIs();
    LiteralClear(NestedBack);
    NoIfPairInWords(NestedBack);
    NestedConverts(NestedBack);
  }

  /** Whatever follows the call, as long as every `IF` in it is inside a
      word, the first turn converts the call and the loop stops there. */
  lemma NestedConverts(back: string)
    requires IfOnlyInWords(back)
    ensures ConvertIfToCase(NestedTextWith(back)) == NestedResultWith(back)
  {
    NestedFirstIf(back);
    NestedStep(back);
    NestedResultClear(back);
    ConvertOnce(NestedTextWith(back), 11, 14, NestedResultWith(back));
  }

  /** The pieces spell the docstring's text. */
  lemma NestedPiecesAre()
    ensures NestedFront == "SELECT SUM(" && NestedInner == "status='Active', amount, 0" && NestedBack == ")"
  {
  }

  lemma NestedTextIs()
    ensures NestedTextWith(NestedBack) == "SELECT SUM(IF(status='Active', amount, 0))"
  {
    NestedPiecesAre();
  }

  lemma NestedResultIs()
    ensures NestedResultWith(NestedBack) == "SELECT SUM(" + "CASE WHEN " + "status='Active'" + " THEN " + "amount" + " ELSE " + "0" + " END" + ")"
  {
    NestedPiecesAre();
  }

  /** Nothing in the result is an occurrence or a sentinel. */
  lemma NestedResultClear(back: string)
    requires IfOnlyInWords(back)
    ensures IfOnlyInWords(NestedResultWith(back))
  {
    NestedPiecesClear("");
    var a := NestedResultWith("");
    NoIfPairInWords(a);
    assert a[|a| - 1] == 'D';
    InWordsConcat(a, back);
    assert a + back == NestedResultWith(back);
  }

  /** With a back that holds no `IF`, neither does the result. */
  lemma NestedPiecesClear(back: string)
    requires NoIfPair(back)
    ensures NoIfPair(NestedResultWith(back))
  {
    LiteralClear(NestedFront);
    LiteralClear("status='Active'");
    LiteralClear("amount");
    LiteralClear("0");
    CaseTextClear(NestedFront, "status='Active'", "amount", "0", back);
  }

  lemma NestedFirstIf(back: string)
    ensures FirstIf(NestedTextWith(back)) == Some((11, 14))
  {
    var q := NestedTextWith(back);
    NestedCallChars(q, back);
    assert CallShape("IF", q, 11, 14);
    NoMatchInFront(NestedFront, "IF(" + NestedInner + ")" + back);
    assert q == NestedFront + ("IF(" + NestedInner + ")" + back);
    FirstIfAt(q, 11, 14);
  }

  lemma NestedCallChars(t: string, back: string)
    requires t == NestedTextWith(back)
    ensures |t| > 40 && t[10] == '(' && t[11] == 'I' && t[12] == 'F' && t[13] == '('
  {
  }

  /** The turn at the occurrence writes the CASE expression over the
      stripped parts. */
  lemma NestedStep(back: string)
    ensures Step(NestedTextWith(back), 11, 14) == NestedResultWith(back)
  {
    NestedClassify(back);
    CallTextParts(NestedFront, NestedInner, back);
    NestedStrips();
  }

  lemma NestedStrips()
    ensures Strip("status='Active'") == "status='Active'" && Strip(" amount") == "amount" && Strip(" 0") == "0"
  {
    StripNone("status='Active'");
    StripPart(" amount", "amount");
    StripPart(" 0", "0");
  }

  /** The scanner finds the call's ')' and the interior splits into
      three parts. */
  lemma NestedClassify(back: string)
    ensures Classify(NestedTextWith(back), 11, 14) == Convertible(41, ["status='Active'", " amount", " 0"])
  {
    var q := NestedTextWith(back);
    NestedCallChars(q, back);
    assert CallShape("IF", q, 11, 14);
    NestedCloses(q, back);
    CallTextParts(NestedFront, NestedInner, back);
    NestedInnerSplits(NestedInner);
    ConvertibleWhen(q, 11, 14, 41);
  }

  lemma NestedCloses(t: string, back: string)
    requires t == NestedTextWith(back)
    ensures FindClose(t, 13) == Some(41)
  {
    NestedChars0(t, back);
    NestedChars1(t, back);
    NestedChars2(t, back);
    NestedChars3(t, back);
    NestedChars4(t, back);
    NestedScan0(t);
    NestedScan1(t);
    NestedScan2(t);
    NestedScan3(t);
    NestedScan4(t);
  }

  lemma NestedScan0(t: string)
    requires |t| > 40 && t[13] == '(' && t[14] == 's' && t[15] == 't' && t[16] == 'a' && t[17] == 't' && t[18] == 'u' && t[19] == 's'
    ensures FindCloseFrom(t, 14, ScanState(Unquoted, 1)) == FindCloseFrom(t, 20, ScanState(Unquoted, 1))
  {
    ScanOn(t, 14, ScanState(Unquoted, 1), ScanState(Unquoted, 1));
    ScanOn(t, 15, ScanState(Unquoted, 1), ScanState(Unquoted, 1));
    ScanOn(t, 16, ScanState(Unquoted, 1), ScanState(Unquoted, 1));
    ScanOn(t, 17, ScanState(Unquoted, 1), ScanState(Unquoted, 1));
    ScanOn(t, 18, ScanState(Unquoted, 1), ScanState(Unquoted, 1));
    ScanOn(t, 19, ScanState(Unquoted, 1), ScanState(Unquoted, 1));
  }

  lemma NestedScan1(t: string)
    requires |t| > 40 && t[19] == 's' && t[20] == '=' && t[21] == '\'' && t[22] == 'A' && t[23] == 'c' && t[24] == 't' && t[25] == 'i'
    ensures FindCloseFrom(t, 20, ScanState(Unquoted, 1)) == FindCloseFrom(t, 26, ScanState(QuotedBy('\''), 1))
  {
    ScanOn(t, 20, ScanState(Unquoted, 1), ScanState(Unquoted, 1));
    ScanOn(t, 21, ScanState(Unquoted, 1), ScanState(QuotedBy('\''), 1));
    ScanOn(t, 22, ScanState(QuotedBy('\''), 1), ScanState(QuotedBy('\''), 1));
    ScanOn(t, 23, ScanState(QuotedBy('\''), 1), ScanState(QuotedBy('\''), 1));
    ScanOn(t, 24, ScanState(QuotedBy('\''), 1), ScanState(QuotedBy('\''), 1));
    ScanOn(t, 25, ScanState(QuotedBy('\''), 1), ScanState(QuotedBy('\''), 1));
  }

  lemma NestedScan2(t: string)
    requires |t| > 40 && t[25] == 'i' && t[26] == 'v' && t[27] == 'e' && t[28] == '\'' && t[29] == ',' && t[30] == ' ' && t[31] == 'a'
    ensures FindCloseFrom(t, 26, ScanState(QuotedBy('\''), 1)) == FindCloseFrom(t, 32, ScanState(Unquoted, 1))
  {
    ScanOn(t, 26, ScanState(QuotedBy('\''), 1), ScanState(QuotedBy('\''), 1));
    ScanOn(t, 27, ScanState(QuotedBy('\''), 1), ScanState(QuotedBy('\''), 1));
    ScanOn(t, 28, ScanState(QuotedBy('\''), 1), ScanState(Unquoted, 1));
    ScanOn(t, 29, ScanState(Unquoted, 1), ScanState(Unquoted, 1));
    ScanOn(t, 30, ScanState(Unquoted, 1), ScanState(Unquoted, 1));
    ScanOn(t, 31, ScanState(Unquoted, 1), ScanState(Unquoted, 1));
  }

  lemma NestedScan3(t: string)
    requires |t| > 40 && t[31] == 'a' && t[32] == 'm' && t[33] == 'o' && t[34] == 'u' && t[35] == 'n' && t[36] == 't' && t[37] == ','
    ensures FindCloseFrom(t, 32, ScanState(Unquoted, 1)) == FindCloseFrom(t, 38, ScanState(Unquoted, 1))
  {
    ScanOn(t, 32, ScanState(Unquoted, 1), ScanState(Unquoted, 1));
    ScanOn(t, 33, ScanState(Unquoted, 1), ScanState(Unquoted, 1));
    ScanOn(t, 34, ScanState(Unquoted, 1), ScanState(Unquoted, 1));
    ScanOn(t, 35, ScanState(Unquoted, 1), ScanState(Unquoted, 1));
    ScanOn(t, 36, ScanState(Unquoted, 1), ScanState(Unquoted, 1));
    ScanOn(t, 37, ScanState(Unquoted, 1), ScanState(Unquoted, 1));
  }

  lemma NestedScan4(t: string)
    requires |t| > 40 && t[37] == ',' && t[38] == ' ' && t[39] == '0' && t[40] == ')'
    ensures FindCloseFrom(t, 38, ScanState(Unquoted, 1)) == Some(41)
  {
    ScanOn(t, 38, ScanState(Unquoted, 1), ScanState(Unquoted, 1));
    ScanOn(t, 39, ScanState(Unquoted, 1), ScanState(Unquoted, 1));
    ScanStop(t, 40, ScanState(Unquoted, 1));
  }

  lemma NestedChars0(t: string, back: string)
    requires t == NestedTextWith(back)
    ensures |t| > 40 && t[13] == '(' && t[14] == 's' && t[15] == 't' && t[16] == 'a' && t[17] == 't' && t[18] == 'u' && t[19] == 's'
  {
  }

  lemma NestedChars1(t: string, back: string)
    requires t == NestedTextWith(back)
    ensures |t| > 40 && t[19] == 's' && t[20] == '=' && t[21] == '\'' && t[22] == 'A' && t[23] == 'c' && t[24] == 't' && t[25] == 'i'
  {
  }

  lemma NestedChars2(t: string, back: string)
    requires t == NestedTextWith(back)
    ensures |t| > 40 && t[25] == 'i' && t[26] == 'v' && t[27] == 'e' && t[28] == '\'' && t[29] == ',' && t[30] == ' ' && t[31] == 'a'
  {
  }

  lemma NestedChars3(t: string, back: string)
    requires t == NestedTextWith(back)
    ensures |t| > 40 && t[31] == 'a' && t[32] == 'm' && t[33] == 'o' && t[34] == 'u' && t[35] == 'n' && t[36] == 't' && t[37] == ','
  {
  }

  lemma NestedChars4(t: string, back: string)
    requires t == NestedTextWith(back)
    ensures |t| > 40 && t[37] == ',' && t[38] == ' ' && t[39] == '0' && t[40] == ')'
  {
  }

  lemma NestedInnerChars0(t: string)
    requires t == NestedInner
    ensures |t| == 26 && t[0] == 's' && t[1] == 't' && t[2] == 'a' && t[3] == 't' && t[4] == 'u'
  {
  }

  lemma NestedInnerChars1(t: string)
    requires t == NestedInner
    ensures |t| == 26 && t[4] == 'u' && t[5] == 's' && t[6] == '=' && t[7] == '\'' && t[8] == 'A' && t[9] == 'c'
  {
  }

  lemma NestedInnerChars2(t: string)
    requires t == NestedInner
    ensures |t| == 26 && t[9] == 'c' && t[10] == 't' && t[11] == 'i' && t[12] == 'v' && t[13] == 'e' && t[14] == '\''
  {
  }

  lemma NestedInnerChars3(t: string)
    requires t == NestedInner
    ensures |t| == 26 && t[14] == '\'' && t[15] == ',' && t[16] == ' ' && t[17] == 'a' && t[18] == 'm' && t[19] == 'o'
  {
  }

  lemma NestedInnerChars4(t: string)
    requires t == NestedInner
    ensures |t| == 26 && t[19] == 'o' && t[20] == 'u' && t[21] == 'n' && t[22] == 't' && t[23] == ',' && t[24] == ' '
  {
  }

  lemma NestedInnerChars5(t: string)
    requires t == NestedInner
    ensures |t| == 26 && t[24] == ' ' && t[25] == '0'
  {
  }

  /** `split_by_comma` on the interior of the call. */
  lemma NestedInnerSplits(t: string)
    requires t == NestedInner
    ensures SplitByComma(t) == ["status='Active'", " amount", " 0"]
  {
    NestedInnerChars0(t);
    NestedInnerChars1(t);
    NestedInnerChars2(t);
    NestedInnerChars3(t);
    NestedInnerChars4(t);
    NestedInnerChars5(t);
    NestedInnerRun0(t);
    NestedInnerRun1(t);
    NestedInnerRun2(t);
    NestedInnerRun3(t);
    NestedInnerRun4(t);
    NestedInnerRun5(t);
  }

  lemma NestedInnerRun0(t: string)
    requires |t| == 26 && t[0] == 's' && t[1] == 't' && t[2] == 'a' && t[3] == 't' && t[4] == 'u'
    ensures SplitLoop(t, 0, Unquoted, 0, "", [])
      == SplitLoop(t, 5, Unquoted, 0, "statu", [])
  {
    SplitKeep(t, 0, Unquoted, 0, "", [], Unquoted, 0, "s");
    SplitKeep(t, 1, Unquoted, 0, "s", [], Unquoted, 0, "st");
    SplitKeep(t, 2, Unquoted, 0, "st", [], Unquoted, 0, "sta");
    SplitKeep(t, 3, Unquoted, 0, "sta", [], Unquoted, 0, "stat");
    SplitKeep(t, 4, Unquoted, 0, "stat", [], Unquoted, 0, "statu");
  }

  lemma NestedInnerRun1(t: string)
    requires |t| == 26 && t[4] == 'u' && t[5] == 's' && t[6] == '=' && t[7] == '\'' && t[8] == 'A' && t[9] == 'c'
    ensures SplitLoop(t, 5, Unquoted, 0, "statu", [])
      == SplitLoop(t, 10, QuotedBy('\''), 0, "status='Ac", [])
  {
    SplitKeep(t, 5, Unquoted, 0, "statu", [], Unquoted, 0, "status");
    SplitKeep(t, 6, Unquoted, 0, "status", [], Unquoted, 0, "status=");
    SplitKeep(t, 7, Unquoted, 0, "status=", [], QuotedBy('\''), 0, "status='");
    SplitKeep(t, 8, QuotedBy('\''), 0, "status='", [], QuotedBy('\''), 0, "status='A");
    SplitKeep(t, 9, QuotedBy('\''), 0, "status='A", [], QuotedBy('\''), 0, "status='Ac");
  }

  lemma NestedInnerRun2(t: string)
    requires |t| == 26 && t[9] == 'c' && t[10] == 't' && t[11] == 'i' && t[12] == 'v' && t[13] == 'e' && t[14] == '\''
    ensures SplitLoop(t, 10, QuotedBy('\''), 0, "status='Ac", [])
      == SplitLoop(t, 15, Unquoted, 0, "status='Active'", [])
  {
    SplitKeep(t, 10, QuotedBy('\''), 0, "status='Ac", [], QuotedBy('\''), 0, "status='Act");
    SplitKeep(t, 11, QuotedBy('\''), 0, "status='Act", [], QuotedBy('\''), 0, "status='Acti");
    SplitKeep(t, 12, QuotedBy('\''), 0, "status='Acti", [], QuotedBy('\''), 0, "status='Activ");
    SplitKeep(t, 13, QuotedBy('\''), 0, "status='Activ", [], QuotedBy('\''), 0, "status='Active");
    SplitKeep(t, 14, QuotedBy('\''), 0, "status='Active", [], Unquoted, 0, "status='Active'");
  }

  lemma NestedInnerRun3(t: string)
    requires |t| == 26 && t[14] == '\'' && t[15] == ',' && t[16] == ' ' && t[17] == 'a' && t[18] == 'm' && t[19] == 'o'
    ensures SplitLoop(t, 15, Unquoted, 0, "status='Active'", [])
      == SplitLoop(t, 20, Unquoted, 0, " amo", ["status='Active'"])
  {
    SplitCut(t, 15, "status='Active'", [], ["status='Active'"]);
    SplitKeep(t, 16, Unquoted, 0, "", ["status='Active'"], Unquoted, 0, " ");
    SplitKeep(t, 17, Unquoted, 0, " ", ["status='Active'"], Unquoted, 0, " a");
    SplitKeep(t, 18, Unquoted, 0, " a", ["status='Active'"], Unquoted, 0, " am");
    SplitKeep(t, 19, Unquoted, 0, " am", ["status='Active'"], Unquoted, 0, " amo");
  }

  lemma NestedInnerRun4(t: string)
    requires |t| == 26 && t[19] == 'o' && t[20] == 'u' && t[21] == 'n' && t[22] == 't' && t[23] == ',' && t[24] == ' '
    ensures SplitLoop(t, 20, Unquoted, 0, " amo", ["status='Active'"])
      == SplitLoop(t, 25, Unquoted, 0, " ", ["status='Active'", " amount"])
  {
    SplitKeep(t, 20, Unquoted, 0, " amo", ["status='Active'"], Unquoted, 0, " amou");
    SplitKeep(t, 21, Unquoted, 0, " amou", ["status='Active'"], Unquoted, 0, " amoun");
    SplitKeep(t, 22, Unquoted, 0, " amoun", ["status='Active'"], Unquoted, 0, " amount");
    SplitCut(t, 23, " amount", ["status='Active'"], ["status='Active'", " amount"]);
    SplitKeep(t, 24, Unquoted, 0, "", ["status='Active'", " amount"], Unquoted, 0, " ");
  }

  lemma NestedInnerRun5(t: string)
    requires |t| == 26 && t[24] == ' ' && t[25] == '0'
    ensures SplitLoop(t, 25, Unquoted, 0, " ", ["status='Active'", " amount"])
      == SplitLoop(t, 26, Unquoted, 0, " 0", ["status='Active'", " amount"])
  {
    SplitKeep(t, 25, Unquoted, 0, " ", ["status='Active'", " amount"], Unquoted, 0, " 0");
  }
}

