/**
  `convert_if_to_case`: MySQL's `IF(c, t, f)` rewritten as PostgreSQL's
  `CASE WHEN c THEN t ELSE f END`, one leftmost occurrence at a time.

  Each turn takes the leftmost match of `\bIF\s*\(`, finds the matching
  ')' with the balanced scanner and splits the interior at top-level
  commas.  Three parts give a CASE expression in place of the whole call.
  An occurrence that cannot be converted is hidden behind a sentinel so
  that the next search skips it, and every sentinel is turned back into
  `IF(` at the end.  At most 100 turns are taken.
 */
module IfRewriter {
  import opened Wrappers
  import opened Text
  import opened Regex
  import opened RegexPatterns
  import opened Scanner

  /** Hides an occurrence that sits inside a longer word. */
  const NotIfMark := "___NOTIF___("
  /** Hides an occurrence that is unterminated or does not have three arguments. */
  const BadIfMark := "___BADIF___("
  /** What both sentinels are turned back into. */
  const IfOpen := "IF("
  /** How every CASE expression the rewriter writes begins. */
  const CaseHead := "CASE WHEN "
  const MaxIterations := 100

  /** The leftmost `IF(` occurrence: where the match starts and ends (one
      past its opening parenthesis). */
  function FirstIf(q: string): (r: Option<(nat, nat)>)
    ensures r.Some? ==> CallShape("IF", q, r.value.0, r.value.1)
    ensures r.Some? ==> forall j :: 0 <= j < r.value.0 ==> CallMatch("IF", q, j).None?
    ensures r.None? ==> forall j :: 0 <= j <= |q| ==> CallMatch("IF", q, j).None?
  {
    PatternMatcherWellFormed(IfCall);
    match Search(PatternMatcher(IfCall), q, 0)
    case None =>
      assert forall j :: 0 <= j <= |q| ==> PatternMatcher(IfCall)(q, j) == CallMatch("IF", q, j);
      None
    case Some(i) =>
      assert forall j :: 0 <= j <= |q| ==> PatternMatcher(IfCall)(q, j) == CallMatch("IF", q, j);
      Some((i, CallMatch("IF", q, i).value))
  }

  /** What one turn finds at an occurrence. */
  datatype IfCase =
    | InsideWord                                 // preceded by a letter, digit or '_'
    | Unterminated                               // no matching ')'
    | WrongArity(parts: seq<string>)             // not three top-level parts
    | Convertible(close: nat, parts: seq<string>) // ')' ends at `close`; three parts

  /** The interior of the call whose '(' ends the match at `end`, up to
      the ')' that ends at `close`. */
  function Interior(q: string, end: nat, close: nat): string
    requires 0 < end < close <= |q|
  {
    q[end..close - 1]
  }

  /** The rewriter's own "inside a longer word" test at `start`. */
  predicate InsideWordAt(q: string, start: nat)
    requires start <= |q|
  {
    start > 0 && (IsAlnum(q[start - 1]) || q[start - 1] == '_')
  }

  /** How a turn classifies the occurrence `q[start..end]`, tests in the
      rewriter's order. */
  function Classify(q: string, start: nat, end: nat): (c: IfCase)
    requires CallShape("IF", q, start, end)
    ensures c.Convertible? ==> end < c.close <= |q| && |c.parts| == 3
    ensures c.Convertible? ==> FindClose(q, end - 1) == Some(c.close)
    ensures c.Convertible? ==> c.parts == SplitByComma(Interior(q, end, c.close))
    ensures c.Unterminated? <==> !InsideWordAt(q, start) && FindClose(q, end - 1).None?
    ensures c.InsideWord? <==> InsideWordAt(q, start)
  {
    if InsideWordAt(q, start) then InsideWord
    else
      match FindClose(q, end - 1)
      case None => Unterminated
      case Some(close) =>
        var parts := SplitByComma(Interior(q, end, close));
        if |parts| != 3 then WrongArity(parts) else Convertible(close, parts)
  }

  /** The CASE expression built from the three (stripped) parts. */
  function CaseExpr(parts: seq<string>): string
    requires |parts| == 3
  {
    CaseHead + CaseRest(parts)
  }

  /** The CASE expression after its head. */
  function CaseRest(parts: seq<string>): string
    requires |parts| == 3
  {
    Strip(parts[0]) + " THEN " + Strip(parts[1]) + " ELSE " + Strip(parts[2]) + " END"
  }

  /** One turn of the loop at the occurrence `q[start..end]`. */
  function Step(q: string, start: nat, end: nat): string
    requires CallShape("IF", q, start, end)
  {
    match Classify(q, start, end)
    case InsideWord => q[..start] + NotIfMark + q[end..]
    case Unterminated => q[..start] + BadIfMark + q[end..]
    case WrongArity(_) => q[..start] + BadIfMark + q[end..]
    case Convertible(close, parts) => q[..start] + CaseExpr(parts) + q[close..]
  }

  /** The start of what a turn writes in place of the occurrence: a
      sentinel, or the head of the CASE expression. */
  function Head(q: string, start: nat, end: nat): string
    requires CallShape("IF", q, start, end)
  {
    match Classify(q, start, end)
    case InsideWord => NotIfMark
    case Unterminated => BadIfMark
    case WrongArity(_) => BadIfMark
    case Convertible(_, _) => CaseHead
  }

  /** The loop, `iteration` turns in: it stops when no occurrence is left or
      after the last allowed turn, and returns the text and the number of
      turns taken. */
  function Loop(q: string, iteration: nat): (r: (string, nat))
    requires iteration <= MaxIterations
    ensures iteration <= r.1 <= MaxIterations
    ensures r.1 < MaxIterations ==> FirstIf(r.0).None?
    ensures FirstIf(q).None? ==> r == (q, iteration)
    ensures iteration == MaxIterations ==> r == (q, iteration)
    ensures StartsWith(r.0, q[..FirstIfStart(q)])
    decreases MaxIterations - iteration
  {
    match FirstIf(q)
    case None => (q, iteration)
    case Some((start, end)) =>
      if iteration < MaxIterations then
        var r := Loop(Step(q, start, end), iteration + 1);
        TurnKeepsFront(q, start, end, r.0);
        r
      else (q, iteration)
  }

  /** Where the leftmost occurrence starts, or the end of the text when
      there is none: the loop never changes the text in front of it. */
  function FirstIfStart(q: string): (n: nat)
    ensures n <= |q|
  {
    match FirstIf(q)
    case None => |q|
    case Some((start, _)) => start
  }

  /** `t` begins with `pre`. */
  predicate StartsWith(t: string, pre: string) {
    pre <= t
  }

  /** Turns both sentinels back into `IF(`. */
  function Restore(q: string): string {
    ReplaceAll(ReplaceAll(q, NotIfMark, IfOpen), BadIfMark, IfOpen)
  }

  /** `convert_if_to_case`.  A text without an occurrence is returned as
      it is, without even restoring sentinels.  Otherwise every turn the
      loop took is settled in the result: after what the text in front of
      its occurrence restores to comes `CASE WHEN ` when the turn converted
      the occurrence, and `IF(` when it gave up on it, so no occurrence the
      rewriter gave up on is dropped.  When the text holds no sentinel of
      its own, the text in front of the leftmost occurrence is kept as it
      was. */
  function ConvertIfToCase(q: string): (r: string)
    ensures FirstIf(q).None? ==> r == q
    ensures forall k: nat :: k < Turns(q) ==> SettledIn(After(q, k), r)
    ensures FirstIf(q).Some? && SentinelFree(q) ==>
      var (start, end) := FirstIf(q).value;
      && (Classify(q, start, end).Convertible? ==> q[..start] + CaseHead <= r)
      && (!Classify(q, start, end).Convertible? ==> q[..start] + IfOpen <= r)
  {
    match FirstIf(q)
    case None => q
    case Some((start, end)) =>
      FirstOccurrenceSettled(q, start, end);
      AllTurnsSettled(q, Loop(q, 0).0);
      Restore(Loop(q, 0).0)
  }

  // ---------------------------------------------------------------------
  // Properties
  // ---------------------------------------------------------------------

  /** A text in which `\bIF\s*\(` matches nowhere comes back exactly as
      it went in. */
  lemma NoMatchUnchanged(q: string)
    requires forall j :: 0 <= j <= |q| ==> CallMatch("IF", q, j).None?
    ensures ConvertIfToCase(q) == q
  {
    assert FirstIf(q).None?;
  }

  /** The "inside a word" test repeats what `\b` has already checked, so an
      occurrence the search finds is never hidden behind the NOTIF sentinel. */
  lemma NeverInsideWord(q: string, start: nat, end: nat)
    requires CallShape("IF", q, start, end)
    ensures !Classify(q, start, end).InsideWord?
  {
  }

  /** A turn that converts replaces exactly the call, from `IF` through its
      matching ')', by the CASE expression over the stripped parts of the
      interior; the text before and after is untouched. */
  lemma ConvertStep(q: string, start: nat, end: nat)
    requires CallShape("IF", q, start, end) && Classify(q, start, end).Convertible?
    ensures var c := Classify(q, start, end);
      && FindClose(q, end - 1) == Some(c.close)
      && q[c.close - 1] == ')'
      && c.parts == SplitByComma(Interior(q, end, c.close))
      && Step(q, start, end) == q[..start] + CaseExpr(c.parts) + q[c.close..]
  {
  }

  /** Conversely, a call that is not inside a word, whose ')' the scanner
      finds and whose interior splits into three parts, is converted. */
  lemma ConvertibleWhen(q: string, start: nat, end: nat, close: nat)
    requires CallShape("IF", q, start, end) && !InsideWordAt(q, start)
    requires FindClose(q, end - 1) == Some(close)
    requires |SplitByComma(Interior(q, end, close))| == 3
    ensures Classify(q, start, end) == Convertible(close, SplitByComma(Interior(q, end, close)))
  {
  }

  /** A turn that gives up hides the occurrence behind the BADIF sentinel,
      keeping everything after the '(' as it was. */
  lemma GiveUpStep(q: string, start: nat, end: nat)
    requires CallShape("IF", q, start, end)
    requires Classify(q, start, end).Unterminated? || Classify(q, start, end).WrongArity?
    ensures Step(q, start, end) == q[..start] + BadIfMark + q[end..]
    ensures Classify(q, start, end).Unterminated? <==> FindClose(q, end - 1).None?
  {
  }

  // --- the scanner and the splitter agree on the interior ---------------

  /** The splitter's state after `j` characters of the interior is the
      scanner's state at the same point, one level of depth lower: both
      follow the same quote rule and neither counts parentheses inside a
      quoted span. */
  lemma {:induction false} ScannerAgreesWithSplitter(q: string, open: nat, k: nat, j: nat)
    requires open < k <= |q| && q[open] == '('
    requires j <= k - open - 1
    ensures var st := Running(q, open, open + 1 + j);
      SplitState(q[open + 1..k], j) == ScanState(st.quote, st.depth - 1)
  {
    if j > 0 {
      ScannerAgreesWithSplitter(q, open, k, j - 1);
      var t := q[open + 1..k];
      assert t[j - 1] == q[open + j];
      if j > 1 {
        assert t[j - 2] == q[open + j - 1];
      }
    }
  }

  /** The interior of a call whose ')' the scanner found is balanced as the
      splitter sees it: it ends outside quotes at depth zero, and the depth
      never goes negative in between. */
  lemma InteriorBalanced(q: string, open: nat, close: nat)
    requires open < |q| && q[open] == '(' && FindClose(q, open) == Some(close)
    ensures var t := q[open + 1..close - 1];
      && SplitState(t, |t|) == ScanState(Unquoted, 0)
      && forall j :: 0 <= j <= |t| ==> SplitState(t, j).depth >= 0
  {
    var t := q[open + 1..close - 1];
    ScannerAgreesWithSplitter(q, open, close - 1, |t|);
    assert Running(q, open, close) == ScanStep(Running(q, open, close - 1), q, close - 1);
    forall j | 0 <= j <= |t|
      ensures SplitState(t, j).depth >= 0
    {
      ScannerAgreesWithSplitter(q, open, close - 1, j);
    }
  }

  // --- an occurrence that is given up is never lost ---------------------

  /** Neither sentinel occurs in `s`. */
  predicate SentinelFree(s: string) {
    !Contains(s, NotIfMark) && !Contains(s, BadIfMark)
  }

  lemma SentinelFreeSlice(q: string, i: nat, j: nat)
    requires i <= j <= |q| && SentinelFree(q)
    ensures SentinelFree(q[i..j])
  {
    if Contains(q[i..j], NotIfMark) {
      ContainsSlice(q, i, j, NotIfMark);
    }
    if Contains(q[i..j], BadIfMark) {
      ContainsSlice(q, i, j, BadIfMark);
    }
  }

  /** The shape both sentinels share: word characters closed by '(' . */
  predicate MarkShape(m: string) {
    && |m| > 1 && m[|m| - 1] == '('
    && forall j :: 0 <= j < |m| - 1 ==> IsWordChar(m[j])
  }

  lemma SentinelsShape()
    ensures MarkShape(NotIfMark) && MarkShape(BadIfMark)
    ensures |NotIfMark| == |BadIfMark| && NotIfMark != BadIfMark
  {
    assert NotIfMark[3] != BadIfMark[3];
  }

  /** Restoring a text that holds one BADIF sentinel between two
      sentinel-free stretches turns exactly that sentinel into `IF(`. */
  lemma RestoreAroundMark(a: string, b: string)
    requires SentinelFree(a) && SentinelFree(b)
    requires |a| == 0 || !IsWordChar(a[|a| - 1])
    ensures Restore(a + BadIfMark + b) == a + IfOpen + b
  {
    HeadsEnd();
    RestoreSplits(a, BadIfMark, b);
    RestoreBadMark();
    RestoreSentinelFree(a);
    RestoreSentinelFree(b);
  }

  /** A sentinel-shaped literal that starts inside `a` cannot run on past
      its end: the character at which it would cross over is a word
      character of the literal, and `a` does not end with one. */
  lemma MarkNotStraddled(a: string, rest: string, pat: string)
    requires MarkShape(pat)
    requires |a| == 0 || !IsWordChar(a[|a| - 1])
    ensures NoStraddle(a, rest, pat)
  {
    forall k: nat | k < |a| < k + |pat|
      ensures !LiteralAt(a + rest, k, pat)
    {
      LiteralAtIsSlice(a + rest, k, pat);
      var j := |a| - 1 - k;
      assert IsWordChar(pat[j]) && (a + rest)[k + j] == a[|a| - 1];
      assert k + |pat| <= |a + rest| ==> (a + rest)[k..k + |pat|][j] == (a + rest)[k + j];
    }
  }

  /** A sentinel-shaped literal `pat` other than `mark` occurs nowhere in
      `a + mark + b` when it occurs in neither `a` nor `b`. */
  lemma NoOtherMarkAcross(a: string, mark: string, b: string, pat: string)
    requires MarkShape(pat) && MarkShape(mark) && |pat| == |mark| && pat != mark
    requires !Contains(a, pat) && !Contains(b, pat)
    requires |a| == 0 || !IsWordChar(a[|a| - 1])
    ensures !Contains(a + mark + b, pat)
  {
    forall k: nat | k <= |a + mark + b|
      ensures !LiteralAt(a + mark + b, k, pat)
    {
      NoOtherMarkAt(a, mark, b, pat, k);
    }
  }

  lemma NoOtherMarkAt(a: string, mark: string, b: string, pat: string, k: nat)
    requires MarkShape(pat) && MarkShape(mark) && |pat| == |mark| && pat != mark
    requires !Contains(a, pat) && !Contains(b, pat)
    requires |a| == 0 || !IsWordChar(a[|a| - 1])
    requires k <= |a + mark + b|
    ensures !LiteralAt(a + mark + b, k, pat)
  {
    var s := a + mark + b;
    var n := |pat|;
    LiteralAtIsSlice(s, k, pat);
    if k + n <= |s| {
      var w := s[k..k + n];
      if k + n <= |a| {
        assert w == a[k..k + n];
        LiteralAtIsSlice(a, k, pat);
      } else if k >= |a| + n {
        assert s[|a| + n..] == b;
        LiteralAtShift(s, |a| + n, k - |a| - n, pat);
      } else if k < |a| {
        WindowDiffers(w, pat, |a| - 1 - k);
      } else if k > |a| {
        assert s[|a| + n - 1] == mark[n - 1];
        WindowDiffers(w, pat, |a| + n - 1 - k);
      } else {
        assert w == mark;
      }
    }
  }

  /** A window with a non-word character where a sentinel-shaped literal
      has a word character is not that literal. */
  lemma WindowDiffers(w: string, pat: string, j: nat)
    requires MarkShape(pat) && |w| == |pat| && j < |pat| - 1
    requires !IsWordChar(w[j])
    ensures w != pat
  {
    assert IsWordChar(pat[j]);
  }

  // --- the leftmost occurrence is settled by its own turn ---------------

  /** No `\bIF\s*\(` match starts before `p`. */
  predicate NoIfBefore(t: string, p: nat) {
    forall j: nat :: j < p && j <= |t| ==> CallMatch("IF", t, j).None?
  }

  /** A head that no match can start in, and that cannot complete a match
      begun in front of it: its first character is neither whitespace, nor
      '(', nor an F, and each I in it follows a word character. */
  predicate Blocking(h: string) {
    && |h| > 0 && !IsSpace(h[0]) && h[0] != '(' && !SameIgnoringCase(h[0], 'F')
    && forall k :: 0 <= k < |h| ==> NoIfStartsAt(h, k)
  }

  /** Position `k` of `h` is not an I that could begin a word. */
  predicate NoIfStartsAt(h: string, k: nat)
    requires k < |h|
  {
    !SameIgnoringCase(h[k], 'I') || (k > 0 && IsWordChar(h[k - 1]))
  }

  lemma HeadsBlock()
    ensures Blocking(NotIfMark) && Blocking(BadIfMark) && Blocking(CaseHead)
  {
    forall k | 0 <= k < |BadIfMark| ensures NoIfStartsAt(BadIfMark, k) {
      if k == 6 { assert IsWordChar(BadIfMark[5]); }
    }
    forall k | 0 <= k < |NotIfMark| ensures NoIfStartsAt(NotIfMark, k) {
      if k == 6 { assert IsWordChar(NotIfMark[5]); }
    }
  }

  /** Writing a blocking head at `s`, where no match started before, leaves
      no match starting before the end of the head. */
  lemma HeadBlocks(q: string, s: nat, h: string, rest: string)
    requires s <= |q| && NoIfBefore(q, s) && Blocking(h)
    ensures NoIfBefore(q[..s] + h + rest, s + |h|)
  {
    forall j: nat | j < s + |h| && j <= |q[..s] + h + rest|
      ensures CallMatch("IF", q[..s] + h + rest, j).None?
    {
      NoIfAt(q, s, h, rest, j);
    }
  }

  lemma NoIfAt(q: string, s: nat, h: string, rest: string, j: nat)
    requires s <= |q| && NoIfBefore(q, s) && Blocking(h)
    requires j < s + |h|
    ensures CallMatch("IF", q[..s] + h + rest, j).None?
  {
    var t := q[..s] + h + rest;
    var r := CallMatch("IF", t, j);
    assert r.Some? ==> CallShape("IF", t, j, r.value);
    assert t[s] == h[0];
    if j >= s {
      assert t[j] == h[j - s];
      assert NoIfStartsAt(h, j - s);
      if !SameIgnoringCase(h[j - s], 'I') {
        assert !SameIgnoringCase(t[j + 0], "IF"[0]);
        assert !LiteralAtIgnoringCase(t, j, "IF");
      } else {
        assert t[j - 1] == h[j - s - 1];
        assert !WordStart(t, j);
      }
      assert forall e: nat :: !CallShape("IF", t, j, e);
    } else if j + 1 < s {
      assert forall k :: 0 <= k < s ==> t[k] == q[k];
      assert CallMatch("IF", q, j).None?;
      assert forall e: nat :: CallShape("IF", t, j, e) ==> e <= s && CallShape("IF", q, j, e);
      assert forall e: nat :: !CallShape("IF", t, j, e);
    } else {
      assert !SameIgnoringCase(t[j + 1], "IF"[1]);
      assert !LiteralAtIgnoringCase(t, j, "IF");
    }
  }

  /** A turn keeps the text in front of the occurrence and writes its head
      there, and the next occurrence starts after that head. */
  lemma NextTurnIsLater(q: string, s: nat, e: nat)
    requires FirstIf(q) == Some((s, e))
    ensures q[..s] + Head(q, s, e) <= Step(q, s, e)
    ensures NoIfBefore(Step(q, s, e), s + |Head(q, s, e)|)
  {
    var h := Head(q, s, e);
    var t := Step(q, s, e);
    HeadIsBlocking(q, s, e);
    StepWritesHead(q, s, e);
    var rest := t[s + |h|..];
    PrefixSplit(q[..s] + h, t);
    HeadBlocks(q, s, h, rest);
  }

  lemma HeadIsBlocking(q: string, s: nat, e: nat)
    requires CallShape("IF", q, s, e)
    ensures Blocking(Head(q, s, e))
  {
    HeadsBlock();
  }

  lemma PrefixSplit(p: string, t: string)
    requires p <= t
    ensures t == p + t[|p|..]
  {
  }

  lemma StepWritesHead(q: string, s: nat, e: nat)
    requires CallShape("IF", q, s, e)
    ensures q[..s] + Head(q, s, e) <= Step(q, s, e)
  {
    NeverInsideWord(q, s, e);
    var c := Classify(q, s, e);
    if c.Convertible? {
      ConvertStep(q, s, e);
      assert Head(q, s, e) == CaseHead;
      CaseHeadFirst(q[..s], c.parts, q[c.close..]);
    } else {
      GiveUpStep(q, s, e);
      assert Head(q, s, e) == BadIfMark;
      PrefixOfConcat(q[..s] + BadIfMark, q[e..]);
    }
  }

  lemma CaseHeadFirst(a: string, parts: seq<string>, rest: string)
    requires |parts| == 3
    ensures a + CaseHead <= a + CaseExpr(parts) + rest
  {
    var body := CaseRest(parts);
    Regroup(a, CaseHead, body, rest);
    PrefixOfConcat(a + CaseHead, body + rest);
  }

  lemma Regroup(a: string, h: string, b: string, r: string)
    ensures a + (h + b) + r == (a + h) + (b + r)
  {
  }

  lemma PrefixOfConcat(a: string, b: string)
    ensures a <= a + b
  {
    assert (a + b)[..|a|] == a;
  }

  /** A turn keeps the text in front of its occurrence and the head it
      wrote there, whatever the later turns do after the next occurrence. */
  lemma TurnKeepsFront(q: string, s: nat, e: nat, l: string)
    requires FirstIf(q) == Some((s, e))
    requires StartsWith(l, Step(q, s, e)[..FirstIfStart(Step(q, s, e))])
    ensures StartsWith(l, q[..s]) && StartsWith(l, q[..s] + Head(q, s, e))
  {
    var t := Step(q, s, e);
    var h := Head(q, s, e);
    NextTurnIsLater(q, s, e);
    NoIfBeforeStart(t, s + |h|);
    PrefixChain(q[..s] + h, t, FirstIfStart(t), l);
    PrefixChain(q[..s], q[..s] + h, |q[..s] + h|, l);
  }

  /** The leftmost occurrence starts no earlier than `n` when no match
      starts before `n`. */
  lemma NoIfBeforeStart(t: string, n: nat)
    requires n <= |t| && NoIfBefore(t, n)
    ensures n <= FirstIfStart(t)
  {
    match FirstIf(t)
    case None =>
    case Some((s, e)) =>
      assert CallMatch("IF", t, s) == Some(e);
  }

  /** A prefix of a prefix: `a` begins `t`, and `l` begins with `t` up to
      some point past `a`. */
  lemma PrefixChain(a: string, t: string, m: nat, l: string)
    requires a <= t && |a| <= m <= |t| && t[..m] <= l
    ensures a <= l
  {
    assert t[..m][..|a|] == a;
  }

  /** A literal longer than `h`, or as long but different, is not in `h`. */
  lemma NotInShorter(h: string, pat: string)
    requires |h| <= |pat| && h != pat
    ensures !Contains(h, pat)
  {
    forall k: nat | k <= |h| ensures !LiteralAt(h, k, pat) {
      LiteralAtIsSlice(h, k, pat);
      if k + |pat| <= |h| {
        assert h[k..k + |pat|] == h;
      }
    }
  }

  /** Both heads end with a non-word character, and neither holds a sentinel. */
  lemma HeadsEnd()
    ensures !IsWordChar(BadIfMark[|BadIfMark| - 1]) && !IsWordChar(CaseHead[|CaseHead| - 1])
    ensures !Contains(BadIfMark, NotIfMark) && SentinelFree(CaseHead)
  {
    SentinelsShape();
    NotInShorter(BadIfMark, NotIfMark);
    NotInShorter(CaseHead, NotIfMark);
    NotInShorter(CaseHead, BadIfMark);
  }

  lemma MarkReplaced(m: string, rep: string)
    requires |m| > 0
    ensures ReplaceAll(m, m, rep) == rep
  {
    ReplaceAllLeading(m, [], rep);
    assert m + [] == m;
  }

  /** The text in front of an occurrence holds no sentinel when the whole
      text holds none, and it does not end with a word character. */
  lemma FrontOfOccurrence(q: string, s: nat, e: nat)
    requires CallShape("IF", q, s, e) && SentinelFree(q)
    ensures SentinelFree(q[..s]) && (s == 0 || !IsWordChar(q[..s][s - 1]))
  {
    assert q[0..s] == q[..s];
    SentinelFreeSlice(q, 0, s);
  }

  /** The first occurrence as `convert_if_to_case` leaves it: in a text
      holding no sentinel of its own, the text in front of it is untouched. */
  lemma FirstOccurrenceSettled(q: string, s: nat, e: nat)
    requires FirstIf(q) == Some((s, e))
    ensures SentinelFree(q) && Classify(q, s, e).Convertible? ==> q[..s] + CaseHead <= Restore(Loop(q, 0).0)
    ensures SentinelFree(q) && !Classify(q, s, e).Convertible? ==> q[..s] + IfOpen <= Restore(Loop(q, 0).0)
  {
    if SentinelFree(q) {
      assert Loop(q, 0) == Loop(Step(q, s, e), 1);
      EveryTurnSettled(q, 0);
      FrontOfOccurrence(q, s, e);
      RestoreSentinelFree(q[..s]);
    }
  }

  /** Restoration leaves a text without sentinels as it is. */
  lemma RestoreSentinelFree(a: string)
    requires SentinelFree(a)
    ensures Restore(a) == a
  {
    ReplaceAllAbsent(a, NotIfMark, IfOpen);
    ReplaceAllAbsent(a, BadIfMark, IfOpen);
  }

  // --- every turn is settled in the result ------------------------------

  /** The text after one turn, or the text itself when no occurrence is
      left. */
  function Next(t: string): string {
    match FirstIf(t)
    case None => t
    case Some((s, e)) => Step(t, s, e)
  }

  /** The text after the first `k` of the turns the loop takes on `q`;
      the loop goes on from there as if it had started there at iteration
      `k`. */
  function After(q: string, k: nat): (t: string)
    requires k <= Turns(q)
    ensures k <= MaxIterations && Loop(t, k) == Loop(q, 0)
    decreases k
  {
    if k == 0 then q
    else
      var a := After(q, k - 1);
      TurnTaken(a, k - 1);
      Next(a)
  }

  /** How many turns the loop takes on `q`. */
  function Turns(q: string): nat {
    Loop(q, 0).1
  }

  /** The turn taken on `t` is settled in `r`: `r` starts with what the
      restoration makes of the text in front of the occurrence, followed by
      `CASE WHEN ` when the turn converted it and by `IF(` when it gave up. */
  predicate SettledIn(t: string, r: string) {
    match FirstIf(t)
    case None => false
    case Some((s, e)) =>
      if Classify(t, s, e).Convertible? then Restore(t[..s]) + CaseHead <= r
      else Restore(t[..s]) + IfOpen <= r
  }

  /** The turn taken on `t` left its head in `l`: `l` starts with the
      text in front of the occurrence and the head written there. */
  predicate KeptIn(t: string, l: string) {
    match FirstIf(t)
    case None => false
    case Some((s, e)) => StartsWith(l, t[..s] + Head(t, s, e))
  }

  /** A loop that counts a turn past iteration `i` takes one there and goes
      on from the text that turn leaves. */
  lemma TurnTaken(t: string, i: nat)
    requires i <= MaxIterations && i < Loop(t, i).1
    ensures FirstIf(t).Some? && i < MaxIterations && Loop(t, i) == Loop(Next(t), i + 1)
  {
  }

  /** Every turn the loop takes keeps the text in front of its occurrence
      and the head it wrote there until the loop stops. */
  lemma EveryTurnKept(q: string, k: nat)
    requires k < Turns(q)
    ensures KeptIn(After(q, k), Loop(q, 0).0)
  {
    var t := After(q, k);
    TurnTaken(t, k);
    var (s, e) := FirstIf(t).value;
    TurnKeepsFront(t, s, e, Loop(q, 0).0);
  }

  /** Every turn is settled in the result: an occurrence that was
      converted begins with `CASE WHEN `, and one the rewriter gave up on is
      `IF(` again, right after what the text in front of it restores to. */
  lemma EveryTurnSettled(q: string, k: nat)
    requires k < Turns(q)
    ensures SettledIn(After(q, k), Restore(Loop(q, 0).0))
  {
    EveryTurnKept(q, k);
    var t := After(q, k);
    var (s, e) := FirstIf(t).value;
    RestoreHeadOf(t, s, e, Loop(q, 0).0);
  }

  lemma AllTurnsSettled(q: string, l: string)
    requires l == Loop(q, 0).0
    ensures forall k: nat :: k < Turns(q) ==> SettledIn(After(q, k), Restore(l))
  {
    forall k: nat | k < Turns(q)
      ensures SettledIn(After(q, k), Restore(l))
    {
      EveryTurnSettled(q, k);
    }
  }

  /** A loop result starting with the front of an occurrence and the head
      its turn wrote restores to the restored front and what the head
      restores to. */
  lemma RestoreHeadOf(t: string, s: nat, e: nat, l: string)
    requires FirstIf(t) == Some((s, e))
    requires StartsWith(l, t[..s] + Head(t, s, e))
    ensures SettledIn(t, Restore(l))
  {
    NeverInsideWord(t, s, e);
    HeadsEnd();
    RestoreBadMark();
    RestoreCaseHead();
    RestoredPrefix(t[..s], Head(t, s, e), l);
  }

  /** A text that starts with `a + h` restores to something that starts
      with the restored `a` and the restored `h`. */
  lemma RestoredPrefix(a: string, h: string, l: string)
    requires |a| == 0 || !IsWordChar(a[|a| - 1])
    requires |h| > 0 && !IsWordChar(h[|h| - 1])
    requires StartsWith(l, a + h)
    ensures Restore(a) + Restore(h) <= Restore(l)
  {
    PrefixSplit(a + h, l);
    var rest := l[|a + h|..];
    RestoreSplits(a, h, rest);
    PrefixOfConcat(Restore(a) + Restore(h), Restore(rest));
  }

  /** Restoration works on `a`, `h` and `rest` apart when neither `a` nor
      the non-empty `h` ends with a word character: no sentinel can run
      across either join. */
  lemma RestoreSplits(a: string, h: string, rest: string)
    requires |a| == 0 || !IsWordChar(a[|a| - 1])
    requires |h| > 0 && !IsWordChar(h[|h| - 1])
    ensures Restore(a + h + rest) == Restore(a) + Restore(h) + Restore(rest)
  {
    SentinelsShape();
    var a1 := ReplaceAll(a, NotIfMark, IfOpen);
    var h1 := ReplaceAll(h, NotIfMark, IfOpen);
    var r1 := ReplaceAll(rest, NotIfMark, IfOpen);
    ReplaceSplits(a, h, rest, NotIfMark, IfOpen);
    ReplaceAllEnds(a, NotIfMark, IfOpen);
    ReplaceAllEnds(h, NotIfMark, IfOpen);
    ReplaceSplits(a1, h1, r1, BadIfMark, IfOpen);
  }

  /** One replacement pass of a sentinel-shaped literal works on `a`, `h`
      and `rest` apart under the same conditions. */
  lemma ReplaceSplits(a: string, h: string, rest: string, pat: string, rep: string)
    requires MarkShape(pat)
    requires |a| == 0 || !IsWordChar(a[|a| - 1])
    requires |h| > 0 && !IsWordChar(h[|h| - 1])
    ensures ReplaceAll(a + h + rest, pat, rep)
      == ReplaceAll(a, pat, rep) + ReplaceAll(h, pat, rep) + ReplaceAll(rest, pat, rep)
  {
    assert a + h + rest == a + (h + rest);
    MarkNotStraddled(a, h + rest, pat);
    ReplaceAllConcat(a, h + rest, pat, rep);
    MarkNotStraddled(h, rest, pat);
    ReplaceAllConcat(h, rest, pat, rep);
  }

  /** Replacing with `IF(` keeps a text empty exactly when it was, and ends
      it either as it ended or with the '(' of `IF(`. */
  lemma {:induction false} ReplaceAllEnds(s: string, pat: string, rep: string)
    requires |pat| > 0 && rep == IfOpen
    ensures var r := ReplaceAll(s, pat, rep);
      && (|r| == 0 <==> |s| == 0)
      && (|s| > 0 ==> r[|r| - 1] == s[|s| - 1] || r[|r| - 1] == '(')
    decreases |s|
  {
    if |s| > 0 {
      if LiteralAt(s, 0, pat) {
        LiteralAtIsSlice(s, 0, pat);
        ReplaceAllEnds(s[|pat|..], pat, rep);
        if |s[|pat|..]| > 0 {
          assert s[|pat|..][|s[|pat|..]| - 1] == s[|s| - 1];
        }
      } else {
        ReplaceAllEnds(s[1..], pat, rep);
        if |s| > 1 {
          assert s[1..][|s[1..]| - 1] == s[|s| - 1];
        }
      }
    }
  }

  /** The BADIF sentinel on its own restores to `IF(`. */
  lemma RestoreBadMark()
    ensures Restore(BadIfMark) == IfOpen
  {
    HeadsEnd();
    ReplaceAllAbsent(BadIfMark, NotIfMark, IfOpen);
    MarkReplaced(BadIfMark, IfOpen);
  }

  /** The CASE head on its own is left alone by the restoration. */
  lemma RestoreCaseHead()
    ensures Restore(CaseHead) == CaseHead
  {
    HeadsEnd();
    ReplaceAllAbsent(CaseHead, NotIfMark, IfOpen);
    ReplaceAllAbsent(CaseHead, BadIfMark, IfOpen);
  }
}
