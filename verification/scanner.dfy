/**
  The balanced scanner and the comma splitter of the IF() rewriter.

  Both walk a string keeping a quote state and a parenthesis depth.  A quote
  mark (' or ") opens a quoted span when none is open; inside a span only
  the same mark closes it, and only when the character before it is not a
  backslash.  Parentheses inside a quoted span do not count.
 */
module Scanner {
  import opened Wrappers
  import opened Text

  /** Outside any quoted span, or inside one opened by `mark`. */
  datatype Quote = Unquoted | QuotedBy(mark: char)

  /** What both walkers carry from one character to the next. */
  datatype ScanState = ScanState(quote: Quote, depth: int)

  predicate IsQuoteMark(c: char) {
    c == '\'' || c == '"'
  }

  /** The character before position `i` is a backslash. */
  predicate Escaped(s: string, i: nat)
    requires i <= |s|
  {
    i > 0 && s[i - 1] == '\\'
  }

  /** The quote rule shared by both walkers, for a quote mark `c`. */
  function NextQuote(q: Quote, c: char, escaped: bool): (r: Quote)
    requires IsQuoteMark(c)
    ensures q.Unquoted? ==> r == QuotedBy(c)
    ensures q.QuotedBy? ==> (r.Unquoted? <==> c == q.mark && !escaped)
    ensures q.QuotedBy? && r.QuotedBy? ==> r == q
  {
    match q
    case Unquoted => QuotedBy(c)
    case QuotedBy(m) => if c == m && !escaped then Unquoted else q
  }

  // ---------------------------------------------------------------------
  // Balanced scanner: the search for the ')' matching an IF's '('
  // ---------------------------------------------------------------------

  /** One character of the closing-parenthesis search, tests in the order
      the scanner makes them: quote marks first, then parentheses outside
      quotes. */
  function ScanStep(st: ScanState, s: string, pos: nat): (r: ScanState)
    requires pos < |s|
    ensures st.depth - 1 <= r.depth <= st.depth + 1
    ensures r.depth < st.depth <==> s[pos] == ')' && st.quote.Unquoted?
  {
    var c := s[pos];
    if IsQuoteMark(c) then ScanState(NextQuote(st.quote, c, Escaped(s, pos)), st.depth)
    else if st.quote.Unquoted? then
      if c == '(' then ScanState(st.quote, st.depth + 1)
      else if c == ')' then ScanState(st.quote, st.depth - 1)
      else st
    else st
  }

  /** Reference definition: the scanner's state after reading `s[open + 1..k]`,
      having started just inside the parenthesis at `open`. */
  function Running(s: string, open: nat, k: nat): ScanState
    requires open < k <= |s|
    decreases k - open
  {
    if k == open + 1 then ScanState(Unquoted, 1) else ScanStep(Running(s, open, k - 1), s, k - 1)
  }

  /** The scanning loop: reads from `pos` until the depth drops to zero or
      the text runs out. */
  function FindCloseFrom(s: string, pos: nat, st: ScanState): Option<nat>
    requires pos <= |s| && st.depth > 0
    decreases |s| - pos
  {
    if pos == |s| then None
    else
      var next := ScanStep(st, s, pos);
      if next.depth == 0 then Some(pos + 1) else FindCloseFrom(s, pos + 1, next)
  }

  /** The running depth stays positive over a stretch the loop walks through,
      and the loop stops exactly where it first reaches zero. */
  lemma {:induction false} FindCloseFromSpec(s: string, open: nat, pos: nat, st: ScanState)
    requires open < pos <= |s| && st.depth > 0
    requires st == Running(s, open, pos)
    requires forall k :: open < k <= pos ==> Running(s, open, k).depth > 0
    ensures var r := FindCloseFrom(s, pos, st);
      && (r.Some? ==> pos < r.value <= |s| && Running(s, open, r.value).depth == 0
                      && forall k :: open < k < r.value ==> Running(s, open, k).depth > 0)
      && (r.None? ==> forall k :: open < k <= |s| ==> Running(s, open, k).depth > 0)
    decreases |s| - pos
  {
    if pos < |s| {
      var next := ScanStep(st, s, pos);
      assert Running(s, open, pos + 1) == next;
      if next.depth != 0 {
        FindCloseFromSpec(s, open, pos + 1, next);
      }
    }
  }

  /** The balanced scanner.  Given the position of an opening parenthesis,
      returns one past its matching ')': the first point where the running
      depth returns to zero.  Returns None when the text ends first. */
  function FindClose(s: string, open: nat): (r: Option<nat>)
    requires open < |s|
    ensures r.Some? ==> open + 1 < r.value <= |s| && s[r.value - 1] == ')'
    ensures r.Some? ==> Running(s, open, r.value).depth == 0
    ensures r.Some? ==> forall k :: open < k < r.value ==> Running(s, open, k).depth > 0
    ensures r.None? <==> forall k :: open < k <= |s| ==> Running(s, open, k).depth > 0
  {
    FindCloseFromSpec(s, open, open + 1, ScanState(Unquoted, 1));
    var r := FindCloseFrom(s, open + 1, ScanState(Unquoted, 1));
    assert r.Some? ==> Running(s, open, r.value - 1).depth > 0;
    r
  }

  // ---------------------------------------------------------------------
  // Comma splitter
  // ---------------------------------------------------------------------

  /** One character of the splitter, as a state change, tests in the order
      the splitter makes them: quote marks, then "inside a quoted span",
      then parentheses.  A top-level comma leaves the state unchanged. */
  function SplitStep(st: ScanState, t: string, i: nat): ScanState
    requires i < |t|
  {
    var c := t[i];
    if IsQuoteMark(c) then ScanState(NextQuote(st.quote, c, Escaped(t, i)), st.depth)
    else if st.quote.QuotedBy? then st
    else if c == '(' then ScanState(st.quote, st.depth + 1)
    else if c == ')' then ScanState(st.quote, st.depth - 1)
    else st
  }

  /** Reference definition: the splitter's state before it reads `t[i]`. */
  function SplitState(t: string, i: nat): ScanState
    requires i <= |t|
  {
    if i == 0 then ScanState(Unquoted, 0) else SplitStep(SplitState(t, i - 1), t, i - 1)
  }

  /** A comma the splitter cuts at: outside quotes, at depth zero. */
  predicate IsTopLevelComma(t: string, i: nat)
    requires i < |t|
  {
    t[i] == ',' && SplitState(t, i) == ScanState(Unquoted, 0)
  }

  /** The positions of the top-level commas below `n`, in ascending order. */
  function TopLevelCommas(t: string, n: nat): (r: seq<nat>)
    requires n <= |t|
    ensures forall p: nat :: p in r <==> p < n && IsTopLevelComma(t, p)
    ensures forall i, j :: 0 <= i < j < |r| ==> r[i] < r[j]
  {
    if n == 0 then []
    else
      var below := TopLevelCommas(t, n - 1);
      var last: nat := n - 1;
      if IsTopLevelComma(t, last) then
        assert forall p: nat :: p in below + [last] <==> p in below || p == last;
        assert forall i :: 0 <= i < |below| ==> below[i] in below && below[i] < last;
        below + [last]
      else below
  }

  /** Python's `",".join(parts)`. */
  function JoinComma(parts: seq<string>): string {
    if |parts| == 0 then ""
    else if |parts| == 1 then parts[0]
    else JoinComma(parts[..|parts| - 1]) + "," + parts[|parts| - 1]
  }

  /** Where `JoinComma(parts)` puts its commas. */
  function CommaPositions(parts: seq<string>): seq<nat> {
    if |parts| <= 1 then []
    else CommaPositions(parts[..|parts| - 1]) + [|JoinComma(parts[..|parts| - 1])|]
  }

  /** The splitter's loop over `t`, one character per call, with the part
      being built (`current`) and the parts finished so far. */
  function SplitLoop(t: string, i: nat, quote: Quote, depth: int, current: string, parts: seq<string>): seq<string>
    requires i <= |t|
    decreases |t| - i
  {
    if i == |t| then
      if |current| > 0 then parts + [current] else parts
    else
      var c := t[i];
      if IsQuoteMark(c) then
        SplitLoop(t, i + 1, NextQuote(quote, c, Escaped(t, i)), depth, current + [c], parts)
      else if quote.QuotedBy? then
        SplitLoop(t, i + 1, quote, depth, current + [c], parts)
      else if c == '(' then
        SplitLoop(t, i + 1, quote, depth + 1, current + [c], parts)
      else if c == ')' then
        SplitLoop(t, i + 1, quote, depth - 1, current + [c], parts)
      else if c == ',' && depth == 0 then
        SplitLoop(t, i + 1, quote, depth, [], parts + [current])
      else
        SplitLoop(t, i + 1, quote, depth, current + [c], parts)
  }

  /** The loop's invariant: its state is the reference state, and the
      finished parts plus the current one join back to the text read so
      far, with a comma exactly at every top-level comma. */
  ghost predicate SplitInvariant(t: string, i: nat, quote: Quote, depth: int, current: string, parts: seq<string>)
    requires i <= |t|
  {
    && SplitState(t, i) == ScanState(quote, depth)
    && JoinComma(parts + [current]) == t[..i]
    && CommaPositions(parts + [current]) == TopLevelCommas(t, i)
  }

  lemma JoinCommaLast(parts: seq<string>, last: string)
    ensures JoinComma(parts + [last]) == if |parts| == 0 then last else JoinComma(parts) + "," + last
    ensures CommaPositions(parts + [last]) == if |parts| == 0 then [] else CommaPositions(parts) + [|JoinComma(parts)|]
  {
    assert (parts + [last])[..|parts|] == parts;
  }

  lemma {:induction false} CommaPositionsBelow(parts: seq<string>)
    ensures forall p :: p in CommaPositions(parts) ==> p < |JoinComma(parts)|
  {
    if |parts| > 1 {
      CommaPositionsBelow(parts[..|parts| - 1]);
    }
  }

  /** Reading a character that is not a top-level comma extends the current part. */
  lemma SplitInvariantExtend(t: string, i: nat, quote: Quote, depth: int, current: string, parts: seq<string>)
    requires i < |t|
    requires SplitInvariant(t, i, quote, depth, current, parts)
    requires !IsTopLevelComma(t, i)
    ensures var st := SplitStep(ScanState(quote, depth), t, i);
      SplitInvariant(t, i + 1, st.quote, st.depth, current + [t[i]], parts)
  {
    assert t[..i + 1] == t[..i] + [t[i]];
    JoinCommaLast(parts, current);
    JoinCommaLast(parts, current + [t[i]]);
  }

  /** Reading a top-level comma finishes the current part. */
  lemma SplitInvariantCut(t: string, i: nat, quote: Quote, depth: int, current: string, parts: seq<string>)
    requires i < |t|
    requires SplitInvariant(t, i, quote, depth, current, parts)
    requires IsTopLevelComma(t, i)
    ensures SplitInvariant(t, i + 1, quote, depth, [], parts + [current])
  {
    assert t[..i + 1] == t[..i] + [t[i]];
    JoinCommaLast(parts + [current], []);
  }

  /** At the end of the text, the dropped empty part is exactly the one
      after a trailing top-level comma (or the only part of the empty text). */
  lemma SplitInvariantEnd(t: string, quote: Quote, depth: int, current: string, parts: seq<string>)
    requires SplitInvariant(t, |t|, quote, depth, current, parts)
    ensures IsSplittingOf(t, if |current| > 0 then parts + [current] else parts)
  {
    assert t[..|t|] == t;
    var full := parts + [current];
    assert JoinComma(full) == t && CommaPositions(full) == TopLevelCommas(t, |t|);
    JoinCommaLast(parts, current);
    if |current| > 0 {
      if |parts| > 0 {
        CommaPositionsBelow(parts);
      }
      assert |t| > 0;
      assert forall p :: p in CommaPositions(full) ==> p < |t| - 1;
      assert |t| - 1 !in TopLevelCommas(t, |t|);
      assert !IsTopLevelComma(t, |t| - 1);
    } else if |t| > 0 {
      assert |parts| > 0;
      assert |t| - 1 in CommaPositions(full);
      assert IsTopLevelComma(t, |t| - 1);
      assert parts + [""] == full;
    } else {
      assert parts + [""] == full;
    }
  }

  /** `parts` is the splitting of `t`: with the empty last part put back
      where one was dropped, they join back to `t` with their commas exactly
      at the top-level commas of `t`. */
  ghost predicate IsSplittingOf(t: string, parts: seq<string>) {
    var all := if |t| == 0 || IsTopLevelComma(t, |t| - 1) then parts + [""] else parts;
    JoinComma(all) == t && CommaPositions(all) == TopLevelCommas(t, |t|)
  }

  /** One turn of the splitter's loop, seen through `SplitStep`. */
  lemma SplitLoopUnfold(t: string, i: nat, quote: Quote, depth: int, current: string, parts: seq<string>)
    requires i < |t|
    ensures var st := SplitStep(ScanState(quote, depth), t, i);
      SplitLoop(t, i, quote, depth, current, parts)
      == if !IsQuoteMark(t[i]) && quote.Unquoted? && t[i] == ',' && depth == 0
         then SplitLoop(t, i + 1, quote, depth, [], parts + [current])
         else SplitLoop(t, i + 1, st.quote, st.depth, current + [t[i]], parts)
  {
  }

  lemma {:induction false} SplitLoopSpec(t: string, i: nat, quote: Quote, depth: int, current: string, parts: seq<string>)
    requires i <= |t|
    requires SplitInvariant(t, i, quote, depth, current, parts)
    ensures IsSplittingOf(t, SplitLoop(t, i, quote, depth, current, parts))
    decreases |t| - i
  {
    if i == |t| {
      SplitInvariantEnd(t, quote, depth, current, parts);
    } else {
      SplitLoopUnfold(t, i, quote, depth, current, parts);
      var c := t[i];
      if !IsQuoteMark(c) && quote.Unquoted? && c == ',' && depth == 0 {
        SplitInvariantCut(t, i, quote, depth, current, parts);
        SplitLoopSpec(t, i + 1, quote, depth, [], parts + [current]);
      } else {
        SplitInvariantExtend(t, i, quote, depth, current, parts);
        var st := SplitStep(ScanState(quote, depth), t, i);
        SplitLoopSpec(t, i + 1, st.quote, st.depth, current + [c], parts);
      }
    }
  }

  /** `split_by_comma`: the parts between top-level commas, not stripped.
      Joined with commas they give back the text, and their commas sit
      exactly at the top-level commas of the text; an empty last part is
      dropped, which loses a trailing top-level comma (and turns the empty
      text into no parts at all). */
  function SplitByComma(t: string): (parts: seq<string>)
    ensures var all := if |t| == 0 || IsTopLevelComma(t, |t| - 1) then parts + [""] else parts;
      JoinComma(all) == t && CommaPositions(all) == TopLevelCommas(t, |t|)
  {
    assert t[..0] == [];
    SplitLoopSpec(t, 0, Unquoted, 0, [], []);
    SplitLoop(t, 0, Unquoted, 0, [], [])
  }
}
