/**
  How Python's `re` module uses a compiled pattern: `search`, `finditer`,
  `findall` and `sub`, for patterns that are deterministic (from a given
  start position at most one match is possible, and no match is empty).
  Such a pattern is given as a matcher: a function from the text and a
  start position to where the match starting there ends.
 */
module Regex {
  import opened Wrappers

  /** Where the one match starting at a position ends, if there is one. */
  type Matcher = (string, nat) -> Option<nat>

  /** Matches are non-empty and lie inside the text. */
  ghost predicate WellFormed(m: Matcher) {
    forall s: string, i: nat :: m(s, i).Some? ==> i < m(s, i).value <= |s|
  }

  /** `pattern.search(s, from)`: the leftmost match starting at or after `from`. */
  function Search(m: Matcher, s: string, from: nat): (r: Option<nat>)
    requires WellFormed(m) && from <= |s|
    ensures r.Some? ==> from <= r.value < |s| && m(s, r.value).Some?
    ensures forall j :: from <= j <= |s| && (r.None? || j < r.value) ==> m(s, j).None?
    decreases |s| - from
  {
    if m(s, from).Some? then Some(from)
    else if from == |s| then None
    else Search(m, s, from + 1)
  }

  /** One match as `find_all_pattern_positions` reports it: `(start, end, matched text)`. */
  datatype Found = Found(start: nat, end: nat, text: string)

  /** The spans of `ms` lie in `s` at or after `from`, in order, without
      overlapping. */
  predicate Ordered(s: string, from: nat, ms: seq<Found>)
    decreases |ms|
  {
    |ms| == 0 || (from <= ms[0].start <= ms[0].end <= |s| && Ordered(s, ms[0].end, ms[1..]))
  }

  /** An ordered list, position by position. */
  lemma {:induction false} OrderedSpans(s: string, from: nat, ms: seq<Found>)
    requires Ordered(s, from, ms)
    ensures forall k :: 0 <= k < |ms| ==> from <= ms[k].start <= ms[k].end <= |s|
    ensures forall k :: 0 <= k < |ms| - 1 ==> ms[k].end <= ms[k + 1].start
    decreases |ms|
  {
    if |ms| > 0 {
      OrderedSpans(s, ms[0].end, ms[1..]);
      assert forall k :: 0 < k < |ms| ==> ms[k] == ms[1..][k - 1];
    }
  }

  /** `ms` are matches of `m` in `s`, at or after `from`, each with its own
      text, in order and not overlapping. */
  predicate IsMatchList(m: Matcher, s: string, from: nat, ms: seq<Found>) {
    && Ordered(s, from, ms)
    && (forall k :: 0 <= k < |ms| ==>
          && m(s, ms[k].start) == Some(ms[k].end)
          && ms[k].start <= ms[k].end <= |s|
          && ms[k].text == s[ms[k].start..ms[k].end])
  }

  /** Where the stretch of text before the `k`-th match begins. */
  function GapStart(ms: seq<Found>, from: nat, k: nat): nat
    requires k <= |ms|
  {
    if k == 0 then from else ms[k - 1].end
  }

  /** Where the stretch of text before the `k`-th match ends. */
  function GapEnd(ms: seq<Found>, n: nat, k: nat): nat
    requires k <= |ms|
  {
    if k == |ms| then n else ms[k].start
  }

  /** No match of `m` starts anywhere in `s[a..b]`. */
  predicate NoMatchBetween(m: Matcher, s: string, a: nat, b: nat) {
    forall j :: a <= j < b ==> m(s, j).None?
  }

  /** `pattern.finditer(s)` from `from` on: after each match the search
      resumes where the match ended. */
  function FindAllFrom(m: Matcher, s: string, from: nat): (r: seq<Found>)
    requires WellFormed(m) && from <= |s|
    ensures IsMatchList(m, s, from, r)
    decreases |s| - from
  {
    match Search(m, s, from)
    case None => []
    case Some(i) =>
      var e := m(s, i).value;
      [Found(i, e, s[i..e])] + FindAllFrom(m, s, e)
  }

  /** Between consecutive matches that `finditer` reports, and before the
      first and after the last, no match starts: here, the stretch before
      the `k`-th match. */
  lemma {:induction false} FindAllFromGap(m: Matcher, s: string, from: nat, k: nat)
    requires WellFormed(m) && from <= |s| && k <= |FindAllFrom(m, s, from)|
    ensures var r := FindAllFrom(m, s, from);
      NoMatchBetween(m, s, GapStart(r, from, k), GapEnd(r, |s|, k))
    decreases |s| - from
  {
    match Search(m, s, from)
    case None =>
    case Some(i) =>
      var e := m(s, i).value;
      var rest := FindAllFrom(m, s, e);
      var r := FindAllFrom(m, s, from);
      assert r == [Found(i, e, s[i..e])] + rest;
      if k == 0 {
        assert GapEnd(r, |s|, 0) == i;
      } else {
        FindAllFromGap(m, s, e, k - 1);
        if k > 1 {
          assert r[k - 1] == rest[k - 2];
        }
        assert GapStart(r, from, k) == GapStart(rest, e, k - 1);
        if k < |r| {
          assert r[k] == rest[k - 1];
        }
        assert GapEnd(r, |s|, k) == GapEnd(rest, |s|, k - 1);
      }
  }

  /** `finditer` over the whole text: every match in order, each with its
      text, and no match missed in between. */
  function FindAll(m: Matcher, s: string): (r: seq<Found>)
    requires WellFormed(m)
    ensures IsMatchList(m, s, 0, r)
    ensures forall k :: 0 <= k <= |r| ==> NoMatchBetween(m, s, GapStart(r, 0, k), GapEnd(r, |s|, k))
  {
    var r := FindAllFrom(m, s, 0);
    forall k | 0 <= k <= |r|
      ensures NoMatchBetween(m, s, GapStart(r, 0, k), GapEnd(r, |s|, k))
    {
      FindAllFromGap(m, s, 0, k);
    }
    r
  }

  /** `len(pattern.findall(s))` from `from` on, counted by its own walk. */
  function CountFrom(m: Matcher, s: string, from: nat): nat
    requires WellFormed(m) && from <= |s|
    decreases |s| - from
  {
    match Search(m, s, from)
    case None => 0
    case Some(i) => 1 + CountFrom(m, s, m(s, i).value)
  }

  lemma {:induction false} CountFromIsLength(m: Matcher, s: string, from: nat)
    requires WellFormed(m) && from <= |s|
    ensures CountFrom(m, s, from) == |FindAllFrom(m, s, from)|
    decreases |s| - from
  {
    match Search(m, s, from)
    case None =>
    case Some(i) => CountFromIsLength(m, s, m(s, i).value);
  }

  /** `len(pattern.findall(s))`: as many as `finditer` reports. */
  function Count(m: Matcher, s: string): (n: nat)
    requires WellFormed(m)
    ensures n == |FindAll(m, s)|
  {
    CountFromIsLength(m, s, 0);
    CountFrom(m, s, 0)
  }

  /** What a match is replaced with, computed from the text and the match's start. */
  type Replacer = (string, nat) -> string

  /** Reference definition of `sub`: the text between the matches `ms`
      kept as it is, each match replaced. */
  function Stitch(rep: Replacer, s: string, from: nat, ms: seq<Found>): string
    requires from <= |s| && Ordered(s, from, ms)
    decreases |ms|
  {
    if |ms| == 0 then s[from..]
    else s[from..ms[0].start] + rep(s, ms[0].start) + Stitch(rep, s, ms[0].end, ms[1..])
  }

  /** `pattern.sub(rep, s)` from `from` on: search, replace, resume after
      the match. */
  function SubFrom(m: Matcher, rep: Replacer, s: string, from: nat): string
    requires WellFormed(m) && from <= |s|
    decreases |s| - from
  {
    match Search(m, s, from)
    case None => s[from..]
    case Some(i) => s[from..i] + rep(s, i) + SubFrom(m, rep, s, m(s, i).value)
  }

  lemma {:induction false} SubFromIsStitch(m: Matcher, rep: Replacer, s: string, from: nat)
    requires WellFormed(m) && from <= |s|
    ensures SubFrom(m, rep, s, from) == Stitch(rep, s, from, FindAllFrom(m, s, from))
    decreases |s| - from
  {
    match Search(m, s, from)
    case None =>
    case Some(i) => SubFromIsStitch(m, rep, s, m(s, i).value);
  }

  /** `pattern.sub(rep, s)`: exactly the matches `finditer` reports are
      replaced, and everything between them is kept. */
  function Sub(m: Matcher, rep: Replacer, s: string): (r: string)
    requires WellFormed(m)
    ensures r == Stitch(rep, s, 0, FindAll(m, s))
  {
    SubFromIsStitch(m, rep, s, 0);
    SubFrom(m, rep, s, 0)
  }

  /** A text without a match comes out of `sub` unchanged. */
  lemma SubWithoutMatch(m: Matcher, rep: Replacer, s: string)
    requires WellFormed(m) && Search(m, s, 0).None?
    ensures Sub(m, rep, s) == s
  {
    assert FindAll(m, s) == [];
  }

  /** Total length of the spans in `ms`. */
  function MatchedLength(ms: seq<Found>): nat
    requires forall k :: 0 <= k < |ms| ==> ms[k].start <= ms[k].end
  {
    if |ms| == 0 then 0 else ms[0].end - ms[0].start + MatchedLength(ms[1..])
  }

  /** A replacer whose every replacement has length `n`. */
  ghost predicate ConstantLength(rep: Replacer, n: nat) {
    forall s: string, i: nat :: |rep(s, i)| == n
  }

  /** With replacements of a fixed length `n`, `sub` changes the length by
      `n` minus the matched length, once per match. */
  lemma {:induction false} StitchLength(rep: Replacer, n: nat, s: string, from: nat, ms: seq<Found>)
    requires from <= |s| && Ordered(s, from, ms) && ConstantLength(rep, n)
    ensures forall k :: 0 <= k < |ms| ==> ms[k].start <= ms[k].end
    ensures |Stitch(rep, s, from, ms)| + MatchedLength(ms) == |s| - from + n * |ms|
    decreases |ms|
  {
    OrderedSpans(s, from, ms);
    if |ms| > 0 {
      StitchLength(rep, n, s, ms[0].end, ms[1..]);
      assert |rep(s, ms[0].start)| == n;
    }
  }
}
