/**
  Characters and strings as the translator sees them: Python's character
  classes, case folding, substring search, `str.strip` and `str.replace`,
  restricted to the ASCII range.
 */
module Text {

  /** `str.isspace()` and the regex class `\s` on ASCII: tab, newline,
      vertical tab, form feed, carriage return, the four information
      separators 0x1C..0x1F and the space. */
  predicate IsSpace(c: char) {
    9 <= c as int <= 13 || 28 <= c as int <= 32
  }

  predicate IsLetter(c: char) {
    'a' <= c <= 'z' || 'A' <= c <= 'Z'
  }

  predicate IsDigit(c: char) {
    '0' <= c <= '9'
  }

  /** `str.isalnum()` on a single ASCII character. */
  predicate IsAlnum(c: char) {
    IsLetter(c) || IsDigit(c)
  }

  /** The regex class `\w`: the characters that make up a word for `\b`. */
  predicate IsWordChar(c: char) {
    IsAlnum(c) || c == '_'
  }

  function UpperChar(c: char): (u: char)
    ensures 'a' <= c <= 'z' ==> 'A' <= u <= 'Z' && u as int == c as int - 32
    ensures !('a' <= c <= 'z') ==> u == c
  {
    if 'a' <= c <= 'z' then (c as int - 32) as char else c
  }

  function LowerChar(c: char): (l: char)
    ensures 'A' <= c <= 'Z' ==> 'a' <= l <= 'z' && l as int == c as int + 32
    ensures !('A' <= c <= 'Z') ==> l == c
  {
    if 'A' <= c <= 'Z' then (c as int + 32) as char else c
  }

  /** `s.upper()`: every letter upper-cased, nothing else touched. */
  function Upper(s: string): (r: string)
    ensures |r| == |s|
    ensures forall i :: 0 <= i < |s| ==> r[i] == UpperChar(s[i])
  {
    seq(|s|, i requires 0 <= i < |s| => UpperChar(s[i]))
  }

  /** `s.lower()`: every letter lower-cased, nothing else touched. */
  function Lower(s: string): (r: string)
    ensures |r| == |s|
    ensures forall i :: 0 <= i < |s| ==> r[i] == LowerChar(s[i])
  {
    seq(|s|, i requires 0 <= i < |s| => LowerChar(s[i]))
  }

  /** Two characters are equal under `re.IGNORECASE`. */
  predicate SameIgnoringCase(a: char, b: char) {
    UpperChar(a) == UpperChar(b)
  }

  /** The literal `lit` occurs in `s` at offset `i`, exactly. */
  predicate LiteralAt(s: string, i: nat, lit: string)
    decreases |lit|
  {
    if |lit| == 0 then i <= |s| else i < |s| && s[i] == lit[0] && LiteralAt(s, i + 1, lit[1..])
  }

  /** The literal `lit` occurs in `s` at offset `i`, letters compared without case. */
  predicate LiteralAtIgnoringCase(s: string, i: nat, lit: string) {
    i + |lit| <= |s| && forall k :: 0 <= k < |lit| ==> SameIgnoringCase(s[i + k], lit[k])
  }

  lemma {:induction false} LiteralAtIsSlice(s: string, i: nat, lit: string)
    ensures LiteralAt(s, i, lit) <==> i + |lit| <= |s| && s[i..i + |lit|] == lit
    decreases |lit|
  {
    if |lit| > 0 && i < |s| {
      LiteralAtIsSlice(s, i + 1, lit[1..]);
      if i + |lit| <= |s| {
        assert s[i..i + |lit|] == [s[i]] + s[i + 1..i + 1 + |lit[1..]|];
        assert lit == [lit[0]] + lit[1..];
      }
    }
  }

  /** Python's `sub in s`. */
  predicate Contains(s: string, sub: string) {
    exists i: nat | i <= |s| :: LiteralAt(s, i, sub)
  }

  /** Python's `sub in s` as a scan from offset `i` to the right. */
  predicate ContainsFrom(s: string, sub: string, i: nat)
    decreases |s| - i
  {
    i <= |s| && (LiteralAt(s, i, sub) || ContainsFrom(s, sub, i + 1))
  }

  /** The scan finds an occurrence exactly when there is one at or after `i`. */
  lemma {:induction false} ContainsFromSpec(s: string, sub: string, i: nat)
    ensures ContainsFrom(s, sub, i) <==> exists j: nat | i <= j <= |s| :: LiteralAt(s, j, sub)
    decreases |s| - i
  {
    if i <= |s| {
      ContainsFromSpec(s, sub, i + 1);
      if exists j: nat | i <= j <= |s| :: LiteralAt(s, j, sub) {
        var j: nat :| i <= j <= |s| && LiteralAt(s, j, sub);
        if j > i {
          assert exists j': nat | i + 1 <= j' <= |s| :: LiteralAt(s, j', sub);
          assert ContainsFrom(s, sub, i + 1);
        }
        assert ContainsFrom(s, sub, i);
      }
      if ContainsFrom(s, sub, i) {
        assert exists j: nat | i <= j <= |s| :: LiteralAt(s, j, sub);
      }
    }
  }

  /** Scanning from the start decides `sub in s`. */
  lemma ContainsScan(s: string, sub: string)
    ensures ContainsFrom(s, sub, 0) <==> Contains(s, sub)
  {
    ContainsFromSpec(s, sub, 0);
    if Contains(s, sub) {
      var i: nat :| i <= |s| && LiteralAt(s, i, sub);
      assert exists j: nat | 0 <= j <= |s| :: LiteralAt(s, j, sub);
    }
    if ContainsFrom(s, sub, 0) {
      var j: nat :| 0 <= j <= |s| && LiteralAt(s, j, sub);
      assert exists i: nat | i <= |s| :: LiteralAt(s, i, sub);
    }
  }

  lemma ContainsAt(s: string, sub: string, i: nat)
    requires i + |sub| <= |s| && s[i..i + |sub|] == sub
    ensures Contains(s, sub)
  {
    LiteralAtIsSlice(s, i, sub);
  }

  /** A string contains whatever its prefix contains. */
  lemma ContainsExtend(s: string, t: string, sub: string)
    requires Contains(s, sub)
    ensures Contains(s + t, sub)
  {
    var i: nat :| i <= |s| && LiteralAt(s, i, sub);
    LiteralAtIsSlice(s, i, sub);
    assert (s + t)[i..i + |sub|] == s[i..i + |sub|];
    ContainsAt(s + t, sub, i);
  }

  /** A string contains whatever its suffix contains. */
  lemma ContainsPrepend(s: string, t: string, sub: string)
    requires Contains(t, sub)
    ensures Contains(s + t, sub)
  {
    var i: nat :| i <= |t| && LiteralAt(t, i, sub);
    LiteralAtIsSlice(t, i, sub);
    assert (s + t)[|s| + i..|s| + i + |sub|] == t[i..i + |sub|];
    ContainsAt(s + t, sub, |s| + i);
  }

  /** A string contains each of its infixes. */
  lemma ContainsInfix(a: string, sub: string, b: string)
    ensures Contains(a + sub + b, sub)
  {
    var s := a + sub + b;
    assert s[|a|..|a| + |sub|] == sub;
    ContainsAt(s, sub, |a|);
  }

  /** Appending `t` to a string that lacks `sub` cannot create `sub` when
      no character of `t` can begin it and the first character of `t` can
      continue none of its proper prefixes. */
  lemma NotContainsAppend(g: string, t: string, sub: string)
    requires |sub| > 0 && |t| > 0 && !Contains(g, sub)
    requires sub[0] !in t && t[0] !in sub[1..]
    ensures !Contains(g + t, sub)
  {
    var s := g + t;
    forall i: nat | i <= |s| ensures !LiteralAt(s, i, sub) {
      LiteralAtIsSlice(s, i, sub);
      if i + |sub| <= |s| {
        var w := s[i..i + |sub|];
        assert w[0] == s[i];
        if i >= |g| {
          assert s[i] == t[i - |g|];
        } else if i + |sub| <= |g| {
          assert g[i..i + |sub|] == w;
          LiteralAtIsSlice(g, i, sub);
        } else {
          assert w[|g| - i] == s[|g|] == t[0];
          assert sub[1..][|g| - i - 1] == sub[|g| - i];
        }
      }
    }
  }

  /** A slice of a string that lacks `sub` lacks it too. */
  lemma ContainsSlice(s: string, a: nat, b: nat, sub: string)
    requires a <= b <= |s|
    requires Contains(s[a..b], sub)
    ensures Contains(s, sub)
  {
    var i: nat :| i <= |s[a..b]| && LiteralAt(s[a..b], i, sub);
    LiteralAtIsSlice(s[a..b], i, sub);
    assert a + i + |sub| <= b;
    forall j | 0 <= j < |sub|
      ensures s[a + i..a + i + |sub|][j] == sub[j]
    {
      assert s[a..b][i..i + |sub|][j] == sub[j];
    }
    assert s[a + i..a + i + |sub|] == sub;
    ContainsAt(s, sub, a + i);
  }

  /** Number of leading characters of `s` that are whitespace. */
  function LeadingSpaces(s: string): (n: nat)
    ensures n <= |s|
    ensures forall i :: 0 <= i < n ==> IsSpace(s[i])
    ensures n == |s| || !IsSpace(s[n])
  {
    if |s| > 0 && IsSpace(s[0]) then 1 + LeadingSpaces(s[1..]) else 0
  }

  /** Number of trailing characters of `s` that are whitespace. */
  function TrailingSpaces(s: string): (n: nat)
    ensures n <= |s|
    ensures forall i :: |s| - n <= i < |s| ==> IsSpace(s[i])
    ensures n == |s| || !IsSpace(s[|s| - n - 1])
  {
    if |s| > 0 && IsSpace(s[|s| - 1]) then 1 + TrailingSpaces(s[..|s| - 1]) else 0
  }

  /** Python's `s.strip()`: `s` with its whitespace margins cut off.  The
      result is the middle of `s`, everything cut off is whitespace, and
      the result neither starts nor ends with whitespace. */
  function Strip(s: string): (r: string)
    ensures exists a, b :: 0 <= a <= b <= |s| && r == s[a..b] && AllSpace(s[..a]) && AllSpace(s[b..])
    ensures |r| == 0 || (!IsSpace(r[0]) && !IsSpace(r[|r| - 1]))
  {
    var a := LeadingSpaces(s);
    if a == |s| then
      assert AllSpace(s[..a]) && AllSpace(s[a..]);
      s[a..a]
    else
      var b := |s| - TrailingSpaces(s);
      assert !IsSpace(s[a]);
      assert a < b;
      assert AllSpace(s[..a]) && AllSpace(s[b..]);
      s[a..b]
  }

  predicate AllSpace(s: string) {
    forall i :: 0 <= i < |s| ==> IsSpace(s[i])
  }

  /** Python's `s.replace(pat, rep)`: occurrences of `pat` replaced from left
      to right, none overlapping. */
  function ReplaceAll(s: string, pat: string, rep: string): string
    requires |pat| > 0
    decreases |s|
  {
    if |s| == 0 then []
    else if LiteralAt(s, 0, pat) then
      LiteralAtIsSlice(s, 0, pat);
      rep + ReplaceAll(s[|pat|..], pat, rep)
    else [s[0]] + ReplaceAll(s[1..], pat, rep)
  }

  /** Replacing a pattern that does not occur changes nothing. */
  lemma {:induction false} ReplaceAllAbsent(s: string, pat: string, rep: string)
    requires |pat| > 0
    requires !Contains(s, pat)
    ensures ReplaceAll(s, pat, rep) == s
    decreases |s|
  {
    if |s| > 0 {
      assert !LiteralAt(s, 0, pat);
      if Contains(s[1..], pat) {
        assert s[1..|s|] == s[1..];
        ContainsSlice(s, 1, |s|, pat);
      }
      ReplaceAllAbsent(s[1..], pat, rep);
      assert s == [s[0]] + s[1..];
    }
  }

  /** No occurrence of `pat` in `a + b` starts inside `a` and ends inside `b`. */
  predicate NoStraddle(a: string, b: string, pat: string) {
    forall k: nat :: k < |a| < k + |pat| ==> !LiteralAt(a + b, k, pat)
  }

  /** Replacement distributes over a concatenation that no occurrence straddles. */
  lemma {:induction false} ReplaceAllConcat(a: string, b: string, pat: string, rep: string)
    requires |pat| > 0
    requires NoStraddle(a, b, pat)
    ensures ReplaceAll(a + b, pat, rep) == ReplaceAll(a, pat, rep) + ReplaceAll(b, pat, rep)
    decreases |a|
  {
    if |a| == 0 {
      assert a + b == b;
    } else {
      var s := a + b;
      LiteralAtIsSlice(s, 0, pat);
      LiteralAtIsSlice(a, 0, pat);
      if LiteralAt(a, 0, pat) {
        assert s[..|pat|] == a[..|pat|];
        assert s[|pat|..] == a[|pat|..] + b;
        assert NoStraddle(a[|pat|..], b, pat) by {
          forall k: nat | k < |a[|pat|..]| < k + |pat|
            ensures !LiteralAt(a[|pat|..] + b, k, pat)
          {
            LiteralAtShift(s, |pat|, k, pat);
          }
        }
        ReplaceAllConcat(a[|pat|..], b, pat, rep);
      } else {
        if |pat| <= |a| {
          assert s[..|pat|] == a[..|pat|];
        }
        assert !LiteralAt(s, 0, pat);
        assert s[1..] == a[1..] + b;
        assert NoStraddle(a[1..], b, pat) by {
          forall k: nat | k < |a[1..]| < k + |pat|
            ensures !LiteralAt(a[1..] + b, k, pat)
          {
            LiteralAtShift(s, 1, k, pat);
          }
        }
        ReplaceAllConcat(a[1..], b, pat, rep);
      }
    }
  }

  /** Matching a literal in a string without its first `n` characters is
      matching it `n` further on. */
  lemma LiteralAtShift(s: string, n: nat, k: nat, lit: string)
    requires n <= |s|
    ensures LiteralAt(s[n..], k, lit) <==> LiteralAt(s, k + n, lit)
  {
    LiteralAtIsSlice(s[n..], k, lit);
    LiteralAtIsSlice(s, k + n, lit);
    if k + |lit| <= |s[n..]| {
      assert s[n..][k..k + |lit|] == s[k + n..k + n + |lit|];
    }
  }

  /** A string that starts with `pat` has its first occurrence replaced there. */
  lemma ReplaceAllLeading(pat: string, b: string, rep: string)
    requires |pat| > 0
    ensures ReplaceAll(pat + b, pat, rep) == rep + ReplaceAll(b, pat, rep)
  {
    LiteralAtIsSlice(pat + b, 0, pat);
    assert (pat + b)[..|pat|] == pat;
    assert (pat + b)[|pat|..] == b;
  }
}
