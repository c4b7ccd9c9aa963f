/** Cleanup of text extracted from a resume PDF, and the fence stripping and
    error fallback applied to the language model's JSON answer
    (`app/core/resume_parser.py`).

    Each `re.sub` call is a left-to-right scanner: at every position the
    pattern is tried; a match is replaced and the scan resumes after it,
    otherwise one character is copied and the scan moves on by one. */
module ResumeParser {
  import opened Wrappers
  import opened Text
  import Json

  // ---------------------------------------------------------------------
  // Properties of cleaned text
  // ---------------------------------------------------------------------

  /** Position `i` holds a space right after another space. */
  predicate RepeatedSpace(s: string, i: nat) {
    0 < i < |s| && s[i] == ' ' && s[i - 1] == ' '
  }

  /** No two adjacent ASCII spaces. */
  predicate NoDoubleSpace(s: string) {
    forall i: nat | i < |s| :: !RepeatedSpace(s, i)
  }

  /** `\s*\n` matches at the start of `s`: some whitespace, then a newline. */
  predicate OpensWithLineBreak(s: string)
    decreases |s|
  {
    |s| > 0 && (s[0] == '\n' || (IsWhitespace(s[0]) && OpensWithLineBreak(s[1..])))
  }

  /** `\n\s*\n` matches nowhere: no newline is followed by only whitespace
      and then another newline (in particular there is no "\n\n"). */
  predicate NoBlankLine(s: string) {
    forall i :: 0 <= i < |s| && s[i] == '\n' ==> !OpensWithLineBreak(s[i + 1..])
  }

  lemma NoDoubleSpaceCons(c: char, r: string)
    requires NoDoubleSpace(r)
    requires c == ' ' ==> |r| == 0 || r[0] != ' '
    ensures NoDoubleSpace([c] + r)
  {
    var s := [c] + r;
    forall i: nat | i < |s|
      ensures !RepeatedSpace(s, i)
    {
      if i > 1 {
        assert s[i] == r[i - 1] && s[i - 1] == r[i - 2];
        assert !RepeatedSpace(r, i - 1);
      }
    }
  }

  lemma NoBlankLineCons(c: char, r: string)
    requires NoBlankLine(r)
    requires c == '\n' ==> !OpensWithLineBreak(r)
    ensures NoBlankLine([c] + r)
  {
    var s := [c] + r;
    forall i | 0 <= i < |s| && s[i] == '\n'
      ensures !OpensWithLineBreak(s[i + 1..])
    {
      assert s[i + 1..] == r[i..];
      if i > 0 {
        assert s[i] == r[i - 1];
      }
    }
  }

  /** A string that opens with a line break still does after anything is appended. */
  lemma {:induction false} OpensWithLineBreakAppend(t: string, u: string)
    requires OpensWithLineBreak(t)
    ensures OpensWithLineBreak(t + u)
    decreases |t|
  {
    if t[0] != '\n' {
      assert (t + u)[1..] == t[1..] + u;
      OpensWithLineBreakAppend(t[1..], u);
    }
  }

  // ---------------------------------------------------------------------
  // Step 1: every match of ` +` becomes one space
  // ---------------------------------------------------------------------

  /** The number of ASCII spaces `s` starts with: the extent of a ` +` match. */
  function SpaceRun(s: string): (n: nat)
    ensures n <= |s|
    ensures forall i :: 0 <= i < n ==> s[i] == ' '
    ensures n == |s| || s[n] != ' '
    decreases |s|
  {
    if |s| > 0 && s[0] == ' ' then 1 + SpaceRun(s[1..]) else 0
  }

  /** Every run of ASCII spaces becomes a single space, so no two spaces are
      left adjacent; the first character is kept. */
  function CollapseSpaces(s: string): (r: string)
    ensures |s| > 0 ==> |r| > 0 && r[0] == s[0]
    ensures NoDoubleSpace(r)
    decreases |s|
  {
    if |s| == 0 then ""
    else if s[0] == ' ' then
      var t := CollapseSpaces(s[SpaceRun(s)..]);
      NoDoubleSpaceCons(' ', t);
      [' '] + t
    else
      var t := CollapseSpaces(s[1..]);
      NoDoubleSpaceCons(s[0], t);
      [s[0]] + t
  }

  /** Step 1 changes nothing in a text that has no two adjacent spaces. */
  lemma {:induction false} CollapseSpacesFixpoint(s: string)
    requires NoDoubleSpace(s)
    ensures CollapseSpaces(s) == s
    decreases |s|
  {
    if |s| > 0 {
      if s[0] == ' ' {
        assert SpaceRun(s) == 1 by {
          assert !RepeatedSpace(s, 1);
        }
      }
      assert NoDoubleSpace(s[1..]) by {
        forall i: nat | i < |s[1..]|
          ensures !RepeatedSpace(s[1..], i)
        {
          assert s[1..][i] == s[i + 1];
          if i > 0 {
            assert s[1..][i - 1] == s[i] && !RepeatedSpace(s, i + 1);
          }
        }
      }
      CollapseSpacesFixpoint(s[1..]);
      assert s == [s[0]] + s[1..];
    }
  }

  /** Step 1 only removes spaces. */
  lemma {:induction false} CollapseSpacesKeepsText(s: string)
    ensures DropWhitespace(CollapseSpaces(s)) == DropWhitespace(s)
    decreases |s|
  {
    if |s| > 0 {
      if s[0] == ' ' {
        var n := SpaceRun(s);
        var t := s[n..];
        CollapseSpacesKeepsText(t);
        assert AllWhitespace(s[..n]);
        assert s == s[..n] + t;
        DropWhitespaceAppend(s[..n], t);
        DropWhitespaceOfBlank(s[..n]);
        DropWhitespaceAppend(" ", CollapseSpaces(t));
      } else {
        CollapseSpacesKeepsText(s[1..]);
        DropWhitespaceAppend([s[0]], CollapseSpaces(s[1..]));
        DropWhitespaceAppend([s[0]], s[1..]);
        assert s == [s[0]] + s[1..];
      }
    }
  }

  /** The characters of `s[k..]` that are not repeated spaces, in order:
      step 1 read position by position. */
  function WithoutRepeatedSpaces(s: string, k: nat): string
    requires k <= |s|
    decreases |s| - k
  {
    if k == |s| then ""
    else if RepeatedSpace(s, k) then WithoutRepeatedSpaces(s, k + 1)
    else [s[k]] + WithoutRepeatedSpaces(s, k + 1)
  }

  lemma {:induction false} SkipRepeatedSpaces(s: string, lo: nat, hi: nat)
    requires lo <= hi <= |s|
    requires forall i :: lo <= i < hi ==> RepeatedSpace(s, i)
    ensures WithoutRepeatedSpaces(s, lo) == WithoutRepeatedSpaces(s, hi)
    decreases hi - lo
  {
    if lo < hi {
      SkipRepeatedSpaces(s, lo + 1, hi);
    }
  }

  /** A run of spaces at `k`: the scan keeps one space and resumes after
      the run, and the reference drops the rest of the run. */
  lemma SpaceRunAt(s: string, k: nat) returns (n: nat)
    requires k < |s| && s[k] == ' ' && !RepeatedSpace(s, k)
    ensures 0 < n && k + n <= |s| && !RepeatedSpace(s, k + n)
    ensures CollapseSpaces(s[k..]) == [' '] + CollapseSpaces(s[k + n..])
    ensures WithoutRepeatedSpaces(s, k) == [' '] + WithoutRepeatedSpaces(s, k + n)
  {
    var t := s[k..];
    n := SpaceRun(t);
    assert t[n..] == s[k + n..];
    assert !RepeatedSpace(s, k + n) by {
      assert k + n == |s| || t[n] == s[k + n];
    }
    assert WithoutRepeatedSpaces(s, k + 1) == WithoutRepeatedSpaces(s, k + n) by {
      forall i | k + 1 <= i < k + n
        ensures RepeatedSpace(s, i)
      {
        assert t[i - k] == ' ' && t[i - k - 1] == ' ';
      }
      SkipRepeatedSpaces(s, k + 1, k + n);
    }
  }

  /** A character other than a space at `k`: the scan copies it and moves
      on by one, and the reference keeps it. */
  lemma KeptAt(s: string, k: nat)
    requires k < |s| && s[k] != ' '
    ensures !RepeatedSpace(s, k + 1)
    ensures CollapseSpaces(s[k..]) == [s[k]] + CollapseSpaces(s[k + 1..])
    ensures WithoutRepeatedSpaces(s, k) == [s[k]] + WithoutRepeatedSpaces(s, k + 1)
  {
    assert s[k..][1..] == s[k + 1..];
  }

  /** The scan of step 1 over `s[k..]`, started where no run of spaces is
      under way, deletes exactly the repeated spaces. */
  lemma {:induction false} CollapseSpacesFrom(s: string, k: nat)
    requires k <= |s| && !RepeatedSpace(s, k)
    ensures CollapseSpaces(s[k..]) == WithoutRepeatedSpaces(s, k)
    decreases |s| - k
  {
    if k < |s| {
      if s[k] == ' ' {
        var n := SpaceRunAt(s, k);
        CollapseSpacesFrom(s, k + n);
      } else {
        KeptAt(s, k);
        CollapseSpacesFrom(s, k + 1);
      }
    }
  }

  /** Step 1 is `s` with every space that directly follows a space deleted:
      a run of spaces becomes its first space, and every other character,
      tabs and newlines included, is kept in place. */
  lemma CollapseSpacesDeletesRepeats(s: string)
    ensures CollapseSpaces(s) == WithoutRepeatedSpaces(s, 0)
  {
    assert s[0..] == s;
    CollapseSpacesFrom(s, 0);
  }

  // ---------------------------------------------------------------------
  // Step 2: every match of `\n\s*\n` becomes one newline
  // ---------------------------------------------------------------------

  /** The length of the longest prefix of `t` that is all whitespace and ends
      with a newline, or 0 if there is none: what the greedy `\s*\n` matches
      after backtracking to the last newline of the whitespace run. */
  function BlankSpan(t: string): (n: nat)
    ensures n <= |t|
    ensures n > 0 ==> t[n - 1] == '\n'
    ensures forall i :: 0 <= i < n ==> IsWhitespace(t[i])
    ensures n > 0 <==> OpensWithLineBreak(t)
    ensures !OpensWithLineBreak(t[n..])
    decreases |t|
  {
    if |t| == 0 || !IsWhitespace(t[0]) then 0
    else
      var m := BlankSpan(t[1..]);
      assert t[1..][m..] == t[m + 1..];
      if m > 0 then
        m + 1
      else if t[0] == '\n' then 1
      else 0
  }

  /** A newline followed by whitespace containing further newlines is
      replaced by one newline; the whitespace after the last of those
      newlines stays. Afterwards no blank line is left. */
  function CollapseBlankLines(s: string): (r: string)
    ensures |s| > 0 ==> |r| > 0 && r[0] == s[0]
    ensures OpensWithLineBreak(r) <==> OpensWithLineBreak(s)
    ensures NoBlankLine(r)
    decreases |s|
  {
    if |s| == 0 then ""
    else if s[0] == '\n' && BlankSpan(s[1..]) > 0 then
      var t := s[1 + BlankSpan(s[1..])..];
      assert t == s[1..][BlankSpan(s[1..])..];
      var u := CollapseBlankLines(t);
      NoBlankLineCons('\n', u);
      "\n" + u
    else
      var u := CollapseBlankLines(s[1..]);
      NoBlankLineCons(s[0], u);
      var r := [s[0]] + u;
      assert r[1..] == u;
      r
  }

  /** Step 2 does not create adjacent spaces. */
  lemma {:induction false} CollapseBlankLinesNoDoubleSpace(s: string)
    requires NoDoubleSpace(s)
    ensures NoDoubleSpace(CollapseBlankLines(s))
    decreases |s|
  {
    if |s| > 0 {
      var d := if s[0] == '\n' && BlankSpan(s[1..]) > 0 then 1 + BlankSpan(s[1..]) else 1;
      var t := s[d..];
      NoDoubleSpaceSuffix(s, d);
      CollapseBlankLinesNoDoubleSpace(t);
      assert CollapseBlankLines(s) == [s[0]] + CollapseBlankLines(t);
      if |s| > 1 && d == 1 {
        assert !RepeatedSpace(s, 1);
      }
      NoDoubleSpaceCons(s[0], CollapseBlankLines(t));
    }
  }

  lemma NoDoubleSpaceSuffix(s: string, d: nat)
    requires d <= |s| && NoDoubleSpace(s)
    ensures NoDoubleSpace(s[d..])
  {
    var t := s[d..];
    forall i: nat | i < |t|
      ensures !RepeatedSpace(t, i)
    {
      assert t[i] == s[d + i];
      if i > 0 {
        assert t[i - 1] == s[d + i - 1] && !RepeatedSpace(s, d + i);
      }
    }
  }

  /** Step 2 only removes whitespace. */
  lemma {:induction false} CollapseBlankLinesKeepsText(s: string)
    ensures DropWhitespace(CollapseBlankLines(s)) == DropWhitespace(s)
    decreases |s|
  {
    if |s| > 0 {
      var n := BlankSpan(s[1..]);
      if s[0] == '\n' && n > 0 {
        var t := s[1 + n..];
        CollapseBlankLinesKeepsText(t);
        BlankGap(s, n);
        CollapsedGapKeepsText(s[..1 + n], t, CollapseBlankLines(t));
        assert s == s[..1 + n] + t;
      } else {
        CollapseBlankLinesKeepsText(s[1..]);
        CopiedHeadKeepsText(s, CollapseBlankLines(s[1..]));
      }
    }
  }

  /** Replacing a whitespace gap by one newline keeps the text. */
  lemma CollapsedGapKeepsText(gap: string, t: string, u: string)
    requires AllWhitespace(gap)
    requires DropWhitespace(u) == DropWhitespace(t)
    ensures DropWhitespace("\n" + u) == DropWhitespace(gap + t)
  {
    DropWhitespaceAppend(gap, t);
    DropWhitespaceOfBlank(gap);
    DropWhitespaceAppend("\n", u);
  }

  /** Copying the first character and rewriting the rest keeps the text. */
  lemma CopiedHeadKeepsText(s: string, u: string)
    requires |s| > 0 && DropWhitespace(u) == DropWhitespace(s[1..])
    ensures DropWhitespace([s[0]] + u) == DropWhitespace(s)
  {
    DropWhitespaceAppend([s[0]], u);
    DropWhitespaceAppend([s[0]], s[1..]);
    assert s == [s[0]] + s[1..];
  }

  /** The newline and the blank span after it, which step 2 replaces, are whitespace. */
  lemma BlankGap(s: string, n: nat)
    requires 0 < |s| && IsWhitespace(s[0]) && n < |s|
    requires forall i :: 0 <= i < n ==> IsWhitespace(s[1..][i])
    ensures AllWhitespace(s[..1 + n])
  {
    var gap := s[..1 + n];
    forall i | 0 <= i < |gap|
      ensures IsWhitespace(gap[i])
    {
      if i > 0 {
        assert gap[i] == s[1..][i - 1];
      }
    }
  }

  /** A newline occurs in the whitespace run that ends just before `i`. */
  predicate BreakBefore(s: string, i: nat)
    requires i <= |s|
    decreases i
  {
    i > 0 && IsWhitespace(s[i - 1]) && (s[i - 1] == '\n' || BreakBefore(s, i - 1))
  }

  /** Step 2 deletes the character at `i`: it comes after the first newline
      of its whitespace run, and a newline is still to come in that run, at
      `i` or later. */
  predicate MergedBreak(s: string, i: nat)
    requires i <= |s|
  {
    BreakBefore(s, i) && OpensWithLineBreak(s[i..])
  }

  /** The characters of `s[k..]` that step 2 does not delete, in order:
      step 2 read position by position. */
  function WithoutMergedBreaks(s: string, k: nat): string
    requires k <= |s|
    decreases |s| - k
  {
    if k == |s| then ""
    else if MergedBreak(s, k) then WithoutMergedBreaks(s, k + 1)
    else [s[k]] + WithoutMergedBreaks(s, k + 1)
  }

  lemma {:induction false} SkipMergedBreaks(s: string, lo: nat, hi: nat)
    requires lo <= hi <= |s|
    requires forall i :: lo <= i < hi ==> MergedBreak(s, i)
    ensures WithoutMergedBreaks(s, lo) == WithoutMergedBreaks(s, hi)
    decreases hi - lo
  {
    if lo < hi {
      SkipMergedBreaks(s, lo + 1, hi);
    }
  }

  /** Whitespace after a newline has a newline before it in its run. */
  lemma {:induction false} BreakBeforeInRun(s: string, k: nat, j: nat)
    requires k < j <= |s| && s[k] == '\n'
    requires forall i :: k <= i < j ==> IsWhitespace(s[i])
    ensures BreakBefore(s, j)
    decreases j - k
  {
    if j - 1 > k {
      BreakBeforeInRun(s, k, j - 1);
    }
  }

  /** Whitespace up to a newline opens with a line break. */
  lemma {:induction false} OpensBeforeBreak(s: string, j: nat, m: nat)
    requires j <= m < |s| && s[m] == '\n'
    requires forall i :: j <= i < m ==> IsWhitespace(s[i])
    ensures OpensWithLineBreak(s[j..])
    decreases m - j
  {
    if j < m {
      OpensBeforeBreak(s, j + 1, m);
      assert s[j..][1..] == s[j + 1..];
    }
  }

  /** The span that a match of step 2 deletes after its first newline
      consists of merged positions. */
  lemma MergedSpan(s: string, k: nat, n: nat)
    requires k + n < |s| && s[k] == '\n' && s[k + n] == '\n'
    requires forall i :: k < i <= k + n ==> IsWhitespace(s[i])
    ensures forall i :: k + 1 <= i < k + 1 + n ==> MergedBreak(s, i)
  {
    forall i | k + 1 <= i < k + 1 + n
      ensures MergedBreak(s, i)
    {
      BreakBeforeInRun(s, k, i);
      OpensBeforeBreak(s, i, k + n);
    }
  }

  /** A newline that opens a match at `k`: the scan keeps that newline and
      resumes after the match, and the reference drops the rest of the
      match. */
  lemma BlankRunAt(s: string, k: nat) returns (n: nat)
    requires k < |s| && s[k] == '\n' && OpensWithLineBreak(s[k + 1..])
    requires !MergedBreak(s, k)
    ensures 0 < n && k + 1 + n <= |s| && !MergedBreak(s, k + 1 + n)
    ensures CollapseBlankLines(s[k..]) == ['\n'] + CollapseBlankLines(s[k + 1 + n..])
    ensures WithoutMergedBreaks(s, k) == ['\n'] + WithoutMergedBreaks(s, k + 1 + n)
  {
    var t := s[k..];
    assert t[1..] == s[k + 1..];
    n := BlankSpan(t[1..]);
    assert t[1..][n..] == s[k + 1 + n..] && t[1 + n..] == s[k + 1 + n..];
    assert WithoutMergedBreaks(s, k + 1) == WithoutMergedBreaks(s, k + 1 + n) by {
      assert forall i :: 0 <= i < n ==> IsWhitespace(t[1..][i]);
      assert t[1..][n - 1] == s[k + n];
      MergedSpan(s, k, n);
      SkipMergedBreaks(s, k + 1, k + 1 + n);
    }
  }

  /** The scan of step 2 over `s[k..]`, started outside a match, deletes
      exactly the merged positions. */
  lemma {:induction false} CollapseBlankLinesFrom(s: string, k: nat)
    requires k <= |s| && !MergedBreak(s, k)
    ensures CollapseBlankLines(s[k..]) == WithoutMergedBreaks(s, k)
    decreases |s| - k
  {
    if k < |s| {
      if s[k] == '\n' && OpensWithLineBreak(s[k + 1..]) {
        var n := BlankRunAt(s, k);
        CollapseBlankLinesFrom(s, k + 1 + n);
      } else {
        var t := s[k..];
        assert t[1..] == s[k + 1..];
        assert BreakBefore(s, k + 1) && s[k] != '\n' ==> BreakBefore(s, k);
        CollapseBlankLinesFrom(s, k + 1);
        assert CollapseBlankLines(t) == [s[k]] + CollapseBlankLines(s[k + 1..]);
      }
    }
  }

  /** Step 2 is `s` with every character after the first newline of a
      whitespace run, up to and including the run's last newline, deleted:
      such a run keeps the whitespace before its first newline, that
      newline, and the whitespace after its last newline, and every other
      character is kept in place. */
  lemma CollapseBlankLinesMergesBreaks(s: string)
    ensures CollapseBlankLines(s) == WithoutMergedBreaks(s, 0)
  {
    assert s[0..] == s;
    CollapseBlankLinesFrom(s, 0);
  }

  // ---------------------------------------------------------------------
  // Step 3: a newline between `[a-zA-Z,]` and `[a-zA-Z]` becomes a space
  // ---------------------------------------------------------------------

  /** The class `[a-zA-Z,]` on the left of a joined line break. */
  predicate JoinsLeft(c: char) {
    IsAsciiLetter(c) || c == ','
  }

  /** The newline at `i` stands between `[a-zA-Z,]` and `[a-zA-Z]`. */
  predicate Joinable(s: string, i: nat) {
    1 <= i && i + 1 < |s| && s[i] == '\n' && JoinsLeft(s[i - 1]) && IsAsciiLetter(s[i + 1])
  }

  /** The newline at `i` is turned into a space. Matches do not overlap, so a
      joinable newline is skipped when its left neighbour was already used as
      the right side of the join at `i - 2`. */
  predicate Joined(s: string, i: nat)
    decreases i
  {
    Joinable(s, i) && !(i >= 2 && Joined(s, i - 2))
  }

  /** The scan of step 3 from position `k` on. Started outside a match, it
      turns exactly the joined newlines into spaces and copies every other
      character. */
  function JoinFrom(s: string, k: nat): (r: string)
    requires k <= |s|
    ensures |r| == |s| - k
    ensures !Joined(s, k) && (k == 0 || !Joined(s, k - 1)) ==>
              forall i :: k <= i < |s| ==> r[i - k] == (if Joined(s, i) then ' ' else s[i])
    decreases |s| - k
  {
    if k == |s| then ""
    else if k + 2 < |s| && JoinsLeft(s[k]) && s[k + 1] == '\n' && IsAsciiLetter(s[k + 2]) then
      assert !Joined(s, k) && (k == 0 || !Joined(s, k - 1)) ==>
               Joined(s, k + 1) && !Joined(s, k + 2) && !Joined(s, k + 3);
      [s[k], ' ', s[k + 2]] + JoinFrom(s, k + 3)
    else
      assert !Joined(s, k + 1);
      [s[k]] + JoinFrom(s, k + 1)
  }

  /** Step 3: the length is kept, the newlines `Joined` picks out become
      spaces, and every other character is unchanged. */
  function JoinBrokenLines(s: string): (r: string)
    ensures |r| == |s|
    ensures forall i :: 0 <= i < |s| ==> r[i] == (if Joined(s, i) then ' ' else s[i])
  {
    JoinFrom(s, 0)
  }

  /** The scan does not overlap matches: in "a\nb\nc" only the first newline
      is joined, because "b" was consumed by the first match. */
  lemma JoinIsNotOverlapping()
    ensures JoinBrokenLines("a\nb\nc") == "a b\nc"
  {
    var s := "a\nb\nc";
    assert Joined(s, 1);
    assert !Joined(s, 3);
    var r := JoinBrokenLines(s);
    assert r[0] == 'a' && r[1] == ' ' && r[2] == 'b' && r[3] == '\n' && r[4] == 'c';
  }

  /** Two strings of equal length with whitespace in the same places, that
      agree on every other character. */
  predicate SameLayout(a: string, b: string) {
    && |a| == |b|
    && (forall i :: 0 <= i < |a| ==> IsWhitespace(a[i]) == IsWhitespace(b[i]))
    && (forall i :: 0 <= i < |a| && !IsWhitespace(a[i]) ==> a[i] == b[i])
    && (forall i :: 0 <= i < |a| && a[i] == '\n' ==> b[i] == '\n')
  }

  lemma {:induction false} SameLayoutKeepsText(a: string, b: string)
    requires SameLayout(a, b)
    ensures DropWhitespace(a) == DropWhitespace(b)
    decreases |a|
  {
    if |a| > 0 {
      SameLayoutKeepsText(a[1..], b[1..]);
    }
  }

  lemma {:induction false} SameLayoutOpens(a: string, b: string)
    requires SameLayout(a, b)
    requires OpensWithLineBreak(a)
    ensures OpensWithLineBreak(b)
    decreases |a|
  {
    if a[0] != '\n' {
      SameLayoutOpens(a[1..], b[1..]);
    }
  }

  lemma SameLayoutNoBlankLine(a: string, b: string)
    requires SameLayout(a, b)
    requires NoBlankLine(b)
    ensures NoBlankLine(a)
  {
    forall i | 0 <= i < |a| && a[i] == '\n'
      ensures !OpensWithLineBreak(a[i + 1..])
    {
      if OpensWithLineBreak(a[i + 1..]) {
        SameLayoutOpens(a[i + 1..], b[i + 1..]);
      }
    }
  }

  lemma JoinBrokenLinesLayout(s: string)
    ensures SameLayout(JoinBrokenLines(s), s)
  {
  }

  /** Step 3 keeps the text without blank lines and without adjacent spaces,
      and only replaces whitespace by whitespace. */
  lemma JoinBrokenLinesPreserves(s: string)
    ensures NoBlankLine(s) ==> NoBlankLine(JoinBrokenLines(s))
    ensures NoDoubleSpace(s) ==> NoDoubleSpace(JoinBrokenLines(s))
    ensures DropWhitespace(JoinBrokenLines(s)) == DropWhitespace(s)
  {
    var r := JoinBrokenLines(s);
    JoinBrokenLinesLayout(s);
    SameLayoutKeepsText(r, s);
    if NoBlankLine(s) {
      SameLayoutNoBlankLine(r, s);
    }
    if NoDoubleSpace(s) {
      JoinKeepsSingleSpaces(s);
    }
  }

  /** A joined newline sits between two non-spaces, so the space it becomes
      has no space next to it. */
  lemma JoinKeepsSingleSpaces(s: string)
    requires NoDoubleSpace(s)
    ensures NoDoubleSpace(JoinBrokenLines(s))
  {
    var r := JoinBrokenLines(s);
    forall i: nat | i < |r|
      ensures !RepeatedSpace(r, i)
    {
      if i > 0 {
        if Joined(s, i - 1) {
          assert !Joined(s, i);
        } else if Joined(s, i) {
          assert JoinsLeft(s[i - 1]);
        } else {
          assert !RepeatedSpace(s, i);
        }
      }
    }
  }

  // ---------------------------------------------------------------------
  // The layout the cleanup keeps: words, and which gaps hold a line break
  // ---------------------------------------------------------------------

  /** Putting `c` in front of an outline: a non-whitespace character is
      kept, and a whitespace character joins the whitespace run the outline
      opens with, which is a line break if `c` or the run is one. */
  function Mark(c: char, t: string): string {
    if !IsWhitespace(c) then [c] + t
    else if |t| > 0 && IsWhitespace(t[0]) then [if c == '\n' then '\n' else t[0]] + t[1..]
    else [if c == '\n' then '\n' else ' '] + t
  }

  /** The layout of `s`: every whitespace run becomes one character, a
      newline if the run holds one and a space otherwise, and every other
      character stays. Two texts with the same outline have the same words
      with the same kind of gap between them. */
  function Outline(s: string): (r: string)
    ensures |s| > 0 ==> |r| > 0 && IsWhitespace(r[0]) == IsWhitespace(s[0])
    ensures OpensWord(s) ==> r[0] == s[0]
    decreases |s|
  {
    if |s| == 0 then "" else Mark(s[0], Outline(s[1..]))
  }

  lemma OutlineCons(c: char, x: string)
    ensures Outline([c] + x) == Mark(c, Outline(x))
  {
    assert ([c] + x)[1..] == x;
  }

  /** A whitespace character is absorbed by the run it precedes when it is
      no newline or the run's first character is one. */
  lemma MarkAbsorbs(c: char, d: char, t: string)
    requires IsWhitespace(c) && IsWhitespace(d) && (d == '\n' ==> c == '\n')
    ensures Mark(c, Mark(d, t)) == Mark(c, t)
  {
  }

  /** A whitespace run whose newlines, if any, include its first character
      outlines as that first character. */
  lemma {:induction false} OutlineOfRun(s: string, n: nat)
    requires 1 <= n <= |s|
    requires forall i :: 0 <= i < n ==> IsWhitespace(s[i])
    requires forall i :: 0 < i < n && s[i] == '\n' ==> s[0] == '\n'
    ensures Outline(s) == Mark(s[0], Outline(s[n..]))
    decreases n
  {
    if n > 1 {
      OutlineOfRun(s, n - 1);
      assert s[n - 1..][1..] == s[n..];
      MarkAbsorbs(s[0], s[n - 1], Outline(s[n..]));
    }
  }

  /** Step 1 keeps the outline: a run of spaces stays a run, with the same
      newlines around it. */
  lemma {:induction false} CollapseSpacesKeepsOutline(s: string)
    ensures Outline(CollapseSpaces(s)) == Outline(s)
    decreases |s|
  {
    if |s| > 0 {
      if s[0] == ' ' {
        var n := SpaceRun(s);
        CollapseSpacesKeepsOutline(s[n..]);
        OutlineCons(' ', CollapseSpaces(s[n..]));
        OutlineOfRun(s, n);
      } else {
        CollapseSpacesKeepsOutline(s[1..]);
        OutlineCons(s[0], CollapseSpaces(s[1..]));
      }
    }
  }

  /** Step 2 keeps the outline: a whitespace run holding a newline still
      holds one. */
  lemma {:induction false} CollapseBlankLinesKeepsOutline(s: string)
    ensures Outline(CollapseBlankLines(s)) == Outline(s)
    decreases |s|
  {
    if |s| > 0 {
      var n := BlankSpan(s[1..]);
      if s[0] == '\n' && n > 0 {
        var t := s[1 + n..];
        assert t == s[1..][n..];
        CollapseBlankLinesKeepsOutline(t);
        OutlineCons('\n', CollapseBlankLines(t));
        assert forall i :: 0 < i < 1 + n ==> IsWhitespace(s[i]) by {
          assert forall i :: 0 <= i < n ==> IsWhitespace(s[1..][i]);
        }
        OutlineOfRun(s, 1 + n);
      } else {
        CollapseBlankLinesKeepsOutline(s[1..]);
        OutlineCons(s[0], CollapseBlankLines(s[1..]));
      }
    }
  }

  /** At position `i`, `a` agrees with `b`, or `b` has a newline between
      `[a-zA-Z,]` and `[a-zA-Z]` that `a` turned into a space. */
  predicate KeptOrJoined(a: string, b: string, i: nat)
    requires i < |a| == |b|
  {
    a[i] == b[i] ||
    (a[i] == ' ' && b[i] == '\n' && 0 < i < |b| - 1 && JoinsLeft(b[i - 1]) && IsAsciiLetter(b[i + 1]))
  }

  /** `a` is `b` with some newlines that stand between `[a-zA-Z,]` and
      `[a-zA-Z]` turned into spaces. */
  predicate SomeBreaksJoined(a: string, b: string) {
    |a| == |b| && forall i :: 0 <= i < |a| ==> KeptOrJoined(a, b, i)
  }

  lemma SomeBreaksJoinedMark(c: char, a: string, b: string)
    requires SomeBreaksJoined(a, b)
    ensures SomeBreaksJoined(Mark(c, a), Mark(c, b))
  {
    assert |a| > 0 ==> KeptOrJoined(a, b, 0);
    var a', b' := Mark(c, a), Mark(c, b);
    if IsWhitespace(c) && |a| > 0 && IsWhitespace(a[0]) {
      forall i | 0 <= i < |a'|
        ensures KeptOrJoined(a', b', i)
      {
        if i > 0 {
          assert KeptOrJoined(a, b, i);
          assert a'[i] == a[i] && b'[i] == b[i];
          assert i > 1 ==> b'[i - 1] == b[i - 1];
          assert i == 1 ==> !JoinsLeft(b[0]) && IsWhitespace(b'[0]);
        }
      }
    } else {
      forall i | 0 <= i < |a'|
        ensures KeptOrJoined(a', b', i)
      {
        if i > 0 {
          assert KeptOrJoined(a, b, i - 1);
          assert a'[i] == a[i - 1] && b'[i] == b[i - 1];
          assert i > 1 ==> b'[i - 1] == b[i - 2];
        }
      }
    }
  }

  lemma OutlineOfTriple(x: char, c: char, z: char, y: string)
    requires !IsWhitespace(x) && IsWhitespace(c) && !IsWhitespace(z)
    ensures Outline([x, c, z] + y) == [x, if c == '\n' then '\n' else ' ', z] + Outline(y)
  {
    assert [x, c, z] + y == [x] + ([c] + ([z] + y));
    OutlineCons(z, y);
    OutlineCons(c, [z] + y);
    OutlineCons(x, [c] + ([z] + y));
  }

  lemma SomeBreaksJoinedTriple(x: char, z: char, a: string, b: string)
    requires JoinsLeft(x) && IsAsciiLetter(z) && SomeBreaksJoined(a, b)
    ensures SomeBreaksJoined([x, ' ', z] + a, [x, '\n', z] + b)
  {
    var a', b' := [x, ' ', z] + a, [x, '\n', z] + b;
    forall i | 0 <= i < |a'|
      ensures KeptOrJoined(a', b', i)
    {
      if i > 2 {
        assert KeptOrJoined(a, b, i - 3);
        assert a'[i] == a[i - 3] && b'[i] == b[i - 3];
        assert i > 3 ==> b'[i - 1] == b[i - 4];
      }
    }
  }

  /** One match of step 3, read on outlines: the newline it turns into a
      space sits between `[a-zA-Z,]` and `[a-zA-Z]`. */
  lemma JoinedMatchOutline(x: char, z: char, a: string, b: string)
    requires JoinsLeft(x) && IsAsciiLetter(z)
    requires SomeBreaksJoined(Outline(a), Outline(b))
    ensures SomeBreaksJoined(Outline([x, ' ', z] + a), Outline([x, '\n', z] + b))
  {
    OutlineOfTriple(x, ' ', z, a);
    OutlineOfTriple(x, '\n', z, b);
    SomeBreaksJoinedTriple(x, z, Outline(a), Outline(b));
  }

  /** A character the scan copies keeps the outlines related. */
  lemma CopiedCharOutline(c: char, a: string, b: string)
    requires SomeBreaksJoined(Outline(a), Outline(b))
    ensures SomeBreaksJoined(Outline([c] + a), Outline([c] + b))
  {
    OutlineCons(c, a);
    OutlineCons(c, b);
    SomeBreaksJoinedMark(c, Outline(a), Outline(b));
  }

  /** Step 3, read on outlines: from any position on, the scan turns some
      newlines that stand alone between `[a-zA-Z,]` and `[a-zA-Z]` into
      spaces and leaves the rest of the outline as it is. */
  lemma {:induction false} JoinFromKeepsOutline(s: string, k: nat)
    requires k <= |s|
    ensures SomeBreaksJoined(Outline(JoinFrom(s, k)), Outline(s[k..]))
    decreases |s| - k
  {
    if k < |s| {
      if k + 2 < |s| && JoinsLeft(s[k]) && s[k + 1] == '\n' && IsAsciiLetter(s[k + 2]) {
        assert s[k..] == [s[k], '\n', s[k + 2]] + s[k + 3..];
        JoinFromKeepsOutline(s, k + 3);
        JoinedMatchOutline(s[k], s[k + 2], JoinFrom(s, k + 3), s[k + 3..]);
      } else {
        assert s[k..] == [s[k]] + s[k + 1..];
        JoinFromKeepsOutline(s, k + 1);
        CopiedCharOutline(s[k], JoinFrom(s, k + 1), s[k + 1..]);
      }
    }
  }

  /** Stripping two texts related by `SomeBreaksJoined` keeps them related:
      the joined newlines sit between non-whitespace characters, so they are
      never stripped. */
  lemma SomeBreaksJoinedStrip(a: string, b: string)
    requires SomeBreaksJoined(a, b)
    ensures SomeBreaksJoined(Strip(a), Strip(b))
  {
    SomeBreaksJoinedSpacing(a, b);
    var lo := WhitespaceEnd(a, 0);
    WhitespaceEndAgrees(a, b, 0);
    var hi := WhitespaceStart(a, lo, |a|);
    WhitespaceStartAgrees(a, b, lo, |a|);
    assert Strip(a) == a[lo..hi] && Strip(b) == b[lo..hi];
    SomeBreaksJoinedSlice(a, b, lo, hi);
  }

  /** Related texts have whitespace in the same places. */
  lemma SomeBreaksJoinedSpacing(a: string, b: string)
    requires SomeBreaksJoined(a, b)
    ensures forall i :: 0 <= i < |a| ==> IsWhitespace(a[i]) == IsWhitespace(b[i])
  {
    forall i | 0 <= i < |a|
      ensures IsWhitespace(a[i]) == IsWhitespace(b[i])
    {
      assert KeptOrJoined(a, b, i);
    }
  }

  /** Cutting whitespace off both ends of related texts keeps them related. */
  lemma SomeBreaksJoinedSlice(a: string, b: string, lo: nat, hi: nat)
    requires SomeBreaksJoined(a, b) && lo <= hi <= |a|
    requires forall i :: 0 <= i < lo ==> IsWhitespace(b[i])
    requires forall i :: hi <= i < |b| ==> IsWhitespace(b[i])
    ensures SomeBreaksJoined(a[lo..hi], b[lo..hi])
  {
    var a', b' := a[lo..hi], b[lo..hi];
    forall i | 0 <= i < |a'|
      ensures KeptOrJoined(a', b', i)
    {
      assert KeptOrJoined(a, b, lo + i);
      assert a'[i] == a[lo + i] && b'[i] == b[lo + i];
      if a[lo + i] != b[lo + i] {
        assert !IsWhitespace(b[lo + i - 1]) && !IsWhitespace(b[lo + i + 1]);
        assert b'[i - 1] == b[lo + i - 1] && b'[i + 1] == b[lo + i + 1];
      }
    }
  }

  lemma MarkAppend(c: char, t: string, u: string)
    requires |t| > 0
    ensures Mark(c, t + u) == Mark(c, t) + u
  {
    assert (t + u)[0] == t[0];
    if IsWhitespace(c) && IsWhitespace(t[0]) {
      assert (t + u)[1..] == t[1..] + u;
    }
  }

  /** Outlines concatenate where no whitespace run is cut in two. */
  lemma {:induction false} OutlineAppend(a: string, b: string)
    requires |a| == 0 || |b| == 0 || !IsWhitespace(a[|a| - 1]) || !IsWhitespace(b[0])
    ensures Outline(a + b) == Outline(a) + Outline(b)
    decreases |a|
  {
    if |a| == 0 {
      assert a + b == b;
    } else {
      var t := a[1..];
      assert a + b == [a[0]] + (t + b) && a == [a[0]] + t;
      if |t| > 0 {
        calc {
          Outline(a + b);
        == { OutlineCons(a[0], t + b); }
          Mark(a[0], Outline(t + b));
        == { assert t[|t| - 1] == a[|a| - 1]; OutlineAppend(t, b); }
          Mark(a[0], Outline(t) + Outline(b));
        == { MarkAppend(a[0], Outline(t), Outline(b)); }
          Mark(a[0], Outline(t)) + Outline(b);
        == { OutlineCons(a[0], t); }
          Outline(a) + Outline(b);
        }
      } else {
        assert t + b == b;
        OutlineCons(a[0], b);
        OutlineCons(a[0], t);
      }
    }
  }

  /** Whitespace outlines as whitespace. */
  lemma {:induction false} OutlineOfBlank(w: string)
    requires AllWhitespace(w)
    ensures AllWhitespace(Outline(w))
    decreases |w|
  {
    if |w| > 0 {
      OutlineOfBlank(w[1..]);
    }
  }

  /** A string with no outer whitespace outlines to one. */
  lemma OutlineOfTrimmed(m: string)
    requires |m| > 0 && NoOuterWhitespace(m)
    ensures NoOuterWhitespace(Outline(m))
  {
    var last := m[|m| - 1];
    assert m == m[..|m| - 1] + [last];
    OutlineAppend(m[..|m| - 1], [last]);
    OutlineCons(last, "");
    assert [last] + "" == [last];
  }

  /** Stripping and outlining commute. */
  lemma OutlineOfStrip(x: string)
    ensures Outline(Strip(x)) == Strip(Outline(x))
  {
    var i := StripSlice(x);
    var m := Strip(x);
    var pre, post := x[..i], x[i + |m|..];
    assert x == pre + (m + post);
    assert AllWhitespace(pre) by {
      forall k | 0 <= k < |pre|
        ensures IsWhitespace(pre[k])
      {
        assert pre[k] == x[k];
      }
    }
    assert AllWhitespace(post) by {
      forall k | 0 <= k < |post|
        ensures IsWhitespace(post[k])
      {
        assert post[k] == x[i + |m| + k];
      }
    }
    if |m| > 0 {
      OutlineOfPadded(pre, m, post);
    } else {
      assert AllWhitespace(x);
      OutlineOfBlankStrips(x);
    }
  }

  /** Whitespace padding outlines to whitespace padding, which strips off. */
  lemma OutlineOfPadded(pre: string, m: string, post: string)
    requires AllWhitespace(pre) && AllWhitespace(post)
    requires |m| > 0 && NoOuterWhitespace(m)
    ensures Strip(Outline(pre + (m + post))) == Outline(m)
  {
    var p, q, r := Outline(pre), Outline(m), Outline(post);
    OutlineOfBlank(pre);
    OutlineOfBlank(post);
    OutlineOfTrimmed(m);
    OutlineAppend(m, post);
    assert (m + post)[0] == m[0];
    OutlineAppend(pre, m + post);
    assert Outline(pre + (m + post)) == p + (q + r) == p + q + r;
    StripOfPadded(p, q, r);
  }

  /** Whitespace outlines to whitespace, which strips to nothing. */
  lemma OutlineOfBlankStrips(x: string)
    requires AllWhitespace(x)
    ensures Strip(Outline(x)) == "" == Outline("")
  {
    OutlineOfBlank(x);
    StripOfPadded(Outline(x), "", "");
    assert Outline(x) + "" + "" == Outline(x);
  }

  /** The outline has the words of the text. */
  lemma {:induction false} WordsOfOutline(s: string)
    ensures Words(Outline(s)) == Words(s)
    decreases |s|
  {
    if |s| > 0 {
      WordsOfOutline(s[1..]);
      var t := Outline(s[1..]);
      if IsWhitespace(s[0]) {
        if |t| > 0 && IsWhitespace(t[0]) {
          assert Mark(s[0], t)[1..] == t[1..];
        } else {
          assert Mark(s[0], t)[1..] == t;
        }
      } else {
        assert Mark(s[0], t)[1..] == t;
      }
    }
  }

  /** The four cleanup steps keep the words of the text. Each whitespace
      run keeps its kind, a newline or none, except that step 3 may turn a
      newline standing alone between `[a-zA-Z,]` and `[a-zA-Z]` into a
      space; the runs at either end are stripped. */
  lemma CleanupKeepsLayout(text: string)
    ensures var r := Strip(JoinBrokenLines(CollapseBlankLines(CollapseSpaces(text))));
            && SomeBreaksJoined(Outline(r), Strip(Outline(text)))
            && Words(r) == Words(text)
  {
    var s1 := CollapseSpaces(text);
    var s2 := CollapseBlankLines(s1);
    var s3 := JoinBrokenLines(s2);
    var r := Strip(s3);
    CollapseSpacesKeepsOutline(text);
    CollapseBlankLinesKeepsOutline(s1);
    assert s2[0..] == s2;
    JoinFromKeepsOutline(s2, 0);
    SomeBreaksJoinedStrip(Outline(s3), Outline(s2));
    OutlineOfStrip(s3);
    var a, b := Outline(r), Strip(Outline(text));
    forall i | 0 <= i < |a|
      ensures a[i] == b[i] || (IsWhitespace(a[i]) && IsWhitespace(b[i]))
    {
      assert KeptOrJoined(a, b, i);
    }
    WordsOfRespaced(a, b);
    WordsOfOutline(r);
    WordsOfStrip(Outline(text));
    WordsOfOutline(text);
  }

  // ---------------------------------------------------------------------
  // Step 4 and the whole of preprocess_text
  // ---------------------------------------------------------------------

  /** Stripping keeps a text free of blank lines and adjacent spaces. */
  lemma StripPreserves(s: string)
    ensures NoBlankLine(s) ==> NoBlankLine(Strip(s))
    ensures NoDoubleSpace(s) ==> NoDoubleSpace(Strip(s))
  {
    var r := Strip(s);
    var k := StripSlice(s);
    if NoBlankLine(s) {
      forall j | 0 <= j < |r| && r[j] == '\n'
        ensures !OpensWithLineBreak(r[j + 1..])
      {
        assert s[k + j] == '\n';
        assert s[k + j + 1..] == r[j + 1..] + s[k + |r|..] by {
          assert r[j + 1..] == s[k + j + 1..k + |r|];
        }
        if OpensWithLineBreak(r[j + 1..]) {
          OpensWithLineBreakAppend(r[j + 1..], s[k + |r|..]);
        }
      }
    }
    if NoDoubleSpace(s) {
      forall j: nat | j < |r|
        ensures !RepeatedSpace(r, j)
      {
        assert r[j] == s[k + j];
        if j > 0 {
          assert r[j - 1] == s[k + j - 1] && !RepeatedSpace(s, k + j);
        }
      }
    }
  }

  /** `preprocess_text`: the four cleanup steps, with an empty text returned
      as is. The result has no adjacent spaces, no blank lines and no outer
      whitespace. It has the words of the text, and every gap between two
      words keeps its kind, a newline or none, except that a newline between
      `[a-zA-Z,]` and `[a-zA-Z]` may have become a space. */
  function PreprocessText(text: string): (r: string)
    ensures text == "" ==> r == ""
    ensures NoDoubleSpace(r)
    ensures NoBlankLine(r)
    ensures NoOuterWhitespace(r)
    ensures DropWhitespace(r) == DropWhitespace(text)
    ensures Words(r) == Words(text)
    ensures SomeBreaksJoined(Outline(r), Strip(Outline(text)))
  {
    if text == "" then ""
    else
      var s1 := CollapseSpaces(text);
      var s2 := CollapseBlankLines(s1);
      var s3 := JoinBrokenLines(s2);
      CollapseSpacesKeepsText(text);
      CollapseBlankLinesNoDoubleSpace(s1);
      CollapseBlankLinesKeepsText(s1);
      JoinBrokenLinesPreserves(s2);
      StripPreserves(s3);
      StripKeepsText(s3);
      CleanupKeepsLayout(text);
      Strip(s3)
  }

  /** Step 2 changes nothing in a text that has no blank line. */
  lemma {:induction false} CollapseBlankLinesFixpoint(s: string)
    requires NoBlankLine(s)
    ensures CollapseBlankLines(s) == s
    decreases |s|
  {
    if |s| > 0 {
      assert s[0] == '\n' ==> !OpensWithLineBreak(s[1..]);
      assert NoBlankLine(s[1..]) by {
        forall i | 0 <= i < |s[1..]| && s[1..][i] == '\n'
          ensures !OpensWithLineBreak(s[1..][i + 1..])
        {
          assert s[1..][i + 1..] == s[i + 2..];
        }
      }
      CollapseBlankLinesFixpoint(s[1..]);
      assert s == [s[0]] + s[1..];
    }
  }

  /** The join scan is not idempotent, and neither is `preprocess_text`:
      "a\nb\nc" becomes "a b\nc", and a second pass joins the line break
      the first pass skipped. */
  lemma PreprocessIsNotIdempotent()
    ensures PreprocessText("a\nb\nc") == "a b\nc"
    ensures PreprocessText(PreprocessText("a\nb\nc")) == "a b c"
  {
    PreprocessFirstPass();
    PreprocessSecondPass();
  }

  lemma PreprocessFirstPass()
    ensures PreprocessText("a\nb\nc") == "a b\nc"
  {
    FirstExampleIsClean();
    JoinIsNotOverlapping();
    PreprocessOfClean("a\nb\nc", "a b\nc");
  }

  lemma PreprocessSecondPass()
    ensures PreprocessText("a b\nc") == "a b c"
  {
    SecondExampleIsClean();
    JoinSecondExample();
    PreprocessOfClean("a b\nc", "a b c");
  }

  /** On a text without double spaces or blank lines, only steps 3 and 4
      act; when step 3 leaves no outer whitespace, it gives the result. */
  lemma PreprocessOfClean(s: string, j: string)
    requires s != "" && NoDoubleSpace(s) && NoBlankLine(s)
    requires JoinBrokenLines(s) == j && NoOuterWhitespace(j)
    ensures PreprocessText(s) == j
  {
    CleanTextSkipsFirstSteps(s);
    StripOfTrimmed(j);
  }

  /** Steps 1 and 2 leave a text without double spaces or blank lines as it is. */
  lemma CleanTextSkipsFirstSteps(s: string)
    requires NoDoubleSpace(s) && NoBlankLine(s)
    ensures CollapseBlankLines(CollapseSpaces(s)) == s
  {
    CollapseSpacesFixpoint(s);
    CollapseBlankLinesFixpoint(s);
  }

  lemma FirstExampleIsClean()
    ensures NoDoubleSpace("a\nb\nc") && NoBlankLine("a\nb\nc")
  {
    var s := "a\nb\nc";
    assert !OpensWithLineBreak(s[2..]) && !OpensWithLineBreak(s[4..]);
  }

  lemma SecondExampleIsClean()
    ensures NoDoubleSpace("a b\nc") && NoBlankLine("a b\nc")
  {
    var t := "a b\nc";
    assert !OpensWithLineBreak(t[4..]);
  }

  lemma JoinSecondExample()
    ensures JoinBrokenLines("a b\nc") == "a b c"
  {
    var t := "a b\nc";
    assert Joined(t, 3);
    var u := JoinBrokenLines(t);
    assert u[0] == 'a' && u[1] == ' ' && u[2] == 'b' && u[3] == ' ' && u[4] == 'c';
  }

  // ---------------------------------------------------------------------
  // parse_text_to_json: deleting the fences, then strip(), then decoding
  // ---------------------------------------------------------------------

  /** `^` under `re.MULTILINE`: the start of the text or just after a newline. */
  predicate AtLineStart(s: string, p: nat)
    requires p <= |s|
  {
    p == 0 || s[p - 1] == '\n'
  }

  /** `$` under `re.MULTILINE`: the end of the text or just before a newline. */
  predicate AtLineEnd(s: string, p: nat)
    requires p <= |s|
  {
    p == |s| || s[p] == '\n'
  }

  /** The left alternative `^```json` matches at `p`. */
  predicate OpensFence(s: string, p: nat)
    requires p <= |s|
  {
    && AtLineStart(s, p) && p + 7 <= |s|
    && s[p] == '`' && s[p + 1] == '`' && s[p + 2] == '`'
    && s[p + 3] == 'j' && s[p + 4] == 's' && s[p + 5] == 'o' && s[p + 6] == 'n'
  }

  /** "```" sits at `w` and a line ends right after it. */
  predicate ClosesFence(s: string, w: nat)
    requires w <= |s|
  {
    w + 3 <= |s| && s[w] == '`' && s[w + 1] == '`' && s[w + 2] == '`' && AtLineEnd(s, w + 3)
  }

  /** The end of the match of `^```json\s*|\s*```$` that starts at `p`, if
      there is one; the left alternative is tried first. The right one can
      only succeed with the whole whitespace run, because a shorter `\s*` leaves
      a whitespace character where the backtick must be. */
  function FenceMatch(s: string, p: nat): (e: Option<nat>)
    requires p <= |s|
    ensures e.Some? ==> p < e.value <= |s|
  {
    if OpensFence(s, p) then Some(WhitespaceEnd(s, p + 7))
    else
      var w := WhitespaceEnd(s, p);
      if ClosesFence(s, w) then Some(w + 3) else None
  }

  /** The scan of the fence substitution from position `p` on. */
  function RemoveFencesFrom(s: string, p: nat): (r: string)
    requires p <= |s|
    ensures |r| <= |s| - p
    decreases |s| - p
  {
    if p == |s| then ""
    else
      match FenceMatch(s, p)
      case Some(e) => RemoveFencesFrom(s, e)
      case None => [s[p]] + RemoveFencesFrom(s, p + 1)
  }

  /** The fence scan only deletes characters. */
  lemma {:induction false} RemoveFencesSubsequence(s: string, p: nat)
    requires p <= |s|
    ensures IsSubsequence(RemoveFencesFrom(s, p), s[p..])
    decreases |s| - p
  {
    if p < |s| {
      match FenceMatch(s, p)
      case Some(e) =>
        RemoveFencesSubsequence(s, e);
        assert s[e..] == s[p..][e - p..|s| - p];
        SliceIsSubsequence(s[p..], e - p, |s| - p);
        SubsequenceTransitive(RemoveFencesFrom(s, e), s[e..], s[p..]);
      case None =>
        RemoveFencesSubsequence(s, p + 1);
        var r := RemoveFencesFrom(s, p);
        assert r == [s[p]] + RemoveFencesFrom(s, p + 1);
        assert r[1..] == RemoveFencesFrom(s, p + 1);
        assert s[p..][1..] == s[p + 1..];
    }
  }

  /** The cleaned answer: fences removed, then `strip()`. It keeps characters
      of the answer in order and has no outer whitespace. */
  function CleanJsonResponse(response: string): (r: string)
    ensures IsSubsequence(r, response)
    ensures NoOuterWhitespace(r)
  {
    var t := RemoveFencesFrom(response, 0);
    RemoveFencesSubsequence(response, 0);
    StripIsSubsequence(t);
    assert response[0..] == response;
    SubsequenceTransitive(Strip(t), t, response);
    Strip(t)
  }

  /** No match starts at `p` when no "```" starts at `p` or right after the
      whitespace run at `p`: both alternatives need one there. */
  lemma NoFenceAt(s: string, p: nat)
    requires p < |s| && !TripleBacktickAt(s, p)
    requires !TripleBacktickAt(s, WhitespaceEnd(s, p))
    ensures FenceMatch(s, p).None?
  {
  }

  /** Without "```" nothing matches, so the scan copies `s[p..]`. */
  lemma {:induction false} RemoveFencesWithoutTriples(s: string, p: nat)
    requires p <= |s|
    requires forall i :: p <= i < |s| ==> !TripleBacktickAt(s, i)
    ensures RemoveFencesFrom(s, p) == s[p..]
    decreases |s| - p
  {
    if p < |s| {
      NoFenceAt(s, p);
      RemoveFencesWithoutTriples(s, p + 1);
      assert s[p..] == [s[p]] + s[p + 1..];
    }
  }

  /** Backticks that do not form "```" survive the fence substitution: an
      answer without three adjacent backticks (say, with an inline `git`) is
      only stripped. */
  lemma CleanKeepsShortBacktickRuns(response: string)
    requires NoTripleBacktick(response)
    ensures CleanJsonResponse(response) == Strip(response)
  {
    assert response[0..] == response;
    RemoveFencesWithoutTriples(response, 0);
  }

  /** An answer that contains no backtick is only stripped. */
  lemma CleanWithoutBackticks(response: string)
    requires '`' !in response
    ensures CleanJsonResponse(response) == Strip(response)
  {
    CleanKeepsShortBacktickRuns(response);
  }

  /** Where no match starts in `[p, q)`, the scan copies that stretch. */
  lemma {:induction false} RemoveFencesCopies(s: string, p: nat, q: nat)
    requires p <= q <= |s|
    requires forall i :: p <= i < q ==> FenceMatch(s, i).None?
    ensures RemoveFencesFrom(s, p) == s[p..q] + RemoveFencesFrom(s, q)
    decreases q - p
  {
    if p < q {
      RemoveFencesStep(s, p);
      RemoveFencesCopies(s, p + 1, q);
      ConsSlice(s, p, q, RemoveFencesFrom(s, q));
    } else {
      assert s[p..q] + RemoveFencesFrom(s, q) == RemoveFencesFrom(s, q);
    }
  }

  lemma ConsSlice(s: string, p: nat, q: nat, rest: string)
    requires p < q <= |s|
    ensures [s[p]] + (s[p + 1..q] + rest) == s[p..q] + rest
  {
    assert [s[p]] + s[p + 1..q] == s[p..q];
  }

  /** Where no match starts at `p`, the scan copies `s[p]`. */
  lemma RemoveFencesStep(s: string, p: nat)
    requires p < |s| && FenceMatch(s, p).None?
    ensures RemoveFencesFrom(s, p) == [s[p]] + RemoveFencesFrom(s, p + 1)
  {
  }

  /** From a position followed by nothing but whitespace and a closing "```"
      at the very end, the scan deletes everything. */
  lemma RemoveClosingFence(s: string, e: nat)
    requires e + 3 <= |s| && ClosesFence(s, |s| - 3)
    requires forall i :: e <= i < |s| - 3 ==> IsWhitespace(s[i])
    ensures RemoveFencesFrom(s, e) == ""
  {
    ClosingRunEnd(s, e);
    NotOpeningBefore(s, e);
    ClosingMatch(s, e, |s| - 3);
    RemoveFencesToEnd(s, e);
  }

  /** No "```json" starts at `e` when `s[e]` is not a backtick or fewer than
      seven characters remain. */
  lemma NotOpeningBefore(s: string, e: nat)
    requires e + 3 <= |s|
    requires e < |s| - 3 ==> s[e] != '`'
    ensures !OpensFence(s, e)
  {
  }

  /** The right alternative matches at `e` when the whitespace run from `e`
      ends at a closing "```" (and the left one does not). */
  lemma ClosingMatch(s: string, e: nat, w: nat)
    requires e <= w <= |s| && !OpensFence(s, e)
    requires WhitespaceEnd(s, e) == w && ClosesFence(s, w)
    ensures FenceMatch(s, e) == Some(w + 3)
  {
  }

  /** A match that runs to the end of the text deletes all of what is left. */
  lemma RemoveFencesToEnd(s: string, p: nat)
    requires p < |s| && FenceMatch(s, p) == Some(|s|)
    ensures RemoveFencesFrom(s, p) == ""
  {
  }

  /** The whitespace run at `e` stops at the closing backticks. */
  lemma ClosingRunEnd(s: string, e: nat)
    requires e + 3 <= |s| && s[|s| - 3] == '`'
    requires forall i :: e <= i < |s| - 3 ==> IsWhitespace(s[i])
    ensures WhitespaceEnd(s, e) == |s| - 3
  {
  }

  /** A body wrapped as "```json\n" + body + "\n```" cleans to the stripped
      body, provided the body has no "```" of its own; shorter runs of
      backticks, as in inline code, stay. */
  lemma CleanFencedBody(body: string)
    requires NoTripleBacktick(body)
    ensures CleanJsonResponse("```json\n" + body + "\n```") == Strip(body)
  {
    var s := "```json\n" + body + "\n```";
    FencedLayout(body, s);
    FencedBodyScan(body, s);
    StripOfTrimmed(Strip(body));
  }

  /** The scan over a fenced body leaves exactly the stripped body. */
  lemma FencedBodyScan(body: string, s: string)
    requires |s| == |body| + 12
    requires OpensFence(s, 0) && s[7] == '\n' && s[8 + |body|] == '\n'
    requires ClosesFence(s, |s| - 3)
    requires forall i :: 8 <= i < 8 + |body| ==> s[i] == body[i - 8]
    requires forall i :: 3 <= i < |s| - 3 ==> !TripleBacktickAt(s, i)
    ensures RemoveFencesFrom(s, 0) == Strip(body)
  {
    var k := StripSlice(body);
    var mid := Strip(body);
    PaddedBodyLayout(body, s, k, mid);
    FencedScan(s, |body|, k, |mid|);
  }

  /** A fenced body that is `mid` padded with whitespace has the layout
      `FenceLayout` describes, with `mid` in the middle. */
  lemma PaddedBodyLayout(body: string, s: string, k: nat, mid: string)
    requires |s| == |body| + 12
    requires OpensFence(s, 0) && s[7] == '\n' && s[8 + |body|] == '\n'
    requires ClosesFence(s, |s| - 3)
    requires forall i :: 8 <= i < 8 + |body| ==> s[i] == body[i - 8]
    requires forall i :: 3 <= i < |s| - 3 ==> !TripleBacktickAt(s, i)
    requires k + |mid| <= |body| && mid == body[k..k + |mid|]
    requires forall i :: 0 <= i < k ==> IsWhitespace(body[i])
    requires forall i :: k + |mid| <= i < |body| ==> IsWhitespace(body[i])
    requires NoOuterWhitespace(mid)
    ensures FenceLayout(s, |body|, k, |mid|)
    ensures s[8 + k..8 + k + |mid|] == mid
  {
    var L := |body|;
    var e := k + |mid|;
    CopiedWhitespace(s, body, 8, 0, k);
    CopiedWhitespace(s, body, 8, e, L);
    CopiedSlice(s, body, 8, k, e);
    if |mid| > 0 {
      assert s[8 + k] == body[k] == mid[0];
      assert s[8 + e - 1] == body[e - 1] == mid[|mid| - 1];
    }
  }

  /** A whitespace stretch of `body`, copied into `s` at offset `off`. */
  lemma CopiedWhitespace(s: string, body: string, off: nat, lo: nat, hi: nat)
    requires off + |body| <= |s| && lo <= hi <= |body|
    requires forall i :: off <= i < off + |body| ==> s[i] == body[i - off]
    requires forall i :: lo <= i < hi ==> IsWhitespace(body[i])
    ensures forall i :: off + lo <= i < off + hi ==> IsWhitespace(s[i])
  {
    forall i | off + lo <= i < off + hi
      ensures IsWhitespace(s[i])
    {
      assert s[i] == body[i - off];
    }
  }

  /** A stretch of `body`, copied into `s` at offset `off`. */
  lemma CopiedSlice(s: string, body: string, off: nat, lo: nat, hi: nat)
    requires off + |body| <= |s| && lo <= hi <= |body|
    requires forall i :: off <= i < off + |body| ==> s[i] == body[i - off]
    ensures s[off + lo..off + hi] == body[lo..hi]
  {
    forall j | 0 <= j < hi - lo
      ensures s[off + lo..off + hi][j] == body[lo..hi][j]
    {
      assert s[off + lo + j] == body[lo + j];
    }
  }

  /** The text "```json\n" + body + "\n```" with a body of length `L` made
      of `k` whitespace characters, `m` characters with no outer whitespace
      and whitespace again, and no backtick outside the two fences. */
  predicate FenceLayout(s: string, L: nat, k: nat, m: nat) {
    && |s| == L + 12 && k + m <= L
    && OpensFence(s, 0) && s[7] == '\n' && s[8 + L] == '\n'
    && ClosesFence(s, |s| - 3)
    && (forall i :: 3 <= i < |s| - 3 ==> !TripleBacktickAt(s, i))
    && (forall i :: 8 <= i < 8 + k ==> IsWhitespace(s[i]))
    && (forall i :: 8 + k + m <= i < 8 + L ==> IsWhitespace(s[i]))
    && (m > 0 ==> !IsWhitespace(s[8 + k]) && !IsWhitespace(s[8 + k + m - 1]))
  }

  /** The scan over such a text: the opening fence takes the leading
      whitespace, the closing fence the trailing whitespace, and the middle
      is copied. */
  lemma FencedScan(s: string, L: nat, k: nat, m: nat)
    requires FenceLayout(s, L, k, m)
    ensures RemoveFencesFrom(s, 0) == s[8 + k..8 + k + m]
  {
    if m > 0 {
      FencedScanAround(s, L, k, m);
    } else {
      FencedEmpty(s, L, k);
    }
  }

  /** `FencedScan` when the middle is not empty. */
  lemma FencedScanAround(s: string, L: nat, k: nat, m: nat)
    requires FenceLayout(s, L, k, m) && m > 0
    ensures RemoveFencesFrom(s, 0) == s[8 + k..8 + k + m]
  {
    FencedOpening(s, L, k, m);
    FencedRest(s, L, k, m);
  }

  /** From the middle on, the scan copies the middle and drops the rest. */
  lemma FencedRest(s: string, L: nat, k: nat, m: nat)
    requires FenceLayout(s, L, k, m) && m > 0
    ensures RemoveFencesFrom(s, 8 + k) == s[8 + k..8 + k + m]
  {
    FencedMiddle(s, L, k, m);
    FencedClosing(s, L, k, m);
    assert s[8 + k..8 + k + m] + "" == s[8 + k..8 + k + m];
  }

  lemma FencedOpening(s: string, L: nat, k: nat, m: nat)
    requires FenceLayout(s, L, k, m) && m > 0
    ensures RemoveFencesFrom(s, 0) == RemoveFencesFrom(s, 8 + k)
  {
    assert forall i :: 7 <= i < 8 + k ==> IsWhitespace(s[i]);
    OpeningFence(s, 8 + k);
  }

  lemma FencedMiddle(s: string, L: nat, k: nat, m: nat)
    requires FenceLayout(s, L, k, m) && m > 0
    ensures RemoveFencesFrom(s, 8 + k) == s[8 + k..8 + k + m] + RemoveFencesFrom(s, 8 + k + m)
  {
    MiddleFacts(s, L, k, m);
    MiddleCopied(s, 8 + k, 8 + k + m);
  }

  /** The layout facts `MiddleCopied` needs, read off in a context where
      the scan does not appear; proving them next to the scan costs the
      solver far more. */
  lemma MiddleFacts(s: string, L: nat, k: nat, m: nat)
    requires FenceLayout(s, L, k, m) && m > 0
    ensures 3 <= 8 + k < 8 + k + m <= |s| - 3
    ensures forall i :: 3 <= i < |s| - 3 ==> !TripleBacktickAt(s, i)
    ensures !IsWhitespace(s[8 + k + m - 1])
  {
  }

  lemma FencedClosing(s: string, L: nat, k: nat, m: nat)
    requires FenceLayout(s, L, k, m) && m > 0
    ensures RemoveFencesFrom(s, 8 + k + m) == ""
  {
    assert forall i :: 8 + k + m <= i < 9 + L ==> IsWhitespace(s[i]);
    RemoveClosingFence(s, 8 + k + m);
  }

  /** A body of whitespace only: the opening fence takes all of it. */
  lemma FencedEmpty(s: string, L: nat, k: nat)
    requires FenceLayout(s, L, k, 0)
    ensures RemoveFencesFrom(s, 0) == s[8 + k..8 + k]
  {
    assert forall i :: 7 <= i < 9 + L ==> IsWhitespace(s[i]);
    assert 9 + L + 3 == |s| && !IsWhitespace(s[9 + L]);
    OpeningFence(s, 9 + L);
    RemoveClosingFence(s, 9 + L);
  }

  /** A backtick-free stretch that ends in a non-whitespace character is
      copied by the scan. */
  lemma MiddleCopied(s: string, lo: nat, e: nat)
    requires 3 <= lo < e <= |s| - 3
    requires forall i :: 3 <= i < |s| - 3 ==> !TripleBacktickAt(s, i)
    requires !IsWhitespace(s[e - 1])
    ensures RemoveFencesFrom(s, lo) == s[lo..e] + RemoveFencesFrom(s, e)
  {
    NoFenceInMiddle(s, lo, e);
    RemoveFencesCopies(s, lo, e);
  }

  /** No match starts inside a backtick-free stretch that ends in a
      non-whitespace character. */
  lemma NoFenceInMiddle(s: string, lo: nat, e: nat)
    requires 3 <= lo < e <= |s| - 3
    requires forall i :: 3 <= i < |s| - 3 ==> !TripleBacktickAt(s, i)
    requires !IsWhitespace(s[e - 1])
    ensures forall i :: lo <= i < e ==> FenceMatch(s, i).None?
  {
    forall i | lo <= i < e
      ensures FenceMatch(s, i).None?
    {
      assert WhitespaceEnd(s, i) < e;
      NoFenceAt(s, i);
    }
  }

  /** The opening "```json" at the start takes the whitespace up to `start`. */
  lemma OpeningFence(s: string, start: nat)
    requires 7 <= start <= |s| && OpensFence(s, 0)
    requires forall i :: 7 <= i < start ==> IsWhitespace(s[i])
    requires start == |s| || !IsWhitespace(s[start])
    ensures RemoveFencesFrom(s, 0) == RemoveFencesFrom(s, start)
  {
    assert s[0..7] == s[..7];
    assert WhitespaceEnd(s, 7) == start;
    assert FenceMatch(s, 0) == Some(start);
  }

  /** Where the pieces of "```json\n" + body + "\n```" sit. */
  lemma FencedLayout(body: string, s: string)
    requires s == "```json\n" + body + "\n```"
    requires NoTripleBacktick(body)
    ensures |s| == |body| + 12
    ensures OpensFence(s, 0) && s[7] == '\n' && s[8 + |body|] == '\n'
    ensures ClosesFence(s, |s| - 3)
    ensures forall i :: 8 <= i < 8 + |body| ==> s[i] == body[i - 8]
    ensures forall i :: 3 <= i < |s| - 3 ==> !TripleBacktickAt(s, i)
  {
    var L := |body|;
    assert forall i :: 8 <= i < 8 + L ==> s[i] == body[i - 8];
    assert forall i :: 3 <= i < |s| - 3 ==> !TripleBacktickAt(s, i) by {
      forall i | 3 <= i < |s| - 3
        ensures !TripleBacktickAt(s, i)
      {
        if i + 2 < 8 + L && 8 <= i {
          // the three characters all lie inside the body
          assert !TripleBacktickAt(body, i - 8);
        } else if i < 8 {
          assert s[i] != '`';
        } else {
          // the run reaches the newline before the closing fence
          assert s[8 + L] == '\n';
        }
      }
    }
  }

  /** The record `parse_text_to_json` returns when the cleaned answer is not
      valid JSON: the error text and the unmodified resume text. */
  function ParseFailure(resumeText: string): (v: Json.Value)
    ensures v.Object? && v.members.Keys == {"error", "raw_text"}
    ensures v.members["error"] == Json.Str("Failed to parse resume")
    ensures v.members["raw_text"] == Json.Str(resumeText)
  {
    Json.Object(map["error" := Json.Str("Failed to parse resume"), "raw_text" := Json.Str(resumeText)])
  }

  /** `parse_text_to_json`: `response` is the language model's answer to the
      prompt that embeds `resumeText`, and `decode` stands for `json.loads`
      (None where it raises `JSONDecodeError`). A decodable cleaned answer is
      returned as decoded; otherwise the fixed error record. */
  function ParseTextToJson(resumeText: string, response: string,
                           decode: string -> Option<Json.Value>): (v: Json.Value)
    ensures decode(CleanJsonResponse(response)).Some? ==>
              v == decode(CleanJsonResponse(response)).value
    ensures decode(CleanJsonResponse(response)).None? ==>
              v == ParseFailure(resumeText) && v.members["raw_text"] == Json.Str(resumeText)
  {
    match decode(CleanJsonResponse(response))
    case Some(v) => v
    case None => ParseFailure(resumeText)
  }
}
