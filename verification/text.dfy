/** Character classes and string helpers shared by the resume parser and the
    profiler: Python's notion of whitespace, `str.strip()`, deleting the
    whitespace of a string, and the subsequence order. */
module Text {

  /** Python's `str.isspace()` for one character. CPython uses the same table
      for `\s` in a `str` regular expression and for `str.strip()` without
      arguments, so one predicate serves both. `WhitespaceTable` lists the
      ASCII characters it holds for. */
  predicate IsWhitespace(c: char) {
    var n := c as int;
    || (0x09 <= n <= 0x0D)
    || (0x1C <= n <= 0x20)
    || n == 0x85 || n == 0xA0 || n == 0x1680
    || (0x2000 <= n <= 0x200A)
    || n == 0x2028 || n == 0x2029 || n == 0x202F || n == 0x205F || n == 0x3000
  }

  /** Among ASCII characters the table holds for the six of Python's
      `string.whitespace` and the four separators 0x1C-0x1F, and for nothing
      else; beyond ASCII the no-break space counts and the zero-width space
      does not. */
  lemma WhitespaceTable(c: char)
    ensures c as int < 0x80 ==>
              (IsWhitespace(c) <==> c in " \t\n\r\U{0B}\U{0C}\U{1C}\U{1D}\U{1E}\U{1F}")
    ensures IsWhitespace('\U{A0}') && !IsWhitespace('\U{200B}')
  {
  }

  /** Every character of `s` is whitespace (true of the empty string). */
  predicate AllWhitespace(s: string) {
    forall i :: 0 <= i < |s| ==> IsWhitespace(s[i])
  }

  /** Neither the first nor the last character is whitespace. */
  predicate NoOuterWhitespace(s: string) {
    |s| == 0 || (!IsWhitespace(s[0]) && !IsWhitespace(s[|s| - 1]))
  }

  /** "```" starts at position `i` of `s`: the fence both the resume answer
      and the profiler answer are wrapped in. */
  predicate TripleBacktickAt(s: string, i: nat) {
    i + 2 < |s| && s[i] == '`' && s[i + 1] == '`' && s[i + 2] == '`'
  }

  /** No three adjacent backticks: every run of backticks is at most two long. */
  predicate NoTripleBacktick(s: string) {
    forall i: nat | i < |s| :: !TripleBacktickAt(s, i)
  }

  /** The regex class `[a-zA-Z]`. */
  predicate IsAsciiLetter(c: char) {
    ('a' <= c <= 'z') || ('A' <= c <= 'Z')
  }

  /** `s` with every whitespace character deleted; two strings with the same
      image differ only in their whitespace. */
  function DropWhitespace(s: string): (r: string)
    ensures |r| <= |s|
    decreases |s|
  {
    if |s| == 0 then ""
    else if IsWhitespace(s[0]) then DropWhitespace(s[1..])
    else [s[0]] + DropWhitespace(s[1..])
  }

  lemma {:induction false} DropWhitespaceAppend(a: string, b: string)
    ensures DropWhitespace(a + b) == DropWhitespace(a) + DropWhitespace(b)
    decreases |a|
  {
    if |a| > 0 {
      assert (a + b)[1..] == a[1..] + b;
      DropWhitespaceAppend(a[1..], b);
    } else {
      assert a + b == b;
    }
  }

  lemma {:induction false} DropWhitespaceOfBlank(a: string)
    requires AllWhitespace(a)
    ensures DropWhitespace(a) == ""
    decreases |a|
  {
    if |a| > 0 {
      DropWhitespaceOfBlank(a[1..]);
    }
  }

  /** Where the whitespace run starting at `p` ends: the first index at or
      after `p` that holds no whitespace, or the end of `s`. */
  function WhitespaceEnd(s: string, p: nat): (e: nat)
    requires p <= |s|
    ensures p <= e <= |s|
    ensures forall i :: p <= i < e ==> IsWhitespace(s[i])
    ensures e == |s| || !IsWhitespace(s[e])
    decreases |s| - p
  {
    if p < |s| && IsWhitespace(s[p]) then WhitespaceEnd(s, p + 1) else p
  }

  /** Where the whitespace run ending at `q` starts, looking no further back
      than `lo`. */
  function WhitespaceStart(s: string, lo: nat, q: nat): (b: nat)
    requires lo <= q <= |s|
    ensures lo <= b <= q
    ensures forall i :: b <= i < q ==> IsWhitespace(s[i])
    ensures b == lo || !IsWhitespace(s[b - 1])
    decreases q
  {
    if lo < q && IsWhitespace(s[q - 1]) then WhitespaceStart(s, lo, q - 1) else q
  }

  /** Where whitespace sits is all `WhitespaceEnd` looks at. */
  lemma {:induction false} WhitespaceEndAgrees(a: string, b: string, p: nat)
    requires p <= |a| == |b|
    requires forall i :: p <= i < |a| ==> IsWhitespace(a[i]) == IsWhitespace(b[i])
    ensures WhitespaceEnd(a, p) == WhitespaceEnd(b, p)
    decreases |a| - p
  {
    if p < |a| && IsWhitespace(a[p]) {
      WhitespaceEndAgrees(a, b, p + 1);
    }
  }

  /** Where whitespace sits is all `WhitespaceStart` looks at. */
  lemma {:induction false} WhitespaceStartAgrees(a: string, b: string, lo: nat, q: nat)
    requires lo <= q <= |a| == |b|
    requires forall i :: lo <= i < q ==> IsWhitespace(a[i]) == IsWhitespace(b[i])
    ensures WhitespaceStart(a, lo, q) == WhitespaceStart(b, lo, q)
    decreases q
  {
    if lo < q && IsWhitespace(a[q - 1]) {
      WhitespaceStartAgrees(a, b, lo, q - 1);
    }
  }

  /** `s.strip()`: `s` without its leading and trailing whitespace. The result
      neither starts nor ends with whitespace; `StripSlice` shows it is a
      contiguous piece of `s` with only whitespace around it, and
      `StripKeepsText` that it has the same non-whitespace characters. */
  function Strip(s: string): (r: string)
    ensures NoOuterWhitespace(r)
  {
    var i := WhitespaceEnd(s, 0);
    s[i..WhitespaceStart(s, i, |s|)]
  }

  /** The strip of `s` is the piece `s[i..i + |Strip(s)|]`, and everything
      before and after that piece is whitespace. */
  lemma StripSlice(s: string) returns (i: nat)
    ensures i + |Strip(s)| <= |s|
    ensures Strip(s) == s[i..i + |Strip(s)|]
    ensures forall k :: 0 <= k < i ==> IsWhitespace(s[k])
    ensures forall k :: i + |Strip(s)| <= k < |s| ==> IsWhitespace(s[k])
  {
    i := WhitespaceEnd(s, 0);
    var j := WhitespaceStart(s, i, |s|);
    assert Strip(s) == s[i..j];
  }

  /** Stripping deletes only whitespace. */
  lemma StripKeepsText(s: string)
    ensures DropWhitespace(Strip(s)) == DropWhitespace(s)
  {
    var i := StripSlice(s);
    var r := Strip(s);
    var pre, post := s[..i], s[i + |r|..];
    assert AllWhitespace(pre) && AllWhitespace(post);
    assert s == pre + (r + post);
    DropWhitespaceOfPadded(pre, r, post);
  }

  lemma DropWhitespaceOfPadded(pre: string, mid: string, post: string)
    requires AllWhitespace(pre) && AllWhitespace(post)
    ensures DropWhitespace(pre + (mid + post)) == DropWhitespace(mid)
  {
    DropWhitespaceAppend(pre, mid + post);
    DropWhitespaceAppend(mid, post);
    DropWhitespaceOfBlank(pre);
    DropWhitespaceOfBlank(post);
    assert DropWhitespace(mid) + "" == DropWhitespace(mid);
  }

  /** Strip undoes whitespace padding: padding a string that has no outer
      whitespace with whitespace on both sides and stripping gives it back. */
  lemma StripOfPadded(a: string, m: string, b: string)
    requires AllWhitespace(a) && AllWhitespace(b)
    requires NoOuterWhitespace(m)
    ensures Strip(a + m + b) == m
  {
    var s := a + m + b;
    PaddedLayout(a, m, b);
    var i := StripSlice(s);
    StripPaddedBounds(s, |a|, m, Strip(s), i);
  }

  /** The characters of `a + m + b`, position by position. */
  lemma PaddedLayout(a: string, m: string, b: string)
    requires AllWhitespace(a) && AllWhitespace(b)
    ensures forall k :: 0 <= k < |a| ==> IsWhitespace((a + m + b)[k])
    ensures forall k :: |a| + |m| <= k < |a + m + b| ==> IsWhitespace((a + m + b)[k])
    ensures (a + m + b)[|a|..|a| + |m|] == m
  {
    var s := a + m + b;
    forall k | |a| + |m| <= k < |s|
      ensures IsWhitespace(s[k])
    {
      assert s[k] == b[k - |a| - |m|];
    }
  }

  /** A piece with no outer whitespace and only whitespace around it is the
      one between the two whitespace stretches. */
  lemma StripPaddedBounds(s: string, p: nat, m: string, r: string, i: nat)
    requires p + |m| <= |s| && s[p..p + |m|] == m
    requires forall k :: 0 <= k < p ==> IsWhitespace(s[k])
    requires forall k :: p + |m| <= k < |s| ==> IsWhitespace(s[k])
    requires NoOuterWhitespace(m)
    requires NoOuterWhitespace(r)
    requires i + |r| <= |s| && r == s[i..i + |r|]
    requires forall k :: 0 <= k < i ==> IsWhitespace(s[k])
    requires forall k :: i + |r| <= k < |s| ==> IsWhitespace(s[k])
    ensures r == m
  {
    if |m| > 0 {
      assert s[p] == m[0] && s[p + |m| - 1] == m[|m| - 1];
      if |r| > 0 {
        assert s[i] == r[0] && s[i + |r| - 1] == r[|r| - 1];
      }
      assert i == p && i + |r| == p + |m|;
    } else {
      assert forall k :: 0 <= k < |s| ==> IsWhitespace(s[k]);
    }
  }

  /** A string that neither starts nor ends with whitespace is its own strip. */
  lemma StripOfTrimmed(m: string)
    requires NoOuterWhitespace(m)
    ensures Strip(m) == m
  {
    StripOfPadded("", m, "");
    assert "" + m + "" == m;
  }

  /** `s` starts with a character that is not whitespace. */
  predicate OpensWord(s: string) {
    |s| > 0 && !IsWhitespace(s[0])
  }

  /** Python's `s.split()` without arguments: the maximal runs of
      non-whitespace characters, in order. Read from the front, a
      non-whitespace character is prepended to the first word of the rest
      when the rest opens with one, and is a word of its own otherwise;
      `WordsSplitAtWhitespace`, `WordsOfWord` and `WordsOfBlank` give the
      usual reading. */
  function Words(s: string): (w: seq<string>)
    ensures OpensWord(s) ==> |w| > 0
    decreases |s|
  {
    if |s| == 0 then []
    else
      var rest := Words(s[1..]);
      if IsWhitespace(s[0]) then rest
      else if OpensWord(s[1..]) then [[s[0]] + rest[0]] + rest[1..]
      else [[s[0]]] + rest
  }

  /** Whitespace separates words: splitting at a whitespace character
      splits the word list there. */
  lemma {:induction false} WordsSplitAtWhitespace(a: string, c: char, b: string)
    requires IsWhitespace(c)
    ensures Words(a + [c] + b) == Words(a) + Words(b)
    decreases |a|
  {
    if |a| == 0 {
      assert a + [c] + b == [c] + b;
      assert ([c] + b)[1..] == b;
    } else {
      var t := a + [c] + b;
      assert t[1..] == a[1..] + [c] + b;
      WordsSplitAtWhitespace(a[1..], c, b);
      assert OpensWord(t[1..]) == OpensWord(a[1..]);
    }
  }

  /** A non-empty string without whitespace is one word. */
  lemma {:induction false} WordsOfWord(w: string)
    requires |w| > 0 && forall i :: 0 <= i < |w| ==> !IsWhitespace(w[i])
    ensures Words(w) == [w]
    decreases |w|
  {
    assert w == [w[0]] + w[1..];
    if |w| > 1 {
      WordsOfWord(w[1..]);
      assert OpensWord(w[1..]);
      assert Words(w) == [[w[0]] + w[1..]] + [];
    } else {
      assert w[1..] == [] && Words(w[1..]) == [];
      assert Words(w) == [[w[0]]] + [];
      assert w == [w[0]];
    }
  }

  /** Whitespace holds no words. */
  lemma {:induction false} WordsOfBlank(w: string)
    requires AllWhitespace(w)
    ensures Words(w) == []
    decreases |w|
  {
    if |w| > 0 {
      WordsOfBlank(w[1..]);
    }
  }

  /** Leading whitespace does not change the words. */
  lemma {:induction false} WordsSkipBlank(w: string, x: string)
    requires AllWhitespace(w)
    ensures Words(w + x) == Words(x)
    decreases |w|
  {
    if |w| > 0 {
      assert (w + x)[1..] == w[1..] + x;
      WordsSkipBlank(w[1..], x);
    } else {
      assert w + x == x;
    }
  }

  /** Stripping does not change the words. */
  lemma WordsOfStrip(s: string)
    ensures Words(Strip(s)) == Words(s)
  {
    var i := StripSlice(s);
    var m := Strip(s);
    var pre, post := s[..i], s[i + |m|..];
    assert s == pre + (m + post);
    WordsOfPadded(pre, m, post);
  }

  /** Whitespace around a string does not change its words. */
  lemma WordsOfPadded(pre: string, m: string, post: string)
    requires AllWhitespace(pre) && AllWhitespace(post)
    ensures Words(pre + (m + post)) == Words(m)
  {
    WordsSkipBlank(pre, m + post);
    if |post| > 0 {
      assert m + post == m + [post[0]] + post[1..];
      WordsSplitAtWhitespace(m, post[0], post[1..]);
      WordsOfBlank(post[1..]);
      assert Words(m) + [] == Words(m);
    } else {
      assert m + post == m;
    }
  }

  /** Two strings of equal length that differ only where both hold
      whitespace have the same words. */
  lemma {:induction false} WordsOfRespaced(a: string, b: string)
    requires |a| == |b|
    requires forall i :: 0 <= i < |a| ==> a[i] == b[i] || (IsWhitespace(a[i]) && IsWhitespace(b[i]))
    ensures Words(a) == Words(b)
    decreases |a|
  {
    if |a| > 0 {
      WordsOfRespaced(a[1..], b[1..]);
      assert OpensWord(a[1..]) == OpensWord(b[1..]);
    }
  }

  /** `a` can be obtained from `b` by deleting characters. */
  predicate IsSubsequence(a: string, b: string)
    decreases |b|
  {
    if |a| == 0 then true
    else if |b| == 0 then false
    else (a[0] == b[0] && IsSubsequence(a[1..], b[1..])) || IsSubsequence(a, b[1..])
  }

  lemma {:induction false} SubsequenceReflexive(a: string)
    ensures IsSubsequence(a, a)
    decreases |a|
  {
    if |a| > 0 {
      SubsequenceReflexive(a[1..]);
    }
  }

  lemma {:induction false} SubsequenceTransitive(a: string, b: string, c: string)
    requires IsSubsequence(a, b) && IsSubsequence(b, c)
    ensures IsSubsequence(a, c)
    decreases |c|
  {
    if |a| > 0 {
      assert |b| > 0 && |c| > 0;
      if IsSubsequence(b, c[1..]) {
        SubsequenceTransitive(a, b, c[1..]);
      } else {
        assert b[0] == c[0] && IsSubsequence(b[1..], c[1..]);
        if a[0] == b[0] && IsSubsequence(a[1..], b[1..]) {
          SubsequenceTransitive(a[1..], b[1..], c[1..]);
        } else {
          SubsequenceTransitive(a, b[1..], c[1..]);
        }
      }
    }
  }

  /** A contiguous piece of a string is a subsequence of it. */
  lemma {:induction false} SliceIsSubsequence(s: string, i: nat, j: nat)
    requires i <= j <= |s|
    ensures IsSubsequence(s[i..j], s)
    decreases |s|
  {
    if i == j {
    } else if i == 0 {
      assert s[i..j][1..] == s[1..][0..j - 1];
      SliceIsSubsequence(s[1..], 0, j - 1);
    } else {
      assert s[i..j] == s[1..][i - 1..j - 1];
      SliceIsSubsequence(s[1..], i - 1, j - 1);
    }
  }

  /** Stripping only deletes characters. */
  lemma StripIsSubsequence(s: string)
    ensures IsSubsequence(Strip(s), s)
  {
    var i := StripSlice(s);
    SliceIsSubsequence(s, i, i + |Strip(s)|);
  }
}
