/** The cleaning of the profiler's answer before it is decoded
    (`app/agents/profiler.py`): `strip()`, then every "```json" deleted,
    then every "```" deleted, then `json.loads` with no fallback. */
module Profiler {
  import opened Wrappers
  import opened Text
  import Json

  /** `s.replace(pat, "")`: the occurrences of `pat` found scanning left to
      right, without overlap, are deleted. */
  function DeleteAll(s: string, pat: string): (r: string)
    requires |pat| > 0
    ensures |r| <= |s|
    decreases |s|
  {
    if |s| == 0 then ""
    else if pat <= s then DeleteAll(s[|pat|..], pat)
    else [s[0]] + DeleteAll(s[1..], pat)
  }

  /** `pat` occurs in `s` starting at position `j`. */
  predicate OccursAt(s: string, pat: string, j: nat) {
    j <= |s| && pat <= s[j..]
  }

  /** The scan keeps everything before the first occurrence, deletes that
      occurrence, and carries on after it, so the occurrences it deletes
      never overlap. */
  lemma DeleteAllFirst(s: string, pat: string, i: nat)
    requires |pat| > 0 && OccursAt(s, pat, i)
    requires forall j :: 0 <= j < i ==> !OccursAt(s, pat, j)
    ensures i + |pat| <= |s|
    ensures DeleteAll(s, pat) == s[..i] + DeleteAll(s[i + |pat|..], pat)
  {
    DeleteAllFirstFrom(s, pat, 0, i);
    assert s[0..] == s && s[0..i] == s[..i];
  }

  /** `DeleteAllFirst` for the scan started at position `p`. */
  lemma {:induction false} DeleteAllFirstFrom(s: string, pat: string, p: nat, i: nat)
    requires |pat| > 0 && p <= i && OccursAt(s, pat, i)
    requires forall j :: p <= j < i ==> !OccursAt(s, pat, j)
    ensures i + |pat| <= |s|
    ensures DeleteAll(s[p..], pat) == s[p..i] + DeleteAll(s[i + |pat|..], pat)
    decreases i - p
  {
    assert |pat| <= |s[i..]|;
    if p < i {
      assert !OccursAt(s, pat, p);
      assert s[p..][1..] == s[p + 1..];
      DeleteAllFirstFrom(s, pat, p + 1, i);
      assert s[p..i] == [s[p]] + s[p + 1..i];
    } else {
      assert s[p..i] == [] && s[i..][|pat|..] == s[i + |pat|..];
    }
  }

  /** Where `pat` does not occur at the start, the first character is copied. */
  lemma DeleteAllCopiesHead(s: string, pat: string)
    requires |pat| > 0 && 0 < |s| && !OccursAt(s, pat, 0)
    ensures DeleteAll(s, pat) == [s[0]] + DeleteAll(s[1..], pat)
  {
    assert s[0..] == s;
  }

  /** A text in which `pat` does not occur is unchanged. */
  lemma {:induction false} DeleteAllAbsent(s: string, pat: string)
    requires |pat| > 0
    requires forall j :: 0 <= j <= |s| ==> !OccursAt(s, pat, j)
    ensures DeleteAll(s, pat) == s
    decreases |s|
  {
    if |s| > 0 {
      DeleteAllCopiesHead(s, pat);
      forall j | 0 <= j <= |s| - 1
        ensures !OccursAt(s[1..], pat, j)
      {
        assert s[1..][j..] == s[j + 1..];
        assert !OccursAt(s, pat, j + 1);
      }
      DeleteAllAbsent(s[1..], pat);
      assert s == [s[0]] + s[1..];
    }
  }

  /** Deleting only removes characters: the result is a subsequence. */
  lemma {:induction false} DeleteAllSubsequence(s: string, pat: string)
    requires |pat| > 0
    ensures IsSubsequence(DeleteAll(s, pat), s)
    decreases |s|
  {
    if |s| > 0 {
      if pat <= s {
        DeleteAllSubsequence(s[|pat|..], pat);
        SliceIsSubsequence(s, |pat|, |s|);
        assert s[|pat|..] == s[|pat|..|s|];
        SubsequenceTransitive(DeleteAll(s, pat), s[|pat|..], s);
      } else {
        DeleteAllSubsequence(s[1..], pat);
        var r := DeleteAll(s, pat);
        assert r[1..] == DeleteAll(s[1..], pat);
      }
    }
  }

  /** A prefix that does not contain the first character of the pattern is
      copied unchanged. */
  lemma {:induction false} DeleteAllSkipsPrefix(a: string, b: string, pat: string)
    requires |pat| > 0 && pat[0] !in a
    ensures DeleteAll(a + b, pat) == a + DeleteAll(b, pat)
    decreases |a|
  {
    if |a| > 0 {
      assert (a + b)[0] == a[0];
      assert !(pat <= a + b);
      assert (a + b)[1..] == a[1..] + b;
      DeleteAllSkipsPrefix(a[1..], b, pat);
    } else {
      assert a + b == b;
    }
  }

  /** A text without the first character of the pattern is unchanged. */
  lemma DeleteAllWithout(s: string, pat: string)
    requires |pat| > 0 && pat[0] !in s
    ensures DeleteAll(s, pat) == s
  {
    DeleteAllSkipsPrefix(s, "", pat);
    assert s + "" == s;
  }

  /** `s` starts with two backticks. */
  predicate OpensWithTwoBackticks(s: string) {
    |s| >= 2 && s[0] == '`' && s[1] == '`'
  }

  lemma NoTripleBacktickCons(c: char, r: string)
    requires NoTripleBacktick(r)
    requires c == '`' ==> !OpensWithTwoBackticks(r)
    ensures NoTripleBacktick([c] + r)
  {
    var s := [c] + r;
    forall i: nat | i < |s|
      ensures !TripleBacktickAt(s, i)
    {
      if 0 < i && i + 2 < |s| {
        assert s[i] == r[i - 1] && s[i + 1] == r[i] && s[i + 2] == r[i + 1];
        assert !TripleBacktickAt(r, i - 1);
      }
    }
  }

  /** Deleting "```" cannot make a text start with two backticks. */
  lemma DeleteTriplesKeepsHead(t: string)
    requires !OpensWithTwoBackticks(t)
    ensures !OpensWithTwoBackticks(DeleteAll(t, "```"))
  {
    if |t| > 0 {
      assert !("```" <= t);
      if t[0] == '`' && |t| > 1 {
        assert !("```" <= t[1..]);
      }
    }
  }

  /** After `replace("```", "")` no "```" is left: the deletions cannot join
      two runs of backticks, because only backticks are deleted. */
  lemma {:induction false} DeleteTriplesNoTriple(s: string)
    ensures NoTripleBacktick(DeleteAll(s, "```"))
    decreases |s|
  {
    if |s| > 0 {
      if "```" <= s {
        DeleteTriplesNoTriple(s[3..]);
      } else {
        var rest := DeleteAll(s[1..], "```");
        DeleteTriplesNoTriple(s[1..]);
        if s[0] == '`' {
          assert !OpensWithTwoBackticks(s[1..]);
          DeleteTriplesKeepsHead(s[1..]);
        }
        NoTripleBacktickCons(s[0], rest);
      }
    }
  }

  /** The cleaning expression: strip the answer, delete every "```json",
      then delete every "```". The result has no "```" left and keeps
      characters of the stripped answer in order. */
  function CleanProfilerResponse(response: string): (r: string)
    ensures NoTripleBacktick(r)
    ensures IsSubsequence(r, Strip(response))
  {
    var t := Strip(response);
    var u := DeleteAll(t, "```json");
    DeleteTriplesNoTriple(u);
    DeleteAllSubsequence(t, "```json");
    DeleteAllSubsequence(u, "```");
    SubsequenceTransitive(DeleteAll(u, "```"), u, t);
    DeleteAll(u, "```")
  }

  /** An answer without backticks is only stripped. */
  lemma CleanWithoutBackticks(response: string)
    requires '`' !in response
    ensures CleanProfilerResponse(response) == Strip(response)
  {
    CleanKeepsShortBacktickRuns(response);
  }

  /** An occurrence of a pattern that opens with three backticks puts
      three backticks in the text. */
  lemma OccurrenceOfTriple(t: string, pat: string, j: nat)
    requires |pat| >= 3 && pat[0] == '`' && pat[1] == '`' && pat[2] == '`'
    ensures OccursAt(t, pat, j) ==> TripleBacktickAt(t, j)
  {
    if OccursAt(t, pat, j) {
      assert t[j..][0] == '`' && t[j..][1] == '`' && t[j..][2] == '`';
    }
  }

  /** A pattern opening with three backticks occurs nowhere in a text
      without three adjacent backticks. */
  lemma NoTripleNoOccurrence(t: string, pat: string)
    requires NoTripleBacktick(t)
    requires |pat| >= 3 && pat[0] == '`' && pat[1] == '`' && pat[2] == '`'
    ensures forall j :: 0 <= j <= |t| ==> !OccursAt(t, pat, j)
  {
    forall j | 0 <= j <= |t|
      ensures !OccursAt(t, pat, j)
    {
      OccurrenceOfTriple(t, pat, j);
    }
  }

  /** A contiguous piece of a text without "```" has none either. */
  lemma NoTripleInSlice(s: string, i: nat, j: nat)
    requires i <= j <= |s| && NoTripleBacktick(s)
    ensures NoTripleBacktick(s[i..j])
  {
    var t := s[i..j];
    forall k: nat | k < |t|
      ensures !TripleBacktickAt(t, k)
    {
      if k + 2 < |t| {
        assert t[k] == s[i + k] && t[k + 1] == s[i + k + 1] && t[k + 2] == s[i + k + 2];
        assert !TripleBacktickAt(s, i + k);
      }
    }
  }

  /** Backticks that do not form "```" survive the cleaning: an answer
      without three adjacent backticks (say, with an inline `git`) is only
      stripped. */
  lemma CleanKeepsShortBacktickRuns(response: string)
    requires NoTripleBacktick(response)
    ensures CleanProfilerResponse(response) == Strip(response)
  {
    var t := Strip(response);
    var i := StripSlice(response);
    NoTripleInSlice(response, i, i + |t|);
    NoTripleNoOccurrence(t, "```json");
    DeleteAllAbsent(t, "```json");
    NoTripleNoOccurrence(t, "```");
    DeleteAllAbsent(t, "```");
  }

  /** In a text ending in a newline and without "```", followed by "```",
      no three backticks start before the final ones. */
  lemma NoTripleBeforeEnd(body: string)
    requires NoTripleBacktick(body) && |body| > 0 && body[|body| - 1] == '\n'
    ensures forall j :: 0 <= j < |body| ==> !TripleBacktickAt(body + "```", j)
  {
    var t := body + "```";
    forall j | 0 <= j < |body|
      ensures !TripleBacktickAt(t, j)
    {
      if j + 2 < |body| {
        assert body[j] == t[j] && body[j + 1] == t[j + 1] && body[j + 2] == t[j + 2];
        assert !TripleBacktickAt(body, j);
      } else {
        assert t[|body| - 1] == '\n';
      }
    }
  }

  /** Wrapping a text in newlines keeps it free of "```". */
  lemma NoTripleBetweenNewlines(x: string)
    requires NoTripleBacktick(x)
    ensures NoTripleBacktick("\n" + x + "\n")
  {
    var b := "\n" + x + "\n";
    forall k: nat | k < |b|
      ensures !TripleBacktickAt(b, k)
    {
      if 1 <= k && k + 2 <= |x| {
        assert b[k] == x[k - 1] && b[k + 1] == x[k] && b[k + 2] == x[k + 1];
        assert !TripleBacktickAt(x, k - 1);
      }
    }
  }

  /** Such a text followed by "```" loses only the final "```". */
  lemma DeleteClosingTriple(body: string)
    requires NoTripleBacktick(body) && |body| > 0 && body[|body| - 1] == '\n'
    ensures DeleteAll(body + "```", "```json") == body + "```"
    ensures DeleteAll(body + "```", "```") == body
  {
    var t := body + "```";
    NoTripleBeforeEnd(body);
    forall j | 0 <= j <= |t|
      ensures !OccursAt(t, "```json", j)
    {
      OccurrenceOfTriple(t, "```json", j);
    }
    DeleteAllAbsent(t, "```json");
    forall j | 0 <= j < |body|
      ensures !OccursAt(t, "```", j)
    {
      OccurrenceOfTriple(t, "```", j);
    }
    assert t[|body|..] == "```";
    DeleteAllFirst(t, "```", |body|);
    assert t[..|body|] == body && t[|body| + 3..] == "";
    assert body + "" == body;
  }

  /** A fenced answer "```json\n" + x + "\n```" loses only the fences: the
      newlines inside them survive, because `strip()` runs before the
      replacements, and so do backticks in `x` that do not form "```". */
  lemma CleanFencedJson(x: string)
    requires NoTripleBacktick(x)
    ensures CleanProfilerResponse("```json\n" + x + "\n```") == "\n" + x + "\n"
  {
    var s := "```json\n" + x + "\n```";
    var body := "\n" + x + "\n";
    assert s[0] == '`' && s[|s| - 1] == '`';
    StripOfTrimmed(s);
    FencedOpeningDeleted(body, s);
    NoTripleBetweenNewlines(x);
    DeleteClosingTriple(body);
  }

  /** The leading "```json" is the first occurrence and goes. */
  lemma FencedOpeningDeleted(body: string, s: string)
    requires s == "```json" + (body + "```")
    ensures DeleteAll(s, "```json") == DeleteAll(body + "```", "```json")
  {
    assert s[0..] == s;
    assert OccursAt(s, "```json", 0);
    DeleteAllFirst(s, "```json", 0);
    assert s[..0] == "" && s[7..] == body + "```";
  }

  /** `create_search_brief`: `response` is the language model's answer and
      `decode` stands for `json.loads` (None where it raises). There is no
      fallback record: a decoding failure is raised to the caller. */
  function CreateSearchBrief(response: string, decode: string -> Option<Json.Value>)
    : (r: Result<Json.Value, Json.DecodeFailure>)
    ensures r.Err? <==> decode(CleanProfilerResponse(response)).None?
    ensures r.Ok? ==> r.value == decode(CleanProfilerResponse(response)).value
  {
    match decode(CleanProfilerResponse(response))
    case Some(v) => Ok(v)
    case None => Err(Json.JsonDecodeError)
  }
}
