# Resume analyzer: text cleanup, fence stripping and the research executor

This project models the three pieces of deterministic logic in the resume
analyzer and proves properties about them in Dafny:

- **Resume text cleanup** (`app/core/resume_parser.py`). `preprocess_text` is
  modelled as four string transforms: collapsing runs of spaces, collapsing
  blank lines, joining broken lines, and `strip()`. The fence substitution and
  the error fallback of `parse_text_to_json` are modelled too. Each `re.sub`
  is written as a left-to-right scanner, as Python's `re` module runs it: a
  match is replaced and the scan resumes after it, otherwise one character is
  copied. So no substitution overlaps its own matches: each one resumes
  after the text it has just replaced.
- **Profiler answer cleaning** (`app/agents/profiler.py`). This is
  `strip()`, then deleting every "```json", then deleting every "```", then
  decoding with no fallback.
- **Research executor** (`app/agents/perplexica_researcher.py`). It covers the
  bounded retry loop for one query and the section each query writes. It also
  covers the index-keyed results map, the ordered join into the market brief,
  the configuration check in the constructor, and the error heading returned
  by `run_perplexica_research`.

One predicate, `Text.IsWhitespace`, is CPython's `str.isspace()` table. CPython
uses that table for `\s` in a `str` pattern and for argument-less `strip()`.

Two abstractions state what the cleanup keeps. `Text.Words` is
`str.split()`: the maximal runs of non-whitespace characters. The outline of
a text (`ResumeParser.Outline`) replaces every whitespace run by one
character: a newline if the run holds a newline, and a space otherwise. Two
texts with the same outline have the same words with the same kind of gap,
line break or not, between each pair.

Things outside the program become parameters:

- The language model's answer is a `response` string.
- `json.loads` is a partial function `decode: string -> Option<Value>`.
- The outcome of the `a`-th request for query `i` is `outcomes(i)(a)`. It is
  an answer (with or without a "response" key), a `RequestException`, or any
  other exception.
- The thread pool is the order in which the queries take the lock to write.
  This is any permutation of the query indices.
- The process environment is a map from variable names to values.

The retry loop catches only `RequestException`. Any other exception (for
example `AttributeError` when the reply's JSON is not an object) escapes
`_search_single_query_with_retries`. The exception stays in that query's
future, which nothing inspects. The query writes nothing, so it contributes
the empty string to the brief, and the other queries are unaffected.

## Model

| member | source | states |
|---|---|---|
| ResumeParser.PreprocessText | app/core/resume_parser.py:26-53 | Empty text comes back empty. Otherwise the result has no two adjacent spaces and no newline followed by only whitespace and another newline. It has no leading or trailing whitespace. Deleting all whitespace from input and result gives the same string. The result has the same words as the text, in the sense of `str.split()`. Between two words it keeps the kind of gap the text had there, a line break or none, except that a line break between `[a-zA-Z,]` and `[a-zA-Z]` may have become a space. |
| ResumeParser.CleanupKeepsLayout | app/core/resume_parser.py:36-48 | The four steps together keep the words, and they keep the outline of the stripped text up to joined line breaks: every whitespace run of the result has a newline exactly when the corresponding run of the text has one, unless it is a joined line break. |
| ResumeParser.PreprocessIsNotIdempotent | app/core/resume_parser.py:38-48 | "a\nb\nc" cleans to "a b\nc", and cleaning that again gives "a b c", so the cleanup is not idempotent. |
| ResumeParser.SpaceRun | app/core/resume_parser.py:38 | The extent of a ` +` match: the longest run of spaces the text starts with. |
| ResumeParser.CollapseSpaces | app/core/resume_parser.py:38 | `re.sub(" +", " ")`: afterwards no two spaces are adjacent, and the first character is kept. |
| ResumeParser.CollapseSpacesFixpoint | app/core/resume_parser.py:38 | A text without adjacent spaces is left unchanged by step 1. |
| ResumeParser.CollapseSpacesKeepsText | app/core/resume_parser.py:38 | Step 1 removes only whitespace: the non-whitespace characters are the same, in order. |
| ResumeParser.CollapseSpacesDeletesRepeats | app/core/resume_parser.py:38 | Step 1 equals the position-wise reference `WithoutRepeatedSpaces`: exactly the spaces that directly follow a space are deleted, and every other character, tabs and newlines included, stays in order. |
| ResumeParser.CollapseSpacesFrom | app/core/resume_parser.py:38 | From any position that is not a repeated space, the scan of step 1 yields the reference for the rest of the text. |
| ResumeParser.CollapseSpacesKeepsOutline | app/core/resume_parser.py:38 | Step 1 leaves the outline unchanged: every whitespace run still holds a newline exactly when it did before, and every other character stays. |
| ResumeParser.BlankSpan | app/core/resume_parser.py:41 | The extent of `\s*\n` after a newline, under greedy matching with backtracking. It is positive exactly when the text opens with whitespace ending in a newline. The span is all whitespace, ends in a newline, and is the longest such prefix. |
| ResumeParser.CollapseBlankLines | app/core/resume_parser.py:41 | `re.sub(r"\n\s*\n", "\n")`: afterwards `\n\s*\n` matches nowhere, in particular there is no "\n\n". The first character is kept, and the result opens with whitespace ending in a newline exactly when the input does. |
| ResumeParser.CollapseBlankLinesNoDoubleSpace | app/core/resume_parser.py:38-41 | Step 2 cannot bring two spaces together, so step 1's guarantee survives it. |
| ResumeParser.CollapseBlankLinesKeepsText | app/core/resume_parser.py:41 | Step 2 removes only whitespace. |
| ResumeParser.CollapseBlankLinesFixpoint | app/core/resume_parser.py:41 | A text without blank lines is left unchanged by step 2. |
| ResumeParser.CollapseBlankLinesMergesBreaks | app/core/resume_parser.py:41 | Step 2 equals the position-wise reference `WithoutMergedBreaks`. A whitespace run with two or more newlines keeps the whitespace before its first newline, that newline, and the whitespace after its last newline; everything else in the run is deleted. All other characters stay in order. |
| ResumeParser.CollapseBlankLinesFrom | app/core/resume_parser.py:41 | From any position that is not inside a match, the scan of step 2 yields the reference for the rest of the text. |
| ResumeParser.CollapseBlankLinesKeepsOutline | app/core/resume_parser.py:41 | Step 2 leaves the outline unchanged: a whitespace run with a newline still has one. |
| ResumeParser.JoinFrom | app/core/resume_parser.py:45 | The scan keeps the length. From a position outside any match, the scan of `([a-zA-Z,])\n([a-zA-Z])` turns into a space exactly the newlines that `Joined` selects, and copies every other character. `Joined` is the non-overlapping reference: a joinable newline is skipped when its left letter was the right side of the previous match. |
| ResumeParser.JoinBrokenLines | app/core/resume_parser.py:45 | Step 3 keeps the length. The newlines `Joined` selects become spaces and every other character is unchanged. |
| ResumeParser.JoinIsNotOverlapping | app/core/resume_parser.py:45 | The matches do not overlap: "a\nb\nc" becomes "a b\nc". |
| ResumeParser.JoinFromKeepsOutline | app/core/resume_parser.py:45 | Read on outlines, step 3 turns into spaces only newlines that stand between `[a-zA-Z,]` and `[a-zA-Z]`, and keeps every other position of the outline. |
| ResumeParser.JoinBrokenLinesPreserves | app/core/resume_parser.py:45 | Step 3 keeps a text free of blank lines and of adjacent spaces, and replaces only whitespace by whitespace. |
| ResumeParser.StripPreserves | app/core/resume_parser.py:48 | `strip()` keeps a text free of blank lines and of adjacent spaces. |
| Text.IsWhitespace | app/core/resume_parser.py:41 | CPython's `str.isspace()` table, which `\s` and argument-less `strip()` share. |
| Text.WhitespaceTable | app/core/resume_parser.py:41 | The ASCII whitespace is the six characters of `string.whitespace` plus the separators 0x1C-0x1F. The no-break space is whitespace and the zero-width space is not. |
| Text.Strip | app/core/resume_parser.py:48 | `strip()`: the result neither starts nor ends with whitespace. |
| Text.StripSlice | app/core/resume_parser.py:48 | The stripped text is a contiguous piece of the input with only whitespace before and after it. |
| Text.StripKeepsText | app/core/resume_parser.py:48 | Stripping deletes only whitespace. |
| Text.WordsSplitAtWhitespace | app/core/resume_parser.py:36-48 | `Words`, the model of `str.split()`, splits at every whitespace character: the words of `a + [c] + b` are the words of `a` followed by those of `b`. |
| Text.WordsOfStrip | app/core/resume_parser.py:48 | `strip()` keeps the words. |
| ResumeParser.OutlineOfStrip | app/core/resume_parser.py:48 | Stripping and taking the outline commute. |
| Text.WordsOfRespaced | app/core/resume_parser.py:36-48 | Two texts of the same length that differ only by one whitespace character for another have the same words. |
| Text.StripOfPadded | app/core/resume_parser.py:82 | Stripping a string with no outer whitespace, padded with whitespace on both sides, gives the string back. |
| ResumeParser.FenceMatch | app/core/resume_parser.py:80-81 | A match of the MULTILINE fence pattern (alternatives `^```json\s*` and `\s*```$`) at a position consumes at least one character and ends inside the text, so the substitution's scan always moves forward. |
| ResumeParser.RemoveFencesFrom | app/core/resume_parser.py:80-81 | The fence substitution's scan from a position: a match is deleted and the scan resumes after it, otherwise one character is copied. The result is never longer than the rest of the text. |
| ResumeParser.RemoveFencesSubsequence | app/core/resume_parser.py:80-81 | The fence substitution only deletes characters: its result is a subsequence of the answer. |
| ResumeParser.CleanJsonResponse | app/core/resume_parser.py:80-82 | The cleaned answer is a subsequence of the raw answer and has no outer whitespace. |
| ResumeParser.CleanKeepsShortBacktickRuns | app/core/resume_parser.py:80-82 | An answer without three adjacent backticks, with an inline `` `git` `` say, is only stripped: neither alternative of the fence pattern can match without a "```", so such backticks survive. |
| ResumeParser.CleanWithoutBackticks | app/core/resume_parser.py:80-82 | An answer with no backtick at all is only stripped; the special case of the row above. |
| ResumeParser.CleanFencedBody | app/core/resume_parser.py:79-82 | "```json\n" + body + "\n```", for a body with no three adjacent backticks, cleans to the stripped body. Shorter runs of backticks inside the body stay. |
| ResumeParser.RemoveClosingFence | app/core/resume_parser.py:80-81 | Whitespace followed by a closing "```" at the end of the text is deleted entirely by the right alternative. |
| ResumeParser.OpeningFence | app/core/resume_parser.py:80-81 | A "```json" at the start of the text is deleted together with the whitespace run that follows it, which may be empty. |
| ResumeParser.ParseFailure | app/core/resume_parser.py:87 | The fallback record has exactly the keys "error" and "raw_text". "error" is "Failed to parse resume" and "raw_text" is the unmodified resume text. |
| ResumeParser.ParseTextToJson | app/core/resume_parser.py:78-87 | A cleaned answer that decodes is returned as decoded. One that does not yields the fallback record, which carries the resume text unchanged. |
| Profiler.DeleteAll | app/agents/profiler.py:21 | `replace(pat, "")` as a left-to-right scan. The result is never longer than the text. |
| Profiler.DeleteAllFirst | app/agents/profiler.py:21 | Where `pat` first occurs at `i`, the result is `s[..i]` followed by the result for the text after that occurrence. So the text before the first occurrence survives, and the occurrences deleted never overlap. |
| Profiler.DeleteAllFirstFrom | app/agents/profiler.py:21 | The same for the scan started at position `p`: if `pat` occurs nowhere in `[p, i)` and occurs at `i`, the scan of `s[p..]` keeps `s[p..i]`, deletes the occurrence, and goes on after it. |
| Profiler.DeleteAllAbsent | app/agents/profiler.py:21 | A text in which `pat` occurs nowhere is unchanged. |
| Profiler.DeleteAllSubsequence | app/agents/profiler.py:21 | `replace(pat, "")` only deletes characters. |
| Profiler.DeleteAllWithout | app/agents/profiler.py:21 | `replace(pat, "")` leaves a text unchanged when the text lacks the pattern's first character. |
| Profiler.DeleteTriplesNoTriple | app/agents/profiler.py:21 | After `replace("```", "")` no three backticks are adjacent. |
| Profiler.CleanProfilerResponse | app/agents/profiler.py:21 | The cleaned answer contains no "```" and is a subsequence of the stripped answer. |
| Profiler.CleanWithoutBackticks | app/agents/profiler.py:21 | An answer with no backtick at all comes out exactly as its `strip()`; the special case of the row below. |
| Profiler.CleanKeepsShortBacktickRuns | app/agents/profiler.py:21 | An answer without three adjacent backticks, with an inline `` `git` `` say, comes out exactly as its `strip()`: such backticks survive. |
| Profiler.CleanFencedJson | app/agents/profiler.py:21 | For an `x` with no three adjacent backticks, "```json\n" + x + "\n```" becomes "\n" + x + "\n". The inner newlines survive because `strip()` runs before the replacements. |
| Profiler.CreateSearchBrief | app/agents/profiler.py:21-22 | The result is an error exactly when the cleaned answer does not decode, with no fallback value. Otherwise it is the decoded value. |
| PerplexicaResearcher.Entry | app/agents/perplexica_researcher.py:73 | A query's section is 19 characters longer than the query and body together, and starts with "## Query: " + the query. |
| PerplexicaResearcher.EntryReadsBack | app/agents/perplexica_researcher.py:73 | The query, the body and the closing "\n\n---\n\n" sit at fixed positions of a section, so query and body can be read back. |
| PerplexicaResearcher.AttemptFrom | app/agents/perplexica_researcher.py:60-87 | From attempt `a` on, the loop sends at most `MAX_RETRIES - a` requests, with one sleep fewer than requests. It makes at most one write, and it writes exactly when it does not raise. |
| PerplexicaResearcher.SearchWithRetries | app/agents/perplexica_researcher.py:39-87 | One query sends between 1 and `MAX_RETRIES` requests and sleeps once between consecutive requests. It leaves a section in the map exactly when it does not raise. |
| PerplexicaResearcher.RetriesStopAtFirstSettled | app/agents/perplexica_researcher.py:60-82 | The loop stops at the first attempt `k` that is not a `RequestException`. It has then sent `k + 1` requests and slept `k` times. An answer writes "## Query: q\n\n" + answer + "\n\n---\n\n", with "No answer found." when the reply has no "response" key. Any other exception writes nothing and raises. |
| PerplexicaResearcher.RetriesExhausted | app/agents/perplexica_researcher.py:77-87 | When every attempt raises `RequestException`, all `MAX_RETRIES` requests are sent and `MAX_RETRIES - 1` sleeps separate them. The fixed "Error: Could not retrieve information…" section is written once. |
| PerplexicaResearcher.SettledOrExhausted | app/agents/perplexica_researcher.py:60-87 | Every run falls under one of the two lemmas above. |
| PerplexicaResearcher.ConfigFromEnv | app/agents/perplexica_researcher.py:13-15 | A setting is empty exactly when its variable is set to the empty string. An unset variable takes its default: "openai", "gpt-4o" or "text-embedding-3-small". |
| PerplexicaResearcher.NewResearcher | app/agents/perplexica_researcher.py:30-37 | The constructor succeeds exactly when all three settings are non-empty. On success it keeps the configuration and starts with an empty results map. On failure the message is "Missing Perplexica model configuration…". |
| PerplexicaResearcher.ConfigRejectedIffSetEmpty | app/agents/perplexica_researcher.py:13-37 | The constructor fails exactly when one of the three environment variables is set to the empty string. An unset variable takes its non-empty default. |
| PerplexicaResearcher.Contribution | app/agents/perplexica_researcher.py:103-105 | A query contributes the empty string exactly when its run raised. Otherwise it contributes a section headed "## Query: " + the query. |
| PerplexicaResearcher.WriteSections | app/agents/perplexica_researcher.py:93-101 | Whatever the completion order, the map ends up holding, under its index, the section of every query that wrote one, and nothing else. |
| PerplexicaResearcher.JoinSections | app/agents/perplexica_researcher.py:103-105 | Joining the map's entries for indices `0 .. n - 1` gives the sections in list order. |
| PerplexicaResearcher.FetchMarketIntelligence | app/agents/perplexica_researcher.py:89-106 | The map is reset, so earlier results play no part. The brief is the same for every completion order: the contributions of the queries in list order. An empty query list gives "". |
| PerplexicaResearcher.RunPerplexicaResearch | app/agents/perplexica_researcher.py:109-115 | An incomplete configuration yields "## Error: " + the constructor's message. Otherwise the result is the ordered brief. |
| PerplexicaResearcher.DuplicateQueriesKeepBothEntries | app/agents/perplexica_researcher.py:97-105 | The same query listed twice gets two sections, one per index, in list order. |
| PerplexicaResearcher.CrashContributesNothing | app/agents/perplexica_researcher.py:71-76 | A query whose settling attempt raises an exception other than `RequestException` contributes nothing to the brief. |

## Left out

- `parse_pdf_to_text` (PyMuPDF) is not part of this model: it is a foreign library call.
- The language model calls (`get_gemini_response`) and the prompt texts are left out. Their answer is a parameter.
- `json.loads` is an uninterpreted partial function. JSON syntax is not modelled.
- The HTTP request is left out: URL, payload, headers, the 90-second timeout and `raise_for_status`. Its effect is one of the three outcomes of an attempt.
- `ThreadPoolExecutor`, `MAX_CONCURRENT_QUERIES`, `concurrent.futures.wait` and the `Lock` become a completion order. Writes under the lock are modelled as serialized map updates.
- `time.sleep(RETRY_DELAY_SECONDS)` is counted, not timed: the model records how many sleeps happen, not for how long.
- All `print` output is left out, including the truncated `query[:60]` in the progress line.
- The "response" value of a reply is modelled as a string. The source formats any JSON value into the section with `str()`.
- A reply whose JSON is not an object makes `data.get` raise `AttributeError`. It is modelled as the "other exception" outcome; the model does not distinguish it from any other such exception.
- `load_dotenv()` is left out. The environment map is the one seen after it has run.
- The module-level settings are read once at import. The model reads them when the researcher is built, which gives the same values within one process.
- The HTTP endpoints, the orchestrator, the web researcher, the knowledge base, the RAG pipeline, the synthesizer and the seed data are outside this model. They are glue around external services.
