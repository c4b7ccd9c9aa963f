/** The research executor (`app/agents/perplexica_researcher.py`): every
    search query is sent to the search service with a bounded number of
    retries, the section each query yields is stored under the query's index
    in a shared map, and the brief is the concatenation of those sections in
    index order.

    The network is replaced by an outcome per attempt, the thread pool by the
    order in which the queries complete, and the process environment by a
    map from variable names to values. */
module PerplexicaResearcher {
  import opened Wrappers

  /** `MAX_RETRIES`: how many times one query is sent at most. */
  const MaxRetries: nat := 2

  /** The answer recorded when the service's reply has no "response" key. */
  const NoAnswer: string := "No answer found."

  /** The body of the section written when every attempt failed. */
  const RetrievalFailure: string :=
    "Error: Could not retrieve information. Check Perplexica server logs."

  /** The message of the `ValueError` raised for an incomplete configuration. */
  const MissingConfigMessage: string :=
    "Missing Perplexica model configuration in .env file (e.g., PERPLEXICA_PROVIDER)."

  /** The section of the brief that belongs to one query: a heading naming
      the query, a blank line, the body, and a horizontal rule. It is never
      empty, and `EntryReadsBack` shows the query and the body can be read
      back from their fixed positions. */
  function Entry(query: string, body: string): (r: string)
    ensures |r| == |query| + |body| + 19
    ensures "## Query: " + query <= r
  {
    "## Query: " + query + "\n\n" + body + "\n\n---\n\n"
  }

  /** The query, the body and the closing rule sit at fixed positions of a
      section, so both can be read back from it. */
  lemma EntryReadsBack(query: string, body: string)
    ensures var r := Entry(query, body);
      && r[10..10 + |query|] == query
      && r[12 + |query|..|r| - 7] == body
      && r[|r| - 7..] == "\n\n---\n\n"
  {
  }

  // ---------------------------------------------------------------------
  // One query: the retry loop
  // ---------------------------------------------------------------------

  /** What one `requests.post` attempt ended with. */
  datatype Attempt =
      /** A reply with a JSON object; `response` is its "response" key, if any. */
    | Answered(response: Option<string>)
      /** A `RequestException`: connection error, timeout, error status, bad JSON. */
    | RequestFailed
      /** Any other exception; it leaves the task and is never looked at. */
    | Crashed

  /** What running one query did: the values it wrote under its index (in
      order), how many requests it sent, how many times it slept, and whether
      it ended with an exception. */
  datatype QueryRun = QueryRun(writes: seq<string>, attempts: nat, sleeps: nat, raised: bool)
  {
    /** What is left in the results map under the query's index: the last write. */
    function Written(): Option<string> {
      if |writes| == 0 then None else Some(writes[|writes| - 1])
    }
  }

  /** The retry loop from iteration `attempt` on, where `outcome(a)` is how
      attempt `a` ends. An answer writes the section and returns; a request
      failure sleeps unless it was the last attempt, where it writes the
      failure section instead; any other exception ends the run without a
      write. */
  function AttemptFrom(query: string, outcome: nat -> Attempt, attempt: nat): (run: QueryRun)
    requires attempt <= MaxRetries
    ensures run.attempts <= MaxRetries - attempt
    ensures run.attempts == 0 ==> run.writes == [] && run.sleeps == 0 && !run.raised
    ensures attempt < MaxRetries ==> 1 <= run.attempts && run.sleeps == run.attempts - 1
    ensures |run.writes| <= 1 && (attempt < MaxRetries ==> (|run.writes| == 0 <==> run.raised))
    decreases MaxRetries - attempt
  {
    if attempt == MaxRetries then QueryRun([], 0, 0, false)
    else
      match outcome(attempt)
      case Answered(response) => QueryRun([Entry(query, response.GetOr(NoAnswer))], 1, 0, false)
      case Crashed => QueryRun([], 1, 0, true)
      case RequestFailed =>
        var rest := AttemptFrom(query, outcome, attempt + 1);
        if attempt < MaxRetries - 1 then
          rest.(attempts := rest.attempts + 1, sleeps := rest.sleeps + 1)
        else
          rest.(writes := [Entry(query, RetrievalFailure)] + rest.writes, attempts := rest.attempts + 1)
  }

  /** `_search_single_query_with_retries`: at least one and at most
      `MaxRetries` requests, one sleep between consecutive requests, at most
      one write, and a write exactly when the run does not raise. */
  function SearchWithRetries(query: string, outcome: nat -> Attempt): (run: QueryRun)
    ensures 1 <= run.attempts <= MaxRetries && run.sleeps == run.attempts - 1
    ensures |run.writes| <= 1
    ensures run.Written().None? <==> run.raised
  {
    AttemptFrom(query, outcome, 0)
  }

  /** Attempt `k` is the first one that does not fail with a request error. */
  predicate SettlesAt(outcome: nat -> Attempt, k: nat) {
    && k < MaxRetries
    && !outcome(k).RequestFailed?
    && forall j :: 0 <= j < k ==> outcome(j).RequestFailed?
  }

  /** Every attempt fails with a request error. */
  predicate AllFailed(outcome: nat -> Attempt) {
    forall j :: 0 <= j < MaxRetries ==> outcome(j).RequestFailed?
  }

  /** The section an attempt that settles the run writes, if it writes one. */
  function SettledWrites(query: string, a: Attempt): seq<string> {
    match a
    case Answered(response) => [Entry(query, response.GetOr(NoAnswer))]
    case _ => []
  }

  lemma {:induction false} AttemptFromSettles(query: string, outcome: nat -> Attempt, attempt: nat, k: nat)
    requires attempt <= k < MaxRetries
    requires forall j :: attempt <= j < k ==> outcome(j).RequestFailed?
    requires !outcome(k).RequestFailed?
    ensures AttemptFrom(query, outcome, attempt).attempts == k - attempt + 1
    ensures AttemptFrom(query, outcome, attempt).sleeps == k - attempt
    ensures AttemptFrom(query, outcome, attempt).raised == outcome(k).Crashed?
    ensures AttemptFrom(query, outcome, attempt).writes == SettledWrites(query, outcome(k))
    decreases k - attempt
  {
    if attempt < k {
      AttemptFromSettles(query, outcome, attempt + 1, k);
    }
  }

  lemma {:induction false} AttemptFromExhausted(query: string, outcome: nat -> Attempt, attempt: nat)
    requires attempt < MaxRetries
    requires forall j :: attempt <= j < MaxRetries ==> outcome(j).RequestFailed?
    ensures AttemptFrom(query, outcome, attempt)
         == QueryRun([Entry(query, RetrievalFailure)], MaxRetries - attempt, MaxRetries - attempt - 1, false)
    decreases MaxRetries - attempt
  {
    if attempt < MaxRetries - 1 {
      AttemptFromExhausted(query, outcome, attempt + 1);
    }
  }

  /** The loop stops at the first attempt that does not fail with a request
      error: success on attempt `k` (counting from 0) costs `k + 1` requests
      and `k` sleeps and writes the answer's section (defaulting to
      `NoAnswer`); another exception there writes nothing and raises. */
  lemma RetriesStopAtFirstSettled(query: string, outcome: nat -> Attempt, k: nat)
    requires SettlesAt(outcome, k)
    ensures SearchWithRetries(query, outcome).attempts == k + 1
    ensures SearchWithRetries(query, outcome).sleeps == k
    ensures SearchWithRetries(query, outcome).raised == outcome(k).Crashed?
    ensures SearchWithRetries(query, outcome).writes == SettledWrites(query, outcome(k))
  {
    AttemptFromSettles(query, outcome, 0, k);
  }

  /** When every attempt fails with a request error, all `MaxRetries`
      requests are sent, `MaxRetries - 1` sleeps separate them, and the
      failure section is written once. */
  lemma RetriesExhausted(query: string, outcome: nat -> Attempt)
    requires AllFailed(outcome)
    ensures SearchWithRetries(query, outcome)
         == QueryRun([Entry(query, RetrievalFailure)], MaxRetries, MaxRetries - 1, false)
  {
    AttemptFromExhausted(query, outcome, 0);
  }

  /** The two lemmas above cover every run: either all attempts fail with
      request errors, or there is a first attempt that does not. */
  lemma SettledOrExhausted(outcome: nat -> Attempt)
    ensures AllFailed(outcome) || exists k :: SettlesAt(outcome, k)
  {
    var k := 0;
    while k < MaxRetries && outcome(k).RequestFailed?
      invariant k <= MaxRetries
      invariant forall j :: 0 <= j < k ==> outcome(j).RequestFailed?
    {
      k := k + 1;
    }
    if k < MaxRetries {
      assert SettlesAt(outcome, k);
    }
  }

  // ---------------------------------------------------------------------
  // Configuration and the agent
  // ---------------------------------------------------------------------

  /** The provider and the two model names sent with every query. */
  datatype Config = Config(provider: string, chatModel: string, embeddingModel: string)

  /** `os.getenv(name, default)`: a variable that is set wins, even when empty. */
  function Setting(env: map<string, string>, name: string, default: string): string {
    if name in env then env[name] else default
  }

  /** The module-level settings read from the environment. A setting is
      empty exactly when its variable is set to the empty string; an unset
      variable takes its default. */
  function ConfigFromEnv(env: map<string, string>): (c: Config)
    ensures c.provider == "" <==> SetEmpty(env, "PERPLEXICA_PROVIDER")
    ensures c.chatModel == "" <==> SetEmpty(env, "PERPLEXICA_CHAT_MODEL")
    ensures c.embeddingModel == "" <==> SetEmpty(env, "PERPLEXICA_EMBEDDING_MODEL")
    ensures "PERPLEXICA_PROVIDER" !in env ==> c.provider == "openai"
    ensures "PERPLEXICA_CHAT_MODEL" !in env ==> c.chatModel == "gpt-4o"
    ensures "PERPLEXICA_EMBEDDING_MODEL" !in env ==> c.embeddingModel == "text-embedding-3-small"
  {
    Config(
      Setting(env, "PERPLEXICA_PROVIDER", "openai"),
      Setting(env, "PERPLEXICA_CHAT_MODEL", "gpt-4o"),
      Setting(env, "PERPLEXICA_EMBEDDING_MODEL", "text-embedding-3-small"))
  }

  /** The constructor's pre-flight check: none of the three settings is empty. */
  predicate IsComplete(c: Config) {
    c.provider != "" && c.chatModel != "" && c.embeddingModel != ""
  }

  /** The variable `name` is set to the empty string. */
  predicate SetEmpty(env: map<string, string>, name: string) {
    name in env && env[name] == ""
  }

  /** The agent: its configuration and its index-keyed results map. */
  datatype Researcher = Researcher(config: Config, results: map<nat, string>)

  /** `PerplexicaResearcherAgent()`: refuses an incomplete configuration
      with the `ValueError` message, and otherwise starts with no results. */
  function NewResearcher(config: Config): (r: Result<Researcher, string>)
    ensures r.Ok? <==> IsComplete(config)
    ensures r.Ok? ==> r.value.config == config && r.value.results == map[]
    ensures r.Err? ==> r.error == MissingConfigMessage
  {
    if IsComplete(config) then Ok(Researcher(config, map[])) else Err(MissingConfigMessage)
  }

  /** Only a variable set to the empty string makes the constructor fail; an
      unset variable takes its non-empty default. */
  lemma ConfigRejectedIffSetEmpty(env: map<string, string>)
    ensures NewResearcher(ConfigFromEnv(env)).Err?
        <==> (|| SetEmpty(env, "PERPLEXICA_PROVIDER")
              || SetEmpty(env, "PERPLEXICA_CHAT_MODEL")
              || SetEmpty(env, "PERPLEXICA_EMBEDDING_MODEL"))
  {
    var c := ConfigFromEnv(env);
    assert c.provider == "" <==> SetEmpty(env, "PERPLEXICA_PROVIDER");
    assert c.chatModel == "" <==> SetEmpty(env, "PERPLEXICA_CHAT_MODEL");
    assert c.embeddingModel == "" <==> SetEmpty(env, "PERPLEXICA_EMBEDDING_MODEL");
  }

  // ---------------------------------------------------------------------
  // All queries: the pool, the shared map and the ordered join
  // ---------------------------------------------------------------------

  /** The run of query `i`, whose attempts end as `outcomes(i)` says. */
  function RunOf(queries: seq<string>, outcomes: nat -> nat -> Attempt, i: nat): QueryRun
    requires i < |queries|
  {
    SearchWithRetries(queries[i], outcomes(i))
  }

  /** What query `i` contributes to the brief: its section, or "" when it
      wrote none (`results.get(i, "")`). A query contributes nothing exactly
      when its run raised, and otherwise a section headed by the query. */
  function Contribution(queries: seq<string>, outcomes: nat -> nat -> Attempt, i: nat): (r: string)
    requires i < |queries|
    ensures r == "" <==> RunOf(queries, outcomes, i).raised
    ensures r != "" ==> "## Query: " + queries[i] <= r
  {
    RunOf(queries, outcomes, i).Written().GetOr("")
  }

  /** The contributions of queries `0 .. k - 1`, in list order. */
  function BriefUpTo(queries: seq<string>, outcomes: nat -> nat -> Attempt, k: nat): string
    requires k <= |queries|
  {
    if k == 0 then "" else BriefUpTo(queries, outcomes, k - 1) + Contribution(queries, outcomes, k - 1)
  }

  /** The brief a one-query-at-a-time run would produce: the contributions of
      all queries, in list order. */
  function SequentialBrief(queries: seq<string>, outcomes: nat -> nat -> Attempt): string {
    BriefUpTo(queries, outcomes, |queries|)
  }

  /** The order in which the pool's tasks take the lock to write: a
      permutation of the query indices. */
  predicate IsCompletionOrder(order: seq<nat>, n: nat) {
    && |order| == n
    && (forall i :: 0 <= i < n ==> i in order)
    && (forall t :: 0 <= t < |order| ==> order[t] < n)
    && (forall s, t :: 0 <= s < t < |order| ==> order[s] != order[t])
  }

  /** `results` holds, under its index, the section of every query that
      wrote one, and nothing else. */
  ghost predicate HoldsSections(results: map<nat, string>, queries: seq<string>, outcomes: nat -> nat -> Attempt) {
    && (forall i :: i in results <==> 0 <= i < |queries| && RunOf(queries, outcomes, i).Written().Some?)
    && (forall i :: i in results ==>
          0 <= i < |queries| && RunOf(queries, outcomes, i).Written() == Some(results[i]))
  }

  /** `fetch_market_intelligence`: the results map is reset, the tasks write
      their sections in completion order, and the brief joins the map's
      entries for indices `0 .. n - 1`. Whatever the completion order and
      whatever the agent held before, the map holds exactly the written
      sections under their indices and the brief is the sequential one. */
  method FetchMarketIntelligence(
    agent: Researcher, queries: seq<string>, outcomes: nat -> nat -> Attempt, order: seq<nat>)
    returns (brief: string, updated: Researcher)
    requires IsCompletionOrder(order, |queries|)
    ensures updated.config == agent.config
    ensures HoldsSections(updated.results, queries, outcomes)
    ensures brief == SequentialBrief(queries, outcomes)
    ensures |queries| == 0 ==> brief == ""
  {
    var results := WriteSections(queries, outcomes, order);
    brief := JoinSections(results, queries, outcomes);
    updated := agent.(results := results);
  }

  /** The pool's writes under the lock, in completion order, into a map that
      starts empty: every index is written at most once, so the order does
      not matter. */
  method WriteSections(queries: seq<string>, outcomes: nat -> nat -> Attempt, order: seq<nat>)
    returns (results: map<nat, string>)
    requires IsCompletionOrder(order, |queries|)
    ensures HoldsSections(results, queries, outcomes)
  {
    results := map[];
    var t := 0;
    while t < |order|
      invariant 0 <= t <= |order|
      invariant forall i :: i in results <==>
                  0 <= i < |queries| && i in order[..t] && RunOf(queries, outcomes, i).Written().Some?
      invariant forall i :: i in results ==>
                  0 <= i < |queries| && RunOf(queries, outcomes, i).Written() == Some(results[i])
    {
      var i := order[t];
      var run := RunOf(queries, outcomes, i);
      if run.Written().Some? {
        results := results[i := run.Written().value];
      }
      assert order[..t + 1] == order[..t] + [i];
      t := t + 1;
    }
    assert order[..t] == order;
  }

  /** The ordered join: the map's entries for indices `0 .. n - 1`
      concatenated, an absent index counting as the empty string. */
  method JoinSections(results: map<nat, string>, queries: seq<string>, outcomes: nat -> nat -> Attempt)
    returns (brief: string)
    requires HoldsSections(results, queries, outcomes)
    ensures brief == SequentialBrief(queries, outcomes)
  {
    brief := "";
    var k := 0;
    while k < |queries|
      invariant 0 <= k <= |queries|
      invariant brief == BriefUpTo(queries, outcomes, k)
    {
      brief := brief + (if k in results then results[k] else "");
      k := k + 1;
    }
  }

  /** `run_perplexica_research`: an incomplete configuration yields the
      error heading instead of a brief; otherwise the brief is the
      sequential one, whatever the completion order. */
  method RunPerplexicaResearch(
    env: map<string, string>, queries: seq<string>, outcomes: nat -> nat -> Attempt, order: seq<nat>)
    returns (brief: string)
    requires IsCompletionOrder(order, |queries|)
    ensures !IsComplete(ConfigFromEnv(env)) ==> brief == "## Error: " + MissingConfigMessage
    ensures IsComplete(ConfigFromEnv(env)) ==> brief == SequentialBrief(queries, outcomes)
  {
    var created := NewResearcher(ConfigFromEnv(env));
    match created
    case Err(message) =>
      brief := "## Error: " + message;
    case Ok(agent) =>
      var updated;
      brief, updated := FetchMarketIntelligence(agent, queries, outcomes, order);
  }

  /** The same query listed twice gets two sections, one per index. */
  lemma DuplicateQueriesKeepBothEntries(q: string, outcomes: nat -> nat -> Attempt, a: string, b: string)
    requires outcomes(0)(0) == Answered(Some(a)) && outcomes(1)(0) == Answered(Some(b))
    ensures SequentialBrief([q, q], outcomes) == Entry(q, a) + Entry(q, b)
  {
    assert SettlesAt(outcomes(0), 0) && SettlesAt(outcomes(1), 0);
    RetriesStopAtFirstSettled(q, outcomes(0), 0);
    RetriesStopAtFirstSettled(q, outcomes(1), 0);
    assert Contribution([q, q], outcomes, 0) == Entry(q, a);
    assert Contribution([q, q], outcomes, 1) == Entry(q, b);
    assert BriefUpTo([q, q], outcomes, 1) == Entry(q, a);
  }

  /** A query whose settling attempt raises some other exception leaves no
      trace in the brief. */
  lemma CrashContributesNothing(queries: seq<string>, outcomes: nat -> nat -> Attempt, i: nat, k: nat)
    requires i < |queries| && SettlesAt(outcomes(i), k) && outcomes(i)(k).Crashed?
    ensures Contribution(queries, outcomes, i) == ""
  {
    RetriesStopAtFirstSettled(queries[i], outcomes(i), k);
  }
}
