/**
 * The scheduled debate analysis: it picks the most recent poll without an analysis,
 * asks a language model for a neutral description with pro and contra arguments, with
 * up to three attempts, and inserts the first answer that parses.
 */
module SyncDebate {
  import opened Wrappers
  import opened JsText
  import opened Tallies
  import opened Cron

  /** Attempts the job makes at most. */
  const MaxAttempts: nat := 3

  /** A poll with the `question` field of its related simplified questions. */
  datatype DebatePoll = DebatePoll(id: int, name: string, questions: Related<Option<string>>)

  /**
   * The text the analysis is about: the first element's question when the relation is a
   * non-empty array (even a missing one), the object's question when it is a single
   * object with a non-empty question, and the poll's label otherwise.
   */
  function TextToAnalyze(poll: DebatePoll): (text: Option<string>)
    ensures poll.questions.Many? && poll.questions.items != [] ==> text == poll.questions.items[0]
    ensures poll.questions.Single? && poll.questions.item.Some? && poll.questions.item.value != []
      ==> text == poll.questions.item
    ensures text != Some(poll.name) ==> FirstRelated(poll.questions).Some? && text == FirstRelated(poll.questions).value
  {
    match poll.questions
    case Missing => Some(poll.name)
    case Many(items) => if items == [] then Some(poll.name) else items[0]
    case Single(q) => if q.Some? && q.value != [] then q else Some(poll.name)
  }

  /**
   * The "robust JSON extraction": from the first `{` to the last `}`, through
   * `substring`, which swaps its bounds when the last `}` precedes the first `{`.
   * `None` when either brace is missing.
   */
  function ExtractJson(content: string): (r: Option<string>)
    ensures r.None? <==> '{' !in content || '}' !in content
  {
    var first := IndexOf(content, '{');
    var last := LastIndexOf(content, '}');
    if first == -1 || last == -1 then None
    else Some(Substring(content, first, last + 1))
  }

  /** An object between text without braces of the wrong kind is cut out exactly. */
  lemma ExtractJsonAround(pre: string, json: string, post: string)
    requires '{' !in pre && '}' !in post
    requires json != [] && json[0] == '{' && json[|json| - 1] == '}'
    ensures ExtractJson(pre + json + post) == Some(json)
  {
    var s := pre + json + post;
    OpenBraceAfter(pre, json, post);
    CloseBraceBefore(pre, json, post);
    assert s[|pre|..|pre| + |json|] == json;
  }

  /** The first `{` of `pre + json + post` opens `json`. */
  lemma OpenBraceAfter(pre: string, json: string, post: string)
    requires '{' !in pre && json != [] && json[0] == '{'
    ensures IndexOf(pre + json + post, '{') == |pre|
  {
    var s := pre + json + post;
    assert s[|pre|] == '{';
    assert forall j | 0 <= j < |pre| :: s[j] == pre[j];
  }

  /** The last `}` of `pre + json + post` closes `json`. */
  lemma CloseBraceBefore(pre: string, json: string, post: string)
    requires '}' !in post && json != [] && json[|json| - 1] == '}'
    ensures LastIndexOf(pre + json + post, '}') == |pre| + |json| - 1
  {
    var s := pre + json + post;
    assert s[|pre| + |json| - 1] == '}';
    assert forall j | |pre| + |json| <= j < |s| :: s[j] == post[j - |pre| - |json|];
  }

  /**
   * When every `}` precedes every `{`, the swapped bounds select the text between the
   * last `}` and the first `{`, which holds no brace at all and so never parses as an
   * object.
   */
  lemma SwappedExtractHasNoBraces(content: string)
    requires '{' in content && '}' in content
    requires LastIndexOf(content, '}') < IndexOf(content, '{')
    ensures var r := ExtractJson(content).value;
      r == content[LastIndexOf(content, '}') + 1..IndexOf(content, '{')] && '{' !in r && '}' !in r
  {
  }

  /** The reply to one attempt: the request threw, or came back with a status and content. */
  datatype DebateReply = NetworkError | Response(status: int, content: Option<string>)

  /** The error an attempt records as `lastError`. */
  datatype Failure = Network | LimitReached(status: int) | NoContent | NoJson | BadJson

  /** The analysis object the model returns. */
  datatype Analysis = Analysis(description: Option<string>, pro: seq<string>, contra: seq<string>,
                               sources: seq<string>)

  /**
   * What one attempt does: `Retry(Some(e))` records `e` as the last error, `Retry(None)`
   * (a non-ok status other than 402 and 429) moves on without recording one, and `Done`
   * ends the loop once `JSON.parse` returned, with `None` for a falsy result.
   */
  datatype AttemptResult = Retry(error: Option<Failure>) | Done(parsed: Option<Analysis>)

  predicate IsOk(status: int) { 200 <= status < 300 }

  function Attempt(reply: DebateReply, parse: string -> Parsed<Analysis>): AttemptResult {
    match reply
    case NetworkError => Retry(Some(Network))
    case Response(status, content) =>
      if status == 402 || status == 429 then Retry(Some(LimitReached(status)))
      else if !IsOk(status) then Retry(None)
      else if content.None? || content.value == [] then Retry(Some(NoContent))
      else
        match ExtractJson(content.value)
        case None => Retry(Some(NoJson))
        case Some(raw) =>
          match parse(raw)
          case Invalid => Retry(Some(BadJson))
          case Falsy => Done(None)
          case Value(a) => Done(Some(a))
  }

  /** The attempts from `attempt` on: the parsed object, the last error, and the number of requests. */
  datatype Retries = Retries(parsed: Option<Analysis>, lastError: Option<Failure>, calls: nat)

  /** What each attempt would do, given the model's reply to it. */
  function Outcomes(replies: nat -> DebateReply, parse: string -> Parsed<Analysis>): nat -> AttemptResult {
    (k: nat) => Attempt(replies(k), parse)
  }

  /** The attempts from `attempt` on, given what each of them does. */
  function RetriesFrom(outcomes: nat -> AttemptResult, attempt: nat, lastError: Option<Failure>): (r: Retries)
    requires 1 <= attempt
    ensures attempt <= MaxAttempts + 1 ==> r.calls <= MaxAttempts + 1 - attempt
    decreases MaxAttempts + 1 - attempt
  {
    if attempt > MaxAttempts then Retries(None, lastError, 0)
    else
      match outcomes(attempt)
      case Done(p) => Retries(p, lastError, 1)
      case Retry(e) =>
        var rest := RetriesFrom(outcomes, attempt + 1, if e.Some? then e else lastError);
        rest.(calls := rest.calls + 1)
  }

  /**
   * The retry loop, `for (let attempt = 1; attempt <= 3; attempt++)`, with its `break`;
   * `outcomes(k)` is what the body does on attempt `k` (see `Attempt`).
   */
  method AnalyseWithRetries(outcomes: nat -> AttemptResult)
    returns (parsed: Option<Analysis>, lastError: Option<Failure>, calls: nat)
    ensures Retries(parsed, lastError, calls) == RetriesFrom(outcomes, 1, None)
  {
    parsed, lastError, calls := None, None, 0;
    var attempt := 1;
    while attempt <= MaxAttempts
      invariant 1 <= attempt <= MaxAttempts + 1
      invariant parsed.None?
      invariant var rest := RetriesFrom(outcomes, attempt, lastError);
        RetriesFrom(outcomes, 1, None) == rest.(calls := rest.calls + calls)
    {
      calls := calls + 1;
      var outcome := outcomes(attempt);
      if outcome.Done? {
        parsed := outcome.parsed;
        return;
      }
      if outcome.error.Some? {
        lastError := outcome.error;
      }
      attempt := attempt + 1;
    }
  }

  /**
   * The loop stops at the first attempt whose reply parses: that attempt's object is
   * the result and no later request is made.
   */
  lemma {:induction false} FirstParseWins(outcomes: nat -> AttemptResult, attempt: nat,
                                           lastError: Option<Failure>, k: nat)
    requires 1 <= attempt <= k <= MaxAttempts
    requires outcomes(k).Done?
    requires forall j | attempt <= j < k :: outcomes(j).Retry?
    ensures var r := RetriesFrom(outcomes, attempt, lastError);
      r.parsed == outcomes(k).parsed && r.calls == k + 1 - attempt
    decreases k - attempt
  {
    if attempt < k {
      var e := outcomes(attempt).error;
      FirstParseWins(outcomes, attempt + 1, if e.Some? then e else lastError, k);
    }
  }

  /**
   * A parsed result comes from an attempt that parsed, and every attempt before it was
   * retried: the converse of `FirstParseWins`.
   */
  lemma {:induction false} ParsedFromAttempt(outcomes: nat -> AttemptResult, attempt: nat,
                                             lastError: Option<Failure>)
    requires 1 <= attempt
    requires RetriesFrom(outcomes, attempt, lastError).parsed.Some?
    ensures exists k | attempt <= k <= MaxAttempts ::
      && outcomes(k) == Done(RetriesFrom(outcomes, attempt, lastError).parsed)
      && forall j | attempt <= j < k :: outcomes(j).Retry?
    decreases MaxAttempts + 1 - attempt
  {
    var r := RetriesFrom(outcomes, attempt, lastError);
    if outcomes(attempt).Done? {
      assert outcomes(attempt) == Done(r.parsed);
    } else {
      var e := outcomes(attempt).error;
      var next := if e.Some? then e else lastError;
      ParsedFromAttempt(outcomes, attempt + 1, next);
      var k :| attempt + 1 <= k <= MaxAttempts && outcomes(k) == Done(r.parsed)
        && forall j | attempt + 1 <= j < k :: outcomes(j).Retry?;
      assert forall j | attempt <= j < k :: outcomes(j).Retry?;
    }
  }

  /** When no attempt parses, all three requests are made and nothing is parsed. */
  lemma {:induction false} NoParseNoResult(outcomes: nat -> AttemptResult, attempt: nat,
                                            lastError: Option<Failure>)
    requires 1 <= attempt <= MaxAttempts + 1
    requires forall j | attempt <= j <= MaxAttempts :: outcomes(j).Retry?
    ensures var r := RetriesFrom(outcomes, attempt, lastError);
      r.parsed.None? && r.calls == MaxAttempts + 1 - attempt
    decreases MaxAttempts + 1 - attempt
  {
    if attempt <= MaxAttempts {
      var e := outcomes(attempt).error;
      NoParseNoResult(outcomes, attempt + 1, if e.Some? then e else lastError);
    }
  }

  /**
   * A payment or rate-limit status is one failed attempt here, recorded as the last
   * error, not the end of the job.
   */
  lemma LimitIsRetried(reply: DebateReply, parse: string -> Parsed<Analysis>)
    requires reply.Response? && (reply.status == 402 || reply.status == 429)
    ensures Attempt(reply, parse) == Retry(Some(LimitReached(reply.status)))
  {
  }

  /** Any other non-ok status is retried without touching the last error. */
  lemma OtherStatusKeepsLastError(reply: DebateReply, parse: string -> Parsed<Analysis>)
    requires reply.Response? && reply.status != 402 && reply.status != 429 && !IsOk(reply.status)
    ensures Attempt(reply, parse) == Retry(None)
  {
  }

  // ---------------------------------------------------------------------------
  // The handler
  // ---------------------------------------------------------------------------

  /**
   * The job's inputs: the secret and the request header, the recent polls (`None` when
   * the query fails), the analysis row count of each poll id, the model's reply to each
   * attempt on a text, `JSON.parse`, and whether the insert succeeds.
   */
  datatype DebateEnv = DebateEnv(
    secret: Option<string>, header: Option<string>,
    polls: Option<seq<DebatePoll>>,
    rowCount: DebatePoll -> Option<nat>,
    ai: (Option<string>, nat) -> DebateReply,
    parse: string -> Parsed<Analysis>,
    insertOk: bool)

  /** The response: 401, "all recent polls have analysis", 500, or the stored analysis. */
  datatype DebateOutcome = Unauthorized | NothingToDo | ServerError | Stored(pollId: int, analysis: Analysis)

  /** The replies to the attempts on `text`. */
  function RepliesFor(env: DebateEnv, text: Option<string>): nat -> DebateReply {
    (attempt: nat) => env.ai(text, attempt)
  }

  /** The job as a function of its inputs. */
  function Debate(env: DebateEnv): DebateOutcome {
    if !Authorized(env.secret, env.header) then Unauthorized
    else if env.polls.None? then ServerError
    else
      var polls := env.polls.value;
      match FirstWithoutRows(polls, env.rowCount, 0)
      case None => NothingToDo
      case Some(t) =>
        var r := RetriesFrom(Outcomes(RepliesFor(env, TextToAnalyze(polls[t])), env.parse), 1, None);
        if r.parsed.None? then ServerError
        else if !env.insertOk then ServerError
        else Stored(polls[t].id, r.parsed.value)
  }

  /** The `GET` handler. */
  method HandleDebate(env: DebateEnv) returns (outcome: DebateOutcome)
    ensures outcome == Debate(env)
  {
    if !Authorized(env.secret, env.header) {
      return Unauthorized;
    }
    if env.polls.None? {
      return ServerError;
    }
    var polls := env.polls.value;
    var target := FindTarget(polls, env.rowCount);
    if target.None? {
      return NothingToDo;
    }
    var poll := polls[target.value];
    var text := TextToAnalyze(poll);
    var parsed, lastError, calls := AnalyseWithRetries(Outcomes(RepliesFor(env, text), env.parse));
    if parsed.None? {
      return ServerError;
    }
    if !env.insertOk {
      return ServerError;
    }
    outcome := Stored(poll.id, parsed.value);
  }

  /**
   * A stored analysis belongs to the most recent poll without one and is what the model
   * answered on that poll's text: the object parsed by the first attempt that parsed,
   * every earlier attempt having been retried; and the insert succeeded.
   */
  lemma StoredIsForTarget(env: DebateEnv)
    requires Debate(env).Stored?
    ensures Authorized(env.secret, env.header) && env.polls.Some? && env.insertOk
    ensures var polls := env.polls.value;
      var t := FirstWithoutRows(polls, env.rowCount, 0);
      && t.Some? && polls[t.value].id == Debate(env).pollId
      && forall j | 0 <= j < t.value :: env.rowCount(polls[j]) != Some(0)
    ensures var polls := env.polls.value;
      var text := TextToAnalyze(polls[FirstWithoutRows(polls, env.rowCount, 0).value]);
      exists k | 1 <= k <= MaxAttempts ::
        && Attempt(env.ai(text, k), env.parse) == Done(Some(Debate(env).analysis))
        && forall j | 1 <= j < k :: Attempt(env.ai(text, j), env.parse).Retry?
  {
    var polls := env.polls.value;
    var t := FirstWithoutRows(polls, env.rowCount, 0).value;
    var text := TextToAnalyze(polls[t]);
    var o := Outcomes(RepliesFor(env, text), env.parse);
    ParsedFromAttempt(o, 1, None);
    var k :| 1 <= k <= MaxAttempts && o(k) == Done(RetriesFrom(o, 1, None).parsed)
      && forall j | 1 <= j < k :: o(j).Retry?;
    assert Attempt(env.ai(text, k), env.parse) == o(k);
    assert forall j | 1 <= j < k :: Attempt(env.ai(text, j), env.parse) == o(j);
  }

  /** The job answers 401 exactly when the bearer check fails. */
  lemma UnauthorizedIff(env: DebateEnv)
    ensures Debate(env) == Unauthorized <==> !Authorized(env.secret, env.header)
  {
  }
}
