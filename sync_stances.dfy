/**
 * The scheduled party-stance job: for the most recent poll without stances it asks a
 * language model, party by party, for the party's position, and inserts the positions
 * it got. A payment or rate-limit answer ends the whole job without inserting anything.
 */
module SyncStances {
  import opened Wrappers
  import opened JsText
  import opened Sequences
  import opened Cron
  import AiText

  // ---------------------------------------------------------------------------
  // Citation markers
  // ---------------------------------------------------------------------------

  /** `\d`: an ASCII digit. */
  predicate IsDigit(c: char) { '0' <= c <= '9' }

  predicate AllDigits(s: string) {
    forall i | 0 <= i < |s| :: IsDigit(s[i])
  }

  /** The number of leading digits of `s`. */
  function DigitRun(s: string): (n: nat)
    ensures n <= |s| && AllDigits(s[..n])
    ensures n < |s| ==> !IsDigit(s[n])
  {
    if s == [] || !IsDigit(s[0]) then 0
    else
      var k := DigitRun(s[1..]);
      assert s[..k + 1] == [s[0]] + s[1..][..k];
      k + 1
  }

  /**
   * The length of the match of `\[\d+\]` at the start of `s`, 0 when there is none: the
   * greedy digit run has to be closed by `]`.
   */
  function CitationAt(s: string): (k: nat)
    ensures k <= |s|
    ensures k > 0 ==> 3 <= k && s[0] == '[' && s[k - 1] == ']' && AllDigits(s[1..k - 1])
  {
    if |s| >= 3 && s[0] == '[' then
      var n := DigitRun(s[1..]);
      assert s[1..][..n] == s[1..n + 1];
      if n >= 1 && n + 1 < |s| && s[n + 1] == ']' then n + 2 else 0
    else 0
  }

  /** `s.replace(/\[\d+\]/g, '')`: one left-to-right pass, matches do not overlap. */
  function StripCitations(s: string): (r: string)
    ensures |r| <= |s|
    decreases |s|
  {
    if s == [] then []
    else
      var k := CitationAt(s);
      if k > 0 then StripCitations(s[k..]) else [s[0]] + StripCitations(s[1..])
  }

  /** The stored stance: citations removed, then trimmed. */
  function CleanSummary(s: string): (r: string)
    ensures r == [] || (!IsSpace(r[0]) && !IsSpace(r[|r| - 1]))
  {
    Trim(StripCitations(s))
  }

  /** A citation marker: `[`, one or more digits, `]`. */
  function Citation(digits: string): string {
    "[" + digits + "]"
  }

  /** Text without `[` is left as it is. */
  lemma {:induction false} NoBracketUnchanged(s: string)
    requires '[' !in s
    ensures StripCitations(s) == s
    decreases |s|
  {
    if s != [] {
      assert '[' !in s[1..];
      NoBracketUnchanged(s[1..]);
    }
  }

  /** A digit run of length `n` that is not followed by a digit is the whole run. */
  lemma DigitRunStops(t: string, n: nat)
    requires n <= |t| && AllDigits(t[..n])
    requires n < |t| ==> !IsDigit(t[n])
    ensures DigitRun(t) == n
    decreases n
  {
    if n > 0 {
      assert t[1..][..n - 1] == t[1..n];
      assert forall i | 0 <= i < n - 1 :: t[1..n][i] == t[..n][i + 1];
      assert n - 1 < |t[1..]| ==> t[1..][n - 1] == t[n];
      DigitRunStops(t[1..], n - 1);
      assert IsDigit(t[..n][0]);
    }
  }

  /** A marker is cut out entirely, with nothing after it consumed. */
  lemma CitationAtMarker(digits: string, y: string)
    requires digits != [] && AllDigits(digits)
    ensures CitationAt(Citation(digits) + y) == |digits| + 2
  {
    var s := Citation(digits) + y;
    assert s[1..][..|digits|] == digits;
    assert s[1..][|digits|] == ']';
    DigitRunStops(s[1..], |digits|);
  }

  /** The digit run stops at the first non-digit. */
  lemma {:induction false} DigitRunBefore(t: string, j: nat)
    requires j < |t| && !IsDigit(t[j])
    ensures DigitRun(t) <= j
    decreases j
  {
    if j > 0 && IsDigit(t[0]) {
      DigitRunBefore(t[1..], j - 1);
    }
  }

  /** A match that starts in `x` ends in `x` when what follows starts with `[`. */
  lemma CitationAtPrefix(x: string, rest: string)
    requires x != [] && rest != [] && rest[0] == '['
    ensures CitationAt(x + rest) == CitationAt(x)
  {
    var s := x + rest;
    if |s| >= 3 && s[0] == '[' {
      assert s[1..][|x| - 1] == '[';
      DigitRunBefore(s[1..], |x| - 1);
      var n := DigitRun(s[1..]);
      if |x| >= 3 {
        var t := x[1..];
        assert t[..n] == s[1..][..n];
        assert n < |t| ==> t[n] == s[1..][n];
        DigitRunStops(t, n);
      } else {
        if n >= 1 {
          assert n + 1 == |x| && s[n + 1] == rest[0];
        }
      }
    }
  }

  lemma {:induction false} StripConcat(x: string, rest: string)
    requires rest != [] && rest[0] == '['
    ensures StripCitations(x + rest) == StripCitations(x) + StripCitations(rest)
    decreases |x|
  {
    if x != [] {
      var s := x + rest;
      CitationAtPrefix(x, rest);
      var k := CitationAt(x);
      assert s[k..] == x[k..] + rest;
      if k == 0 {
        assert s[1..] == x[1..] + rest;
        StripConcat(x[1..], rest);
      } else {
        StripConcat(x[k..], rest);
      }
    } else {
      assert x + rest == rest;
    }
  }

  /** Wherever a citation marker stands, it disappears and the text around it is kept. */
  lemma CitationRemoved(x: string, digits: string, y: string)
    requires digits != [] && AllDigits(digits)
    ensures StripCitations(x + Citation(digits) + y) == StripCitations(x) + StripCitations(y)
  {
    var c := Citation(digits) + y;
    assert x + Citation(digits) + y == x + c;
    StripConcat(x, c);
    CitationAtMarker(digits, y);
    assert c[|digits| + 2..] == y;
  }

  /** A single pass: a marker that only forms once an inner one is removed stays. */
  lemma NestedMarkerStays()
    ensures StripCitations("[[1]2]") == "[2]"
  {
    var s := "[[1]2]";
    assert DigitRun(s[1..]) == 0;
    assert CitationAt(s) == 0;
    var t := s[1..];
    assert t == "[1]2]";
    CitationAtMarker("1", "2]");
    assert t == Citation("1") + "2]";
    assert t[3..] == "2]";
    assert CitationAt("2]") == 0;
    assert "2]"[1..] == "]";
    assert CitationAt("]") == 0;
    assert "]"[1..] == [];
  }

  // ---------------------------------------------------------------------------
  // One party
  // ---------------------------------------------------------------------------

  /** The reply for one party: the request threw, or came back with a status and content. */
  datatype StanceReply = NetworkError | Response(status: int, content: Option<string>)

  /** The object the model returns for one party. */
  datatype StanceObject = StanceObject(summary: Option<string>, sourceUrl: Option<string>)

  /** A `party_stances` row. */
  datatype Stance = Stance(pollId: int, party: string, stance: string, sourceUrl: Option<string>)

  /** What one party's turn does: end the job, skip the party, or keep a stance. */
  datatype PartyResult = Abort | Skip | Keep(stance: Stance)

  predicate IsOk(status: int) { 200 <= status < 300 }

  /**
   * One iteration: 402 and 429 end the job; a non-ok status, empty content, a reply that
   * does not parse, a falsy result or an empty summary skip the party; otherwise the
   * cleaned summary is kept. Errors thrown by the request itself are swallowed.
   */
  function PartyStep(pollId: int, party: string, reply: StanceReply, parse: string -> Parsed<StanceObject>)
    : (r: PartyResult)
    ensures r.Abort? <==> reply.Response? && (reply.status == 402 || reply.status == 429)
    ensures r.Keep? ==> r.stance.pollId == pollId && r.stance.party == party
    ensures r.Keep? ==> reply.Response? && IsOk(reply.status)
    ensures r.Keep? <==>
      && reply.Response? && IsOk(reply.status)
      && reply.content.Some? && reply.content.value != []
      && parse(AiText.StripFences(reply.content.value)).Value?
      && parse(AiText.StripFences(reply.content.value)).obj.summary.Some?
      && parse(AiText.StripFences(reply.content.value)).obj.summary.value != []
    ensures r.Keep? ==>
      && r.stance.stance == CleanSummary(parse(AiText.StripFences(reply.content.value)).obj.summary.value)
      && r.stance.sourceUrl == parse(AiText.StripFences(reply.content.value)).obj.sourceUrl
  {
    match reply
    case NetworkError => Skip
    case Response(status, content) =>
      if status == 402 || status == 429 then Abort
      else if !IsOk(status) then Skip
      else if content.None? || content.value == [] then Skip
      else
        match parse(AiText.StripFences(content.value))
        case Invalid => Skip
        case Falsy => Skip
        case Value(obj) =>
          if obj.summary.Some? && obj.summary.value != [] then
            Keep(Stance(pollId, party, CleanSummary(obj.summary.value), obj.sourceUrl))
          else Skip
  }

  // ---------------------------------------------------------------------------
  // The party loop
  // ---------------------------------------------------------------------------

  /** Some party's turn ends the job. */
  predicate SomeAbort(parties: seq<string>, step: string -> PartyResult) {
    exists i | 0 <= i < |parties| :: step(parties[i]).Abort?
  }

  /** The stances of the kept parties, in party order. */
  function KeptStances(parties: seq<string>, step: string -> PartyResult): (rs: seq<Stance>)
    ensures |rs| <= |parties|
  {
    var kept := Filter(parties, p => step(p).Keep?);
    seq(|kept|, k requires 0 <= k < |kept| => step(kept[k]).stance)
  }

  /** The loop over the parties, as its result: `Err` when a party's turn ends the job. */
  function PartyLoop(parties: seq<string>, step: string -> PartyResult): Result<seq<Stance>, ()> {
    if SomeAbort(parties, step) then Err(()) else Ok(KeptStances(parties, step))
  }

  /** `for (const party of PARTIES)`, pushing onto `results`. */
  method CollectStances(parties: seq<string>, step: string -> PartyResult) returns (r: Result<seq<Stance>, ()>)
    ensures r == PartyLoop(parties, step)
  {
    var results: seq<Stance> := [];
    var i := 0;
    while i < |parties|
      invariant 0 <= i <= |parties|
      invariant !SomeAbort(parties[..i], step)
      invariant results == KeptStances(parties[..i], step)
    {
      var party := parties[i];
      var outcome := step(party);
      assert parties[..i + 1] == parties[..i] + [party];
      FilterSnoc(parties[..i], party, p => step(p).Keep?);
      if outcome.Abort? {
        assert SomeAbort(parties, step);
        return Err(());
      }
      if outcome.Keep? {
        results := results + [outcome.stance];
      }
      i := i + 1;
      assert !SomeAbort(parties[..i], step) by {
        forall j | 0 <= j < i ensures !step(parties[..i][j]).Abort? {
          if j < i - 1 {
            assert parties[..i][j] == parties[..i - 1][j];
          }
        }
      }
    }
    assert parties[..|parties|] == parties;
    r := Ok(results);
  }

  /**
   * With distinct party names, each party has at most one stance, and the stances keep
   * the order of the party list.
   */
  lemma OneStancePerParty(pollId: int, parties: seq<string>, replies: string -> StanceReply,
                          parse: string -> Parsed<StanceObject>)
    requires Distinct(parties)
    ensures var step := (p: string) => PartyStep(pollId, p, replies(p), parse);
      var rs := KeptStances(parties, step);
      forall i, j | 0 <= i < j < |rs| :: rs[i].party != rs[j].party
  {
    var step := (p: string) => PartyStep(pollId, p, replies(p), parse);
    var kept := Filter(parties, p => step(p).Keep?);
    DistinctFilter(parties, p => step(p).Keep?);
    var rs := KeptStances(parties, step);
    forall i, j | 0 <= i < j < |rs| ensures rs[i].party != rs[j].party {
      assert rs[i].party == kept[i] && rs[j].party == kept[j];
    }
  }

  /** Every stance comes from a listed party whose turn kept it. */
  lemma StancesFromParties(parties: seq<string>, step: string -> PartyResult, k: nat)
    requires k < |KeptStances(parties, step)|
    ensures exists i | 0 <= i < |parties| :: step(parties[i]).Keep? && step(parties[i]).stance == KeptStances(parties, step)[k]
  {
    var kept := Filter(parties, p => step(p).Keep?);
    assert kept[k] in parties;
    var i :| 0 <= i < |parties| && parties[i] == kept[k];
  }

  // ---------------------------------------------------------------------------
  // The handler
  // ---------------------------------------------------------------------------

  /** A poll as the job selects it. */
  datatype StancePoll = StancePoll(id: int, name: string)

  /**
   * The job's inputs: the secret and request header, the recent polls (`None` when the
   * query fails), the stance row count of each poll, the party list, the model's reply
   * for a party and a poll label, `JSON.parse`, and whether the insert succeeds.
   */
  datatype StanceEnv = StanceEnv(
    secret: Option<string>, header: Option<string>,
    polls: Option<seq<StancePoll>>,
    rowCount: StancePoll -> Option<nat>,
    parties: seq<string>,
    ai: (string, string) -> StanceReply,
    parse: string -> Parsed<StanceObject>,
    insertOk: bool)

  /** The response: 401, "all recent polls have party stances", 500, or the inserted rows. */
  datatype StanceOutcome = Unauthorized | NothingToDo | ServerError | Done(pollId: int, inserted: seq<Stance>)

  /** The turn of each party on the poll `poll`. */
  function StepFor(env: StanceEnv, poll: StancePoll): string -> PartyResult {
    (p: string) => PartyStep(poll.id, p, env.ai(p, poll.name), env.parse)
  }

  /** The job as a function of its inputs. */
  function StancesJob(env: StanceEnv): StanceOutcome {
    if !Authorized(env.secret, env.header) then Unauthorized
    else if env.polls.None? then ServerError
    else
      var polls := env.polls.value;
      match FirstWithoutRows(polls, env.rowCount, 0)
      case None => NothingToDo
      case Some(t) =>
        match PartyLoop(env.parties, StepFor(env, polls[t]))
        case Err(_) => ServerError
        case Ok(results) =>
          if |results| > 0 && !env.insertOk then ServerError
          else Done(polls[t].id, results)
  }

  /** The `GET` handler. */
  method HandleStances(env: StanceEnv) returns (outcome: StanceOutcome)
    ensures outcome == StancesJob(env)
  {
    if !Authorized(env.secret, env.header) {
      return Unauthorized;
    }
    if env.polls.None? {
      return ServerError;
    }
    var polls := env.polls.value;
    var target := FindTarget(polls, env.rowCount);
    if target.None? {
      return NothingToDo;
    }
    var poll := polls[target.value];
    var results := CollectStances(env.parties, StepFor(env, poll));
    if results.Err? {
      return ServerError;
    }
    if |results.value| > 0 && !env.insertOk {
      return ServerError;
    }
    outcome := Done(poll.id, results.value);
  }

  /**
   * A payment or rate-limit reply for any party ends the job with a 500 and nothing
   * inserted.
   */
  lemma LimitStopsEverything(env: StanceEnv, i: nat)
    requires Authorized(env.secret, env.header) && env.polls.Some?
    requires FirstWithoutRows(env.polls.value, env.rowCount, 0).Some?
    requires i < |env.parties|
    requires var poll := env.polls.value[FirstWithoutRows(env.polls.value, env.rowCount, 0).value];
      var reply := env.ai(env.parties[i], poll.name);
      reply.Response? && (reply.status == 402 || reply.status == 429)
    ensures StancesJob(env) == ServerError
  {
    var poll := env.polls.value[FirstWithoutRows(env.polls.value, env.rowCount, 0).value];
    assert StepFor(env, poll)(env.parties[i]).Abort?;
  }

  /** Every inserted row is a stance on the selected poll from a listed party. */
  lemma InsertedRowsBelongToTarget(env: StanceEnv, k: nat)
    requires StancesJob(env).Done? && k < |StancesJob(env).inserted|
    ensures StancesJob(env).inserted[k].pollId == StancesJob(env).pollId
    ensures StancesJob(env).inserted[k].party in env.parties
  {
    var polls := env.polls.value;
    var t := FirstWithoutRows(polls, env.rowCount, 0).value;
    var step := StepFor(env, polls[t]);
    var rs := KeptStances(env.parties, step);
    assert PartyLoop(env.parties, step) == Ok(rs);
    assert StancesJob(env).inserted == rs;
    StancesFromParties(env.parties, step, k);
    var i :| 0 <= i < |env.parties| && step(env.parties[i]).Keep? && step(env.parties[i]).stance == rs[k];
    assert step(env.parties[i]) == PartyStep(polls[t].id, env.parties[i], env.ai(env.parties[i], polls[t].name), env.parse);
  }
}
