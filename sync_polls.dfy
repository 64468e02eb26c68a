/**
 * The poll synchroniser's run (`GET` of the sync-polls route): for each of the latest
 * polls listed by the open-data interface it inserts the poll when it is new, syncs its
 * per-faction vote results, and has a language model write the simplified question.
 * The database is the value `Db` threaded through the run; the interface, the store's
 * answers and the model are the oracles in `Env`.
 */
module SyncPolls {
  import opened Wrappers
  import opened JsText
  import opened SyncVotes
  import AiText

  // ---------------------------------------------------------------------------
  // Cleaning the poll description
  // ---------------------------------------------------------------------------

  /** `s.replace(/<[^>]*>/g, ' ')`: every `<` with a later `>` opens a tag up to that `>`. */
  function StripTags(s: string): (r: string)
    ensures forall i | 0 <= i < |r| :: r[i] == ' ' || r[i] in s
    decreases |s|
  {
    if s == [] then []
    else if s[0] == '<' && '>' in s[1..] then
      var j := IndexOf(s[1..], '>');
      var rest := StripTags(s[j + 2..]);
      assert forall c | c in s[j + 2..] :: c in s;
      " " + rest
    else
      var rest := StripTags(s[1..]);
      assert forall c | c in s[1..] :: c in s;
      [s[0]] + rest
  }

  /** No `<` is followed, anywhere later, by a `>`: nothing the tag pattern could match. */
  predicate NoTag(s: string) {
    forall i, j | 0 <= i < j < |s| :: !(s[i] == '<' && s[j] == '>')
  }

  /** No two white-space characters in a row. */
  predicate NoDoubleSpace(s: string) {
    forall i | 0 <= i < |s| - 1 :: !(IsSpace(s[i]) && IsSpace(s[i + 1]))
  }

  lemma {:induction false} StripTagsNoTag(s: string)
    ensures NoTag(StripTags(s))
    decreases |s|
  {
    if s != [] {
      if s[0] == '<' && '>' in s[1..] {
        var j := IndexOf(s[1..], '>');
        StripTagsNoTag(s[j + 2..]);
      } else {
        StripTagsNoTag(s[1..]);
        var rest := StripTags(s[1..]);
        if s[0] == '<' {
          forall j | 0 <= j < |rest| ensures rest[j] != '>' {
            assert rest[j] == ' ' || rest[j] in s[1..];
          }
        }
      }
    }
  }

  /** Text without anything the tag pattern matches is left as it is. */
  lemma {:induction false} StripTagsIdentity(s: string)
    requires NoTag(s)
    ensures StripTags(s) == s
    decreases |s|
  {
    if s != [] {
      if s[0] == '<' {
        forall j | 0 <= j < |s| - 1 ensures s[1..][j] != '>' {
          assert s[1..][j] == s[j + 1];
        }
      }
      StripTagsIdentity(s[1..]);
    }
  }

  /** Text without `<` is copied as it is. */
  lemma {:induction false} StripTagsPlain(a: string, x: string)
    requires '<' !in a
    ensures StripTags(a + x) == a + StripTags(x)
    decreases |a|
  {
    if a == [] {
      assert a + x == x;
    } else {
      assert (a + x)[0] == a[0];
      assert (a + x)[1..] == a[1..] + x;
      StripTagsPlain(a[1..], x);
    }
  }

  /** A `<` with a later `>` opens a tag: the tag up to the first `>` becomes one space. */
  lemma StripTagsTag(t: string, b: string)
    requires '>' !in t
    ensures StripTags("<" + t + ">" + b) == " " + StripTags(b)
  {
    var s := "<" + t + ">" + b;
    assert s[1..] == t + ">" + b;
    assert s[1..][|t|] == '>';
    assert forall m | 0 <= m < |t| :: s[1..][m] == t[m];
    assert IndexOf(s[1..], '>') == |t|;
    assert s[|t| + 2..] == b;
  }

  /** Each tag becomes exactly one space, and the text before it is kept. */
  lemma StripTagsOneTag(a: string, t: string, b: string)
    requires '<' !in a && '>' !in t
    ensures StripTags(a + "<" + t + ">" + b) == a + " " + StripTags(b)
  {
    assert a + "<" + t + ">" + b == a + ("<" + t + ">" + b);
    StripTagsPlain(a, "<" + t + ">" + b);
    StripTagsTag(t, b);
  }

  /** `s.replace(/\s+/g, ' ')`: each maximal run of white space becomes one space. */
  function CollapseSpace(s: string): (r: string)
    ensures forall i | 0 <= i < |r| :: r[i] == ' ' || (r[i] in s && !IsSpace(r[i]))
    ensures s == [] <==> r == []
    ensures r != [] ==> (IsSpace(r[0]) <==> IsSpace(s[0]))
    decreases |s|
  {
    if s == [] then []
    else if IsSpace(s[0]) then
      var n := LeadingSpace(s);
      var rest := CollapseSpace(s[n..]);
      assert forall c | c in s[n..] :: c in s;
      " " + rest
    else
      var rest := CollapseSpace(s[1..]);
      assert forall c | c in s[1..] :: c in s;
      [s[0]] + rest
  }

  lemma {:induction false} CollapseSpaceFacts(s: string)
    requires NoTag(s)
    ensures NoTag(CollapseSpace(s)) && NoDoubleSpace(CollapseSpace(s))
    decreases |s|
  {
    if s != [] {
      if IsSpace(s[0]) {
        var n := LeadingSpace(s);
        NoTagSuffix(s, n);
        CollapseSpaceFacts(s[n..]);
      } else {
        NoTagSuffix(s, 1);
        CollapseSpaceFacts(s[1..]);
        var rest := CollapseSpace(s[1..]);
        if s[0] == '<' {
          forall j | 0 <= j < |rest| ensures rest[j] != '>' {
            if rest[j] != ' ' {
              var m :| 0 <= m < |s[1..]| && s[1..][m] == rest[j];
              assert s[m + 1] == rest[j];
            }
          }
        }
      }
    }
  }

  /** Text without white space is copied as it is. */
  lemma {:induction false} CollapseSpaceWord(a: string, x: string)
    requires forall i | 0 <= i < |a| :: !IsSpace(a[i])
    ensures CollapseSpace(a + x) == a + CollapseSpace(x)
    decreases |a|
  {
    if a == [] {
      assert a + x == x;
    } else {
      assert (a + x)[0] == a[0];
      assert (a + x)[1..] == a[1..] + x;
      CollapseSpaceWord(a[1..], x);
    }
  }

  /** A maximal run of white space, leading ones included, becomes exactly one space. */
  lemma CollapseSpaceRun(w: string, b: string)
    requires w != [] && AllSpace(w)
    requires b == [] || !IsSpace(b[0])
    ensures CollapseSpace(w + b) == " " + CollapseSpace(b)
  {
    var s := w + b;
    assert s[0] == w[0];
    AiText.LeadingSpaceSkip(w, b);
    assert s[|w|..] == b;
  }

  /** A word followed by a run of white space keeps the word and gets one space. */
  lemma CollapseSpaceWordRun(a: string, w: string, b: string)
    requires forall i | 0 <= i < |a| :: !IsSpace(a[i])
    requires w != [] && AllSpace(w)
    requires b == [] || !IsSpace(b[0])
    ensures CollapseSpace(a + w + b) == a + " " + CollapseSpace(b)
  {
    assert a + w + b == a + (w + b);
    CollapseSpaceWord(a, w + b);
    CollapseSpaceRun(w, b);
  }

  lemma NoTagSuffix(s: string, n: nat)
    requires NoTag(s) && n <= |s|
    ensures NoTag(s[n..])
  {
    forall i, j | 0 <= i < j < |s[n..]| ensures !(s[n..][i] == '<' && s[n..][j] == '>') {
      assert s[n..][i] == s[n + i] && s[n..][j] == s[n + j];
    }
  }

  lemma NoTagSlice(s: string, a: nat, b: nat)
    requires NoTag(s) && NoDoubleSpace(s) && a <= b <= |s|
    ensures NoTag(s[a..b]) && NoDoubleSpace(s[a..b])
  {
    forall i, j | 0 <= i < j < b - a ensures !(s[a..b][i] == '<' && s[a..b][j] == '>') {
      assert s[a..b][i] == s[a + i] && s[a..b][j] == s[a + j];
    }
    forall i | 0 <= i < b - a - 1 ensures !(IsSpace(s[a..b][i]) && IsSpace(s[a..b][i + 1])) {
      assert s[a..b][i] == s[a + i] && s[a..b][i + 1] == s[a + i + 1];
    }
  }

  /** Text whose only white space is single spaces keeps its shape. */
  lemma {:induction false} CollapseSpaceIdentity(s: string)
    requires NoDoubleSpace(s) && forall i | 0 <= i < |s| :: IsSpace(s[i]) ==> s[i] == ' '
    ensures CollapseSpace(s) == s
    decreases |s|
  {
    if s != [] {
      if IsSpace(s[0]) {
        assert s[..1] == [s[0]];
        LeadingSpaceExact(s, 1);
      }
      assert forall i | 0 <= i < |s| - 1 :: s[1..][i] == s[i + 1];
      CollapseSpaceIdentity(s[1..]);
    }
  }

  /** The most characters of the description handed to the model. */
  const DescriptionLimit: nat := 3000

  /** `poll.description || poll.field_intro || ''`. */
  function RawDescription(description: Option<string>, intro: Option<string>): (raw: string)
    ensures description.Some? && description.value != [] ==> raw == description.value
    ensures (description.None? || description.value == []) && intro.Some? ==> raw == intro.value
    ensures (description.None? || description.value == []) && intro.None? ==> raw == []
  {
    if description.Some? && description.value != [] then description.value
    else if intro.Some? then intro.value
    else ""
  }

  /**
   * The description as handed to the model: tags become spaces, white-space runs one
   * space, the ends are trimmed and at most 3000 characters are kept. The result has
   * nothing left that looks like a tag, no leading white space and no two white-space
   * characters in a row.
   */
  function CleanDescription(raw: string): (r: string)
    ensures |r| <= DescriptionLimit
    ensures r == [] || !IsSpace(r[0])
    ensures NoTag(r) && NoDoubleSpace(r)
  {
    var t := Trim(CollapseSpace(StripTags(raw)));
    StripTagsNoTag(raw);
    CollapseSpaceFacts(StripTags(raw));
    var c := CollapseSpace(StripTags(raw));
    TrimSlice(c);
    var i, j :| 0 <= i <= j <= |c| && t == c[i..j] && AllSpace(c[..i]) && AllSpace(c[j..]);
    NoTagSlice(c, i, j);
    var r := Substring(t, 0, DescriptionLimit);
    assert r == t[..Min(|t|, DescriptionLimit)];
    NoTagSlice(t, 0, Min(|t|, DescriptionLimit));
    r
  }

  /** A description that is already clean passes through unchanged. */
  lemma CleanDescriptionIdentity(s: string)
    requires NoTag(s) && NoDoubleSpace(s) && forall i | 0 <= i < |s| :: IsSpace(s[i]) ==> s[i] == ' '
    requires s == [] || (s[0] != ' ' && s[|s| - 1] != ' ')
    requires |s| <= DescriptionLimit
    ensures CleanDescription(s) == s
  {
    StripTagsIdentity(s);
    CollapseSpaceIdentity(s);
    TrimNoSpaceEnds(s);
  }

  // ---------------------------------------------------------------------------
  // The simplified question
  // ---------------------------------------------------------------------------

  /** One poll as the open-data listing reports it. */
  datatype PollListing = PollListing(id: int, name: string, description: Option<string>, intro: Option<string>)

  /**
   * A `poll_questions` row, and what the model's JSON object yields for one; `voteFlip`
   * is `result.vote_flip || false`.
   */
  datatype QuestionRow = QuestionRow(
    question: Option<string>, simplifiedTitle: Option<string>, explanation: Option<string>,
    voteFlip: bool)

  /** The model's answer: the request threw, came back non-ok, or carried `content`. */
  datatype AiReply = TransportError | Refused | Answered(content: Option<string>)

  /** A field that is present and not empty. */
  predicate Truthy(s: Option<string>) {
    s.Some? && s.value != []
  }

  /** The stored question has all three parts and is not regenerated. */
  predicate IsComplete(existing: Option<QuestionRow>) {
    existing.Some? && Truthy(existing.value.question) && Truthy(existing.value.simplifiedTitle)
    && Truthy(existing.value.explanation)
  }

  /** The user message sent to the model. */
  function UserMessage(poll: PollListing): string {
    "Titel: \"" + poll.name + "\"\n\nBeschreibung:\n"
    + CleanDescription(RawDescription(poll.description, poll.intro))
  }

  /**
   * The oracles of a run: whether inserting a poll succeeds, the votes pages of each
   * poll, whether a poll's `vote_results` upsert and its `poll_questions` upsert succeed,
   * the model's reply to a poll's message, and `JSON.parse`.
   */
  datatype Env = Env(
    insertOk: int -> bool,
    votePages: int -> nat -> VotesPage,
    votesWriteOk: int -> bool,
    questionWriteOk: int -> bool,
    ai: (int, string) -> AiReply,
    parse: string -> Parsed<QuestionRow>)

  /** The question table row of a poll, `.single()`. */
  function StoredQuestion(questions: map<int, QuestionRow>, id: int): Option<QuestionRow> {
    if id in questions then Some(questions[id]) else None
  }

  /**
   * `generateQuestionForPoll` as its effect on the question table: `Err` when the request
   * to the model throws, which ends the whole run. The upsert's error is not looked at:
   * a failed write leaves the table as it was and the run goes on.
   */
  function GenerateQuestion(questions: map<int, QuestionRow>, poll: PollListing, env: Env)
    : (r: Result<map<int, QuestionRow>, ()>)
    ensures IsComplete(StoredQuestion(questions, poll.id)) ==> r == Ok(questions)
    ensures r.Ok? ==> forall id | id != poll.id ::
      && (id in r.value <==> id in questions)
      && (id in questions ==> r.value[id] == questions[id])
    ensures r.Err? <==> !IsComplete(StoredQuestion(questions, poll.id)) && env.ai(poll.id, UserMessage(poll)).TransportError?
    ensures r.Ok? && !env.questionWriteOk(poll.id) ==> r.value == questions
  {
    if IsComplete(StoredQuestion(questions, poll.id)) then Ok(questions)
    else
      match env.ai(poll.id, UserMessage(poll))
      case TransportError => Err(())
      case Refused => Ok(questions)
      case Answered(content) =>
        if content.None? then Ok(questions)
        else
          match env.parse(AiText.StripFences(Trim(content.value)))
          case Invalid => Ok(questions)
          case Falsy => Ok(questions)
          case Value(q) => Ok(if env.questionWriteOk(poll.id) then questions[poll.id := q] else questions)
  }

  /** An answer whose trimmed, unfenced content parses to an object stores that object when the write succeeds. */
  lemma AnswerStored(questions: map<int, QuestionRow>, poll: PollListing, env: Env, content: string, q: QuestionRow)
    requires !IsComplete(StoredQuestion(questions, poll.id))
    requires env.ai(poll.id, UserMessage(poll)) == Answered(Some(content))
    requires env.parse(AiText.StripFences(Trim(content))) == Value(q)
    requires env.questionWriteOk(poll.id)
    ensures GenerateQuestion(questions, poll, env) == Ok(questions[poll.id := q])
  {
  }

  /**
   * A reply holding a JSON text in a "```json" block, with any white space around it,
   * stores what that text parses to when the write succeeds.
   */
  lemma FencedAnswerStored(questions: map<int, QuestionRow>, poll: PollListing, env: Env,
                           json: string, w1: string, w2: string, q: QuestionRow)
    requires !IsComplete(StoredQuestion(questions, poll.id))
    requires AllSpace(w1) && AllSpace(w2)
    requires json != [] && !IsSpace(json[0]) && !IsSpace(json[|json| - 1])
    requires env.ai(poll.id, UserMessage(poll)) == Answered(Some(AiText.Fenced(json, w1, w2)))
    requires env.parse(json) == Value(q)
    requires env.questionWriteOk(poll.id)
    ensures GenerateQuestion(questions, poll, env) == Ok(questions[poll.id := q])
  {
    AiText.FencedRoundTrip(json, w1, w2);
    AnswerStored(questions, poll, env, AiText.Fenced(json, w1, w2), q);
  }

  // ---------------------------------------------------------------------------
  // The run
  // ---------------------------------------------------------------------------

  /** The tables the run writes: `polls`, `vote_results` and `poll_questions`. */
  datatype Db = Db(polls: set<int>, voteResults: ResultStore, questions: map<int, QuestionRow>)

  /** What happened to one listed poll. */
  datatype PollOutcome = Skipped | Added | Refreshed | Aborted

  /** Rows of poll `id` in the tables other than `polls`. */
  ghost predicate SameRowsOf(a: Db, b: Db, id: int) {
    && (id in a.questions <==> id in b.questions)
    && (id in a.questions ==> a.questions[id] == b.questions[id])
    && (forall k: (int, int) | k.0 == id :: (k in a.voteResults <==> k in b.voteResults))
    && (forall k: (int, int) | k.0 == id && k in a.voteResults :: a.voteResults[k] == b.voteResults[k])
  }

  /** A new poll: inserted (a failed insert skips it), then its votes, then its question. */
  function AddPoll(db: Db, poll: PollListing, env: Env): (res: (Db, PollOutcome))
    requires poll.id !in db.polls
    ensures res.1 == Skipped ==> res.0 == db
    ensures res.1 == Added || res.1 == Aborted ==> res.0.polls == db.polls + {poll.id}
    ensures res.1 != Refreshed
  {
    var id := poll.id;
    if !env.insertOk(id) then (db, Skipped)
    else
      var db1 := db.(polls := db.polls + {id});
      match SyncedVotes(db1.voteResults, id, env.votePages(id), env.votesWriteOk(id))
      case Err(_) => (db1, Aborted)
      case Ok(results) =>
        var db2 := db1.(voteResults := results);
        match GenerateQuestion(db2.questions, poll, env)
        case Err(_) => (db2, Aborted)
        case Ok(questions) => (db2.(questions := questions), Added)
  }

  /** A known poll: its question first, its votes after. */
  function RefreshPoll(db: Db, poll: PollListing, env: Env): (res: (Db, PollOutcome))
    ensures res.0.polls == db.polls
    ensures res.1 == Refreshed || res.1 == Aborted
  {
    var id := poll.id;
    match GenerateQuestion(db.questions, poll, env)
    case Err(_) => (db, Aborted)
    case Ok(questions) =>
      var db1 := db.(questions := questions);
      match SyncedVotes(db1.voteResults, id, env.votePages(id), env.votesWriteOk(id))
      case Err(_) => (db1, Aborted)
      case Ok(results) => (db1.(voteResults := results), Refreshed)
  }

  /**
   * One iteration of the loop: the poll is added when its id is not in `polls`,
   * refreshed otherwise. A throwing step aborts the run.
   */
  function SyncPoll(db: Db, poll: PollListing, env: Env): (res: (Db, PollOutcome))
    ensures res.1 == Skipped ==> res.0 == db
    ensures res.1 == Added ==> poll.id !in db.polls && res.0.polls == db.polls + {poll.id}
    ensures res.1 == Refreshed ==> poll.id in db.polls && res.0.polls == db.polls
  {
    if poll.id !in db.polls then AddPoll(db, poll, env) else RefreshPoll(db, poll, env)
  }

  /**
   * Whether the two unchecked upserts succeed changes what is stored but never what
   * happens to the poll, so a poll whose writes failed is still counted.
   */
  lemma SyncPollIgnoresWrites(db: Db, poll: PollListing, env: Env, votesOk: int -> bool, questionOk: int -> bool)
    ensures SyncPoll(db, poll, env).1 == SyncPoll(db, poll, env.(votesWriteOk := votesOk, questionWriteOk := questionOk)).1
    ensures SyncPoll(db, poll, env).0.polls == SyncPoll(db, poll, env.(votesWriteOk := votesOk, questionWriteOk := questionOk)).0.polls
  {
    var env2 := env.(votesWriteOk := votesOk, questionWriteOk := questionOk);
    if poll.id !in db.polls {
      AddPollIgnoresWrites(db, poll, env, env2);
    } else {
      RefreshPollIgnoresWrites(db, poll, env, env2);
    }
  }

  lemma AddPollIgnoresWrites(db: Db, poll: PollListing, env: Env, env2: Env)
    requires poll.id !in db.polls
    requires env2.insertOk == env.insertOk && env2.votePages == env.votePages
    requires env2.ai == env.ai && env2.parse == env.parse
    ensures AddPoll(db, poll, env).1 == AddPoll(db, poll, env2).1
    ensures AddPoll(db, poll, env).0.polls == AddPoll(db, poll, env2).0.polls
  {
    var id := poll.id;
    if env.insertOk(id) {
      var db1 := db.(polls := db.polls + {id});
      var a := SyncedVotes(db1.voteResults, id, env.votePages(id), env.votesWriteOk(id));
      var b := SyncedVotes(db1.voteResults, id, env.votePages(id), env2.votesWriteOk(id));
      assert a.Err? <==> b.Err?;
      assert GenerateQuestion(db.questions, poll, env).Err? <==> GenerateQuestion(db.questions, poll, env2).Err?;
    }
  }

  lemma RefreshPollIgnoresWrites(db: Db, poll: PollListing, env: Env, env2: Env)
    requires env2.insertOk == env.insertOk && env2.votePages == env.votePages
    requires env2.ai == env.ai && env2.parse == env.parse
    ensures RefreshPoll(db, poll, env).1 == RefreshPoll(db, poll, env2).1
    ensures RefreshPoll(db, poll, env).0.polls == RefreshPoll(db, poll, env2).0.polls
  {
  }

  lemma AddPollOwnRows(db: Db, poll: PollListing, env: Env, id: int)
    requires poll.id !in db.polls && id != poll.id
    ensures SameRowsOf(db, AddPoll(db, poll, env).0, id)
  {
  }

  lemma RefreshPollOwnRows(db: Db, poll: PollListing, env: Env, id: int)
    requires id != poll.id
    ensures SameRowsOf(db, RefreshPoll(db, poll, env).0, id)
  {
  }

  /** Handling one poll leaves the rows of every other poll as they were. */
  lemma SyncPollOwnRows(db: Db, poll: PollListing, env: Env, id: int)
    requires id != poll.id
    ensures SameRowsOf(db, SyncPoll(db, poll, env).0, id)
  {
    if poll.id !in db.polls {
      AddPollOwnRows(db, poll, env, id);
    } else {
      RefreshPollOwnRows(db, poll, env, id);
    }
  }

  /** The response: the two counters of a completed run, or the 500 of a failed one. */
  datatype RunOutcome = Completed(newPolls: nat, updatedPolls: nat) | Failed

  /** The loop from the `i`-th listed poll on, with the counters so far. */
  function RunFrom(db: Db, polls: seq<PollListing>, i: nat, newPolls: nat, updatedPolls: nat, env: Env)
    : (Db, RunOutcome)
    requires i <= |polls|
    decreases |polls| - i
  {
    if i == |polls| then (db, Completed(newPolls, updatedPolls))
    else
      var (db1, outcome) := SyncPoll(db, polls[i], env);
      match outcome
      case Aborted => (db1, Failed)
      case Skipped => RunFrom(db1, polls, i + 1, newPolls, updatedPolls, env)
      case Added => RunFrom(db1, polls, i + 1, newPolls + 1, updatedPolls, env)
      case Refreshed => RunFrom(db1, polls, i + 1, newPolls, updatedPolls + 1, env)
  }

  /** The run; `listing` is `None` when the listing request comes back non-ok. */
  function Run(db: Db, listing: Option<seq<PollListing>>, env: Env): (Db, RunOutcome) {
    match listing
    case None => (db, Failed)
    case Some(polls) => RunFrom(db, polls, 0, 0, 0, env)
  }

  /** The `GET` handler's loop over the listed polls with its two counters. */
  method SyncAll(db: Db, listing: Option<seq<PollListing>>, env: Env) returns (after: Db, outcome: RunOutcome)
    ensures (after, outcome) == Run(db, listing, env)
  {
    if listing.None? {
      return db, Failed;
    }
    var polls := listing.value;
    var newPolls, updatedPolls := 0, 0;
    after := db;
    var i := 0;
    while i < |polls|
      invariant 0 <= i <= |polls|
      invariant RunFrom(after, polls, i, newPolls, updatedPolls, env) == Run(db, listing, env)
    {
      var poll := polls[i];
      var id := poll.id;
      if id !in after.polls {
        if !env.insertOk(id) {
          i := i + 1;
          continue;
        }
        after := after.(polls := after.polls + {id});
        var synced := SyncVotesForPoll(after.voteResults, id, env.votePages(id), env.votesWriteOk(id));
        if synced.Err? {
          return after, Failed;
        }
        after := after.(voteResults := synced.value);
        var generated := GenerateQuestion(after.questions, poll, env);
        if generated.Err? {
          return after, Failed;
        }
        after := after.(questions := generated.value);
        newPolls := newPolls + 1;
      } else {
        var generated := GenerateQuestion(after.questions, poll, env);
        if generated.Err? {
          return after, Failed;
        }
        after := after.(questions := generated.value);
        var synced := SyncVotesForPoll(after.voteResults, id, env.votePages(id), env.votesWriteOk(id));
        if synced.Err? {
          return after, Failed;
        }
        after := after.(voteResults := synced.value);
        updatedPolls := updatedPolls + 1;
      }
      i := i + 1;
    }
    outcome := Completed(newPolls, updatedPolls);
  }

  /**
   * The counters of a completed run: `newPolls` is the number of poll ids the run
   * inserted (a failed insert counts nowhere), and the two together do not exceed the
   * number of listed polls.
   */
  lemma {:induction false} RunGrows(db: Db, polls: seq<PollListing>, i: nat, n: nat, u: nat, env: Env)
    requires i <= |polls|
    ensures db.polls <= RunFrom(db, polls, i, n, u, env).0.polls
    decreases |polls| - i
  {
    if i < |polls| {
      var step := SyncPoll(db, polls[i], env);
      match step.1
      case Aborted =>
      case Skipped =>
        RunGrows(step.0, polls, i + 1, n, u, env);
      case Refreshed =>
        RunGrows(step.0, polls, i + 1, n, u + 1, env);
      case Added =>
        RunGrows(step.0, polls, i + 1, n + 1, u, env);
    }
  }

  /** A completed run counts at most one poll per listed poll. */
  lemma {:induction false} RunCountBound(db: Db, polls: seq<PollListing>, i: nat, n: nat, u: nat, env: Env)
    requires i <= |polls|
    ensures var r := RunFrom(db, polls, i, n, u, env);
      r.1.Completed? ==> r.1.newPolls + r.1.updatedPolls <= n + u + |polls| - i
    decreases |polls| - i
  {
    if i < |polls| {
      var step := SyncPoll(db, polls[i], env);
      match step.1
      case Aborted =>
      case Skipped =>
        RunCountBound(step.0, polls, i + 1, n, u, env);
      case Refreshed =>
        RunCountBound(step.0, polls, i + 1, n, u + 1, env);
      case Added =>
        RunCountBound(step.0, polls, i + 1, n + 1, u, env);
    }
  }

  /** `newPolls` counts exactly the poll ids the run inserted: a failed insert counts nowhere. */
  lemma {:induction false} RunNewCount(db: Db, polls: seq<PollListing>, i: nat, n: nat, u: nat, env: Env)
    requires i <= |polls|
    ensures var r := RunFrom(db, polls, i, n, u, env);
      r.1.Completed? ==> |r.0.polls| + n == |db.polls| + r.1.newPolls
    decreases |polls| - i
  {
    if i < |polls| {
      var step := SyncPoll(db, polls[i], env);
      match step.1
      case Aborted =>
      case Skipped =>
        RunNewCount(step.0, polls, i + 1, n, u, env);
      case Refreshed =>
        RunNewCount(step.0, polls, i + 1, n, u + 1, env);
      case Added =>
        RunNewCount(step.0, polls, i + 1, n + 1, u, env);
    }
  }

  lemma GrownBy(before: set<int>, after: set<int>)
    requires before <= after
    ensures |after - before| == |after| - |before|
  {
    assert after == (after - before) + before;
  }

  lemma RunBound(db: Db, polls: seq<PollListing>, env: Env)
    ensures var (after, outcome) := Run(db, Some(polls), env);
      outcome.Completed? ==>
        && outcome.newPolls == |after.polls - db.polls|
        && outcome.newPolls + outcome.updatedPolls <= |polls|
  {
    RunCountBound(db, polls, 0, 0, 0, env);
    RunNewCount(db, polls, 0, 0, 0, env);
    RunGrows(db, polls, 0, 0, 0, env);
    GrownBy(db.polls, Run(db, Some(polls), env).0.polls);
  }

  /** A run leaves the question and vote rows of every poll it was not given untouched. */
  lemma {:induction false} RunTouchesListedOnly(db: Db, polls: seq<PollListing>, i: nat, n: nat, u: nat,
                                                 env: Env, id: int)
    requires i <= |polls|
    requires forall k | i <= k < |polls| :: polls[k].id != id
    ensures SameRowsOf(db, RunFrom(db, polls, i, n, u, env).0, id)
    decreases |polls| - i
  {
    if i < |polls| {
      var (db1, o) := SyncPoll(db, polls[i], env);
      SyncPollOwnRows(db, polls[i], env, id);
      match o
      case Aborted =>
      case Skipped =>
        RunTouchesListedOnly(db1, polls, i + 1, n, u, env, id);
      case Refreshed =>
        RunTouchesListedOnly(db1, polls, i + 1, n, u + 1, env, id);
      case Added =>
        RunTouchesListedOnly(db1, polls, i + 1, n + 1, u, env, id);
    }
  }

  /** A complete simplified question is never regenerated. */
  lemma CompleteQuestionKept(db: Db, poll: PollListing, env: Env)
    requires IsComplete(StoredQuestion(db.questions, poll.id))
    ensures var (after, outcome) := SyncPoll(db, poll, env);
      outcome != Aborted ==> StoredQuestion(after.questions, poll.id) == StoredQuestion(db.questions, poll.id)
  {
  }
}
