/**
 * The party-match score of `lib/matchUtils.ts` (`calculatePartyMatches`): for every poll
 * the citizen answered, every faction with a clear yes/no majority earns a point of
 * agreement when the citizen's answer, translated back to the original motion's polarity
 * through `voteFlip`, equals that majority; the score is the rounded share of agreements.
 */
module MatchUtils {
  import opened Wrappers
  import opened Tallies
  import opened Percent
  import opened Sequences

  /** A stored citizen answer: `'yes' | 'no' | 'skip'`. */
  datatype UserVote = VoteYes | VoteNo | VoteSkip

  /** A poll as the match page loads it: its id, its related question flags and `vote_results || []`. */
  datatype Poll = Poll(id: int, questions: Related<Option<bool>>, results: seq<VoteResult>)

  /** One `partyStats` entry. */
  datatype Stats = Stats(name: string, matches: nat, total: nat)

  /** `partyStats`: the entries, and the order in which their keys were created. */
  datatype StatsTable = StatsTable(stats: map<int, Stats>, order: seq<int>)

  /** One `PartyMatchResult`. */
  datatype PartyMatch = PartyMatch(
    fractionId: int, fractionLabel: string, matchCount: nat, totalVotes: nat, percentage: nat)

  const EmptyTable := StatsTable(map[], [])

  /** Whether the citizen answered `poll` yes (`Some(true)`), no (`Some(false)`), or not at all / skip. */
  function Opinion(poll: Poll, userVotes: map<int, UserVote>): (o: Option<bool>)
    ensures o == Some(true) <==> poll.id in userVotes && userVotes[poll.id] == VoteYes
    ensures o == Some(false) <==> poll.id in userVotes && userVotes[poll.id] == VoteNo
  {
    if poll.id !in userVotes || userVotes[poll.id] == VoteSkip then None
    else Some(userVotes[poll.id] == VoteYes)
  }

  /**
   * Whether a faction's tally takes part in matching: it voted at all (yes + no + abstain
   * is not 0), abstention is not its majority, and yes and no are not tied.
   */
  predicate Counted(r: VoteResult) {
    && r.yes + r.no + r.abstain != 0
    && !(r.abstain > r.yes && r.abstain > r.no)
    && r.yes != r.no
  }

  /** `(userVote === 'yes' !== voteFlip) === (partyMajority === 'yes')`. */
  function Agrees(userYes: bool, flip: bool, majorityYes: bool): (m: bool)
    // the truth table of the rule
    ensures userYes && !flip ==> (m <==> majorityYes)
    ensures userYes && flip ==> (m <==> !majorityYes)
    ensures !userYes && !flip ==> (m <==> !majorityYes)
    ensures !userYes && flip ==> (m <==> majorityYes)
  {
    (userYes != flip) == majorityYes
  }

  /** One `results.forEach` step: create the entry on first sight, then count if counted. */
  function AccResult(t: StatsTable, r: VoteResult, userYes: bool, flip: bool): StatsTable {
    var id := r.fractionId;
    var t1 := if id in t.stats then t
              else StatsTable(t.stats[id := Stats(r.fractionLabel, 0, 0)], t.order + [id]);
    if !Counted(r) then t1
    else
      var s := t1.stats[id];
      var hit := if Agrees(userYes, flip, r.yes > r.no) then 1 else 0;
      StatsTable(t1.stats[id := Stats(s.name, s.matches + hit, s.total + 1)], t1.order)
  }

  function AccResults(t: StatsTable, rs: seq<VoteResult>, userYes: bool, flip: bool): StatsTable
    decreases |rs|
  {
    if rs == [] then t
    else AccResult(AccResults(t, rs[..|rs| - 1], userYes, flip), rs[|rs| - 1], userYes, flip)
  }

  /** One `polls.forEach` step: polls without a yes/no answer are passed over. */
  function AccPoll(t: StatsTable, poll: Poll, userVotes: map<int, UserVote>): StatsTable {
    match Opinion(poll, userVotes)
    case None => t
    case Some(userYes) => AccResults(t, poll.results, userYes, VoteFlip(poll.questions))
  }

  /** `partyStats` after the accumulation over `polls`. */
  function AccPolls(polls: seq<Poll>, userVotes: map<int, UserVote>): StatsTable
    decreases |polls|
  {
    if polls == [] then EmptyTable
    else AccPoll(AccPolls(polls[..|polls| - 1], userVotes), polls[|polls| - 1], userVotes)
  }

  /** The inner `results.forEach` of one answered poll, updating `partyStats` in place. */
  method AccumulatePoll(stats0: map<int, Stats>, order0: seq<int>, results: seq<VoteResult>,
                        userYes: bool, flip: bool)
    returns (stats: map<int, Stats>, order: seq<int>)
    ensures StatsTable(stats, order) == AccResults(StatsTable(stats0, order0), results, userYes, flip)
  {
    stats, order := stats0, order0;
    var j := 0;
    while j < |results|
      invariant 0 <= j <= |results|
      invariant StatsTable(stats, order) == AccResults(StatsTable(stats0, order0), results[..j], userYes, flip)
    {
      var r := results[j];
      assert results[..j + 1][..j] == results[..j];
      if r.fractionId !in stats {
        stats := stats[r.fractionId := Stats(r.fractionLabel, 0, 0)];
        order := order + [r.fractionId];
      }
      var totalVotes := r.yes + r.no + r.abstain;
      if totalVotes == 0 {
        // the party did not take part
      } else if r.abstain > r.yes && r.abstain > r.no {
        // abstention is the majority
      } else if r.yes == r.no {
        // tie
      } else {
        var s := stats[r.fractionId];
        var hit := if Agrees(userYes, flip, r.yes > r.no) then 1 else 0;
        stats := stats[r.fractionId := Stats(s.name, s.matches + hit, s.total + 1)];
      }
      j := j + 1;
    }
    assert results[..j] == results;
  }

  /** The accumulation loops of `calculatePartyMatches`, updating `partyStats` in place. */
  method Accumulate(polls: seq<Poll>, userVotes: map<int, UserVote>)
    returns (stats: map<int, Stats>, order: seq<int>)
    ensures StatsTable(stats, order) == AccPolls(polls, userVotes)
  {
    stats, order := map[], [];
    var i := 0;
    while i < |polls|
      invariant 0 <= i <= |polls|
      invariant StatsTable(stats, order) == AccPolls(polls[..i], userVotes)
    {
      var poll := polls[i];
      assert polls[..i + 1][..i] == polls[..i];
      if poll.id in userVotes && userVotes[poll.id] != VoteSkip {
        stats, order := AccumulatePoll(stats, order, poll.results, userVotes[poll.id] == VoteYes,
                                       VoteFlip(poll.questions));
      }
      i := i + 1;
    }
    assert polls[..i] == polls;
  }

  // ---------------------------------------------------------------------------
  // What the accumulation counts

  /** `partyStats` is well formed: one key per created entry, in creation order, and no entry has more matches than polls. */
  ghost predicate Valid(t: StatsTable) {
    && Distinct(t.order)
    && (forall k | k in t.stats :: k in t.order)
    && (forall i | 0 <= i < |t.order| :: t.order[i] in t.stats)
    && (forall k | k in t.stats :: t.stats[k].matches <= t.stats[k].total)
  }

  function TotalOf(t: StatsTable, k: int): nat {
    if k in t.stats then t.stats[k].total else 0
  }

  function MatchesOf(t: StatsTable, k: int): nat {
    if k in t.stats then t.stats[k].matches else 0
  }

  /** Number of counted tallies of faction `k` in `rs`. */
  function CountIn(rs: seq<VoteResult>, k: int): nat
    decreases |rs|
  {
    if rs == [] then 0
    else CountIn(rs[..|rs| - 1], k) + (if rs[|rs| - 1].fractionId == k && Counted(rs[|rs| - 1]) then 1 else 0)
  }

  /** Number of counted tallies of faction `k` in `rs` whose majority agrees with the citizen. */
  function MatchIn(rs: seq<VoteResult>, k: int, userYes: bool, flip: bool): nat
    decreases |rs|
  {
    if rs == [] then 0
    else
      var r := rs[|rs| - 1];
      MatchIn(rs[..|rs| - 1], k, userYes, flip)
        + (if r.fractionId == k && Counted(r) && Agrees(userYes, flip, r.yes > r.no) then 1 else 0)
  }

  /** Over all polls the citizen answered yes or no: how many counted tallies faction `k` has. */
  function CountedOn(polls: seq<Poll>, userVotes: map<int, UserVote>, k: int): nat
    decreases |polls|
  {
    if polls == [] then 0
    else
      var p := polls[|polls| - 1];
      CountedOn(polls[..|polls| - 1], userVotes, k)
        + (if Opinion(p, userVotes).Some? then CountIn(p.results, k) else 0)
  }

  /** Over all polls the citizen answered yes or no: how many of faction `k`'s counted tallies agree. */
  function MatchedOn(polls: seq<Poll>, userVotes: map<int, UserVote>, k: int): nat
    decreases |polls|
  {
    if polls == [] then 0
    else
      var p := polls[|polls| - 1];
      var o := Opinion(p, userVotes);
      MatchedOn(polls[..|polls| - 1], userVotes, k)
        + (if o.Some? then MatchIn(p.results, k, o.value, VoteFlip(p.questions)) else 0)
  }

  lemma AccResultValid(t: StatsTable, r: VoteResult, userYes: bool, flip: bool)
    requires Valid(t)
    ensures Valid(AccResult(t, r, userYes, flip))
  {
    var id := r.fractionId;
    if id !in t.stats {
      forall i | 0 <= i < |t.order| ensures t.order[i] != id {
      }
    }
  }

  lemma {:induction false} AccResultsFacts(t: StatsTable, rs: seq<VoteResult>, userYes: bool, flip: bool, k: int)
    requires Valid(t)
    ensures Valid(AccResults(t, rs, userYes, flip))
    ensures TotalOf(AccResults(t, rs, userYes, flip), k) == TotalOf(t, k) + CountIn(rs, k)
    ensures MatchesOf(AccResults(t, rs, userYes, flip), k) == MatchesOf(t, k) + MatchIn(rs, k, userYes, flip)
    ensures k in AccResults(t, rs, userYes, flip).stats <==>
              k in t.stats || exists i | 0 <= i < |rs| :: rs[i].fractionId == k
    decreases |rs|
  {
    if rs != [] {
      var init := rs[..|rs| - 1];
      AccResultsFacts(t, init, userYes, flip, k);
      AccResultValid(AccResults(t, init, userYes, flip), rs[|rs| - 1], userYes, flip);
      assert forall i | 0 <= i < |init| :: init[i] == rs[i];
    }
  }

  /** The label of the first tally of faction `k` in `rs`, if there is one. */
  function FirstLabelIn(rs: seq<VoteResult>, k: int): Option<string>
    decreases |rs|
  {
    if rs == [] then None
    else
      var r := rs[|rs| - 1];
      match FirstLabelIn(rs[..|rs| - 1], k)
      case Some(l) => Some(l)
      case None => if r.fractionId == k then Some(r.fractionLabel) else None
  }

  /** The label of faction `k`'s first tally on a poll the citizen answered yes or no. */
  function FirstLabelOn(polls: seq<Poll>, userVotes: map<int, UserVote>, k: int): Option<string>
    decreases |polls|
  {
    if polls == [] then None
    else
      var p := polls[|polls| - 1];
      match FirstLabelOn(polls[..|polls| - 1], userVotes, k)
      case Some(l) => Some(l)
      case None => if Opinion(p, userVotes).Some? then FirstLabelIn(p.results, k) else None
  }

  /** An entry keeps the label it was created with; a new one takes its first tally's label. */
  lemma {:induction false} AccResultsLabel(t: StatsTable, rs: seq<VoteResult>, userYes: bool, flip: bool, k: int)
    ensures var u := AccResults(t, rs, userYes, flip);
      && (k in u.stats <==> k in t.stats || FirstLabelIn(rs, k).Some?)
      && (k in u.stats ==> u.stats[k].name == if k in t.stats then t.stats[k].name else FirstLabelIn(rs, k).value)
    decreases |rs|
  {
    if rs != [] {
      AccResultsLabel(t, rs[..|rs| - 1], userYes, flip, k);
    }
  }

  /** `partyStats[k].label` is the label of faction `k`'s first tally on an answered poll. */
  lemma {:induction false} AccPollsLabel(polls: seq<Poll>, userVotes: map<int, UserVote>, k: int)
    ensures k in AccPolls(polls, userVotes).stats <==> FirstLabelOn(polls, userVotes, k).Some?
    ensures k in AccPolls(polls, userVotes).stats ==>
              AccPolls(polls, userVotes).stats[k].name == FirstLabelOn(polls, userVotes, k).value
    decreases |polls|
  {
    if polls != [] {
      var init, p := polls[..|polls| - 1], polls[|polls| - 1];
      AccPollsLabel(init, userVotes, k);
      match Opinion(p, userVotes)
      case None =>
      case Some(y) =>
        AccResultsLabel(AccPolls(init, userVotes), p.results, y, VoteFlip(p.questions), k);
    }
  }

  /** Faction `k` has a tally on some poll the citizen answered yes or no. */
  ghost predicate Seen(polls: seq<Poll>, userVotes: map<int, UserVote>, k: int) {
    exists i, j | 0 <= i < |polls| && 0 <= j < |polls[i].results| ::
      Opinion(polls[i], userVotes).Some? && polls[i].results[j].fractionId == k
  }

  /**
   * What `partyStats` holds after the loops: one entry per faction seen on an answered
   * poll; its total is the number of counted tallies and its matches the number of
   * agreeing ones, and matches never exceed the total.
   */
  lemma {:induction false} AccPollsFacts(polls: seq<Poll>, userVotes: map<int, UserVote>, k: int)
    ensures Valid(AccPolls(polls, userVotes))
    ensures TotalOf(AccPolls(polls, userVotes), k) == CountedOn(polls, userVotes, k)
    ensures MatchesOf(AccPolls(polls, userVotes), k) == MatchedOn(polls, userVotes, k)
    ensures k in AccPolls(polls, userVotes).stats <==> Seen(polls, userVotes, k)
    decreases |polls|
  {
    if polls != [] {
      var init, p := polls[..|polls| - 1], polls[|polls| - 1];
      AccPollsFacts(init, userVotes, k);
      var t := AccPolls(init, userVotes);
      match Opinion(p, userVotes)
      case None =>
        SeenSkip(polls, userVotes, k);
      case Some(y) =>
        AccResultsFacts(t, p.results, y, VoteFlip(p.questions), k);
        SeenSnoc(polls, userVotes, k);
    }
  }

  /** An unanswered last poll adds no faction to those seen. */
  lemma SeenSkip(polls: seq<Poll>, userVotes: map<int, UserVote>, k: int)
    requires polls != [] && Opinion(polls[|polls| - 1], userVotes).None?
    ensures Seen(polls, userVotes, k) <==> Seen(polls[..|polls| - 1], userVotes, k)
  {
    var init := polls[..|polls| - 1];
    if Seen(polls, userVotes, k) {
      var i, j :| 0 <= i < |polls| && 0 <= j < |polls[i].results| &&
        Opinion(polls[i], userVotes).Some? && polls[i].results[j].fractionId == k;
      assert i < |init| && init[i] == polls[i];
    }
    if Seen(init, userVotes, k) {
      var i, j :| 0 <= i < |init| && 0 <= j < |init[i].results| &&
        Opinion(init[i], userVotes).Some? && init[i].results[j].fractionId == k;
      assert polls[i] == init[i];
    }
  }

  /** An answered last poll adds the factions of its results to those seen. */
  lemma SeenSnoc(polls: seq<Poll>, userVotes: map<int, UserVote>, k: int)
    requires polls != [] && Opinion(polls[|polls| - 1], userVotes).Some?
    ensures var p := polls[|polls| - 1];
      Seen(polls, userVotes, k) <==>
        Seen(polls[..|polls| - 1], userVotes, k) || exists j | 0 <= j < |p.results| :: p.results[j].fractionId == k
  {
    var init, p := polls[..|polls| - 1], polls[|polls| - 1];
    if Seen(polls, userVotes, k) {
      var i, j :| 0 <= i < |polls| && 0 <= j < |polls[i].results| &&
        Opinion(polls[i], userVotes).Some? && polls[i].results[j].fractionId == k;
      if i < |init| { assert init[i] == polls[i]; }
    }
    if Seen(init, userVotes, k) {
      var i, j :| 0 <= i < |init| && 0 <= j < |init[i].results| &&
        Opinion(init[i], userVotes).Some? && init[i].results[j].fractionId == k;
      assert polls[i] == init[i];
    }
    if exists j | 0 <= j < |p.results| :: p.results[j].fractionId == k {
      var j :| 0 <= j < |p.results| && p.results[j].fractionId == k;
      assert polls[|polls| - 1] == p;
    }
  }

  /** Polls the citizen did not answer yes or no: dropping them changes nothing. */
  predicate Answered(userVotes: map<int, UserVote>, poll: Poll) {
    Opinion(poll, userVotes).Some?
  }

  lemma {:induction false} UnansweredPollsIgnored(polls: seq<Poll>, userVotes: map<int, UserVote>)
    ensures AccPolls(polls, userVotes) == AccPolls(Filter(polls, p => Answered(userVotes, p)), userVotes)
    decreases |polls|
  {
    if polls != [] {
      var init, p := polls[..|polls| - 1], polls[|polls| - 1];
      UnansweredPollsIgnored(init, userVotes);
      var f := Filter(init, p => Answered(userVotes, p));
      if Answered(userVotes, p) {
        assert Filter(polls, p => Answered(userVotes, p)) == f + [p];
        assert (f + [p])[..|f + [p]| - 1] == f;
      }
    }
  }

  // ---------------------------------------------------------------------------
  // From `partyStats` to the sorted result list

  /** Keys JavaScript treats as array indices; `Object.entries` lists those first, ascending. */
  predicate IsIndexKey(k: int) {
    0 <= k < 0xFFFF_FFFF
  }

  predicate IntLe(a: int, b: int) { a <= b }

  /** `Object.entries(partyStats)` key order: index keys ascending, then the rest in creation order. */
  function EntryOrder(t: StatsTable): seq<int> {
    Sort(Filter(t.order, IsIndexKey), IntLe) + Filter(t.order, k => !IsIndexKey(k))
  }

  /** The `.map` step: one result per entry, with the rounded percentage. */
  function ToRow(k: int, s: Stats): PartyMatch {
    PartyMatch(k, s.name, s.matches, s.total, if s.total > 0 then RoundPercent(s.matches, s.total) else 0)
  }

  /** `b.percentage - a.percentage || b.total_votes - a.total_votes` is not positive: `a` may precede `b`. */
  predicate RowLe(a: PartyMatch, b: PartyMatch) {
    a.percentage > b.percentage || (a.percentage == b.percentage && a.totalVotes >= b.totalVotes)
  }

  predicate IdLt(a: PartyMatch, b: PartyMatch) { a.fractionId < b.fractionId }

  predicate HasVotes(r: PartyMatch) { r.totalVotes > 0 }

  /** The index keys, sorted: table keys, each once. */
  lemma IndexKeysPart(t: StatsTable)
    requires Valid(t)
    ensures var a := Sort(Filter(t.order, IsIndexKey), IntLe);
      && Distinct(a)
      && forall i | 0 <= i < |a| :: a[i] in t.stats && IsIndexKey(a[i])
  {
    var idx := Filter(t.order, IsIndexKey);
    var a := Sort(idx, IntLe);
    forall i | 0 <= i < |a| ensures a[i] in t.stats && IsIndexKey(a[i]) {
      assert a[i] in multiset(idx);
      var j :| 0 <= j < |idx| && idx[j] == a[i];
      var m :| 0 <= m < |t.order| && t.order[m] == idx[j];
    }
    DistinctFilter(t.order, IsIndexKey);
    DistinctPermutation(idx, a);
  }

  /** The other keys, in creation order: table keys, each once. */
  lemma OtherKeysPart(t: StatsTable)
    requires Valid(t)
    ensures var b := Filter(t.order, k => !IsIndexKey(k));
      && Distinct(b)
      && forall j | 0 <= j < |b| :: b[j] in t.stats && !IsIndexKey(b[j])
  {
    var b := Filter(t.order, k => !IsIndexKey(k));
    forall j | 0 <= j < |b| ensures b[j] in t.stats && !IsIndexKey(b[j]) {
      assert b[j] in t.order;
    }
    DistinctFilter(t.order, k => !IsIndexKey(k));
  }

  lemma EntryOrderFacts(t: StatsTable)
    requires Valid(t)
    ensures Distinct(EntryOrder(t))
    ensures forall i | 0 <= i < |EntryOrder(t)| :: EntryOrder(t)[i] in t.stats
    ensures forall k | k in t.stats :: k in EntryOrder(t)
  {
    var a := Sort(Filter(t.order, IsIndexKey), IntLe);
    var b := Filter(t.order, k => !IsIndexKey(k));
    IndexKeysPart(t);
    OtherKeysPart(t);
    assert forall i, j | 0 <= i < |a| && 0 <= j < |b| :: a[i] != b[j];
    DistinctConcat(a, b);
    AllInConcat(a, b, k => k in t.stats);
    EntryOrderCovers(t);
  }

  /** Every key of the table is listed by `Object.entries`. */
  lemma EntryOrderCovers(t: StatsTable)
    requires Valid(t)
    ensures forall k | k in t.stats :: k in EntryOrder(t)
  {
    var idx := Filter(t.order, IsIndexKey);
    var a := Sort(idx, IntLe);
    var b := Filter(t.order, k => !IsIndexKey(k));
    forall k | k in t.stats ensures k in a + b {
      if IsIndexKey(k) {
        assert k in idx;
        assert k in multiset(a);
      } else {
        assert k in b;
      }
    }
  }

  /** The rows before filtering and sorting, in `Object.entries` order. */
  function Rows(t: StatsTable): (rows: seq<PartyMatch>)
    requires Valid(t)
    ensures |rows| == |EntryOrder(t)|
    ensures forall i | 0 <= i < |rows| :: EntryOrder(t)[i] in t.stats && rows[i] == ToRow(EntryOrder(t)[i], t.stats[EntryOrder(t)[i]])
  {
    EntryOrderFacts(t);
    var ks := EntryOrder(t);
    seq(|ks|, i requires 0 <= i < |ks| => ToRow(ks[i], t.stats[ks[i]]))
  }

  /** The `.map(...).filter(...).sort(...)` chain. */
  function Finish(t: StatsTable): seq<PartyMatch>
    requires Valid(t)
  {
    Sort(Filter(Rows(t), HasVotes), RowLe)
  }

  lemma RowLeTotalPreorder()
    ensures TotalPreorder(RowLe)
  {
  }

  lemma RowsDistinct(t: StatsTable)
    requires Valid(t)
    ensures Distinct(Rows(t))
  {
    var rows0 := Rows(t);
    EntryOrderFacts(t);
    forall i, j | 0 <= i < j < |rows0| ensures rows0[i] != rows0[j] {
      assert rows0[i].fractionId == EntryOrder(t)[i];
      assert rows0[j].fractionId == EntryOrder(t)[j];
    }
  }

  lemma FinishRowFacts(t: StatsTable, i: int)
    requires Valid(t) && 0 <= i < |Finish(t)|
    ensures var row := Finish(t)[i];
      row.fractionId in t.stats && row == ToRow(row.fractionId, t.stats[row.fractionId]) && row.totalVotes > 0
  {
    var rows0 := Rows(t);
    var filtered := Filter(rows0, HasVotes);
    var rows := Finish(t);
    assert rows[i] in multiset(filtered);
    assert rows[i] in filtered;
    var m :| 0 <= m < |rows0| && rows0[m] == rows[i];
  }

  lemma FinishCovers(t: StatsTable, k: int)
    requires Valid(t) && k in t.stats && t.stats[k].total > 0
    ensures exists i | 0 <= i < |Finish(t)| :: Finish(t)[i].fractionId == k
  {
    EntryOrderFacts(t);
    var rows0 := Rows(t);
    var filtered := Filter(rows0, HasVotes);
    var rows := Finish(t);
    var m :| 0 <= m < |EntryOrder(t)| && EntryOrder(t)[m] == k;
    assert HasVotes(rows0[m]);
    assert rows0[m] in filtered;
    assert rows0[m] in multiset(rows);
    var i :| 0 <= i < |rows| && rows[i] == rows0[m];
  }

  lemma FinishDistinctIds(t: StatsTable)
    requires Valid(t)
    ensures var rows := Finish(t); forall i, j | 0 <= i < j < |rows| :: rows[i].fractionId != rows[j].fractionId
  {
    var rows := Finish(t);
    RowsDistinct(t);
    DistinctFilter(Rows(t), HasVotes);
    DistinctMultiset(Filter(Rows(t), HasVotes));
    DistinctMultiset(rows);
    forall i, j | 0 <= i < j < |rows| ensures rows[i].fractionId != rows[j].fractionId {
      FinishRowFacts(t, i);
      FinishRowFacts(t, j);
    }
  }

  /**
   * What the returned list holds: exactly one row per faction with a non-zero total, with
   * its counters and its round-half-up percentage, ordered by percentage and then by
   * total, both descending.
   */
  lemma FinishFacts(t: StatsTable)
    requires Valid(t)
    ensures var rows := Finish(t);
      && (forall i | 0 <= i < |rows| ::
            && rows[i].fractionId in t.stats
            && rows[i] == ToRow(rows[i].fractionId, t.stats[rows[i].fractionId])
            && rows[i].totalVotes > 0)
      && (forall k | k in t.stats && t.stats[k].total > 0 :: exists i | 0 <= i < |rows| :: rows[i].fractionId == k)
      && (forall i, j | 0 <= i < j < |rows| :: rows[i].fractionId != rows[j].fractionId)
      && SortedBy(rows, RowLe)
  {
    var rows := Finish(t);
    forall i | 0 <= i < |rows|
      ensures rows[i].fractionId in t.stats && rows[i] == ToRow(rows[i].fractionId, t.stats[rows[i].fractionId])
      ensures rows[i].totalVotes > 0
    {
      FinishRowFacts(t, i);
    }
    forall k | k in t.stats && t.stats[k].total > 0 ensures exists i | 0 <= i < |rows| :: rows[i].fractionId == k {
      FinishCovers(t, k);
    }
    FinishDistinctIds(t);
    RowLeTotalPreorder();
    SortStable(Filter(Rows(t), HasVotes), RowLe, (a: PartyMatch, b: PartyMatch) => true);
  }

  // ---------------------------------------------------------------------------
  // The whole function

  /**
   * `calculatePartyMatches`. A row for faction `k` is returned exactly when `k` has a
   * counted tally on some poll the citizen answered yes or no; its total is the number of
   * such tallies, its match count the number whose majority agrees with the citizen under
   * the poll's flip, and its percentage that share rounded half up. Rows are ordered by
   * percentage, then total, both descending.
   */
  method CalculatePartyMatches(polls: seq<Poll>, userVotes: map<int, UserVote>)
    returns (rows: seq<PartyMatch>)
    ensures forall i | 0 <= i < |rows| ::
      && rows[i].totalVotes == CountedOn(polls, userVotes, rows[i].fractionId)
      && rows[i].matchCount == MatchedOn(polls, userVotes, rows[i].fractionId)
      && 0 < rows[i].totalVotes && rows[i].matchCount <= rows[i].totalVotes
      && rows[i].percentage == RoundPercent(rows[i].matchCount, rows[i].totalVotes)
      && rows[i].percentage <= 100
    ensures forall k :: CountedOn(polls, userVotes, k) > 0 ==> exists i | 0 <= i < |rows| :: rows[i].fractionId == k
    ensures forall i, j | 0 <= i < j < |rows| :: rows[i].fractionId != rows[j].fractionId
    ensures forall i, j | 0 <= i < j < |rows| :: RowLe(rows[i], rows[j])
    ensures forall i | 0 <= i < |rows| :: FirstLabelOn(polls, userVotes, rows[i].fractionId) == Some(rows[i].fractionLabel)
    ensures AllIndexIds(polls) ==> forall i, j | 0 <= i < j < |rows| ::
      rows[i].percentage == rows[j].percentage && rows[i].totalVotes == rows[j].totalVotes ==>
        rows[i].fractionId < rows[j].fractionId
    ensures Valid(AccPolls(polls, userVotes)) && rows == Finish(AccPolls(polls, userVotes))
  {
    var stats, order := Accumulate(polls, userVotes);
    AccPollsCounts(polls, userVotes, 0);
    rows := Finish(StatsTable(stats, order));
    FinishFacts(StatsTable(stats, order));
    FinishCounts(polls, userVotes);
    FinishCoversCounted(polls, userVotes);
    FinishLabels(polls, userVotes);
    if AllIndexIds(polls) {
      FinishIdOrder(polls, userVotes);
    }
  }

  /** Each returned row carries its faction's independent counts and its rounded share. */
  lemma FinishCounts(polls: seq<Poll>, userVotes: map<int, UserVote>)
    ensures Valid(AccPolls(polls, userVotes))
    ensures var rows := Finish(AccPolls(polls, userVotes));
      forall i | 0 <= i < |rows| ::
        && rows[i].totalVotes == CountedOn(polls, userVotes, rows[i].fractionId)
        && rows[i].matchCount == MatchedOn(polls, userVotes, rows[i].fractionId)
        && 0 < rows[i].totalVotes && rows[i].matchCount <= rows[i].totalVotes
        && rows[i].percentage == RoundPercent(rows[i].matchCount, rows[i].totalVotes)
  {
    var t := AccPolls(polls, userVotes);
    AccPollsCounts(polls, userVotes, 0);
    var rows := Finish(t);
    forall i | 0 <= i < |rows|
      ensures rows[i].totalVotes == CountedOn(polls, userVotes, rows[i].fractionId)
      ensures rows[i].matchCount == MatchedOn(polls, userVotes, rows[i].fractionId)
      ensures 0 < rows[i].totalVotes && rows[i].matchCount <= rows[i].totalVotes
      ensures rows[i].percentage == RoundPercent(rows[i].matchCount, rows[i].totalVotes)
    {
      FinishRowFacts(t, i);
      AccPollsCounts(polls, userVotes, rows[i].fractionId);
    }
  }

  /** Every faction with a counted tally on an answered poll has a row. */
  lemma FinishCoversCounted(polls: seq<Poll>, userVotes: map<int, UserVote>)
    ensures Valid(AccPolls(polls, userVotes))
    ensures var rows := Finish(AccPolls(polls, userVotes));
      forall k :: CountedOn(polls, userVotes, k) > 0 ==> exists i | 0 <= i < |rows| :: rows[i].fractionId == k
  {
    var t := AccPolls(polls, userVotes);
    AccPollsCounts(polls, userVotes, 0);
    forall k | CountedOn(polls, userVotes, k) > 0 ensures exists i | 0 <= i < |Finish(t)| :: Finish(t)[i].fractionId == k {
      AccPollsCounts(polls, userVotes, k);
      FinishCovers(t, k);
    }
  }

  /** Every faction id on every poll is an array index, as database ids are. */
  predicate AllIndexIds(polls: seq<Poll>) {
    forall i, j | 0 <= i < |polls| && 0 <= j < |polls[i].results| :: IsIndexKey(polls[i].results[j].fractionId)
  }

  /** Each returned row carries the label of its faction's first tally on an answered poll. */
  lemma FinishLabels(polls: seq<Poll>, userVotes: map<int, UserVote>)
    ensures Valid(AccPolls(polls, userVotes))
    ensures var rows := Finish(AccPolls(polls, userVotes));
      forall i | 0 <= i < |rows| :: FirstLabelOn(polls, userVotes, rows[i].fractionId) == Some(rows[i].fractionLabel)
  {
    var t := AccPolls(polls, userVotes);
    AccPollsCounts(polls, userVotes, 0);
    var rows := Finish(t);
    forall i | 0 <= i < |rows| ensures FirstLabelOn(polls, userVotes, rows[i].fractionId) == Some(rows[i].fractionLabel) {
      FinishRowFacts(t, i);
      AccPollsLabel(polls, userVotes, rows[i].fractionId);
    }
  }

  /** With array-index ids, rows tied on percentage and total come in ascending faction id. */
  lemma FinishIdOrder(polls: seq<Poll>, userVotes: map<int, UserVote>)
    requires AllIndexIds(polls)
    ensures Valid(AccPolls(polls, userVotes))
    ensures var rows := Finish(AccPolls(polls, userVotes));
      forall i, j | 0 <= i < j < |rows| ::
        rows[i].percentage == rows[j].percentage && rows[i].totalVotes == rows[j].totalVotes ==>
          rows[i].fractionId < rows[j].fractionId
  {
    var t := AccPolls(polls, userVotes);
    AccPollsCounts(polls, userVotes, 0);
    forall k | k in t.stats ensures IsIndexKey(k) {
      AccPollsFacts(polls, userVotes, k);
      var i, j :| 0 <= i < |polls| && 0 <= j < |polls[i].results| &&
        Opinion(polls[i], userVotes).Some? && polls[i].results[j].fractionId == k;
    }
    FinishTieOrder(t);
  }

  /** The counts of `AccPollsFacts`, without the membership condition. */
  lemma AccPollsCounts(polls: seq<Poll>, userVotes: map<int, UserVote>, k: int)
    ensures Valid(AccPolls(polls, userVotes))
    ensures TotalOf(AccPolls(polls, userVotes), k) == CountedOn(polls, userVotes, k)
    ensures MatchesOf(AccPolls(polls, userVotes), k) == MatchedOn(polls, userVotes, k)
  {
    AccPollsFacts(polls, userVotes, k);
  }

  lemma EntryOrderAscending(t: StatsTable)
    requires Valid(t)
    requires forall k | k in t.stats :: IsIndexKey(k)
    ensures var ks := EntryOrder(t); forall i, j | 0 <= i < j < |ks| :: ks[i] < ks[j]
  {
    EntryOrderFacts(t);
    var idx := Filter(t.order, IsIndexKey);
    var b := Filter(t.order, k => !IsIndexKey(k));
    FilterNone(t.order, k => !IsIndexKey(k));
    assert EntryOrder(t) == Sort(idx, IntLe) + b;
    SortStable(idx, IntLe, (a: int, b: int) => true);
  }

  /**
   * Remaining ties are in ascending faction id when every id is an array index (as
   * faction ids are): `Object.entries` lists such keys ascending and the sort is stable.
   */
  lemma FinishTieOrder(t: StatsTable)
    requires Valid(t)
    requires forall k | k in t.stats :: IsIndexKey(k)
    ensures var rows := Finish(t);
      forall i, j | 0 <= i < j < |rows| ::
        || rows[i].percentage > rows[j].percentage
        || (rows[i].percentage == rows[j].percentage && rows[i].totalVotes > rows[j].totalVotes)
        || (rows[i].percentage == rows[j].percentage && rows[i].totalVotes == rows[j].totalVotes
            && rows[i].fractionId < rows[j].fractionId)
  {
    EntryOrderAscending(t);
    var rows0 := Rows(t);
    assert SortedBy(rows0, IdLt);
    FilterSorted(rows0, HasVotes, IdLt);
    RowLeTotalPreorder();
    SortStable(Filter(rows0, HasVotes), RowLe, IdLt);
  }

  lemma {:induction false} FilterSorted<T>(s: seq<T>, p: T -> bool, rel: (T, T) -> bool)
    requires SortedBy(s, rel)
    ensures SortedBy(Filter(s, p), rel)
    decreases |s|
  {
    if s != [] {
      var init := s[..|s| - 1];
      assert SortedBy(init, rel);
      FilterSorted(init, p, rel);
      var f := Filter(init, p);
      forall i | 0 <= i < |f| ensures rel(f[i], s[|s| - 1]) {
        var m :| 0 <= m < |init| && init[m] == f[i];
        assert s[m] == init[m];
      }
    }
  }
}
