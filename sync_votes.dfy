/**
 * `syncVotesForPoll` of the poll synchroniser: it pages through the individual ballots
 * of one poll, tallies them per faction and upserts one `vote_results` row per faction.
 */
module SyncVotes {
  import opened Wrappers
  import opened Tallies
  import opened Sequences

  /** Ballots requested per page. */
  const PageSize: nat := 100
  /** The last page index the safety break still lets through. */
  const LastPage: nat := 20

  /** A ballot's faction: its id (missing for members without a faction) and its label. */
  datatype Fraction = Fraction(id: Option<int>, name: string)

  /** One ballot as the open-data interface reports it. */
  datatype Ballot = Ballot(fraction: Option<Fraction>, vote: string)

  /**
   * The reply to the request for one page: a non-ok status, a body whose `data` is
   * not an array, or the page's ballots.
   */
  datatype VotesPage = PageFailed(status: int) | NoData | Page(ballots: seq<Ballot>)

  // ---------------------------------------------------------------------------
  // Pagination
  // ---------------------------------------------------------------------------

  /** Whether the loop asks for the page after `page`, having received `b` for it. */
  predicate Continues(page: nat, b: seq<Ballot>) {
    |b| == PageSize && page < LastPage
  }

  /**
   * The ballots collected from page `page` on, or the status of the failing request
   * that throws.
   */
  function Collect(fetch: nat -> VotesPage, page: nat): Result<seq<Ballot>, int>
    requires page <= LastPage
    decreases LastPage - page
  {
    match fetch(page)
    case PageFailed(status) => Err(status)
    case NoData => Ok([])
    case Page(b) =>
      if Continues(page, b) then
        match Collect(fetch, page + 1)
        case Ok(rest) => Ok(b + rest)
        case Err(status) => Err(status)
      else Ok(b)
  }

  /** How many pages are requested from page `page` on. */
  function PagesRequested(fetch: nat -> VotesPage, page: nat): (n: nat)
    requires page <= LastPage
    ensures 1 <= n <= LastPage + 1 - page
    decreases LastPage - page
  {
    match fetch(page)
    case Page(b) => if Continues(page, b) then 1 + PagesRequested(fetch, page + 1) else 1
    case _ => 1
  }

  /** `Collect` with the ballots gathered so far in front. */
  function Prepend(done: seq<Ballot>, r: Result<seq<Ballot>, int>): Result<seq<Ballot>, int> {
    match r
    case Ok(rest) => Ok(done + rest)
    case Err(status) => Err(status)
  }

  lemma PrependTwice(a: seq<Ballot>, b: seq<Ballot>, r: Result<seq<Ballot>, int>)
    ensures Prepend(a, Prepend(b, r)) == Prepend(a + b, r)
    ensures Prepend([], r) == r
  {
    if r.Ok? {
      assert a + (b + r.value) == a + b + r.value;
      assert [] + r.value == r.value;
    }
  }

  /**
   * The paging loop: page after page until a page is short, has no data array, or
   * the safety break after page 20 fires; a non-ok status throws.
   */
  method FetchAllVotes(fetch: nat -> VotesPage) returns (r: Result<seq<Ballot>, int>, requests: nat)
    ensures r == Collect(fetch, 0)
    ensures requests == PagesRequested(fetch, 0) && requests <= LastPage + 1
  {
    var all: seq<Ballot> := [];
    var page: nat := 0;
    var hasMore := true;
    requests := 0;
    PrependTwice([], [], Collect(fetch, 0));
    while hasMore
      invariant page <= LastPage
      invariant hasMore ==> Collect(fetch, 0) == Prepend(all, Collect(fetch, page))
      invariant hasMore ==> PagesRequested(fetch, 0) == requests + PagesRequested(fetch, page)
      invariant !hasMore ==> Collect(fetch, 0) == Ok(all) && PagesRequested(fetch, 0) == requests
      decreases (if hasMore then 1 else 0), LastPage - page
    {
      requests := requests + 1;
      var reply := fetch(page);
      if reply.PageFailed? {
        return Err(reply.status), requests;
      }
      if reply.NoData? {
        assert all + [] == all;
        hasMore := false;
        continue;
      }
      var b := reply.ballots;
      if Continues(page, b) {
        PrependTwice(all, b, Collect(fetch, page + 1));
      } else {
        assert all + b + [] == all + b;
      }
      all := all + b;
      hasMore := |b| == PageSize;
      page := page + 1;
      if page > LastPage {
        break;
      }
    }
    r := Ok(all);
  }

  /**
   * When no page holds more than the 100 ballots asked for, at most 21 pages' worth is
   * collected: the loop stops after page index 20.
   */
  lemma {:induction false} CollectBound(fetch: nat -> VotesPage, page: nat)
    requires page <= LastPage
    requires forall p :: fetch(p).Page? ==> |fetch(p).ballots| <= PageSize
    ensures Collect(fetch, page).Ok? ==> |Collect(fetch, page).value| <= (LastPage + 1 - page) * PageSize
    decreases LastPage - page
  {
    if fetch(page).Page? && Continues(page, fetch(page).ballots) {
      CollectBound(fetch, page + 1);
    }
  }

  // ---------------------------------------------------------------------------
  // Tallying per faction
  // ---------------------------------------------------------------------------

  /** The faction a ballot counts for: none when the faction or its id is missing or 0. */
  function Key(b: Ballot): (k: Option<int>)
    ensures k.Some? ==> k.value != 0
  {
    match b.fraction
    case None => None
    case Some(f) => if f.id.None? || f.id.value == 0 then None else f.id
  }

  function LabelOf(b: Ballot): string {
    if b.fraction.Some? then b.fraction.value.name else ""
  }

  /** The faction ids in the order in which they first appear among the ballots. */
  function Keys(ballots: seq<Ballot>): (ks: seq<int>)
    ensures Distinct(ks)
    ensures forall id :: id in ks <==> exists j | 0 <= j < |ballots| :: Key(ballots[j]) == Some(id)
    decreases |ballots|
  {
    if ballots == [] then []
    else
      var init, last := ballots[..|ballots| - 1], ballots[|ballots| - 1];
      assert forall j | 0 <= j < |init| :: init[j] == ballots[j];
      var ks := Keys(init);
      match Key(last)
      case None => ks
      case Some(id) => if id in ks then ks else ks + [id]
  }

  /** How many ballots of faction `id` carry the vote `kind`. */
  function Count(ballots: seq<Ballot>, id: int, kind: string): nat
    decreases |ballots|
  {
    if ballots == [] then 0
    else
      var last := ballots[|ballots| - 1];
      Count(ballots[..|ballots| - 1], id, kind) + (if Key(last) == Some(id) && last.vote == kind then 1 else 0)
  }

  /** The label the first ballot of faction `id` carries. */
  function FirstLabel(ballots: seq<Ballot>, id: int): string
    requires id in Keys(ballots)
    decreases |ballots|
  {
    var init := ballots[..|ballots| - 1];
    if id in Keys(init) then FirstLabel(init, id) else LabelOf(ballots[|ballots| - 1])
  }

  /** The row of faction `id`: its first label and one counter per vote kind. */
  function TallyOf(ballots: seq<Ballot>, id: int): VoteResult
    requires id in Keys(ballots)
  {
    VoteResult(id, FirstLabel(ballots, id),
      Count(ballots, id, "yes"), Count(ballots, id, "no"),
      Count(ballots, id, "abstain"), Count(ballots, id, "no_show"))
  }

  /** The rows `Array.from(fractionMap.values())`: one per faction, in first-appearance order. */
  function TalliesOf(ballots: seq<Ballot>): (rows: seq<VoteResult>)
    ensures |rows| == |Keys(ballots)|
  {
    var ks := Keys(ballots);
    seq(|ks|, i requires 0 <= i < |ks| => TallyOf(ballots, ks[i]))
  }

  /** The row for the switch: one of the four counters goes up, an unknown kind counts nothing. */
  function CountVote(r: VoteResult, vote: string): VoteResult {
    if vote == "yes" then r.(yes := r.yes + 1)
    else if vote == "no" then r.(no := r.no + 1)
    else if vote == "abstain" then r.(abstain := r.abstain + 1)
    else if vote == "no_show" then r.(noShow := r.noShow + 1)
    else r
  }

  /** How the row of faction `id` changes when ballot `x` is tallied after `p`. */
  lemma TallyStep(p: seq<Ballot>, x: Ballot, id: int)
    requires id in Keys(p + [x])
    ensures Key(x) != Some(id) ==> id in Keys(p) && TallyOf(p + [x], id) == TallyOf(p, id)
    ensures Key(x) == Some(id) && id in Keys(p) ==> TallyOf(p + [x], id) == CountVote(TallyOf(p, id), x.vote)
    ensures Key(x) == Some(id) && id !in Keys(p) ==>
      TallyOf(p + [x], id) == CountVote(VoteResult(id, LabelOf(x), 0, 0, 0, 0), x.vote)
  {
    var q := p + [x];
    assert q[..|q| - 1] == p;
    if Key(x) == Some(id) && id !in Keys(p) {
      CountNone(p, id, "yes");
      CountNone(p, id, "no");
      CountNone(p, id, "abstain");
      CountNone(p, id, "no_show");
    }
  }

  lemma {:induction false} CountNone(ballots: seq<Ballot>, id: int, kind: string)
    requires id !in Keys(ballots)
    ensures Count(ballots, id, kind) == 0
    decreases |ballots|
  {
    if ballots != [] {
      var init := ballots[..|ballots| - 1];
      assert forall j | 0 <= j < |init| :: init[j] == ballots[j];
      CountNone(init, id, kind);
    }
  }

  /**
   * The aggregation loop over a `Map` keyed by faction id, whose values are listed in
   * insertion order: one row per faction, in first-appearance order, with each of its
   * ballots counted once under its kind.
   */
  method Aggregate(ballots: seq<Ballot>) returns (results: seq<VoteResult>)
    ensures results == TalliesOf(ballots)
  {
    var rows: map<int, VoteResult> := map[];
    var order: seq<int> := [];
    var i := 0;
    while i < |ballots|
      invariant 0 <= i <= |ballots|
      invariant TallyState(ballots[..i], rows, order)
    {
      var x := ballots[i];
      match Key(x) {
        case None =>
          StepUnkeyed(ballots, i, rows, order);
        case Some(id) =>
          if id !in rows {
            StepNewFaction(ballots, i, rows, order);
            rows := rows[id := CountVote(VoteResult(id, LabelOf(x), 0, 0, 0, 0), x.vote)];
            order := order + [id];
          } else {
            StepKnownFaction(ballots, i, rows, order);
            rows := rows[id := CountVote(rows[id], x.vote)];
          }
      }
      i := i + 1;
    }
    assert ballots[..|ballots|] == ballots;
    TallyStateRows(ballots, rows, order);
    results := seq(|order|, k requires 0 <= k < |order| => rows[order[k]]);
  }

  /** The finished loop state lists, in first-seen order, the rows `TalliesOf` gives. */
  lemma TallyStateRows(ballots: seq<Ballot>, rows: map<int, VoteResult>, order: seq<int>)
    requires TallyState(ballots, rows, order)
    ensures |order| == |TalliesOf(ballots)|
    ensures forall k | 0 <= k < |order| :: order[k] in rows && rows[order[k]] == TalliesOf(ballots)[k]
  {
    forall k | 0 <= k < |order| ensures order[k] in rows && rows[order[k]] == TalliesOf(ballots)[k] {
      assert order[k] in order;
    }
  }

  /** The loop's state after tallying the ballots `p`. */
  ghost predicate TallyState(p: seq<Ballot>, rows: map<int, VoteResult>, order: seq<int>) {
    && order == Keys(p)
    && (forall id :: id in rows <==> id in order)
    && (forall id | id in rows :: id in Keys(p) && rows[id] == TallyOf(p, id))
  }

  lemma StepUnkeyed(b: seq<Ballot>, i: nat, rows: map<int, VoteResult>, order: seq<int>)
    requires i < |b| && TallyState(b[..i], rows, order) && Key(b[i]).None?
    ensures TallyState(b[..i + 1], rows, order)
  {
    var p, x := b[..i], b[i];
    assert b[..i + 1] == p + [x];
    assert (p + [x])[..|p|] == p;
    forall id | id in rows ensures TallyOf(p + [x], id) == TallyOf(p, id) {
      TallyStep(p, x, id);
    }
  }

  lemma StepNewFaction(b: seq<Ballot>, i: nat, rows: map<int, VoteResult>, order: seq<int>)
    requires i < |b| && TallyState(b[..i], rows, order) && Key(b[i]).Some? && Key(b[i]).value !in rows
    ensures var x, id := b[i], Key(b[i]).value;
      TallyState(b[..i + 1], rows[id := CountVote(VoteResult(id, LabelOf(x), 0, 0, 0, 0), x.vote)], order + [id])
  {
    var p, x := b[..i], b[i];
    var id := Key(x).value;
    assert b[..i + 1] == p + [x];
    assert (p + [x])[..|p|] == p;
    assert Keys(p + [x]) == order + [id];
    TallyStep(p, x, id);
    forall k | k in rows ensures TallyOf(p + [x], k) == TallyOf(p, k) {
      TallyStep(p, x, k);
    }
  }

  lemma StepKnownFaction(b: seq<Ballot>, i: nat, rows: map<int, VoteResult>, order: seq<int>)
    requires i < |b| && TallyState(b[..i], rows, order) && Key(b[i]).Some? && Key(b[i]).value in rows
    ensures var x, id := b[i], Key(b[i]).value;
      TallyState(b[..i + 1], rows[id := CountVote(rows[id], x.vote)], order)
  {
    var p, x := b[..i], b[i];
    var id := Key(x).value;
    assert b[..i + 1] == p + [x];
    assert (p + [x])[..|p|] == p;
    assert Keys(p + [x]) == order;
    TallyStep(p, x, id);
    forall k | k in rows && k != id ensures TallyOf(p + [x], k) == TallyOf(p, k) {
      TallyStep(p, x, k);
    }
  }

  /** The vote kinds the switch counts. */
  predicate Known(vote: string) {
    vote == "yes" || vote == "no" || vote == "abstain" || vote == "no_show"
  }

  /** How many ballots of faction `id` carry a known kind. */
  function CountKnown(ballots: seq<Ballot>, id: int): nat
    decreases |ballots|
  {
    if ballots == [] then 0
    else
      var last := ballots[|ballots| - 1];
      CountKnown(ballots[..|ballots| - 1], id) + (if Key(last) == Some(id) && Known(last.vote) then 1 else 0)
  }

  /** A faction's row total is the number of its ballots of a known kind. */
  lemma {:induction false} TotalIsKnownBallots(ballots: seq<Ballot>, id: int)
    requires id in Keys(ballots)
    ensures TallyOf(ballots, id).Total() == CountKnown(ballots, id)
  {
    TotalSum(ballots, id);
  }

  lemma {:induction false} TotalSum(ballots: seq<Ballot>, id: int)
    ensures Count(ballots, id, "yes") + Count(ballots, id, "no") + Count(ballots, id, "abstain")
      + Count(ballots, id, "no_show") == CountKnown(ballots, id)
    decreases |ballots|
  {
    if ballots != [] {
      TotalSum(ballots[..|ballots| - 1], id);
    }
  }

  /** The label of a faction's row is the one on its first ballot. */
  lemma {:induction false} FirstLabelIsFirst(ballots: seq<Ballot>, id: int, j: nat)
    requires j < |ballots| && Key(ballots[j]) == Some(id)
    requires forall m | 0 <= m < j :: Key(ballots[m]) != Some(id)
    ensures id in Keys(ballots) && FirstLabel(ballots, id) == LabelOf(ballots[j])
    decreases |ballots|
  {
    var init := ballots[..|ballots| - 1];
    assert forall m | 0 <= m < |init| :: init[m] == ballots[m];
    if j < |init| {
      FirstLabelIsFirst(init, id, j);
    } else {
      assert id !in Keys(init);
    }
  }

  /** Keyed: a ballot that counts for some faction. */
  predicate Keyed(b: Ballot) { Key(b).Some? }

  /** Ballots without a faction (or with faction id 0) change no row. */
  lemma UnkeyedIgnored(ballots: seq<Ballot>)
    ensures TalliesOf(Filter(ballots, Keyed)) == TalliesOf(ballots)
  {
    var g := Filter(ballots, Keyed);
    var ks := Keys(ballots);
    KeysAgree(ballots, g);
    forall k | 0 <= k < |ks| ensures TalliesOf(g)[k] == TalliesOf(ballots)[k] {
      TallyAgree(ballots, ks[k]);
    }
  }

  lemma {:induction false} KeysAgree(ballots: seq<Ballot>, g: seq<Ballot>)
    requires g == Filter(ballots, Keyed)
    ensures Keys(g) == Keys(ballots)
    decreases |ballots|
  {
    if ballots != [] {
      var init, x := ballots[..|ballots| - 1], ballots[|ballots| - 1];
      assert ballots == init + [x];
      FilterSnoc(init, x, Keyed);
      KeysAgree(init, Filter(init, Keyed));
      if Keyed(x) {
        assert g[..|g| - 1] == Filter(init, Keyed);
      }
    }
  }

  lemma {:induction false} TallyAgree(ballots: seq<Ballot>, id: int)
    requires id in Keys(ballots)
    ensures id in Keys(Filter(ballots, Keyed))
    ensures TallyOf(Filter(ballots, Keyed), id) == TallyOf(ballots, id)
  {
    KeysAgree(ballots, Filter(ballots, Keyed));
    LabelAgree(ballots, id);
    CountAgree(ballots, id, "yes");
    CountAgree(ballots, id, "no");
    CountAgree(ballots, id, "abstain");
    CountAgree(ballots, id, "no_show");
  }

  lemma {:induction false} CountAgree(ballots: seq<Ballot>, id: int, kind: string)
    ensures Count(Filter(ballots, Keyed), id, kind) == Count(ballots, id, kind)
    decreases |ballots|
  {
    if ballots != [] {
      var init, x := ballots[..|ballots| - 1], ballots[|ballots| - 1];
      assert ballots == init + [x];
      FilterSnoc(init, x, Keyed);
      CountAgree(init, id, kind);
      var g := Filter(ballots, Keyed);
      if Keyed(x) {
        assert g[..|g| - 1] == Filter(init, Keyed);
      }
    }
  }

  lemma {:induction false} LabelAgree(ballots: seq<Ballot>, id: int)
    requires id in Keys(ballots)
    ensures id in Keys(Filter(ballots, Keyed))
    ensures FirstLabel(Filter(ballots, Keyed), id) == FirstLabel(ballots, id)
    decreases |ballots|
  {
    var init, x := ballots[..|ballots| - 1], ballots[|ballots| - 1];
    assert ballots == init + [x];
    FilterSnoc(init, x, Keyed);
    KeysAgree(ballots, Filter(ballots, Keyed));
    KeysAgree(init, Filter(init, Keyed));
    var g := Filter(ballots, Keyed);
    if Keyed(x) {
      assert g[..|g| - 1] == Filter(init, Keyed);
    }
    if id in Keys(init) {
      LabelAgree(init, id);
    }
  }

  // ---------------------------------------------------------------------------
  // The upsert into vote_results
  // ---------------------------------------------------------------------------

  /** The `vote_results` table, keyed by (poll id, faction id). */
  type ResultStore = map<(int, int), VoteResult>

  /** The last row of `rows` for faction `id`. */
  function LastRow(rows: seq<VoteResult>, id: int): (r: Option<VoteResult>)
    ensures r.Some? ==> r.value in rows && r.value.fractionId == id
    ensures r.None? <==> forall i | 0 <= i < |rows| :: rows[i].fractionId != id
    decreases |rows|
  {
    if rows == [] then None
    else if rows[|rows| - 1].fractionId == id then Some(rows[|rows| - 1])
    else
      var r := LastRow(rows[..|rows| - 1], id);
      assert forall i | 0 <= i < |rows| - 1 :: rows[..|rows| - 1][i] == rows[i];
      r
  }

  /** `upsert(rows, { onConflict: 'poll_id,fraction_id' })`, row after row. */
  function Upsert(store: ResultStore, pollId: int, rows: seq<VoteResult>): (r: ResultStore)
    ensures forall k :: k in r <==> k in store || (k.0 == pollId && LastRow(rows, k.1).Some?)
    ensures forall k | k in r ::
      r[k] == if k.0 == pollId && LastRow(rows, k.1).Some? then LastRow(rows, k.1).value else store[k]
    decreases |rows|
  {
    if rows == [] then store
    else
      var last := rows[|rows| - 1];
      Upsert(store, pollId, rows[..|rows| - 1])[(pollId, last.fractionId) := last]
  }

  /** Upserting the same rows again changes nothing. */
  lemma UpsertIdempotent(store: ResultStore, pollId: int, rows: seq<VoteResult>)
    ensures Upsert(Upsert(store, pollId, rows), pollId, rows) == Upsert(store, pollId, rows)
  {
    var once := Upsert(store, pollId, rows);
    var twice := Upsert(once, pollId, rows);
    assert forall k :: k in twice <==> k in once;
    assert forall k | k in twice :: twice[k] == once[k];
    SameMap(twice, once);
  }

  /** Two maps with the same keys and the same value at each key are equal. */
  lemma SameMap<K, V>(a: map<K, V>, b: map<K, V>)
    requires forall k :: k in a <==> k in b
    requires forall k | k in a :: a[k] == b[k]
    ensures a == b
  {
  }

  /** The rows of other polls, and of factions without a row, are untouched. */
  lemma UpsertLeavesOthers(store: ResultStore, pollId: int, rows: seq<VoteResult>, k: (int, int))
    requires k.0 != pollId || forall i | 0 <= i < |rows| :: rows[i].fractionId != k.1
    ensures k in Upsert(store, pollId, rows) <==> k in store
    ensures k in store ==> Upsert(store, pollId, rows)[k] == store[k]
  {
  }

  /**
   * After a sync every faction of the poll has the row tallied from its ballots.
   */
  lemma {:induction false} UpsertTallies(store: ResultStore, pollId: int, ballots: seq<Ballot>, id: int)
    requires id in Keys(ballots)
    ensures (pollId, id) in Upsert(store, pollId, TalliesOf(ballots))
    ensures Upsert(store, pollId, TalliesOf(ballots))[(pollId, id)] == TallyOf(ballots, id)
  {
    var rows := TalliesOf(ballots);
    var ks := Keys(ballots);
    var j :| 0 <= j < |ks| && ks[j] == id;
    assert rows[j].fractionId == id;
    var r := LastRow(rows, id);
    var m :| 0 <= m < |rows| && rows[m] == r.value;
    assert ks[m] == id;
  }

  /**
   * `syncVotesForPoll` as the function of the pages and the table before it. `writeOk`
   * is whether the `vote_results` upsert succeeds; its error is not looked at, so a
   * failed write leaves the table as it was and the sync still counts as done.
   */
  function SyncedVotes(store: ResultStore, pollId: int, fetch: nat -> VotesPage, writeOk: bool)
    : (r: Result<ResultStore, int>)
    ensures r.Ok? ==> forall k: (int, int) | k.0 != pollId ::
      && (k in r.value <==> k in store)
      && (k in store ==> r.value[k] == store[k])
    ensures r.Err? ==> exists p | 0 <= p <= LastPage :: fetch(p) == PageFailed(r.error)
    ensures r.Err? <==> Collect(fetch, 0).Err?
    ensures r.Ok? && !writeOk ==> r.value == store
  {
    CollectFails(fetch, 0);
    match Collect(fetch, 0)
    case Err(status) => Err(status)
    case Ok(ballots) =>
      var results := TalliesOf(ballots);
      Ok(if |results| > 0 && writeOk then Upsert(store, pollId, results) else store)
  }

  /** A sync whose pages all arrive and whose write succeeds stores each faction's tally. */
  lemma SyncedTallies(store: ResultStore, pollId: int, fetch: nat -> VotesPage, ballots: seq<Ballot>, id: int)
    requires Collect(fetch, 0) == Ok(ballots)
    requires id in Keys(ballots)
    ensures SyncedVotes(store, pollId, fetch, true).Ok?
    ensures (pollId, id) in SyncedVotes(store, pollId, fetch, true).value
    ensures SyncedVotes(store, pollId, fetch, true).value[(pollId, id)] == TallyOf(ballots, id)
  {
    var ks := Keys(ballots);
    var j :| 0 <= j < |ks| && ks[j] == id;
    assert |TalliesOf(ballots)| > 0;
    UpsertTallies(store, pollId, ballots, id);
  }

  /** `syncVotesForPoll`: fetch every page, tally, upsert when there is any row. */
  method SyncVotesForPoll(store: ResultStore, pollId: int, fetch: nat -> VotesPage, writeOk: bool)
    returns (r: Result<ResultStore, int>)
    ensures r == SyncedVotes(store, pollId, fetch, writeOk)
  {
    var collected, requests := FetchAllVotes(fetch);
    if collected.Err? {
      return Err(collected.error);
    }
    var results := Aggregate(collected.value);
    if |results| > 0 && writeOk {
      r := Ok(Upsert(store, pollId, results));
    } else {
      r := Ok(store);
    }
  }

  /** A failed sync names the status of a page that was requested. */
  lemma {:induction false} CollectFails(fetch: nat -> VotesPage, page: nat)
    requires page <= LastPage
    ensures Collect(fetch, page).Err? ==>
      exists p | page <= p <= LastPage :: fetch(p) == PageFailed(Collect(fetch, page).error)
    decreases LastPage - page
  {
    if fetch(page).Page? && Continues(page, fetch(page).ballots) {
      CollectFails(fetch, page + 1);
    }
  }
}
