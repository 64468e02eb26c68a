/**
 * The result panel of a poll: per-faction cards, the seat doughnut with its tooltip, and
 * the legend, all drawn from a copy of the results sorted by faction label. On a poll whose
 * question negates the motion (`flip`), the parliament's yes and no are shown swapped.
 */
module ResultsChart {
  import opened Wrappers
  import opened Tallies
  import opened Sequences
  import opened Percent
  import opened PartyUtils
  import VoteMatchAnalysis

  /**
   * The votes shown under "Dafür": the parliament's votes on the side that a citizen's
   * "yes" to the question stands for on the motion.
   */
  function DisplayYes(r: VoteResult, flip: bool): (n: nat)
    ensures n == (if VoteMatchAnalysis.TargetsParliamentYes(Yes, flip) then r.yes else r.no)
  {
    if flip then r.no else r.yes
  }

  /**
   * The votes shown under "Dagegen": the parliament's votes on the side that a citizen's
   * "no" to the question stands for on the motion.
   */
  function DisplayNo(r: VoteResult, flip: bool): (n: nat)
    ensures n == (if VoteMatchAnalysis.TargetsParliamentYes(No, flip) then r.yes else r.no)
  {
    if flip then r.yes else r.no
  }

  /**
   * The swap moves votes between the two columns and nowhere else: the two columns
   * together always hold the yes and no votes, abstentions and absences are never
   * swapped, and flipping twice restores the parliament's view.
   */
  lemma DisplaySwap(r: VoteResult, flip: bool)
    ensures DisplayYes(r, flip) + DisplayNo(r, flip) == r.yes + r.no
    ensures DisplayYes(r, !flip) == DisplayNo(r, flip) && DisplayNo(r, !flip) == DisplayYes(r, flip)
    ensures DisplayYes(r, false) == r.yes && DisplayNo(r, false) == r.no
  {
  }

  /** `results.reduce((acc, r) => acc + yes + no + abstain + noShow, 0)`. */
  function TotalVotes(results: seq<VoteResult>): nat
    decreases |results|
  {
    if results == [] then 0
    else TotalVotes(results[..|results| - 1]) + results[|results| - 1].Total()
  }

  lemma {:induction false} TotalVotesAppend(a: seq<VoteResult>, b: seq<VoteResult>)
    ensures TotalVotes(a + b) == TotalVotes(a) + TotalVotes(b)
    decreases |b|
  {
    if b == [] {
      assert a + b == a;
    } else {
      assert (a + b)[..|a + b| - 1] == a + b[..|b| - 1];
      TotalVotesAppend(a, b[..|b| - 1]);
    }
  }

  /** No faction holds more seats than the whole poll. */
  lemma {:induction false} TotalVotesBound(results: seq<VoteResult>, i: nat)
    requires i < |results|
    ensures results[i].Total() <= TotalVotes(results)
    decreases |results|
  {
    if i < |results| - 1 {
      TotalVotesBound(results[..|results| - 1], i);
    }
  }

  /** The comparator `a.fraction_label.localeCompare(b.fraction_label)`, for a given collation `labelLe`. */
  function ByLabel(labelLe: (string, string) -> bool): (VoteResult, VoteResult) -> bool {
    (a: VoteResult, b: VoteResult) => labelLe(a.fractionLabel, b.fractionLabel)
  }

  lemma ByLabelTotalPreorder(labelLe: (string, string) -> bool)
    requires TotalPreorder(labelLe)
    ensures TotalPreorder(ByLabel(labelLe))
  {
    var le := ByLabel(labelLe);
    forall a, b ensures le(a, b) || le(b, a) {
      assert labelLe(a.fractionLabel, b.fractionLabel) || labelLe(b.fractionLabel, a.fractionLabel);
    }
    forall a, b, c | le(a, b) && le(b, c) ensures le(a, c) {
      assert labelLe(a.fractionLabel, b.fractionLabel) && labelLe(b.fractionLabel, c.fractionLabel);
    }
  }

  /** `[...results].sort(...)`: a sorted copy; the results themselves stay as they are. */
  function SortedResults(results: seq<VoteResult>, labelLe: (string, string) -> bool): seq<VoteResult> {
    Sort(results, ByLabel(labelLe))
  }

  /** The sorted copy holds the same results, ordered by label. */
  lemma SortedResultsFacts(results: seq<VoteResult>, labelLe: (string, string) -> bool)
    requires TotalPreorder(labelLe)
    ensures var s := SortedResults(results, labelLe);
      && multiset(s) == multiset(results)
      && forall i, j | 0 <= i < j < |s| :: labelLe(s[i].fractionLabel, s[j].fractionLabel)
  {
    ByLabelTotalPreorder(labelLe);
    SortSorted(results, ByLabel(labelLe));
  }

  /** Inserting a faction adds its seats to the total. */
  lemma TotalVotesInsert(x: VoteResult, q: seq<VoteResult>, le: (VoteResult, VoteResult) -> bool)
    ensures TotalVotes(Insert(x, q, le)) == TotalVotes(q) + x.Total()
  {
    var k := InsertPos(x, q, le);
    assert q == q[..k] + q[k..];
    TotalVotesAppend(q[..k] + [x], q[k..]);
    TotalVotesAppend(q[..k], [x]);
    TotalVotesAppend(q[..k], q[k..]);
    assert TotalVotes([x]) == x.Total() by {
      assert [x][..0] == [];
    }
  }

  /** Sorting does not change the total. */
  lemma {:induction false} TotalVotesSort(results: seq<VoteResult>, le: (VoteResult, VoteResult) -> bool)
    ensures TotalVotes(Sort(results, le)) == TotalVotes(results)
    decreases |results|
  {
    if results != [] {
      var init, x := results[..|results| - 1], results[|results| - 1];
      TotalVotesSort(init, le);
      assert results == init + [x];
      SortSnoc(init, x, le);
      TotalVotesInsert(x, Sort(init, le), le);
    }
  }

  /** `chartData.datasets[0].data`: each sorted faction's seat count. */
  function Seats(sorted: seq<VoteResult>): (seats: seq<nat>)
    ensures |seats| == |sorted| && forall i | 0 <= i < |sorted| :: seats[i] == sorted[i].Total()
  {
    seq(|sorted|, i requires 0 <= i < |sorted| => sorted[i].Total())
  }

  function Sum(xs: seq<nat>): nat
    decreases |xs|
  {
    if xs == [] then 0 else Sum(xs[..|xs| - 1]) + xs[|xs| - 1]
  }

  lemma {:induction false} SumSeats(s: seq<VoteResult>)
    ensures Sum(Seats(s)) == TotalVotes(s)
    decreases |s|
  {
    if s != [] {
      SumSeats(s[..|s| - 1]);
      assert Seats(s)[..|s| - 1] == Seats(s[..|s| - 1]);
    }
  }

  /** The doughnut's slices add up to the total printed in its centre. */
  lemma ChartDataAddsUp(results: seq<VoteResult>, labelLe: (string, string) -> bool)
    ensures Sum(Seats(SortedResults(results, labelLe))) == TotalVotes(results)
  {
    SumSeats(SortedResults(results, labelLe));
    TotalVotesSort(results, ByLabel(labelLe));
  }

  /** `Math.round(part / whole * 100)`, or 0 when `whole` is 0. */
  function Share(part: nat, whole: nat): (pct: nat)
    ensures whole == 0 ==> pct == 0
    ensures whole > 0 ==> 2 * pct * whole <= 200 * part + whole < 2 * pct * whole + 2 * whole
    ensures part <= whole ==> pct <= 100
  {
    if whole > 0 then RoundPercent(part, whole) else 0
  }

  /** Every faction's share of the seats lies between 0 and 100. */
  lemma SeatShareBound(results: seq<VoteResult>, i: nat)
    requires i < |results|
    ensures Share(results[i].Total(), TotalVotes(results)) <= 100
  {
    TotalVotesBound(results, i);
  }

  /** One line of the doughnut tooltip. */
  datatype TooltipLine =
    | Faction(name: string)
    | SeatLine(seats: nat, share: nat)
    | ForLine(votes: nat)
    | AgainstLine(votes: nat)
    | AbstainLine(votes: nat)
    | NoShowLine(votes: nat)

  /** The tooltip of a faction's slice. */
  function Tooltip(r: VoteResult, flip: bool, totalVotes: nat): (lines: seq<TooltipLine>)
    ensures |lines| >= 4
    ensures lines[..4] == [Faction(r.fractionLabel), SeatLine(r.Total(), Share(r.Total(), totalVotes)),
                           ForLine(DisplayYes(r, flip)), AgainstLine(DisplayNo(r, flip))]
    ensures (exists i | 0 <= i < |lines| :: lines[i].AbstainLine?) <==> r.abstain > 0
    ensures (exists i | 0 <= i < |lines| :: lines[i].NoShowLine?) <==> r.noShow > 0
    ensures forall i | 0 <= i < |lines| :: lines[i].AbstainLine? ==> lines[i].votes == r.abstain
    ensures forall i | 0 <= i < |lines| :: lines[i].NoShowLine? ==> lines[i].votes == r.noShow
  {
    var total := r.Total();
    var head := [Faction(r.fractionLabel), SeatLine(total, Share(total, totalVotes)),
                 ForLine(DisplayYes(r, flip)), AgainstLine(DisplayNo(r, flip))];
    var abstain := if r.abstain > 0 then [AbstainLine(r.abstain)] else [];
    var noShow := if r.noShow > 0 then [NoShowLine(r.noShow)] else [];
    var lines := head + abstain + noShow;
    assert r.abstain > 0 ==> lines[4].AbstainLine?;
    assert r.noShow > 0 ==> lines[|lines| - 1].NoShowLine?;
    lines
  }

  /** One row of a card: the rounded percentage and the vote count. */
  datatype CardRow = CardRow(percent: nat, votes: nat)

  /** A faction's card; the abstention and absence rows are shown only when non-zero. */
  datatype Card = Card(
    fractionId: int, fractionLabel: string, color: string, seats: nat,
    forRow: CardRow, againstRow: CardRow, abstainRow: Option<CardRow>, noShowRow: Option<CardRow>)

  function CardOf(r: VoteResult, flip: bool): (c: Card)
    ensures c.seats == r.Total() && c.color == ColorOf(PartyColors, r.fractionLabel)
    ensures c.forRow.votes == DisplayYes(r, flip) && c.againstRow.votes == DisplayNo(r, flip)
    ensures c.abstainRow.Some? <==> r.abstain > 0
    ensures c.noShowRow.Some? <==> r.noShow > 0
    ensures c.abstainRow.Some? ==> c.abstainRow.value.votes == r.abstain
    ensures c.noShowRow.Some? ==> c.noShowRow.value.votes == r.noShow
    ensures c.forRow.percent <= 100 && c.againstRow.percent <= 100
    ensures c.forRow.percent == Share(DisplayYes(r, flip), r.Total())
    ensures c.againstRow.percent == Share(DisplayNo(r, flip), r.Total())
    ensures c.abstainRow.Some? ==> c.abstainRow.value.percent == Share(r.abstain, r.Total())
    ensures c.noShowRow.Some? ==> c.noShowRow.value.percent == Share(r.noShow, r.Total())
  {
    var total := r.Total();
    Card(r.fractionId, r.fractionLabel, ColorOf(PartyColors, r.fractionLabel), total,
      CardRow(Share(DisplayYes(r, flip), total), DisplayYes(r, flip)),
      CardRow(Share(DisplayNo(r, flip), total), DisplayNo(r, flip)),
      if r.abstain > 0 then Some(CardRow(Share(r.abstain, total), r.abstain)) else None,
      if r.noShow > 0 then Some(CardRow(Share(r.noShow, total), r.noShow)) else None)
  }

  /** A legend entry below the doughnut. */
  datatype LegendEntry = LegendEntry(fractionId: int, fractionLabel: string, color: string, seats: nat, share: nat)

  predicate HasSeats(r: VoteResult) { r.Total() > 0 }

  function LegendEntryOf(r: VoteResult, totalVotes: nat): LegendEntry {
    LegendEntry(r.fractionId, r.fractionLabel, ColorOf(PartyColors, r.fractionLabel), r.Total(),
      Share(r.Total(), totalVotes))
  }

  /** The legend: the sorted factions that hold at least one seat in this poll. */
  function Legend(sorted: seq<VoteResult>, totalVotes: nat): (entries: seq<LegendEntry>)
    ensures var kept := Filter(sorted, HasSeats);
      |entries| == |kept| && forall i | 0 <= i < |kept| :: entries[i] == LegendEntryOf(kept[i], totalVotes)
  {
    var kept := Filter(sorted, HasSeats);
    seq(|kept|, i requires 0 <= i < |kept| => LegendEntryOf(kept[i], totalVotes))
  }

  /** A faction kept for the legend holds seats, and no more than all of them. */
  lemma KeptHoldsSeats(sorted: seq<VoteResult>, i: nat)
    requires i < |Filter(sorted, HasSeats)|
    ensures var r := Filter(sorted, HasSeats)[i]; 0 < r.Total() <= TotalVotes(sorted)
  {
    var r := Filter(sorted, HasSeats)[i];
    assert r in Filter(sorted, HasSeats);
    var j :| 0 <= j < |sorted| && sorted[j] == r;
    TotalVotesBound(sorted, j);
  }

  /** Every legend entry holds seats, and its share is at most 100. */
  lemma LegendEntriesHoldSeats(results: seq<VoteResult>, labelLe: (string, string) -> bool)
    ensures forall e | e in Legend(SortedResults(results, labelLe), TotalVotes(results)) ::
      e.seats > 0 && e.share <= 100
  {
    var sorted := SortedResults(results, labelLe);
    var legend := Legend(sorted, TotalVotes(results));
    TotalVotesSort(results, ByLabel(labelLe));
    forall e | e in legend ensures e.seats > 0 && e.share <= 100 {
      var i :| 0 <= i < |legend| && legend[i] == e;
      KeptHoldsSeats(sorted, i);
    }
  }

  /** Every faction holding a seat appears in the legend. */
  lemma LegendListsSeatHolders(results: seq<VoteResult>, labelLe: (string, string) -> bool, r: VoteResult)
    requires r in results && r.Total() > 0
    ensures LegendEntryOf(r, TotalVotes(results)) in Legend(SortedResults(results, labelLe), TotalVotes(results))
  {
    var sorted := SortedResults(results, labelLe);
    var kept := Filter(sorted, HasSeats);
    var legend := Legend(sorted, TotalVotes(results));
    assert r in multiset(sorted);
    var j :| 0 <= j < |sorted| && sorted[j] == r;
    assert r in kept;
    var i :| 0 <= i < |kept| && kept[i] == r;
    assert legend[i] == LegendEntryOf(r, TotalVotes(results));
  }

  /** What the panel draws. */
  datatype View = View(
    totalVotes: nat, cards: seq<Card>, slices: seq<nat>, colors: seq<string>,
    legend: seq<LegendEntry>)

  /** `ResultsChart`, given the collation `labelLe` that `localeCompare` applies. */
  function Chart(results: seq<VoteResult>, flip: bool, labelLe: (string, string) -> bool): (v: View)
    ensures |v.cards| == |v.slices| == |v.colors| == |results|
    ensures v.totalVotes == TotalVotes(results)
  {
    var sorted := SortedResults(results, labelLe);
    var total := TotalVotes(results);
    View(total,
      seq(|sorted|, i requires 0 <= i < |sorted| => CardOf(sorted[i], flip)),
      Seats(sorted),
      seq(|sorted|, i requires 0 <= i < |sorted| => ColorOf(PartyColors, sorted[i].fractionLabel)),
      Legend(sorted, total))
  }

  /** The chart's own copy of the colour table is the shared one, so both give the same colours. */
  const ChartColors: seq<(string, string)> := [
    ("CDU/CSU", "#000000"),
    ("SPD", "#E3000F"),
    ("AfD", "#009EE0"),
    ("FDP", "#FFED00"),
    ("GR\U{DC}NEN", "#46962b"),
    ("B\U{DC}NDNIS 90/DIE GR\U{DC}NEN", "#46962b"),
    ("DIE LINKE", "#BE3075"),
    ("BSW", "#771e3d"),
    ("SSW", "#003C8F"),
    ("fraktionslos", "#94a3b8")
  ]

  lemma ChartColorsAgree(name: string)
    ensures ColorOf(ChartColors, name) == ColorOf(PartyColors, name)
  {
  }
}
