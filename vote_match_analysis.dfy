/**
 * The "Dein Match" panel of a poll page: which factions voted in parliament the way the
 * citizen voted on the displayed question, biggest factions first.
 */
module VoteMatchAnalysis {
  import opened Wrappers
  import opened Tallies
  import opened Sequences

  /**
   * The vote the panel works with once its effects have run: the vote handed in by
   * the page when there is one (`prop` is `Some`, possibly holding `null` = `None`),
   * otherwise the one remembered in the browser for this poll.
   */
  function SettledVote(prop: Option<Option<Choice>>, stored: Option<Choice>): (v: Option<Choice>)
    ensures prop.Some? ==> v == prop.value
    ensures prop.None? ==> v == stored
  {
    match prop
    case Some(p) => p
    case None => stored
  }

  /**
   * Whether the citizen's answer means a parliamentary "yes" on the original motion:
   * the question may be phrased as the negation of the motion (`flip`).
   */
  function TargetsParliamentYes(vote: Choice, flip: bool): (t: bool)
    ensures vote == Yes && !flip ==> t
    ensures vote == Yes && flip ==> !t
    ensures vote == No && !flip ==> !t
    ensures vote == No && flip ==> t
  {
    (vote == Yes) != flip
  }

  /** The filter callback: a faction that voted, without a yes/no tie, whose majority is the target. */
  predicate SidesWith(targetsYes: bool, r: VoteResult) {
    if r.Total() == 0 then false
    else if r.yes == r.no then false
    else
      var majorityYes := r.yes > r.no;
      if targetsYes then majorityYes else !majorityYes
  }

  /** The number of yes and no votes a faction cast, by which the list is ordered. */
  function Size(r: VoteResult): nat { r.yes + r.no }

  /** The comparator `b.size - a.size`: `a` may stay before `b` when it is not smaller. */
  predicate NotSmaller(a: VoteResult, b: VoteResult) { Size(a) >= Size(b) }

  /**
   * The factions listed by the panel, or `None` when it renders nothing (no vote yet or
   * no results).
   */
  function MatchingParties(userVote: Option<Choice>, results: seq<VoteResult>, flip: bool)
    : (m: Option<seq<VoteResult>>)
    ensures m.None? <==> userVote.None? || results == []
  {
    if userVote.None? || results == [] then None
    else
      var targetsYes := TargetsParliamentYes(userVote.value, flip);
      Some(Sort(Filter(results, r => SidesWith(targetsYes, r)), NotSmaller))
  }

  /** The zero-total test is subsumed by the tie test: a faction is listed iff it has a yes/no majority that is the target. */
  lemma SidesWithMeaning(targetsYes: bool, r: VoteResult)
    ensures SidesWith(targetsYes, r) <==> r.yes != r.no && (r.yes > r.no <==> targetsYes)
  {
  }

  /** Answering yes to a flipped question is answering no to an unflipped one. */
  lemma FlipSymmetry(results: seq<VoteResult>, flip: bool)
    ensures MatchingParties(Some(Yes), results, flip) == MatchingParties(Some(No), results, !flip)
    ensures MatchingParties(Some(No), results, flip) == MatchingParties(Some(Yes), results, !flip)
  {
    assert TargetsParliamentYes(Yes, flip) == TargetsParliamentYes(No, !flip);
    assert TargetsParliamentYes(No, flip) == TargetsParliamentYes(Yes, !flip);
  }

  /**
   * For one poll, the "yes" list and the "no" list split the factions without a tie:
   * every faction with a yes/no majority is in exactly one of them, a tied one in none.
   */
  lemma YesNoPartition(flip: bool, r: VoteResult)
    ensures r.yes != r.no ==> SidesWith(TargetsParliamentYes(Yes, flip), r) != SidesWith(TargetsParliamentYes(No, flip), r)
    ensures r.yes == r.no ==> !SidesWith(TargetsParliamentYes(Yes, flip), r) && !SidesWith(TargetsParliamentYes(No, flip), r)
  {
  }

  lemma NotSmallerTotalPreorder()
    ensures TotalPreorder(NotSmaller)
  {
  }

  /** The listed factions are exactly the results on the citizen's side. */
  lemma MatchingMembers(vote: Choice, results: seq<VoteResult>, flip: bool, r: VoteResult)
    requires results != []
    ensures r in MatchingParties(Some(vote), results, flip).value
      <==> r in results && SidesWith(TargetsParliamentYes(vote, flip), r)
  {
    var t := TargetsParliamentYes(vote, flip);
    var p := (r: VoteResult) => SidesWith(t, r);
    var f := Filter(results, p);
    assert r in Sort(f, NotSmaller) <==> r in multiset(f);
    if r in results && p(r) {
      var i :| 0 <= i < |results| && results[i] == r;
    }
    if r in f {
      var i :| 0 <= i < |f| && f[i] == r;
    }
  }

  /** Each listed faction occurs in the results at least as often as in the list. */
  lemma MatchingSubMultiset(vote: Choice, results: seq<VoteResult>, flip: bool)
    requires results != []
    ensures multiset(MatchingParties(Some(vote), results, flip).value) <= multiset(results)
  {
    var t := TargetsParliamentYes(vote, flip);
    FilterSubMultiset(results, r => SidesWith(t, r));
  }

  /** The list runs from the biggest faction to the smallest. */
  lemma MatchingBiggestFirst(vote: Choice, results: seq<VoteResult>, flip: bool)
    requires results != []
    ensures var m := MatchingParties(Some(vote), results, flip).value;
      forall i, j | 0 <= i < j < |m| :: Size(m[i]) >= Size(m[j])
  {
    var t := TargetsParliamentYes(vote, flip);
    NotSmallerTotalPreorder();
    SortSorted(Filter(results, r => SidesWith(t, r)), NotSmaller);
  }

  /**
   * The sort is stable: factions of equal size are listed in the order the results
   * came in.
   */
  lemma EqualSizesKeepOrder(vote: Choice, results: seq<VoteResult>, flip: bool, n: nat)
    requires results != []
    ensures var p := (r: VoteResult) => SidesWith(TargetsParliamentYes(vote, flip), r);
      var sized := (r: VoteResult) => Size(r) == n;
      Filter(MatchingParties(Some(vote), results, flip).value, sized) == Filter(Filter(results, p), sized)
  {
    var t := TargetsParliamentYes(vote, flip);
    var p := (r: VoteResult) => SidesWith(t, r);
    var sized := (r: VoteResult) => Size(r) == n;
    assert OneClass(NotSmaller, sized);
    NotSmallerTotalPreorder();
    SortKeepsClassOrder(Filter(results, p), NotSmaller, sized);
  }
}
