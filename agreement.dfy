/**
 * The match score and the poll page's match panel are meant to agree on which factions
 * sided with the citizen. They do, except that the score also drops a faction whose
 * abstentions outnumber both its yes and its no votes, which the panel still lists.
 */
module Agreement {
  import opened Tallies
  import opened MatchUtils
  import opened VoteMatchAnalysis

  /**
   * For a faction whose majority is not abstention, the score counts an agreement on a
   * poll exactly when the panel lists the faction for the same answer and flip.
   */
  lemma ScoreAgreesWithPanel(vote: Choice, flip: bool, r: VoteResult)
    requires !(r.abstain > r.yes && r.abstain > r.no)
    ensures Counted(r) && Agrees(vote == Yes, flip, r.yes > r.no)
            <==> SidesWith(TargetsParliamentYes(vote, flip), r)
  {
    SidesWithMeaning(TargetsParliamentYes(vote, flip), r);
  }

  /**
   * A faction with 1 yes, 0 no and 5 abstentions is listed by the panel for a yes on an
   * unflipped question, yet it takes no part in the score.
   */
  lemma AbstainMajorityDiverges(id: int, name: string)
    ensures var r := VoteResult(id, name, 1, 0, 5, 0);
      SidesWith(TargetsParliamentYes(Yes, false), r) && !Counted(r)
  {
  }
}
