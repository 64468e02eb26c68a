/** The records shared by the match engine, the match analysis and the results chart. */
module Tallies {
  import opened Wrappers

  /** One `vote_results` row: a faction's four counters on one poll. */
  datatype VoteResult = VoteResult(
    fractionId: int, fractionLabel: string,
    yes: nat, no: nat, abstain: nat, noShow: nat)
  {
    /** `votes_yes + votes_no + votes_abstain + votes_no_show`. */
    function Total(): nat { yes + no + abstain + noShow }
  }

  /** A citizen's yes/no answer to the displayed question. */
  datatype Choice = Yes | No

  /**
   * A one-to-one relation that the store returns either as a single object, as an
   * array, or not at all (`poll.poll_questions`).
   */
  datatype Related<T> = Missing | Single(item: T) | Many(items: seq<T>)

  /** `Array.isArray(x) ? x[0] : x`, with `undefined` for a missing object or an empty array. */
  function FirstRelated<T>(rel: Related<T>): (r: Option<T>)
    ensures rel.Single? ==> r == Some(rel.item)
    ensures rel.Many? && rel.items != [] ==> r == Some(rel.items[0])
    ensures r.None? <==> rel.Missing? || (rel.Many? && rel.items == [])
  {
    match rel
    case Missing => None
    case Single(x) => Some(x)
    case Many(xs) => if xs == [] then None else Some(xs[0])
  }

  /**
   * `questionData?.vote_flip || false`, the poll's flip flag: each related question
   * carries an optional `vote_flip`.
   */
  function VoteFlip(questions: Related<Option<bool>>): (flip: bool)
    ensures questions.Missing? ==> !flip
    ensures questions.Single? ==> (flip <==> questions.item == Some(true))
    ensures questions.Many? ==> (flip <==> questions.items != [] && questions.items[0] == Some(true))
  {
    var q := FirstRelated(questions);
    q.Some? && q.value == Some(true)
  }
}
