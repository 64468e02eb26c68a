/**
 * The yes/no buttons of a poll page: pressing a choice records it (pressing the selected
 * one again withdraws it), remembers it in the browser's vote map, and posts it to the
 * vote endpoint; if the post fails the displayed choice goes back to the initial one.
 */
module VotingInterface {
  import opened Wrappers
  import opened Tallies
  import opened Ballots
  import VoteRoute

  /** `currentVote === vote ? null : vote`: the selected choice toggles off, the other one is taken. */
  function Toggle(current: Option<Choice>, pressed: Choice): (r: Option<Choice>)
    ensures r.None? <==> current == Some(pressed)
    ensures r.Some? ==> r.value == pressed
  {
    if current == Some(pressed) then None else Some(pressed)
  }

  /**
   * Pressing the same button twice: a choice that was selected comes back, and from no
   * choice or the other choice the result is no choice.
   */
  lemma PressTwice(current: Option<Choice>, pressed: Choice)
    ensures Toggle(Toggle(current, pressed), pressed) == (if current == Some(pressed) then current else None)
  {
  }

  /** The body `JSON.stringify({ pollId, vote })` as the endpoint reads it back. */
  function Body(pollId: int, vote: Option<Choice>): (req: VoteRoute.VoteRequest)
    ensures req.pollId == Some(VoteRoute.JNum(pollId))
    ensures vote.None? <==> req.vote == Some(VoteRoute.JNull)
  {
    var v := match vote
      case None => VoteRoute.JNull
      case Some(Yes) => VoteRoute.JStr("yes")
      case Some(No) => VoteRoute.JStr("no");
    VoteRoute.VoteRequest(Some(VoteRoute.JNum(pollId)), Some(v))
  }

  /** Whatever the panel posts for a non-zero poll id, the endpoint accepts as that very ballot. */
  lemma BodyAccepted(pollId: int, vote: Option<Choice>)
    requires pollId != 0
    ensures VoteRoute.Validate(Body(pollId, vote)) == Some(vote)
  {
  }

  /**
   * After a press whose post succeeds, the server's row for (poll, session) and the
   * browser's remembered entry for the poll hold the same ballot.
   */
  lemma ServerAgreesWithBrowser(local: map<int, Choice>, rows: map<VoteRoute.Key, Choice>,
                                pollId: int, current: Option<Choice>, pressed: Choice,
                                cookie: Option<string>, freshId: string)
    requires pollId != 0
    ensures var posted := Toggle(current, pressed);
      var (resp, after) := VoteRoute.Handle(rows, Some(Body(pollId, posted)), cookie, freshId, true);
      && resp.status == 200
      && Lookup(after, (VoteRoute.JNum(pollId), VoteRoute.Session(cookie, freshId)))
         == Lookup(Assigned(local, pollId, posted), pollId)
         == posted
  {
    var posted := Toggle(current, pressed);
    BodyAccepted(pollId, posted);
    VoteRoute.AcceptedSetsOnlyItsKey(rows, Body(pollId, posted), cookie, freshId,
                                     (VoteRoute.JNum(pollId), VoteRoute.Session(cookie, freshId)));
    LookupAssigned(local, pollId, posted, pollId);
  }

  /** The browser's `user_votes` entry in local storage: poll id to the remembered choice. */
  class LocalVotes {
    var votes: map<int, Choice>

    constructor (votes: map<int, Choice>)
      ensures this.votes == votes
    {
      this.votes := votes;
    }
  }

  /** One mounted panel. */
  class VotingPanel {
    const pollId: int
    /** `initialVote || null`. */
    const initialVote: Option<Choice>
    const storage: LocalVotes
    var currentVote: Option<Choice>
    var voting: bool

    /** Mounting: the given initial vote, else the one remembered for this poll. */
    constructor (pollId: int, initialVote: Option<Choice>, storage: LocalVotes)
      ensures this.pollId == pollId && this.initialVote == initialVote && this.storage == storage
      ensures currentVote == (if initialVote.Some? then initialVote else Lookup(storage.votes, pollId))
      ensures !voting
    {
      this.pollId := pollId;
      this.initialVote := initialVote;
      this.storage := storage;
      currentVote := initialVote;
      voting := false;
      new;
      if initialVote.None? && pollId in storage.votes {
        currentVote := Some(storage.votes[pollId]);
      }
    }

    /**
     * The synchronous part of `handleVote`, up to the request: the buttons are disabled
     * while a request runs. Returns the vote the request carries.
     */
    method Press(vote: Choice) returns (posted: Option<Choice>)
      requires !voting
      modifies this, storage
      ensures posted == Toggle(old(currentVote), vote)
      ensures currentVote == posted && voting
      ensures storage.votes == Assigned(old(storage.votes), pollId, posted)
    {
      var finalVote := if currentVote == Some(vote) then None else Some(vote);
      voting := true;
      currentVote := finalVote;
      var votes := storage.votes;
      if finalVote.None? {
        votes := votes - {pollId};
      } else {
        votes := votes[pollId := finalVote.value];
      }
      storage.votes := votes;
      posted := finalVote;
    }

    /**
     * The end of `handleVote` once the request is answered: on failure the displayed
     * vote reverts to the initial one, while the remembered entry stays as it was set.
     */
    method Complete(ok: bool)
      requires voting
      modifies this
      ensures !voting
      ensures currentVote == (if ok then old(currentVote) else initialVote)
    {
      if ok {
        voting := false;
      } else {
        voting := false;
        currentVote := initialVote;
      }
    }

    /**
     * `handleVote` from press to answer: the post carries the toggled vote, the browser
     * remembers it whatever the answer, and the panel shows it only if the post succeeded.
     */
    method HandleVote(vote: Choice, ok: bool) returns (posted: Option<Choice>)
      requires !voting
      modifies this, storage
      ensures posted == Toggle(old(currentVote), vote)
      ensures !voting
      ensures currentVote == (if ok then posted else initialVote)
      ensures Lookup(storage.votes, pollId) == posted
      ensures forall p | p != pollId :: Lookup(storage.votes, p) == Lookup(old(storage.votes), p)
    {
      posted := Press(vote);
      Complete(ok);
      forall p ensures Lookup(storage.votes, p) == if p == pollId then posted else Lookup(old(storage.votes), p) {
        LookupAssigned(old(storage.votes), pollId, posted, p);
      }
    }
  }
}
