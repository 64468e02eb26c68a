/**
 * The `POST /api/vote` endpoint: it validates the body, finds or creates the browser's
 * session id, and records or withdraws the citizen's vote in the `user_votes` table,
 * one row per (poll, session).
 */
module VoteRoute {
  import opened Wrappers
  import opened Tallies
  import opened Ballots

  /** A JSON scalar as `request.json()` gives it (objects and arrays are not modelled). */
  datatype Json = JNull | JBool(b: bool) | JNum(n: int) | JStr(s: string)

  /** JavaScript truthiness; a missing field is `undefined`, which is falsy. */
  predicate Truthy(v: Option<Json>) {
    match v
    case None => false
    case Some(JNull) => false
    case Some(JBool(b)) => b
    case Some(JNum(n)) => n != 0
    case Some(JStr(s)) => s != []
  }

  /** The two fields of the body; `None` is a field that is not there. */
  datatype VoteRequest = VoteRequest(pollId: Option<Json>, vote: Option<Json>)

  /** A row key: the poll id as sent and the session id. */
  type Key = (Json, string)

  /**
   * The ballot a request asks for: `None` when it is rejected, `Some(None)` for a
   * withdrawal (`vote` is `null`), `Some(Some(c))` for a yes or no.
   */
  function Validate(req: VoteRequest): (b: Option<Option<Choice>>)
    ensures b.None? <==> !Truthy(req.pollId)
                         || (req.vote != Some(JNull) && req.vote != Some(JStr("yes")) && req.vote != Some(JStr("no")))
    ensures b == Some(None) <==> Truthy(req.pollId) && req.vote == Some(JNull)
    ensures b == Some(Some(Yes)) <==> Truthy(req.pollId) && req.vote == Some(JStr("yes"))
    ensures b == Some(Some(No)) <==> Truthy(req.pollId) && req.vote == Some(JStr("no"))
  {
    if !Truthy(req.pollId) then None
    else if req.vote == Some(JNull) then Some(None)
    else if req.vote == Some(JStr("yes")) then Some(Some(Yes))
    else if req.vote == Some(JStr("no")) then Some(Some(No))
    else None
  }

  /** `skip`, which other parts of the site use, is not a vote this endpoint accepts. */
  lemma SkipRejected(pollId: Option<Json>)
    ensures Validate(VoteRequest(pollId, Some(JStr("skip")))).None?
  {
  }

  /** The session the request runs under: the cookie's value unless it is missing or empty. */
  function Session(cookie: Option<string>, freshId: string): (id: string)
    ensures cookie.Some? && cookie.value != [] ==> id == cookie.value
    ensures cookie.None? || cookie.value == [] ==> id == freshId
  {
    if cookie.Some? && cookie.value != [] then cookie.value else freshId
  }

  /** The response: its status and the session cookie it sets, if any. */
  datatype Response = Response(status: int, setCookie: Option<string>)

  /**
   * The endpoint as a function of the table, the body (`None` when it cannot be read),
   * the session cookie, the id a new session would get and whether the table write
   * succeeds. A rejected or failed request leaves the table as it was.
   */
  function Handle(rows: map<Key, Choice>, body: Option<VoteRequest>, cookie: Option<string>,
                  freshId: string, writeOk: bool): (r: (Response, map<Key, Choice>))
    ensures r.0.status == 200 || r.1 == rows
    ensures r.0.status == 400 <==> body.Some? && Validate(body.value).None?
    ensures r.0.status == 400 ==> r.0.setCookie.None?
  {
    match body
    case None => (Response(500, None), rows)
    case Some(req) =>
      match Validate(req)
      case None => (Response(400, None), rows)
      case Some(ballot) =>
        var session := Session(cookie, freshId);
        var setCookie := if cookie.Some? && cookie.value != [] then None else Some(session);
        if writeOk then (Response(200, setCookie), Assigned(rows, (req.pollId.value, session), ballot))
        else (Response(500, setCookie), rows)
  }

  /** An accepted request leaves exactly the requested ballot under its key and nothing else changes. */
  lemma AcceptedSetsOnlyItsKey(rows: map<Key, Choice>, req: VoteRequest, cookie: Option<string>,
                               freshId: string, k: Key)
    requires Validate(req).Some?
    ensures var (resp, after) := Handle(rows, Some(req), cookie, freshId, true);
      && resp.status == 200
      && Lookup(after, k) == (if k == (req.pollId.value, Session(cookie, freshId)) then Validate(req).value else Lookup(rows, k))
  {
    LookupAssigned(rows, (req.pollId.value, Session(cookie, freshId)), Validate(req).value, k);
  }

  /**
   * Sending the same body again, with the cookie the first response set, reuses the
   * session and leaves the table as the first request left it.
   */
  lemma RepeatIsIdempotent(rows: map<Key, Choice>, req: VoteRequest, cookie: Option<string>,
                           freshId: string, freshId2: string, writeOk2: bool)
    requires freshId != []
    requires Handle(rows, Some(req), cookie, freshId, true).0.status == 200
    ensures var (resp, once) := Handle(rows, Some(req), cookie, freshId, true);
      var cookie2 := if resp.setCookie.Some? then resp.setCookie else cookie;
      var (resp2, twice) := Handle(once, Some(req), cookie2, freshId2, writeOk2);
      && resp2.setCookie.None?
      && twice == once
  {
    var session := Session(cookie, freshId);
    var resp := Handle(rows, Some(req), cookie, freshId, true).0;
    var cookie2 := if resp.setCookie.Some? then resp.setCookie else cookie;
    if cookie.None? || cookie.value == [] {
      assert session == freshId;
      assert cookie2 == Some(freshId);
    }
    AssignedIdempotent(rows, (req.pollId.value, session), Validate(req).value);
  }

  /** The table of `user_votes` rows, written by the endpoint. */
  class VoteTable {
    var rows: map<Key, Choice>

    constructor ()
      ensures rows == map[]
    {
      rows := map[];
    }

    /** `POST`: validation, session lookup, then delete or upsert. */
    method Post(body: Option<VoteRequest>, cookie: Option<string>, freshId: string, writeOk: bool)
      returns (resp: Response)
      modifies this
      ensures (resp, rows) == Handle(old(rows), body, cookie, freshId, writeOk)
    {
      if body.None? {
        return Response(500, None);
      }
      var req := body.value;
      if !Truthy(req.pollId) || (req.vote != Some(JNull) && req.vote != Some(JStr("yes")) && req.vote != Some(JStr("no"))) {
        return Response(400, None);
      }
      var setCookie := None;
      var session := if cookie.Some? then cookie.value else [];
      if session == [] {
        session := freshId;
        setCookie := Some(session);
      }
      if !writeOk {
        return Response(500, setCookie);
      }
      var key := (req.pollId.value, session);
      if req.vote == Some(JNull) {
        rows := rows - {key};
      } else {
        var choice := if req.vote == Some(JStr("yes")) then Yes else No;
        rows := rows[key := choice];
      }
      resp := Response(200, setCookie);
    }
  }
}
