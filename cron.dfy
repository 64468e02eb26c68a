/**
 * What the two scheduled jobs (debate analysis and party stances) share: the bearer
 * check against the configured secret, and the choice of the poll to work on, the most
 * recent one that has no rows yet in the job's table.
 */
module Cron {
  import opened Wrappers

  /** The header value that carries the secret. */
  function Bearer(secret: string): string {
    "Bearer " + secret
  }

  /**
   * The request passes unless a (non-empty) secret is configured and the authorization
   * header is not exactly `Bearer <secret>`; a missing header never matches.
   */
  predicate Authorized(secret: Option<string>, header: Option<string>) {
    !(secret.Some? && secret.value != [] && header != Some(Bearer(secret.value)))
  }

  /** Without a configured secret every request passes. */
  lemma OpenWithoutSecret(secret: Option<string>, header: Option<string>)
    requires secret.None? || secret.value == []
    ensures Authorized(secret, header)
  {
  }

  /** With a secret, exactly one header value passes, and a missing header does not. */
  lemma OnlyTheBearerPasses(secret: string, header: Option<string>)
    requires secret != []
    ensures Authorized(Some(secret), header) <==> header == Some("Bearer " + secret)
    ensures !Authorized(Some(secret), None)
  {
  }

  /**
   * The first poll, from `from` on, whose row count is exactly 0; a count the store
   * could not give (`None`) does not qualify.
   */
  function FirstWithoutRows<P>(polls: seq<P>, rowCount: P -> Option<nat>, from: nat): (t: Option<nat>)
    requires from <= |polls|
    ensures t.Some? ==> from <= t.value < |polls| && rowCount(polls[t.value]) == Some(0)
    ensures t.Some? ==> forall j | from <= j < t.value :: rowCount(polls[j]) != Some(0)
    ensures t.None? <==> forall j | from <= j < |polls| :: rowCount(polls[j]) != Some(0)
    decreases |polls| - from
  {
    if from == |polls| then None
    else if rowCount(polls[from]) == Some(0) then Some(from)
    else FirstWithoutRows(polls, rowCount, from + 1)
  }

  /** The target search: the polls are visited most recent first and the loop stops at the first without rows. */
  method FindTarget<P>(polls: seq<P>, rowCount: P -> Option<nat>) returns (target: Option<nat>)
    ensures target == FirstWithoutRows(polls, rowCount, 0)
  {
    target := None;
    var i := 0;
    while i < |polls|
      invariant 0 <= i <= |polls|
      invariant FirstWithoutRows(polls, rowCount, i) == FirstWithoutRows(polls, rowCount, 0)
    {
      if rowCount(polls[i]) == Some(0) {
        target := Some(i);
        return;
      }
      i := i + 1;
    }
  }
}
