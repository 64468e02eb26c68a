/**
 * A citizen's ballot as both the server table and the browser's remembered votes keep
 * it: one entry per key, set by a yes/no vote and removed by a withdrawn one (`null`).
 */
module Ballots {
  import opened Wrappers
  import opened Tallies

  /** The map after recording `v` under `k`: `null` deletes the entry, a vote sets it. */
  function Assigned<K>(m: map<K, Choice>, k: K, v: Option<Choice>): (r: map<K, Choice>)
    ensures k in r <==> v.Some?
    ensures v.Some? ==> r[k] == v.value
    ensures forall j | j in m && j != k :: j in r && r[j] == m[j]
    ensures forall j | j in r && j != k :: j in m
  {
    match v
    case None => m - {k}
    case Some(c) => m[k := c]
  }

  /** Recording the same ballot twice is the same as recording it once. */
  lemma AssignedIdempotent<K>(m: map<K, Choice>, k: K, v: Option<Choice>)
    ensures Assigned(Assigned(m, k, v), k, v) == Assigned(m, k, v)
  {
    var once := Assigned(m, k, v);
    var twice := Assigned(once, k, v);
    assert forall j :: j in twice <==> j in once;
  }

  /** The last ballot recorded under a key wins: an earlier one leaves no trace. */
  lemma AssignedOverwrites<K>(m: map<K, Choice>, k: K, v: Option<Choice>, w: Option<Choice>)
    ensures Assigned(Assigned(m, k, v), k, w) == Assigned(m, k, w)
  {
    var a := Assigned(Assigned(m, k, v), k, w);
    var b := Assigned(m, k, w);
    assert forall j :: j in a <==> j in b;
  }

  /** The entry under a key afterwards is exactly the recorded ballot. */
  function Lookup<K>(m: map<K, Choice>, k: K): (r: Option<Choice>)
    ensures r.Some? <==> k in m
    ensures r.Some? ==> r.value == m[k]
  {
    if k in m then Some(m[k]) else None
  }

  lemma LookupAssigned<K>(m: map<K, Choice>, k: K, v: Option<Choice>, j: K)
    ensures Lookup(Assigned(m, k, v), j) == if j == k then v else Lookup(m, j)
  {
  }
}
