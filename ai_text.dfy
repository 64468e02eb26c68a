/**
 * Clean-up of a language model's reply before `JSON.parse`: the replace with the
 * regular expression `^```json\s*|\s*```$` (global flag), which drops an opening
 * "```json" fence with the white space after it and a closing "```" fence with the
 * white space before it.
 */
module AiText {
  import opened JsText

  const OpenFence: string := "```json"
  const CloseFence: string := "```"

  predicate StartsWith(s: string, p: string) {
    |p| <= |s| && s[..|p|] == p
  }

  predicate EndsWith(s: string, p: string) {
    |p| <= |s| && s[|s| - |p|..] == p
  }

  /**
   * Where the scan resumes after the first alternative, which can only match at
   * position 0: past the opening fence and all white space after it, or 0.
   */
  function OpenEnd(s: string): (k: nat)
    ensures k <= |s|
    ensures k == 0 || (StartsWith(s, OpenFence) && |OpenFence| <= k && AllSpace(s[|OpenFence|..k]))
  {
    if StartsWith(s, OpenFence) then
      var n := LeadingSpace(s[|OpenFence|..]);
      assert s[|OpenFence|..][..n] == s[|OpenFence|..|OpenFence| + n];
      |OpenFence| + n
    else 0
  }

  /**
   * Where the second alternative matches in `rest`: the first position from which only
   * white space and a final "```" remain, or `|rest|` when `rest` does not end with one.
   */
  function CloseStart(rest: string): (k: nat)
    ensures k <= |rest|
    ensures k == |rest| || (EndsWith(rest, CloseFence) && k <= |rest| - |CloseFence|
      && AllSpace(rest[k..|rest| - |CloseFence|]))
  {
    if EndsWith(rest, CloseFence) then
      var body := rest[..|rest| - |CloseFence|];
      assert rest[|body| - TrailingSpace(body)..|rest| - |CloseFence|] == body[|body| - TrailingSpace(body)..];
      |body| - TrailingSpace(body)
    else |rest|
  }

  /**
   * The replace: the result is a slice of `s` from which at most an opening fence with
   * its trailing white space and a closing fence with its leading white space are cut.
   */
  function StripFences(s: string): (r: string)
    ensures exists a, b | 0 <= a <= b <= |s| ::
      && r == s[a..b]
      && (a == 0 || (StartsWith(s, OpenFence) && |OpenFence| <= a && AllSpace(s[|OpenFence|..a])))
      && (b == |s| || (EndsWith(s, CloseFence) && b <= |s| - |CloseFence| && AllSpace(s[b..|s| - |CloseFence|])))
  {
    var a := OpenEnd(s);
    var rest := s[a..];
    var k := CloseStart(rest);
    CloseStartIn(s, a);
    assert rest[..k] == s[a..a + k];
    rest[..k]
  }

  /** Where the closing fence's match starts, as a position in `s` itself. */
  lemma CloseStartIn(s: string, a: nat)
    requires a <= |s|
    ensures var b := a + CloseStart(s[a..]);
      b <= |s| && (b == |s| || (EndsWith(s, CloseFence) && b <= |s| - |CloseFence| && AllSpace(s[b..|s| - |CloseFence|])))
  {
    var rest := s[a..];
    var k := CloseStart(rest);
    if k != |rest| {
      SuffixSlice(s, a, |rest| - |CloseFence|, |rest|);
      SuffixSlice(s, a, k, |rest| - |CloseFence|);
    }
  }

  lemma SuffixSlice(s: string, a: nat, i: int, j: int)
    requires a <= |s|
    ensures 0 <= i <= j <= |s| - a ==> s[a..][i..j] == s[a + i..a + j]
  {
  }

  /** A reply without fences passes unchanged. */
  lemma UnfencedUnchanged(s: string)
    requires !StartsWith(s, OpenFence) && !EndsWith(s, CloseFence)
    ensures StripFences(s) == s
  {
    assert s[0..] == s;
  }

  lemma LeadingSpaceSkip(w: string, t: string)
    requires AllSpace(w)
    requires t == [] || !IsSpace(t[0])
    ensures LeadingSpace(w + t) == |w|
  {
    var s := w + t;
    assert s[..|w|] == w;
    LeadingSpaceExact(s, |w|);
  }

  lemma TrailingSpaceSkip(t: string, w: string)
    requires AllSpace(w)
    requires t == [] || !IsSpace(t[|t| - 1])
    ensures TrailingSpace(t + w) == |w|
  {
    var s := t + w;
    assert s[|s| - |w|..] == w;
    TrailingSpaceExact(s, |w|);
  }

  /** `json` in a "```json" block, with white space `w1` and `w2` inside the fences. */
  function Fenced(json: string, w1: string, w2: string): string {
    OpenFence + w1 + json + w2 + CloseFence
  }

  /** The scan resumes right after the opening fence and the white space that follows it. */
  lemma OpenEndFenced(json: string, w1: string, w2: string)
    requires AllSpace(w1)
    requires json != [] && !IsSpace(json[0])
    ensures OpenEnd(Fenced(json, w1, w2)) == |OpenFence| + |w1|
  {
    var s := Fenced(json, w1, w2);
    assert StartsWith(s, OpenFence);
    assert s[|OpenFence|..] == w1 + (json + w2 + CloseFence);
    LeadingSpaceSkip(w1, json + w2 + CloseFence);
  }

  /** The closing fence and the white space before it start right after the JSON text. */
  lemma CloseStartFenced(json: string, w2: string)
    requires AllSpace(w2)
    requires json != [] && !IsSpace(json[|json| - 1])
    ensures CloseStart(json + w2 + CloseFence) == |json|
  {
    var rest := json + w2 + CloseFence;
    assert EndsWith(rest, CloseFence);
    assert rest[..|rest| - |CloseFence|] == json + w2;
    TrailingSpaceSkip(json, w2);
  }

  /**
   * A JSON text without surrounding white space, wrapped in a "```json" block with any
   * white space around it, comes back exactly.
   */
  lemma FencedRoundTrip(json: string, w1: string, w2: string)
    requires AllSpace(w1) && AllSpace(w2)
    requires json != [] && !IsSpace(json[0]) && !IsSpace(json[|json| - 1])
    ensures StripFences(Fenced(json, w1, w2)) == json
    ensures Trim(Fenced(json, w1, w2)) == Fenced(json, w1, w2)
  {
    var s := Fenced(json, w1, w2);
    assert Trim(s) == s by {
      assert s[0] == '`' && s[|s| - 1] == '`';
      TrimNoSpaceEnds(s);
    }
    var rest := s[|OpenFence| + |w1|..];
    assert rest == json + w2 + CloseFence;
    OpenEndFenced(json, w1, w2);
    CloseStartFenced(json, w2);
    assert rest[..|json|] == json;
  }

  /**
   * A lone opening fence is dropped with the white space after it: the first alternative
   * matches at the start and the second finds no closing fence.
   */
  lemma OpenFenceStripped(w: string, t: string)
    requires AllSpace(w)
    requires t == [] || !IsSpace(t[0])
    requires !EndsWith(t, CloseFence)
    ensures StripFences(OpenFence + w + t) == t
  {
    var s := OpenFence + w + t;
    assert StartsWith(s, OpenFence);
    assert s[|OpenFence|..] == w + t;
    LeadingSpaceSkip(w, t);
    assert s[|OpenFence| + |w|..] == t;
  }

  /**
   * A lone closing fence is dropped with the white space before it: the first alternative
   * does not match and the second matches at the start of the trailing white space.
   */
  lemma CloseFenceStripped(t: string, w: string)
    requires AllSpace(w)
    requires t == [] || !IsSpace(t[|t| - 1])
    requires !StartsWith(t + w + CloseFence, OpenFence)
    ensures StripFences(t + w + CloseFence) == t
  {
    var s := t + w + CloseFence;
    assert s[0..] == s;
    assert EndsWith(s, CloseFence);
    assert s[..|s| - |CloseFence|] == t + w;
    TrailingSpaceSkip(t, w);
    assert s[..|t|] == t;
  }
}
