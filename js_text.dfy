/**
 * The few JavaScript string primitives the core relies on: the `\s` character class
 * (which is also the set `String.prototype.trim` removes), `toLowerCase`, `includes`,
 * `indexOf`/`lastIndexOf`, `substring` and `trim`.
 */
module JsText {

  /** JavaScript's `\s`: WhiteSpace and LineTerminator code points. */
  predicate IsSpace(c: char) {
    || c == '\t' || c == '\n' || c == '\U{B}' || c == '\U{C}' || c == '\r' || c == ' '
    || c == '\U{A0}' || c == '\U{1680}' || ('\U{2000}' <= c <= '\U{200A}')
    || c == '\U{2028}' || c == '\U{2029}' || c == '\U{202F}' || c == '\U{205F}'
    || c == '\U{3000}' || c == '\U{FEFF}'
  }

  /** The characters `.` in a regular expression without the `s` flag does not match. */
  predicate IsLineTerminator(c: char) {
    c == '\n' || c == '\r' || c == '\U{2028}' || c == '\U{2029}'
  }

  predicate AllSpace(s: string) {
    forall i | 0 <= i < |s| :: IsSpace(s[i])
  }

  /**
   * `toLowerCase` on one character, for ASCII and Latin-1 capitals and the capital sharp s.
   * Other scripts are outside the model.
   */
  function LowerChar(c: char): (r: char)
    ensures IsSpace(r) <==> IsSpace(c)
    ensures ('A' <= c <= 'Z') ==> r as int == c as int + 32
    ensures !('A' <= c <= 'Z') && !('\U{C0}' <= c <= '\U{DE}') && c != '\U{1E9E}' ==> r == c
  {
    if 'A' <= c <= 'Z' || ('\U{C0}' <= c <= '\U{DE}' && c != '\U{D7}') then (c as int + 32) as char
    else if c == '\U{1E9E}' then '\U{DF}'
    else c
  }

  /** Lowering twice is lowering once. */
  lemma LowerCharIdempotent(c: char)
    ensures LowerChar(LowerChar(c)) == LowerChar(c)
  {
  }

  /** `s.toLowerCase()`, character by character. */
  function Lower(s: string): (r: string)
    ensures |r| == |s|
    ensures forall i | 0 <= i < |s| :: r[i] == LowerChar(s[i])
  {
    seq(|s|, i requires 0 <= i < |s| => LowerChar(s[i]))
  }

  lemma LowerIdempotent(s: string)
    ensures Lower(Lower(s)) == Lower(s)
  {
    forall i | 0 <= i < |s| ensures Lower(Lower(s))[i] == Lower(s)[i] {
      LowerCharIdempotent(s[i]);
    }
  }

  lemma LowerAppend(a: string, b: string)
    ensures Lower(a + b) == Lower(a) + Lower(b)
  {
  }

  /** `sub` occurs in `s` starting at index `i`. */
  predicate OccursAt(s: string, sub: string, i: int) {
    0 <= i && i + |sub| <= |s| && s[i..i + |sub|] == sub
  }

  /** `s.includes(sub)`. */
  predicate Includes(s: string, sub: string) {
    exists i | 0 <= i <= |s| - |sub| :: OccursAt(s, sub, i)
  }

  /** `s.indexOf(c)` for a single character; -1 when absent. */
  function IndexOf(s: string, c: char): (r: int)
    ensures -1 <= r < |s|
    ensures r == -1 <==> c !in s
    ensures r >= 0 ==> s[r] == c
    ensures forall j | 0 <= j < r :: s[j] != c
  {
    if s == [] then -1
    else if s[0] == c then 0
    else var k := IndexOf(s[1..], c); if k == -1 then -1 else k + 1
  }

  /** `s.lastIndexOf(c)` for a single character; -1 when absent. */
  function LastIndexOf(s: string, c: char): (r: int)
    ensures -1 <= r < |s|
    ensures r == -1 <==> c !in s
    ensures r >= 0 ==> s[r] == c
    ensures forall j | r < j < |s| :: s[j] != c
  {
    if s == [] then -1
    else if s[|s| - 1] == c then |s| - 1
    else
      assert s == s[..|s| - 1] + [s[|s| - 1]];
      LastIndexOf(s[..|s| - 1], c)
  }

  function Min(a: int, b: int): int { if a <= b then a else b }
  function Max(a: int, b: int): int { if a <= b then b else a }

  /**
   * `s.substring(a, b)`: both indices are clamped to [0, |s|] and swapped when the
   * first exceeds the second.
   */
  function Substring(s: string, a: int, b: int): (r: string)
    ensures var lo, hi := Max(0, Min(Min(a, b), |s|)), Min(|s|, Max(0, Max(a, b))); r == s[lo..hi]
  {
    var x := Min(|s|, Max(0, a));
    var y := Min(|s|, Max(0, b));
    if x <= y then s[x..y] else s[y..x]
  }

  /** White space followed by white space is white space. */
  lemma AllSpaceConcat(a: string, b: string)
    requires AllSpace(a) && AllSpace(b)
    ensures AllSpace(a + b)
  {
    forall i | 0 <= i < |a + b| ensures IsSpace((a + b)[i]) {
      if i < |a| {
        assert (a + b)[i] == a[i];
      } else {
        assert (a + b)[i] == b[i - |a|];
      }
    }
  }

  /** Length of the run of white space in `s` that starts at `i`. */
  function SpaceRunFrom(s: string, i: nat): (n: nat)
    requires i <= |s|
    ensures i + n <= |s|
    ensures forall j | i <= j < i + n :: IsSpace(s[j])
    ensures i + n < |s| ==> !IsSpace(s[i + n])
    decreases |s| - i
  {
    if i == |s| || !IsSpace(s[i]) then 0 else 1 + SpaceRunFrom(s, i + 1)
  }

  /** Length of the run of white space in `s` that ends just before `e`. */
  function SpaceRunBefore(s: string, e: nat): (n: nat)
    requires e <= |s|
    ensures n <= e
    ensures forall j | e - n <= j < e :: IsSpace(s[j])
    ensures n < e ==> !IsSpace(s[e - n - 1])
  {
    if e == 0 || !IsSpace(s[e - 1]) then 0 else 1 + SpaceRunBefore(s, e - 1)
  }

  /** A run of white space from `i` ends at the first non-space character after it. */
  lemma SpaceRunFromBound(s: string, i: nat, k: nat)
    requires i <= k < |s| && !IsSpace(s[k])
    ensures SpaceRunFrom(s, i) <= k - i
  {
  }

  /** The run of white space from `i` is exactly the stretch up to `e` when a non-space character ends it there. */
  lemma SpaceRunFromExact(s: string, i: nat, e: nat)
    requires i <= e <= |s| && forall j | i <= j < e :: IsSpace(s[j])
    requires e < |s| ==> !IsSpace(s[e])
    ensures SpaceRunFrom(s, i) == e - i
  {
  }

  /** A stretch of white-space characters is a white-space slice. */
  lemma SpaceSlice(s: string, a: nat, b: nat)
    requires a <= b <= |s|
    requires forall j | a <= j < b :: IsSpace(s[j])
    ensures AllSpace(s[a..b])
  {
    forall j | 0 <= j < b - a ensures IsSpace(s[a..b][j]) {
      assert s[a..b][j] == s[a + j];
    }
  }

  /** Number of leading characters of `s` that are white space. */
  function LeadingSpace(s: string): (n: nat)
    ensures n <= |s| && AllSpace(s[..n])
    ensures n < |s| ==> !IsSpace(s[n])
  {
    var n := SpaceRunFrom(s, 0);
    SpaceSlice(s, 0, n);
    assert s[0..n] == s[..n];
    n
  }

  /** Number of trailing characters of `s` that are white space. */
  function TrailingSpace(s: string): (n: nat)
    ensures n <= |s| && AllSpace(s[|s| - n..])
    ensures n < |s| ==> !IsSpace(s[|s| - n - 1])
  {
    var n := SpaceRunBefore(s, |s|);
    SpaceSlice(s, |s| - n, |s|);
    assert s[|s| - n..|s|] == s[|s| - n..];
    n
  }

  /** Every character of a white-space prefix is white space. */
  lemma SpacePrefix(s: string, k: nat)
    requires k <= |s| && AllSpace(s[..k])
    ensures forall j | 0 <= j < k :: IsSpace(s[j])
  {
    forall j | 0 <= j < k ensures IsSpace(s[j]) {
      assert s[..k][j] == s[j];
    }
  }

  /** Every character of a white-space suffix is white space. */
  lemma SpaceSuffix(s: string, k: nat)
    requires k <= |s| && AllSpace(s[|s| - k..])
    ensures forall j | |s| - k <= j < |s| :: IsSpace(s[j])
  {
    forall j | |s| - k <= j < |s| ensures IsSpace(s[j]) {
      assert s[|s| - k..][j - (|s| - k)] == s[j];
    }
  }

  /** Leading white space stops at the first non-space character. */
  lemma LeadingSpaceBound(s: string, k: nat)
    requires k < |s| && !IsSpace(s[k])
    ensures LeadingSpace(s) <= k
  {
    SpacePrefix(s, LeadingSpace(s));
  }

  /** Trailing white space stops at the last non-space character. */
  lemma TrailingSpaceBound(s: string, k: nat)
    requires k < |s| && !IsSpace(s[k])
    ensures TrailingSpace(s) < |s| - k
  {
    SpaceSuffix(s, TrailingSpace(s));
  }

  /** Leading white space is exactly the white-space prefix that a non-space character ends. */
  lemma LeadingSpaceExact(s: string, k: nat)
    requires k <= |s| && AllSpace(s[..k])
    requires k < |s| ==> !IsSpace(s[k])
    ensures LeadingSpace(s) == k
  {
    SpacePrefix(s, LeadingSpace(s));
    SpacePrefix(s, k);
  }

  /** Trailing white space is exactly the white-space suffix that a non-space character starts. */
  lemma TrailingSpaceExact(s: string, k: nat)
    requires k <= |s| && AllSpace(s[|s| - k..])
    requires k < |s| ==> !IsSpace(s[|s| - k - 1])
    ensures TrailingSpace(s) == k
  {
    SpaceSuffix(s, TrailingSpace(s));
    SpaceSuffix(s, k);
  }

  /** `s.trim()`: without its leading and trailing white space. */
  function Trim(s: string): (r: string)
    ensures r == [] || (!IsSpace(r[0]) && !IsSpace(r[|r| - 1]))
  {
    var i := LeadingSpace(s);
    if i == |s| then []
    else
      TrailingSpaceBound(s, i);
      s[i..|s| - TrailingSpace(s)]
  }

  /** `trim` cuts a white-space prefix and a white-space suffix and nothing else. */
  lemma TrimSlice(s: string)
    ensures exists i, j | 0 <= i <= j <= |s| :: Trim(s) == s[i..j] && AllSpace(s[..i]) && AllSpace(s[j..])
  {
    var i := LeadingSpace(s);
    if i == |s| {
      assert Trim(s) == s[|s|..|s|] && s[|s|..] == [];
    } else {
      TrailingSpaceBound(s, i);
    }
  }

  /** Leading white space of a string with a non-space character ignores what follows. */
  lemma LeadingSpaceAppend(s: string, w: string)
    requires LeadingSpace(s) < |s|
    ensures LeadingSpace(s + w) == LeadingSpace(s)
  {
    var n := LeadingSpace(s);
    assert (s + w)[..n] == s[..n];
    assert (s + w)[n] == s[n];
    LeadingSpaceExact(s + w, n);
  }

  /** A white-space suffix followed by white space is a longer white-space suffix. */
  lemma SpaceSuffixAppend(t: string, w: string, n: nat)
    requires n <= |t| && AllSpace(t[|t| - n..]) && AllSpace(w)
    ensures AllSpace((t + w)[|t| - n..])
  {
    assert (t + w)[|t| - n..] == t[|t| - n..] + w;
    AllSpaceConcat(t[|t| - n..], w);
  }

  /** Appended white space adds to the trailing white space of a string that has a non-space character. */
  lemma TrailingSpaceAppend(t: string, w: string)
    requires AllSpace(w) && TrailingSpace(t) < |t|
    ensures TrailingSpace(t + w) == TrailingSpace(t) + |w|
  {
    var n := TrailingSpace(t);
    SpaceSuffixAppend(t, w, n);
    assert (t + w)[|t| - n - 1] == t[|t| - n - 1];
    TrailingSpaceExact(t + w, n + |w|);
  }

  /** `trim` of a string of white space is empty. */
  lemma TrimBlank(s: string)
    requires AllSpace(s)
    ensures Trim(s) == []
  {
    assert s[..|s|] == s;
    LeadingSpaceExact(s, |s|);
  }

  /** `trim` of a string with a non-space character cuts both white-space runs. */
  lemma TrimText(s: string)
    requires LeadingSpace(s) < |s|
    ensures LeadingSpace(s) <= |s| - TrailingSpace(s)
    ensures Trim(s) == s[LeadingSpace(s)..|s| - TrailingSpace(s)]
  {
    TrailingSpaceBound(s, LeadingSpace(s));
  }

  /** White space appended to a string that has a non-space character disappears under `trim`. */
  lemma TrimAppendSpaceText(s: string, w: string)
    requires AllSpace(w) && LeadingSpace(s) < |s|
    ensures Trim(s + w) == Trim(s)
  {
    var i, n := LeadingSpace(s), TrailingSpace(s);
    assert Trim(s) == s[i..|s| - n] by {
      TrimText(s);
    }
    assert LeadingSpace(s + w) == i by {
      LeadingSpaceAppend(s, w);
    }
    assert TrailingSpace(s + w) == n + |w| by {
      TrailingSpaceAppend(s, w);
    }
    assert Trim(s + w) == (s + w)[i..|s| - n] by {
      TrimText(s + w);
    }
    assert (s + w)[i..|s| - n] == s[i..|s| - n];
  }

  /** White space appended to a string disappears under `trim`. */
  lemma TrimAppendSpace(s: string, w: string)
    requires AllSpace(w)
    ensures Trim(s + w) == Trim(s)
  {
    if LeadingSpace(s) < |s| {
      TrimAppendSpaceText(s, w);
    } else {
      assert s[..LeadingSpace(s)] == s;
      AllSpaceConcat(s, w);
      TrimBlank(s);
      TrimBlank(s + w);
    }
  }

  /** Text with no white space at either end is its own trim. */
  lemma TrimNoSpaceEnds(s: string)
    requires s == [] || (!IsSpace(s[0]) && !IsSpace(s[|s| - 1]))
    ensures Trim(s) == s
  {
    if s != [] {
      LeadingSpaceExact(s, 0);
      assert s[|s|..] == [];
      TrailingSpaceExact(s, 0);
    }
  }
}
