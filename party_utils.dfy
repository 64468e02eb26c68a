/**
 * Faction presentation helpers: the colour of a faction, found by looking for table keys
 * inside its label, and the split of a label such as "SPD (Bundestag 2021 - 2025)" into
 * a name and a parenthesised legislative period.
 */
module PartyUtils {
  import opened Wrappers
  import opened JsText

  /** The colour used when no key matches (slate-400). */
  const DefaultColor: string := "#94a3b8"

  /** The colour table, in its declaration order (none of its keys is an array index). */
  const PartyColors: seq<(string, string)> := [
    ("CDU/CSU", "#000000"),
    ("SPD", "#E3000F"),
    ("AfD", "#009EE0"),
    ("FDP", "#FFED00"),
    ("GR\U{DC}NEN", "#46962b"),
    ("B\U{DC}NDNIS 90/DIE GR\U{DC}NEN", "#46962b"),
    ("DIE LINKE", "#BE3075"),
    ("BSW", "#771e3d"),
    ("SSW", "#003C8F"),
    ("fraktionslos", "#94a3b8")
  ]

  /** The lower-cased key of row `i` occurs in the lower-cased text. */
  predicate Hit(table: seq<(string, string)>, lowerLabel: string, i: nat)
    requires i < |table|
  {
    Includes(lowerLabel, Lower(table[i].0))
  }

  /** The first row, at or after `from`, whose key occurs in `lowerLabel`. */
  function FirstHitFrom(table: seq<(string, string)>, lowerLabel: string, from: nat): (k: Option<nat>)
    requires from <= |table|
    ensures k.None? <==> forall j | from <= j < |table| :: !Hit(table, lowerLabel, j)
    ensures k.Some? ==> from <= k.value < |table| && Hit(table, lowerLabel, k.value)
    ensures k.Some? ==> forall j | from <= j < k.value :: !Hit(table, lowerLabel, j)
    decreases |table| - from
  {
    if from == |table| then None
    else if Hit(table, lowerLabel, from) then Some(from)
    else FirstHitFrom(table, lowerLabel, from + 1)
  }

  /** The colour `getPartyColor` returns: the first matching row's, else the default. */
  function ColorOf(table: seq<(string, string)>, text: string): (c: string)
    ensures c == DefaultColor || exists i | 0 <= i < |table| :: c == table[i].1
    ensures (forall j | 0 <= j < |table| :: !Hit(table, Lower(text), j)) ==> c == DefaultColor
  {
    match FirstHitFrom(table, Lower(text), 0)
    case None => DefaultColor
    case Some(i) => table[i].1
  }

  /** The search loop of `getPartyColor`, over the table `table`. */
  method GetPartyColor(table: seq<(string, string)>, text: string) returns (color: string)
    ensures color == ColorOf(table, text)
    ensures forall i | 0 <= i < |table| ::
      Hit(table, Lower(text), i) && (forall j | 0 <= j < i :: !Hit(table, Lower(text), j)) ==> color == table[i].1
  {
    var lowerLabel := Lower(text);
    var i := 0;
    while i < |table|
      invariant 0 <= i <= |table|
      invariant forall j | 0 <= j < i :: !Hit(table, lowerLabel, j)
    {
      if Includes(lowerLabel, Lower(table[i].0)) {
        assert Hit(table, lowerLabel, i);
        var k := FirstHitFrom(table, lowerLabel, 0);
        assert k.Some? && k.value <= i;
        assert k == Some(i);
        return table[i].1;
      }
      i := i + 1;
    }
    return DefaultColor;
  }

  /** Labels that differ only in letter case get the same colour. */
  lemma ColorIgnoresCase(table: seq<(string, string)>, text: string)
    ensures ColorOf(table, Lower(text)) == ColorOf(table, text)
  {
    LowerIdempotent(text);
  }

  /**
   * The alliance's full name contains "GRÜNEN", which comes first in the table, so its
   * own row never decides a colour.
   */
  lemma AllianceRowNeverDecides(text: string)
    ensures FirstHitFrom(PartyColors, Lower(text), 0) != Some(5)
  {
    var l := Lower(text);
    var full, short := Lower(PartyColors[5].0), Lower(PartyColors[4].0);
    assert full[15..] == short;
    if Hit(PartyColors, l, 5) {
      var i :| 0 <= i <= |l| - |full| && OccursAt(l, full, i);
      assert l[i + 15..i + 15 + |short|] == l[i..i + |full|][15..];
      assert OccursAt(l, short, i + 15);
    }
  }

  /** The two parts of a faction label. */
  datatype LabelParts = LabelParts(name: string, period: Option<string>)

  predicate NoLineTerminator(s: string) {
    forall i | 0 <= i < |s| :: !IsLineTerminator(s[i])
  }

  /**
   * `^(.*?)\s*\((.*?)\)$` matches `s` with the first group spanning `s[..a]`: no line
   * terminator in the groups, white space then `(` after the first group, and the
   * second group running up to the final `)`.
   */
  predicate MatchesAt(s: string, a: nat) {
    ParenFollows(s, a) && GroupsOnOneLine(s, a)
  }

  /** Where `(` must stand when the first group ends at `a`: after the white space there. */
  function ParenIndex(s: string, a: nat): nat
    requires a <= |s|
  {
    a + SpaceRunFrom(s, a)
  }

  /** White space, `(`, something, and a final `)` follow `s[..a]`. */
  predicate ParenFollows(s: string, a: nat) {
    a <= |s| && ParenIndex(s, a) < |s| - 1 && s[ParenIndex(s, a)] == '(' && s[|s| - 1] == ')'
  }

  /** Neither group holds a line terminator. */
  predicate GroupsOnOneLine(s: string, a: nat)
    requires ParenFollows(s, a)
  {
    NoLineTerminator(s[..a]) && NoLineTerminator(s[ParenIndex(s, a) + 1..|s| - 1])
  }

  /** The lazy first group: the shortest `a`, at or after `from`, at which the pattern matches. */
  function FirstMatchFrom(s: string, from: nat): (a: Option<nat>)
    requires from <= |s|
    ensures a.None? <==> forall b | from <= b <= |s| :: !MatchesAt(s, b)
    ensures a.Some? ==> from <= a.value <= |s| && MatchesAt(s, a.value)
    ensures a.Some? ==> forall b | from <= b < a.value :: !MatchesAt(s, b)
    decreases |s| - from
  {
    if MatchesAt(s, from) then Some(from)
    else if from == |s| then None
    else FirstMatchFrom(s, from + 1)
  }

  /** `splitPartyLabel`. */
  function SplitPartyLabel(text: string): (parts: LabelParts)
    ensures parts.period.None? <==> forall a | 0 <= a <= |text| :: !MatchesAt(text, a)
    ensures parts.period.None? ==> parts.name == text
    ensures parts.period.Some? ==>
      var p := parts.period.value;
      |p| >= 2 && p[0] == '(' && p[|p| - 1] == ')'
    ensures parts.period.Some? ==>
      parts.name == [] || (!IsSpace(parts.name[0]) && !IsSpace(parts.name[|parts.name| - 1]))
  {
    match FirstMatchFrom(text, 0)
    case None => LabelParts(text, None)
    case Some(a) =>
      LabelParts(Trim(text[..a]), Some(Period(text, a)))
  }

  /** `(${match[2]})`: the second group put back between parentheses. */
  function Period(text: string, a: nat): (p: string)
    requires ParenFollows(text, a)
    ensures |p| >= 2 && p[0] == '(' && p[|p| - 1] == ')'
  {
    "(" + text[ParenIndex(text, a) + 1..|text| - 1] + ")"
  }

  /** Where the first group ends when the first `(` is at `f`: before the white space preceding it. */
  function GroupEnd(text: string, f: nat): (a: nat)
    requires f <= |text|
    ensures a <= f && AllSpace(text[a..f])
    ensures 0 < a ==> !IsSpace(text[a - 1])
  {
    var t := SpaceRunBefore(text, f);
    SpaceSlice(text, f - t, f);
    f - t
  }

  lemma SpaceRunAtGroupEnd(text: string, f: nat)
    requires f < |text| && !IsSpace(text[f])
    ensures ParenIndex(text, GroupEnd(text, f)) == f
  {
    SpaceRunFromExact(text, GroupEnd(text, f), f);
  }

  /** The first `(` of `text` is at index `f`. */
  predicate FirstParenAt(text: string, f: nat) {
    f < |text| && text[f] == '(' && forall j | 0 <= j < f :: text[j] != '('
  }

  lemma MatchesAtGroupEnd(text: string, f: nat)
    requires FirstParenAt(text, f) && f < |text| - 1
    requires NoLineTerminator(text) && text[|text| - 1] == ')'
    ensures MatchesAt(text, GroupEnd(text, f))
  {
    var a0 := GroupEnd(text, f);
    SpaceRunAtGroupEnd(text, f);
    assert ParenFollows(text, a0);
    NoLineTerminatorSlice(text, 0, a0);
    NoLineTerminatorSlice(text, f + 1, |text| - 1);
    assert GroupsOnOneLine(text, a0);
  }

  lemma NoLineTerminatorSlice(s: string, i: nat, j: nat)
    requires NoLineTerminator(s) && i <= j <= |s|
    ensures NoLineTerminator(s[i..j])
  {
    assert forall k | 0 <= k < j - i :: s[i..j][k] == s[i + k];
  }

  lemma SpaceRunBeforeGroupEnd(text: string, f: nat, a: nat)
    requires f < |text| && a < GroupEnd(text, f)
    ensures ParenIndex(text, a) < f
  {
    // a non-space character sits just before the white space
    SpaceRunFromBound(text, a, GroupEnd(text, f) - 1);
  }

  lemma NoMatchBeforeGroupEnd(text: string, f: nat, a: nat)
    requires FirstParenAt(text, f) && a < GroupEnd(text, f)
    ensures !MatchesAt(text, a)
  {
    SpaceRunBeforeGroupEnd(text, f, a);
  }

  /** The lazy group ends at the first place where the pattern matches. */
  lemma {:induction false} FirstMatchIs(s: string, from: nat, a: nat)
    requires from <= a <= |s| && MatchesAt(s, a)
    requires forall b | from <= b < a :: !MatchesAt(s, b)
    ensures FirstMatchFrom(s, from) == Some(a)
    decreases a - from
  {
    if from < a {
      assert !MatchesAt(s, from);
      FirstMatchIs(s, from + 1, a);
    }
  }

  lemma FirstMatchAtGroupEnd(text: string, f: nat)
    requires FirstParenAt(text, f) && f < |text| - 1
    requires NoLineTerminator(text) && text[|text| - 1] == ')'
    ensures FirstMatchFrom(text, 0) == Some(GroupEnd(text, f))
  {
    var a0 := GroupEnd(text, f);
    MatchesAtGroupEnd(text, f);
    forall a | 0 <= a < a0 ensures !MatchesAt(text, a) {
      NoMatchBeforeGroupEnd(text, f, a);
    }
    FirstMatchIs(text, 0, a0);
  }

  lemma TrimGroupEnd(text: string, f: nat)
    requires f <= |text|
    ensures Trim(text[..GroupEnd(text, f)]) == Trim(text[..f])
  {
    var a0 := GroupEnd(text, f);
    assert text[..f] == text[..a0] + text[a0..f];
    TrimAppendSpace(text[..a0], text[a0..f]);
  }

  lemma PeriodAtGroupEnd(text: string, f: nat)
    requires f < |text| - 1 && text[f] == '(' && text[|text| - 1] == ')'
    ensures ParenFollows(text, GroupEnd(text, f))
    ensures Period(text, GroupEnd(text, f)) == "(" + text[f + 1..|text| - 1] + ")"
  {
    SpaceRunAtGroupEnd(text, f);
  }

  lemma SplitAt(text: string, a: nat)
    requires FirstMatchFrom(text, 0) == Some(a)
    ensures SplitPartyLabel(text) == LabelParts(Trim(text[..a]), Some(Period(text, a)))
  {
  }

  /**
   * For a single-line label ending in `)` with an earlier `(`, the name is the trimmed
   * text before the first `(` and the period runs from that `(` to the end.
   */
  lemma SplitSingleLine(text: string, f: nat)
    requires FirstParenAt(text, f) && f < |text| - 1
    requires NoLineTerminator(text) && text[|text| - 1] == ')'
    ensures SplitPartyLabel(text) == LabelParts(Trim(text[..f]), Some("(" + text[f + 1..|text| - 1] + ")"))
  {
    var a0 := GroupEnd(text, f);
    FirstMatchAtGroupEnd(text, f);
    TrimGroupEnd(text, f);
    PeriodAtGroupEnd(text, f);
    SplitAt(text, a0);
  }
}
