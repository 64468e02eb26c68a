/**
 * The coarse themes under which polls are filed: a poll's topic labels are joined,
 * lower-cased and tested against one keyword alternation per theme, in priority order.
 */
module TopicUtils {
  import opened Wrappers
  import opened JsText

  /** The themes offered by the filter bar; "Alle" is the no-filter entry. */
  const Themes: seq<string> := [
    "Alle",
    "Klima & Umwelt",
    "Wirtschaft & Finanzen",
    "Soziales & Gesundheit",
    "Au\U{DF}en & Europa",
    "Recht & Sicherheit",
    "Demokratie",
    "Bildung & Digitales",
    "Sonstiges"
  ]

  /** The theme of a poll that fits no other. */
  const Other: string := "Sonstiges"

  /** Each theme with the alternatives of its regular expression, in priority order. */
  const Categories: seq<(string, seq<string>)> := [
    ("Klima & Umwelt",
      ["klima", "umwelt", "energie", "natur", "reaktor", "tierschutz"]),
    ("Wirtschaft & Finanzen",
      ["wirtschaft", "finanz", "haushalt", "steuer", "arbeit", "besch\U{E4}ftigung",
       "landwirtschaft", "verkehr", "bauen", "wohnen"]),
    ("Soziales & Gesundheit",
      ["sozial", "gesundheit", "familie", "frauen", "jugend", "senioren", "rente", "pflege",
       "inklusion"]),
    ("Au\U{DF}en & Europa",
      ["au\U{DF}en", "europa", "eu", "verteidigung", "entwicklung", "menschenrechte", "krieg",
       "frieden", "international"]),
    ("Recht & Sicherheit",
      ["recht", "sicherheit", "justiz", "polizei", "migration", "asyl", "inneres"]),
    ("Demokratie",
      ["bundestag", "wahl", "partei", "demokratie", "lobby", "transparenz"]),
    ("Bildung & Digitales",
      ["bildung", "digital", "medien", "forschung", "wissenschaft", "kultur", "netz", "internet"])
  ]

  /** `topics.join(' ')`. */
  function Join(topics: seq<string>): string
    decreases |topics|
  {
    if topics == [] then ""
    else if |topics| == 1 then topics[0]
    else Join(topics[..|topics| - 1]) + " " + topics[|topics| - 1]
  }

  /** The regular expression of category `i` finds a match somewhere in `text`. */
  predicate MatchesCategory(text: string, i: nat)
    requires i < |Categories|
  {
    exists j | 0 <= j < |Categories[i].1| :: Includes(text, Categories[i].1[j])
  }

  /** The first category, at or after `from`, whose expression matches `text`. */
  function FirstCategoryFrom(text: string, from: nat): (c: Option<nat>)
    requires from <= |Categories|
    ensures c.None? <==> forall i | from <= i < |Categories| :: !MatchesCategory(text, i)
    ensures c.Some? ==> from <= c.value < |Categories| && MatchesCategory(text, c.value)
    ensures c.Some? ==> forall i | from <= i < c.value :: !MatchesCategory(text, i)
    decreases |Categories| - from
  {
    if from == |Categories| then None
    else if MatchesCategory(text, from) then Some(from)
    else FirstCategoryFrom(text, from + 1)
  }

  /** `mapTopicsToTheme`; `None` stands for a missing topic list. */
  function MapTopicsToTheme(rawTopics: Option<seq<string>>): (theme: string)
    ensures theme in Themes && theme != "Alle"
    ensures rawTopics.None? || rawTopics.value == [] ==> theme == Other
  {
    if rawTopics.None? || rawTopics.value == [] then Other
    else
      match FirstCategoryFrom(Lower(Join(rawTopics.value)), 0)
      case None => Other
      case Some(i) => Categories[i].0
  }

  /** The theme is the first category, in priority order, one of whose keywords occurs. */
  lemma ThemeIsFirstMatch(topics: seq<string>, i: nat)
    requires topics != [] && i < |Categories|
    requires MatchesCategory(Lower(Join(topics)), i)
    requires forall j | 0 <= j < i :: !MatchesCategory(Lower(Join(topics)), j)
    ensures MapTopicsToTheme(Some(topics)) == Categories[i].0
  {
    var c := FirstCategoryFrom(Lower(Join(topics)), 0);
    assert c.Some? && c.value <= i;
  }

  /** Without any keyword the theme is "Sonstiges". */
  lemma NoKeywordIsOther(topics: seq<string>)
    requires forall i | 0 <= i < |Categories| :: !MatchesCategory(Lower(Join(topics)), i)
    ensures MapTopicsToTheme(Some(topics)) == Other
  {
    var c := FirstCategoryFrom(Lower(Join(topics)), 0);
    assert c.None?;
  }

  /** `topics` with every label lower-cased. */
  function LowerAll(topics: seq<string>): (r: seq<string>)
    ensures |r| == |topics| && forall i | 0 <= i < |topics| :: r[i] == Lower(topics[i])
  {
    seq(|topics|, i requires 0 <= i < |topics| => Lower(topics[i]))
  }

  lemma {:induction false} LowerJoin(topics: seq<string>)
    ensures Lower(Join(topics)) == Join(LowerAll(topics))
    decreases |topics|
  {
    if |topics| > 1 {
      var init := topics[..|topics| - 1];
      LowerJoin(init);
      assert LowerAll(init) == LowerAll(topics)[..|topics| - 1];
      LowerAppend(Join(init) + " ", topics[|topics| - 1]);
      LowerAppend(Join(init), " ");
    }
  }

  /** The theme does not depend on the letter case of the topic labels. */
  lemma ThemeIgnoresCase(a: seq<string>, b: seq<string>)
    requires |a| == |b| && forall i | 0 <= i < |a| :: Lower(a[i]) == Lower(b[i])
    ensures MapTopicsToTheme(Some(a)) == MapTopicsToTheme(Some(b))
  {
    LowerJoin(a);
    LowerJoin(b);
    assert LowerAll(a) == LowerAll(b);
  }

  /** A keyword of the table is not empty and holds no space. */
  predicate Keyword(k: string) {
    k != [] && ' ' !in k
  }

  lemma KeywordsHaveNoSpace(i: nat, j: nat)
    requires i < |Categories| && j < |Categories[i].1|
    ensures Keyword(Categories[i].1[j])
  {
    if i < 3 {
      EarlyKeywordsHaveNoSpace(i, j);
    } else {
      LateKeywordsHaveNoSpace(i, j);
    }
  }

  lemma EarlyKeywordsHaveNoSpace(i: nat, j: nat)
    requires i < 3 && j < |Categories[i].1|
    ensures Keyword(Categories[i].1[j])
  {
    if i == 0 {
    } else if i == 1 {
    }
  }

  lemma LateKeywordsHaveNoSpace(i: nat, j: nat)
    requires 3 <= i < |Categories| && j < |Categories[i].1|
    ensures Keyword(Categories[i].1[j])
  {
    if i == 3 {
    } else if i == 4 {
    } else if i == 5 {
    }
  }

  /** A slice of a concatenation that lies within one of its parts. */
  lemma SliceOfConcat(x: string, y: string, lo: nat, hi: nat)
    ensures lo <= hi <= |x| ==> (x + y)[lo..hi] == x[lo..hi]
    ensures |x| <= lo <= hi <= |x| + |y| ==> (x + y)[lo..hi] == y[lo - |x|..hi - |x|]
  {
  }

  /** An occurrence in `a + " " + b` of a word without a space lies inside `a` or inside `b`. */
  lemma OccursBeside(a: string, b: string, k: string, i: nat)
    requires Keyword(k) && OccursAt(a + " " + b, k, i)
    ensures i + |k| <= |a| || |a| < i
  {
    var s := a + " " + b;
    assert forall m | 0 <= m < |k| :: s[i + m] == k[m] && k[m] != ' ';
    assert s[|a|] == ' ';
  }

  /** An occurrence in `a + " " + b` of a word without a space is an occurrence in `a` or in `b`. */
  lemma IncludesJoinedPart(a: string, b: string, k: string)
    requires Keyword(k) && Includes(a + " " + b, k)
    ensures Includes(a, k) || Includes(b, k)
  {
    var s := a + " " + b;
    var i :| 0 <= i <= |s| - |k| && OccursAt(s, k, i);
    OccursBeside(a, b, k, i);
    SliceOfConcat(a + " ", b, i, i + |k|);
    SliceOfConcat(a, " ", i, i + |k|);
    if i + |k| <= |a| {
      assert OccursAt(a, k, i);
    } else {
      assert OccursAt(b, k, i - |a| - 1);
    }
  }

  /** An occurrence in `a` or in `b` is one in `a + " " + b`. */
  lemma IncludesPartJoined(a: string, b: string, k: string)
    requires Includes(a, k) || Includes(b, k)
    ensures Includes(a + " " + b, k)
  {
    var s := a + " " + b;
    if Includes(a, k) {
      var i :| 0 <= i <= |a| - |k| && OccursAt(a, k, i);
      SliceOfConcat(a + " ", b, i, i + |k|);
      SliceOfConcat(a, " ", i, i + |k|);
      assert OccursAt(s, k, i);
    } else {
      var i :| 0 <= i <= |b| - |k| && OccursAt(b, k, i);
      SliceOfConcat(a + " ", b, |a| + 1 + i, |a| + 1 + i + |k|);
      assert OccursAt(s, k, |a| + 1 + i);
    }
  }

  /** A keyword without a space cannot straddle the joining space. */
  lemma IncludesAcrossSpace(a: string, b: string, k: string)
    requires Keyword(k)
    ensures Includes(a + " " + b, k) <==> Includes(a, k) || Includes(b, k)
  {
    if Includes(a + " " + b, k) {
      IncludesJoinedPart(a, b, k);
    }
    if Includes(a, k) || Includes(b, k) {
      IncludesPartJoined(a, b, k);
    }
  }

  /** Some label contains `k`. */
  predicate Mentions(topics: seq<string>, k: string) {
    exists i | 0 <= i < |topics| :: Includes(topics[i], k)
  }

  /** A keyword occurs in the joined labels exactly when it occurs in one of them. */
  lemma {:induction false} IncludesJoin(topics: seq<string>, k: string)
    requires Keyword(k)
    ensures Includes(Join(topics), k) <==> Mentions(topics, k)
    decreases |topics|
  {
    if |topics| == 1 {
      assert Join(topics) == topics[0];
    } else if |topics| > 1 {
      var init, last := topics[..|topics| - 1], topics[|topics| - 1];
      IncludesJoin(init, k);
      IncludesAcrossSpace(Join(init), last, k);
      if Mentions(topics, k) {
        var i :| 0 <= i < |topics| && Includes(topics[i], k);
        if i < |init| { assert init[i] == topics[i]; }
      }
      if Mentions(init, k) {
        var i :| 0 <= i < |init| && Includes(init[i], k);
        assert topics[i] == init[i];
      }
    }
  }

  /** Whether a category matches depends only on which lower-cased labels occur. */
  lemma CategoryBySet(a: seq<string>, b: seq<string>, i: nat)
    requires i < |Categories| && multiset(a) == multiset(b)
    ensures MatchesCategory(Lower(Join(a)), i) <==> MatchesCategory(Lower(Join(b)), i)
  {
    LowerJoin(a);
    LowerJoin(b);
    forall j | 0 <= j < |Categories[i].1|
      ensures Includes(Lower(Join(a)), Categories[i].1[j]) <==> Includes(Lower(Join(b)), Categories[i].1[j])
    {
      var k := Categories[i].1[j];
      KeywordsHaveNoSpace(i, j);
      IncludesJoin(LowerAll(a), k);
      IncludesJoin(LowerAll(b), k);
      MentionsBySet(a, b, k);
    }
  }

  lemma MentionsBySet(a: seq<string>, b: seq<string>, k: string)
    requires multiset(a) == multiset(b)
    ensures Mentions(LowerAll(a), k) <==> Mentions(LowerAll(b), k)
  {
    if Mentions(LowerAll(a), k) {
      var i :| 0 <= i < |a| && Includes(LowerAll(a)[i], k);
      assert a[i] in multiset(b);
      var j :| 0 <= j < |b| && b[j] == a[i];
      assert Includes(LowerAll(b)[j], k);
    }
    if Mentions(LowerAll(b), k) {
      var i :| 0 <= i < |b| && Includes(LowerAll(b)[i], k);
      assert b[i] in multiset(a);
      var j :| 0 <= j < |a| && a[j] == b[i];
      assert Includes(LowerAll(a)[j], k);
    }
  }

  /** Reordering the topic labels does not change the theme. */
  lemma ThemeIgnoresOrder(a: seq<string>, b: seq<string>)
    requires multiset(a) == multiset(b)
    ensures MapTopicsToTheme(Some(a)) == MapTopicsToTheme(Some(b))
  {
    forall i | 0 <= i < |Categories|
      ensures MatchesCategory(Lower(Join(a)), i) <==> MatchesCategory(Lower(Join(b)), i)
    {
      CategoryBySet(a, b, i);
    }
    assert |a| == |multiset(a)| == |b|;
    var ca := FirstCategoryFrom(Lower(Join(a)), 0);
    var cb := FirstCategoryFrom(Lower(Join(b)), 0);
    assert ca.Some? <==> cb.Some?;
    if ca.Some? {
      assert ca.value <= cb.value && cb.value <= ca.value;
    }
  }
}
