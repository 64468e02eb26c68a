# Politikurs vote pipeline — a Dafny model

Politikurs shows citizens recent roll-call votes of the German Bundestag as simple
yes/no questions. It lets them answer, and tells them which parliamentary factions
voted the way they did. This project models the core of that pipeline and proves
properties of the model:

- **Poll sync** (`GET /api/sync-polls`). It walks the latest polls and stores new ones.
  For every poll it pages through the individual MPs' votes and aggregates them into
  one tally per faction. It also asks a language model once for a citizen question,
  built from the cleaned poll description.
- **Debate job** (`/api/cron/sync-debate`). It picks the most recent poll without an
  analysis and asks a model up to three times for pro/contra arguments. It pulls the
  JSON object out of the reply by its outermost braces.
- **Stance job** (`/api/cron/sync-stances`). It picks the most recent poll without party
  stances and asks a model party by party. Citation markers and code fences are
  stripped. A payment or rate-limit reply ends the whole job.
- **Match score** (`calculatePartyMatches`) and the **match panel** (`VoteMatchAnalysis`).
  Both decide which factions sided with the citizen, taking the question's `vote_flip`
  into account.
- **Results chart**: the flip-aware yes/no display, seat totals and shares, and the legend.
- **Party colours and labels**, and **topic → theme** mapping.
- **Vote endpoint** (`POST /api/vote`) and the **voting buttons**. The endpoint keeps one
  row per (poll, session), set by a vote and deleted by a withdrawn one. The buttons
  toggle the vote, remember it in the browser and revert the display on failure.

Things outside the model are parameters, never assumptions:

- HTTP replies, database reads and writes, the model's replies and `JSON.parse`;
- the party list of the stance job;
- the label order of `localeCompare`.

Several JavaScript built-ins are modelled with their edge cases:

- `substring`, which clamps its arguments and swaps them when the start exceeds the end;
- `trim` and `\s`;
- the global regular expressions used for tags, white space, fences and citations;
- `toLowerCase` on ASCII and Latin-1.

Modules, one per source file plus shared ones:

| module | file | models |
|---|---|---|
| `Wrappers` | wrappers.dfy | `Option`, `Result`, the three outcomes of `JSON.parse` |
| `JsText` | js_text.dfy | the string built-ins named above |
| `Percent` | percent.dfy | `Math.round(100 * a / b)` on naturals |
| `Sequences` | sequences.dfy | `filter` and the stable `Array.prototype.sort` |
| `Tallies` | tallies.dfy | the `vote_results` row and the object-or-array `poll_questions` relation |
| `MatchUtils` | match_utils.dfy | lib/matchUtils.ts |
| `VoteMatchAnalysis` | vote_match_analysis.dfy | components/VoteMatchAnalysis.tsx |
| `Agreement` | agreement.dfy | where the two previous ones agree and where they do not |
| `PartyUtils` | party_utils.dfy | lib/partyUtils.ts |
| `TopicUtils` | topic_utils.dfy | lib/topicUtils.ts |
| `ResultsChart` | results_chart.dfy | components/ResultsChart.tsx |
| `AiText` | ai_text.dfy | the ```` ```json ```` fence expression shared by two routes |
| `SyncVotes` | sync_votes.dfy | `syncVotesForPoll` in app/api/sync-polls/route.ts |
| `SyncPolls` | sync_polls.dfy | the rest of app/api/sync-polls/route.ts |
| `Cron` | cron.dfy | the bearer check and target-poll search of both cron jobs |
| `SyncDebate` | sync_debate.dfy | app/api/cron/sync-debate/route.ts |
| `SyncStances` | sync_stances.dfy | app/api/cron/sync-stances/route.ts |
| `Ballots` | ballots.dfy | a ballot map: a vote sets the entry, `null` deletes it |
| `VoteRoute` | vote_route.dfy | app/api/vote/route.ts |
| `VotingInterface` | voting_interface.dfy | components/VotingInterface.tsx |

## Model

| member | source | states |
|---|---|---|
| `MatchUtils.Opinion` | lib/matchUtils.ts:14-15 | a poll counts as answered yes or no exactly when the citizen's entry is `yes` or `no`; a missing or `skip` entry gives nothing |
| `MatchUtils.Agrees` | lib/matchUtils.ts:37 | the full truth table of agreement: the citizen's yes matches a yes majority unless the question is flipped, and symmetrically for no |
| `MatchUtils.AccumulatePoll` | lib/matchUtils.ts:22-44 | the inner `forEach` over one answered poll's tallies builds exactly the table `AccResults` gives |
| `MatchUtils.Accumulate` | lib/matchUtils.ts:10-45 | the `forEach` loops build exactly the statistics table the specification function gives |
| `MatchUtils.AccPollsFacts` | lib/matchUtils.ts:13-45 | per faction, the total is the number of its counted tallies on answered polls and the matches are the agreeing ones; a faction has an entry iff it appeared in an answered poll |
| `MatchUtils.UnansweredPollsIgnored` | lib/matchUtils.ts:14-15 | dropping the polls the citizen did not answer yes/no leaves the statistics unchanged |
| `MatchUtils.FinishFacts` | lib/matchUtils.ts:48-57 | the output rows are the table's entries with a non-zero total, one per faction, each with its own statistics, sorted by percentage then total, descending |
| `MatchUtils.CalculatePartyMatches` | lib/matchUtils.ts:9-58 | every row has 0 < total, match ≤ total, and percentage = round-half-up(100·match/total) ≤ 100; every faction with a counted tally gets exactly one row; each row's label is its faction's first tally label on an answered poll; rows are ordered by percentage then total, and, when all faction ids are array indices, full ties by ascending id; the result is `Finish` of the accumulated table |
| `MatchUtils.AccResultsLabel` | lib/matchUtils.ts:23-25 | an entry keeps the label it was created with; a new entry takes the label of its faction's first tally in the poll |
| `MatchUtils.AccPollsLabel` | lib/matchUtils.ts:13-25 | a faction has an entry iff `FirstLabelOn` finds a tally for it on an answered poll, and the entry's label is that first tally's label |
| `MatchUtils.FinishCounts` | lib/matchUtils.ts:48-56 | each returned row carries the independent counts `CountedOn`/`MatchedOn` and the rounded share |
| `MatchUtils.FinishCoversCounted` | lib/matchUtils.ts:48-56 | every faction with a counted tally on an answered poll has a returned row |
| `MatchUtils.FinishLabels` | lib/matchUtils.ts:50-52 | each returned row's `fraction_label` is its faction's first tally label on an answered poll |
| `MatchUtils.FinishIdOrder` | lib/matchUtils.ts:48-57 | when every faction id is an array index, rows tied on percentage and total come in ascending faction id |
| `MatchUtils.EntryOrderAscending` | lib/matchUtils.ts:48 | with integer faction ids, `Object.entries` lists the factions in ascending id order |
| `MatchUtils.FinishTieOrder` | lib/matchUtils.ts:48-57 | rows tied on percentage and total appear in ascending faction id, because the sort is stable |
| `Percent.RoundPercent` | lib/matchUtils.ts:54 | the result r is the integer nearest to 100·part/whole with halves rounded up, within [0,100] when part ≤ whole, 0 for part 0 and 100 for part = whole |
| `Percent.RoundPercentMonotone` | lib/matchUtils.ts:54 | more matches never give a lower percentage |
| `Tallies.FirstRelated` | lib/matchUtils.ts:17 | the related question is the object itself, or the first element of an array, and absent for a missing object or an empty array |
| `Tallies.VoteFlip` | lib/matchUtils.ts:17-18 | the flip flag is true exactly when the (first) related question has `vote_flip` true; absent means false |
| `Sequences.Filter` | lib/matchUtils.ts:56 | `filter` keeps exactly the elements satisfying the predicate, in order |
| `Sequences.SortStable` | lib/matchUtils.ts:57 | the insertion sort is a sorted permutation, and elements the comparator ties keep their input order |
| `VoteMatchAnalysis.SettledVote` | components/VoteMatchAnalysis.tsx:24-41 | once the effects have run, the panel's vote is the vote passed in when there is one, otherwise the remembered one |
| `VoteMatchAnalysis.TargetsParliamentYes` | components/VoteMatchAnalysis.tsx:60-61 | all four cases of the answer/flip XOR |
| `VoteMatchAnalysis.MatchingParties` | components/VoteMatchAnalysis.tsx:43-80 | the panel renders nothing exactly when there is no vote or no results |
| `VoteMatchAnalysis.SidesWithMeaning` | components/VoteMatchAnalysis.tsx:64-79 | a faction is listed iff yes ≠ no and its majority is the targeted parliamentary vote; the zero-total test is subsumed |
| `VoteMatchAnalysis.FlipSymmetry` | components/VoteMatchAnalysis.tsx:60-80 | answering yes to a flipped question lists the same factions as answering no to an unflipped one |
| `VoteMatchAnalysis.YesNoPartition` | components/VoteMatchAnalysis.tsx:73-79 | every faction without a tie is listed for exactly one of the two answers; tied factions for neither |
| `VoteMatchAnalysis.MatchingMembers` | components/VoteMatchAnalysis.tsx:64-80 | a result is listed iff it sides with the citizen |
| `VoteMatchAnalysis.MatchingSubMultiset` | components/VoteMatchAnalysis.tsx:64-80 | the list is a sub-multiset of the results |
| `VoteMatchAnalysis.MatchingBiggestFirst` | components/VoteMatchAnalysis.tsx:80 | listed factions are ordered by yes+no votes, biggest first |
| `VoteMatchAnalysis.EqualSizesKeepOrder` | components/VoteMatchAnalysis.tsx:80 | factions of equal size keep their order in the results |
| `Agreement.ScoreAgreesWithPanel` | lib/matchUtils.ts:27-37 | for a faction whose majority is not abstention, the score counts agreement on a poll exactly when the panel lists that faction for the same answer and flip |
| `Agreement.AbstainMajorityDiverges` | lib/matchUtils.ts:31 | a faction with 1 yes, 0 no and 5 abstentions is listed by the panel but left out of the score |
| `PartyUtils.FirstHitFrom` | lib/partyUtils.ts:16-18 | the first colour-table key (from a position on) contained in the lowered label, or none at all |
| `PartyUtils.ColorOf` | lib/partyUtils.ts:14-20 | the colour is a table colour or the default, and it is the default when no key matches |
| `PartyUtils.GetPartyColor` | lib/partyUtils.ts:14-20 | the loop returns the colour of the first table row whose lowered key the lowered label contains |
| `PartyUtils.ColorIgnoresCase` | lib/partyUtils.ts:15-17 | the colour does not depend on the label's letter case |
| `PartyUtils.AllianceRowNeverDecides` | lib/partyUtils.ts:5-6 | the `BÜNDNIS 90/DIE GRÜNEN` row is never the first match, because any label containing it contains `GRÜNEN`, which comes first |
| `PartyUtils.FirstMatchFrom` | lib/partyUtils.ts:23 | the first start position at which the lazy label expression matches |
| `PartyUtils.SplitPartyLabel` | lib/partyUtils.ts:22-31 | without a match the whole label is the name; with one the period is parenthesised and the name trimmed |
| `PartyUtils.SplitAt` | lib/partyUtils.ts:23-28 | with the first match at position a, the name is the trimmed text before a and the period is the bracketed group |
| `PartyUtils.SplitSingleLine` | lib/partyUtils.ts:22-31 | for a one-line label ending in `)` whose first `(` is at f, the name is the trimmed text before f and the period is everything from f on |
| `TopicUtils.FirstCategoryFrom` | lib/topicUtils.ts:30-36 | the first category, in priority order, that has a keyword in the text |
| `TopicUtils.MapTopicsToTheme` | lib/topicUtils.ts:24-39 | the theme is one of the listed themes other than `Alle`, and `Sonstiges` for missing or empty topics |
| `TopicUtils.ThemeIsFirstMatch` | lib/topicUtils.ts:27-36 | the theme is the first category, in priority order, with a keyword in the joined lowered topics |
| `TopicUtils.NoKeywordIsOther` | lib/topicUtils.ts:38 | without any keyword the theme is `Sonstiges` |
| `TopicUtils.ThemeIgnoresCase` | lib/topicUtils.ts:27 | topics that agree up to letter case get the same theme |
| `TopicUtils.IncludesJoin` | lib/topicUtils.ts:27 | a keyword without spaces occurs in the space-joined topics iff it occurs in one topic |
| `TopicUtils.ThemeIgnoresOrder` | lib/topicUtils.ts:24-39 | the theme depends only on the multiset of topics, not on their order |
| `ResultsChart.DisplayYes` | components/ResultsChart.tsx:154 | the "Dafür" column counts the parliament's votes on the side of the motion that a citizen's "yes" to the question stands for, as the match panel translates it (`VoteMatchAnalysis.TargetsParliamentYes`) |
| `ResultsChart.DisplayNo` | components/ResultsChart.tsx:155 | the "Dagegen" column counts the parliament's votes on the side of the motion that a citizen's "no" stands for, as the match panel translates it |
| `ResultsChart.DisplaySwap` | components/ResultsChart.tsx:154-155 | flipping swaps the two displayed counts and keeps their sum |
| `ResultsChart.TotalVotesBound` | components/ResultsChart.tsx:55 | no faction has more seats than the total |
| `ResultsChart.SortedResultsFacts` | components/ResultsChart.tsx:29-31 | the sorted results are a permutation ordered by label |
| `ResultsChart.TotalVotesSort` | components/ResultsChart.tsx:29-55 | sorting does not change the total |
| `ResultsChart.Seats` | components/ResultsChart.tsx:61 | the doughnut data holds each faction's four counters summed, in the sorted order |
| `ResultsChart.ChartDataAddsUp` | components/ResultsChart.tsx:55-61 | the doughnut's slices add up to the total the percentages divide by |
| `ResultsChart.Share` | components/ResultsChart.tsx:94 | the share is 100·part/total rounded half up, 0 for an empty chamber, and at most 100 |
| `ResultsChart.SeatShareBound` | components/ResultsChart.tsx:94 | no faction's share exceeds 100 |
| `ResultsChart.Tooltip` | components/ResultsChart.tsx:90-109 | the tooltip starts with label, seats and share, "for" and "against" lines; it has an abstention line iff there are abstentions and a no-show line iff there are no-shows |
| `ResultsChart.CardOf` | components/ResultsChart.tsx:146-237 | a card shows the faction's seats and colour and the flip-aware counts; the abstention and no-show rows appear iff non-zero; each row's percentage is its count's rounded share of the faction's seats, at most 100 for the two main rows |
| `ResultsChart.Legend` | components/ResultsChart.tsx:266-284 | the legend lists the sorted factions with at least one seat, in order |
| `ResultsChart.LegendEntriesHoldSeats` | components/ResultsChart.tsx:270 | every legend entry has seats and a share of at most 100 |
| `ResultsChart.LegendListsSeatHolders` | components/ResultsChart.tsx:266-284 | every faction with a seat appears in the legend |
| `ResultsChart.Chart` | components/ResultsChart.tsx:28-67 | one card, slice and colour per result, and the total is the sum of all counters |
| `ResultsChart.ChartColorsAgree` | components/ResultsChart.tsx:33-52 | the chart's own colour table gives every label the colour `getPartyColor` in lib/partyUtils.ts gives |
| `JsText.Lower` | lib/partyUtils.ts:15 | lowering maps each character on its own and keeps the length |
| `JsText.LowerIdempotent` | lib/topicUtils.ts:27 | lowering twice is lowering once |
| `JsText.IndexOf` | app/api/cron/sync-debate/route.ts:131 | the first position of the character, or -1 exactly when it does not occur |
| `JsText.LastIndexOf` | app/api/cron/sync-debate/route.ts:132 | the last position of the character, or -1 exactly when it does not occur |
| `JsText.Substring` | app/api/cron/sync-debate/route.ts:139 | the slice between the clamped arguments, taken in increasing order |
| `JsText.Trim` | lib/partyUtils.ts:26 | the result is empty or starts and ends with a non-space character |
| `JsText.TrimSlice` | lib/partyUtils.ts:26 | the result is a slice of the input with only white space cut off on either side |
| `JsText.TrimAppendSpace` | lib/partyUtils.ts:26 | white space appended to the input does not change the result |
| `JsText.TrimNoSpaceEnds` | lib/partyUtils.ts:26 | text that neither starts nor ends with white space is returned unchanged |
| `AiText.StripFences` | app/api/cron/sync-stances/route.ts:118 | the result is a slice of the input; something is cut at the front only after a leading ```` ```json ```` and only white space after it, and at the back only before a trailing ```` ``` ```` and only white space before it |
| `AiText.OpenFenceStripped` | app/api/cron/sync-stances/route.ts:118 | a lone leading ```` ```json ```` is removed together with all the white space after it, and the rest is kept |
| `AiText.CloseFenceStripped` | app/api/cron/sync-stances/route.ts:118 | a lone trailing ```` ``` ```` is removed together with all the white space before it, and the rest is kept |
| `AiText.UnfencedUnchanged` | app/api/sync-polls/route.ts:281 | text without fences is left as it is |
| `AiText.FencedRoundTrip` | app/api/sync-polls/route.ts:276-281 | a JSON text wrapped in a fence with white space comes back exactly; trimming first changes nothing |
| `SyncVotes.PagesRequested` | app/api/sync-polls/route.ts:102-133 | the paging loop makes between 1 and 21 requests |
| `SyncVotes.FetchAllVotes` | app/api/sync-polls/route.ts:97-133 | the loop collects exactly the ballots of the page sequence given by the specification: full pages go on, a short page or one without data ends, a failed page fails, at most 21 pages |
| `SyncVotes.CollectBound` | app/api/sync-polls/route.ts:126-132 | at most 2100 ballots are collected |
| `SyncVotes.CollectFails` | app/api/sync-polls/route.ts:113-116 | a failure carries the status of a page that failed |
| `SyncVotes.Key` | app/api/sync-polls/route.ts:139-142 | a ballot is grouped under a non-zero faction id or skipped |
| `SyncVotes.Keys` | app/api/sync-polls/route.ts:144-154 | each faction id appears once, and exactly the ids of keyed ballots appear |
| `SyncVotes.TalliesOf` | app/api/sync-polls/route.ts:136-175 | one row per faction |
| `SyncVotes.Aggregate` | app/api/sync-polls/route.ts:136-175 | the `Map` loop produces exactly the per-faction tallies, in first-appearance order |
| `SyncVotes.TotalIsKnownBallots` | app/api/sync-polls/route.ts:158-171 | a faction's four counters add up to its ballots with a known kind |
| `SyncVotes.FirstLabelIsFirst` | app/api/sync-polls/route.ts:144-148 | the stored label is the one on the faction's first ballot |
| `SyncVotes.UnkeyedIgnored` | app/api/sync-polls/route.ts:142 | ballots without a faction id do not change the tallies |
| `SyncVotes.LastRow` | app/api/sync-polls/route.ts:180 | the row an upsert keeps for a faction is one of the batch's rows for it, absent iff there is none |
| `SyncVotes.Upsert` | app/api/sync-polls/route.ts:177-181 | after the upsert a (poll, faction) key is present iff it was before or the batch has it, and it holds the batch's row if there is one, else the old row |
| `SyncVotes.UpsertIdempotent` | app/api/sync-polls/route.ts:177-181 | upserting the same batch twice gives the same store as once |
| `SyncVotes.UpsertLeavesOthers` | app/api/sync-polls/route.ts:180 | keys outside the batch are untouched |
| `SyncVotes.UpsertTallies` | app/api/sync-polls/route.ts:136-181 | upserting the tallies puts each faction's tally in its row |
| `SyncVotes.SyncedVotes` | app/api/sync-polls/route.ts:96-182 | other polls' rows are unchanged; it fails iff a page fails, with that page's status; a failed `vote_results` write leaves the table unchanged and still counts as a sync |
| `SyncVotes.SyncedTallies` | app/api/sync-polls/route.ts:177-181 | when every page arrives and the write succeeds, each faction's stored row is its tally |
| `SyncVotes.SyncVotesForPoll` | app/api/sync-polls/route.ts:96-182 | the procedure computes exactly the specification's new store or failure |
| `SyncPolls.StripTags` | app/api/sync-polls/route.ts:203 | every character of the result is a space or comes from the input |
| `SyncPolls.StripTagsNoTag` | app/api/sync-polls/route.ts:203 | no `<…>` tag is left |
| `SyncPolls.StripTagsIdentity` | app/api/sync-polls/route.ts:203 | text without tags is unchanged |
| `SyncPolls.StripTagsPlain` | app/api/sync-polls/route.ts:203 | text without `<` is copied unchanged in front of the rest's result |
| `SyncPolls.StripTagsTag` | app/api/sync-polls/route.ts:203 | a `<` up to the first following `>` becomes exactly one space, and the text after it is processed on |
| `SyncPolls.StripTagsOneTag` | app/api/sync-polls/route.ts:203 | in `a<t>b` with no `<` in `a` and no `>` in `t`, the tag becomes one space and `a` is kept |
| `SyncPolls.CollapseSpace` | app/api/sync-polls/route.ts:204 | every character is a single space or a non-space of the input; empty iff the input is empty; starts with a space iff the input does |
| `SyncPolls.CollapseSpaceFacts` | app/api/sync-polls/route.ts:204 | the result has no two white-space characters in a row and still no tag |
| `SyncPolls.CollapseSpaceIdentity` | app/api/sync-polls/route.ts:204 | text with single plain spaces only is unchanged |
| `SyncPolls.CollapseSpaceWord` | app/api/sync-polls/route.ts:204 | text without white space is copied unchanged, in order, in front of the rest's result |
| `SyncPolls.CollapseSpaceRun` | app/api/sync-polls/route.ts:204 | a maximal white-space run, a leading one included, becomes exactly one space |
| `SyncPolls.CollapseSpaceWordRun` | app/api/sync-polls/route.ts:204 | a word followed by a maximal white-space run gives the word and one space |
| `SyncPolls.RawDescription` | app/api/sync-polls/route.ts:201 | the description if non-empty, else the intro if present, else empty |
| `SyncPolls.CleanDescription` | app/api/sync-polls/route.ts:202-206 | at most 3000 characters, no leading white space, no tag, no double white space |
| `SyncPolls.CleanDescriptionIdentity` | app/api/sync-polls/route.ts:202-206 | an already clean description of at most 3000 characters is unchanged |
| `SyncPolls.GenerateQuestion` | app/api/sync-polls/route.ts:187-302 | a complete stored question is returned untouched; it fails iff the model request throws; otherwise only this poll's question can change, and a failed `poll_questions` write changes nothing |
| `SyncPolls.FencedAnswerStored` | app/api/sync-polls/route.ts:276-298 | a fenced answer whose JSON parses to q stores q for the poll when the write succeeds |
| `SyncPolls.AddPoll` | app/api/sync-polls/route.ts:46-69 | a failed insert skips the poll and changes nothing; otherwise the poll id joins the stored polls |
| `SyncPolls.RefreshPoll` | app/api/sync-polls/route.ts:70-76 | refreshing a known poll does not change the set of polls |
| `SyncPolls.SyncPoll` | app/api/sync-polls/route.ts:38-77 | new polls are added and counted as new, known ones refreshed and counted as updated |
| `SyncPolls.SyncPollIgnoresWrites` | app/api/sync-polls/route.ts:63-75 | whether the two unchecked upserts succeed never changes the poll's outcome or the `polls` table, so the poll is counted either way |
| `SyncPolls.SyncPollOwnRows` | app/api/sync-polls/route.ts:38-77 | syncing one poll leaves every other poll's rows and question as they were |
| `SyncPolls.SyncAll` | app/api/sync-polls/route.ts:12-91 | the handler computes exactly the specification's store and outcome |
| `SyncPolls.RunBound` | app/api/sync-polls/route.ts:35-81 | on success the new-poll counter equals the number of polls added, and new plus updated is at most the listing's length |
| `SyncPolls.RunTouchesListedOnly` | app/api/sync-polls/route.ts:38-77 | a poll that is not listed keeps its rows and question |
| `SyncPolls.CompleteQuestionKept` | app/api/sync-polls/route.ts:196-198 | a complete question is never overwritten |
| `Cron.OnlyTheBearerPasses` | app/api/cron/sync-debate/route.ts:15-18 | with a secret set, a request passes iff its header is exactly `Bearer <secret>`; a missing header fails |
| `Cron.OpenWithoutSecret` | app/api/cron/sync-stances/route.ts:21 | without a (non-empty) secret every request passes |
| `Cron.FirstWithoutRows` | app/api/cron/sync-debate/route.ts:34-44 | the target is the first poll whose row count is exactly 0, and there is none iff no poll qualifies |
| `Cron.FindTarget` | app/api/cron/sync-stances/route.ts:41-53 | the loop finds exactly that first poll |
| `SyncDebate.TextToAnalyze` | app/api/cron/sync-debate/route.ts:51-60 | the first question of a non-empty array, or a truthy single question, else the poll label |
| `SyncDebate.ExtractJson` | app/api/cron/sync-debate/route.ts:131-139 | there is no candidate exactly when `{` or `}` is missing |
| `SyncDebate.ExtractJsonAround` | app/api/cron/sync-debate/route.ts:131-139 | a brace-delimited object with no `{` before it and no `}` after it is extracted exactly |
| `SyncDebate.SwappedExtractHasNoBraces` | app/api/cron/sync-debate/route.ts:139 | when the last `}` precedes the first `{`, `substring` swaps its bounds and returns the brace-free text between them |
| `SyncDebate.RetriesFrom` | app/api/cron/sync-debate/route.ts:88-151 | from attempt k on, at most 4 − k more calls are made |
| `SyncDebate.AnalyseWithRetries` | app/api/cron/sync-debate/route.ts:85-151 | given what each attempt does, the loop ends with the parsed object, last error and request count of `RetriesFrom` |
| `SyncDebate.FirstParseWins` | app/api/cron/sync-debate/route.ts:140-143 | the first attempt whose text parses ends the loop with that result, after exactly that many calls |
| `SyncDebate.NoParseNoResult` | app/api/cron/sync-debate/route.ts:88-155 | if no attempt parses, all three calls are made and there is no result |
| `SyncDebate.LimitIsRetried` | app/api/cron/sync-debate/route.ts:115-117 | a 402 or 429 is a failed attempt that records the limit error and is retried |
| `SyncDebate.OtherStatusKeepsLastError` | app/api/cron/sync-debate/route.ts:119-122 | another non-ok status moves on without recording an error |
| `SyncDebate.HandleDebate` | app/api/cron/sync-debate/route.ts:12-180 | the handler computes exactly the specification's outcome |
| `SyncDebate.StoredIsForTarget` | app/api/cron/sync-debate/route.ts:32-168 | a stored analysis is for the first poll without one, after an authorized request and a successful insert; it is the object parsed by the first attempt on that poll's text that parsed, every earlier attempt having been retried |
| `SyncDebate.ParsedFromAttempt` | app/api/cron/sync-debate/route.ts:88-151 | a parsed result is the object of some attempt that parsed, and every attempt before it was retried (the converse of `FirstParseWins`) |
| `SyncDebate.UnauthorizedIff` | app/api/cron/sync-debate/route.ts:15-18 | the job answers 401 iff the bearer check fails |
| `SyncStances.DigitRun` | app/api/cron/sync-stances/route.ts:129 | the greedy `\d+` run: all digits and followed by a non-digit or the end |
| `SyncStances.CitationAt` | app/api/cron/sync-stances/route.ts:129 | a match at the front is `[`, one or more digits and `]` |
| `SyncStances.CleanSummary` | app/api/cron/sync-stances/route.ts:129 | the stored stance has no white space at either end |
| `SyncStances.NoBracketUnchanged` | app/api/cron/sync-stances/route.ts:129 | text without `[` is unchanged |
| `SyncStances.CitationRemoved` | app/api/cron/sync-stances/route.ts:129 | a `[digits]` marker anywhere disappears and the text on both sides is kept |
| `SyncStances.NestedMarkerStays` | app/api/cron/sync-stances/route.ts:129 | one pass only: `[[1]2]` becomes `[2]` |
| `SyncStances.PartyStep` | app/api/cron/sync-stances/route.ts:99-137 | a party's turn aborts iff the reply is 402 or 429; it keeps a stance iff the reply is ok with non-empty content that parses, after fence stripping, to an object with a non-empty summary, so empty content, an unparsable or falsy reply, an empty summary and a network error skip the party; a kept stance is for this poll and party and holds the cleaned summary and the reply's source URL |
| `SyncStances.KeptStances` | app/api/cron/sync-stances/route.ts:61-137 | there are at most as many stances as parties |
| `SyncStances.CollectStances` | app/api/cron/sync-stances/route.ts:61-149 | the party loop fails iff some party's turn aborts, and otherwise returns the kept parties' stances in party order |
| `SyncStances.OneStancePerParty` | app/api/cron/sync-stances/route.ts:64-137 | with distinct party names, no party has two stances |
| `SyncStances.StancesFromParties` | app/api/cron/sync-stances/route.ts:127-136 | every stance comes from a listed party whose turn kept it |
| `SyncStances.HandleStances` | app/api/cron/sync-stances/route.ts:17-172 | the handler computes exactly the specification's outcome: the insert happens only for a non-empty batch |
| `SyncStances.LimitStopsEverything` | app/api/cron/sync-stances/route.ts:100-147 | a 402 or 429 for any party ends the job with a 500 and nothing inserted |
| `SyncStances.InsertedRowsBelongToTarget` | app/api/cron/sync-stances/route.ts:131-136 | every inserted row is for the selected poll and a listed party |
| `Ballots.Assigned` | app/api/vote/route.ts:38-58 | `null` removes the key and a vote sets it; every other key keeps its entry |
| `Ballots.AssignedIdempotent` | app/api/vote/route.ts:38-58 | recording the same ballot twice equals recording it once |
| `Ballots.AssignedOverwrites` | app/api/vote/route.ts:47-56 | the last ballot under a key wins |
| `VoteRoute.Validate` | app/api/vote/route.ts:16-21 | a request is rejected iff `pollId` is falsy or `vote` is not `null`, `"yes"` or `"no"`; each accepted case maps to its ballot |
| `VoteRoute.SkipRejected` | app/api/vote/route.ts:16 | `skip` is rejected |
| `VoteRoute.Session` | app/api/vote/route.ts:25-35 | the cookie's session is reused unless it is missing or empty, when the new id is used |
| `VoteRoute.Handle` | app/api/vote/route.ts:11-73 | only a 200 changes the table; the answer is 400 iff validation fails, and a 400 sets no cookie |
| `VoteRoute.AcceptedSetsOnlyItsKey` | app/api/vote/route.ts:37-64 | an accepted request puts exactly its ballot under (poll, session) and leaves every other key as it was |
| `VoteRoute.RepeatIsIdempotent` | app/api/vote/route.ts:25-58 | repeating a request with the cookie the first one set reuses the session, sets no new cookie, and leaves the table unchanged |
| `VoteRoute.VoteTable.Post` | app/api/vote/route.ts:11-73 | the endpoint's table update and response are the specification's |
| `VotingInterface.Toggle` | components/VotingInterface.tsx:29 | pressing the selected choice clears it; pressing any other choice selects that one |
| `VotingInterface.PressTwice` | components/VotingInterface.tsx:29 | pressing the same button twice restores a selected choice and otherwise ends with no choice |
| `VotingInterface.Body` | components/VotingInterface.tsx:55 | the posted body carries the poll id, and `null` exactly when the vote is withdrawn |
| `VotingInterface.BodyAccepted` | components/VotingInterface.tsx:52-56 | for a non-zero poll id the endpoint accepts what the panel posts, as that very ballot |
| `VotingInterface.ServerAgreesWithBrowser` | components/VotingInterface.tsx:36-56 | after a successful post the server's row and the browser's entry hold the same ballot |
| `VotingInterface.VotingPanel.constructor` | components/VotingInterface.tsx:14-26 | the panel starts with the given vote, else the remembered one, and not voting |
| `VotingInterface.VotingPanel.Press` | components/VotingInterface.tsx:28-49 | the press posts the toggled vote, shows it, sets `voting`, and records it in the browser map |
| `VotingInterface.VotingPanel.Complete` | components/VotingInterface.tsx:58-70 | after the answer `voting` is false; on failure the display reverts to the initial vote |
| `VotingInterface.VotingPanel.HandleVote` | components/VotingInterface.tsx:28-71 | the whole press: the browser keeps the posted vote whatever the answer, other polls' entries are unchanged, and the display keeps it only on success |

## Left out

- HTTP calls, Supabase queries and writes, cookies, `localStorage` and the language
  model are inputs. Their replies are parameters: page functions, reply functions,
  row-count functions, and success flags for writes. The poll sync's `polls` insert
  (`insertOk`), `vote_results` upsert (`votesWriteOk`) and `poll_questions` upsert
  (`questionWriteOk`) each have a flag.
- JSON parsing is a parameter. A reply is modelled as unparsable, falsy, or an object
  with the fields the code reads. Fields of the wrong JSON type are not modelled.
- The party list of the stance job is a parameter. lib/partyUtils.ts as modelled does
  not define it.
- `localeCompare` is an arbitrary total preorder on labels.
- Floating-point bar widths in the result cards are not modelled.
- Percent.RoundPercent: rounds the exact ratio 100·part/whole half up. lib/matchUtils.ts:54
  divides first, multiplies by 100 in binary doubles and then calls `Math.round`, so at an
  exact half the source can show one less. For 23/40 the double is 57.49999999999999 and
  the page shows 57 where the model gives 58; 29/200 gives 14 against 15. Double
  arithmetic is not modelled.
- ResultsChart.Share: has the same gap against `Math.round((total / totalVotes) * 100)` at
  components/ResultsChart.tsx:94 and the seat percentage at components/ResultsChart.tsx:280.
- ResultsChart.CardOf: has the same gap against the card percentages rounded from doubles at
  components/ResultsChart.tsx:190, 202, 215 and 229.
- `toLowerCase` is modelled for ASCII, Latin-1 and `ẞ` only. Strings are sequences of
  characters, not UTF-16 code units, so `substring(0, 3000)` counts characters.
- Prompt texts, `setTimeout` delays, `maxDuration`, logging, `router.refresh()` and all
  rendering are left out.
- `onVoteChange` in components/VotingInterface.tsx is left out; it only forwards the vote.
- app/api/explain-more/route.ts is not part of this model. It is one cached model call.
- The community-trend part of the results chart is not modelled, and neither is its user statistics panel.
- A faction without a label is stored with the empty label.
- The debate job's stored analysis fields are whatever the parser gives. Their types
  are not checked, as in the source.
- A thrown error in the stance job whose message happens to contain `Payment` or
  `Rate Limit` without being a 402/429 reply is not modelled. Network errors are
  modelled as skipping the party.
- The poll listing of the sync run is a parameter. Its request and the `legislature`
  filter are not modelled.
- Concurrency between overlapping cron runs is not modelled.

## Notes on the code

- The poll sync ignores the errors of its `vote_results` upsert
  (app/api/sync-polls/route.ts:177-181) and its `poll_questions` upsert (route.ts:291-298).
  A failed write leaves the table as it was, and the poll is still counted as new or
  updated (`SyncPolls.SyncPollIgnoresWrites`).

- Error handling in the poll sync is not isolated per poll. A failed votes page, a
  failed first listing request or an AI transport error ends the whole run with a 500.
  Only a failed poll insert skips a single poll. `SyncPolls.Run` follows the code.
- The question generation makes a single model request, with no retry. Only the
  debate job retries.
- The match score excludes factions whose abstentions outnumber both yes and no,
  while the match panel does not (`Agreement.AbstainMajorityDiverges`). Apart from
  that they agree (`Agreement.ScoreAgreesWithPanel`).
- Ballots with a fraction id of 0 are skipped like ballots without a faction.
- A ballot with an unknown vote kind still creates its faction's row, with no counter
  incremented.
- In the debate job, a reply whose braces come in the wrong order yields the text
  between them. A falsy parse result (`null`) ends the retry loop and then fails the
  run.
