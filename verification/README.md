# Verified model of CCE

CCE is a deterministic hybrid search engine over code, knowledge documents and recorded
decisions. This project models the algorithms it rests on and proves what they are for:

- **Calendar and timestamps** (`Calendar`, `Decimal`, `Timestamps`, `DateOrder`). Day
  numbers against a page-by-page calendar, the ISO 8601 parser and printer, and date texts as keys. The date-time profile is that of
  section 5.6 of RFC 3339, with the days of a month as in its section 5.7.
- **Ranking** (`Tokenizer`, `KeywordStore`, `KeywordScores`, `RankOrder`, `RankCore`, `RankScores`,
  `RankTheorems`, `RankExample`, `DiversityCap`, `ImportGraph`, `Discovery`, `Expansion`,
  `Federation`, `Search`). Candidates, reciprocal rank fusion, blend, sort, greedy cap, and the two
  expansions behind it. Hash-map iteration is an arbitrary order, so determinism is a theorem.
- **Secret scanner** (`SecretPrefix`, `KeyGrammar`, `PrefixSearch`, `ValueScanner`, `ValueGrammar`,
  `ScannerLemmas`, `Redactor`, `RedactionSpans`, `RedactionRule`, `RedactionSettles`,
  `RedactionExample`). The value scanner, the rewriting loop, what it replaces and by which rule,
  and when doing it twice changes nothing.
- **Markdown sectioning** (`HeadingWalk`, `Sections`, `SectionTheorems`, `SectionContents`). The
  cursor walk against the recursive one, and the budgeted split of a document.
- **Crash-safe writing** (`TempNames`, `AtomicWrite`, `AtomicWriteSafety`, `AtomicWriteModes`,
  `AtomicWriteCall`). A protocol over inodes and directory entries, with any number of writers in
  any number of processes, and a failure, kill or power loss possible after every step.
- **Memory store** (`Trimming`, `TextLines`, `Normalization`, `MemoryStore`, `MemoryRuns`,
  `MemoryPrivacy`, `MemoryRecall`). An append-only log under torn writes, what it lets reach the
  disk, and recall over it.
- **Anchors and ledgers** (`Anchors`, `TokenSpans`, `Saturation`, `SavingsLedger`, `Rollups`,
  `RecentSearches`). The anchor grammar, span scores, and saturating roll-ups.

Code that loops over mutable state is a method proved against a function; what the function
promises is proved in lemmas. Texts are sequences of characters standing for UTF-8 bytes or
characters as each module says. `ln`, the embedder, the serializer, the redactor (in the memory
store), the digest and the Unicode tables are parameters with their hypotheses written out.

## Where the code and its promises part

- `parse_iso` is documented to answer `None` on any malformation. Its numeric fields are parsed
  as signed integers, so `2026-07-01T-1:00:00Z` is accepted (`Timestamps.SignedHourIsAccepted`),
  and the column between date and time is left free on purpose, so `2026-07-01X00:00:00Z` is
  (`Timestamps.OtherSeparatorIsAccepted`). An accepted text is well formed if and only if no
  field opens with a sign and a `T` or a space stands there (`Timestamps.AcceptedConformsIff`).
- `parse_iso` inverts `format_iso` if and only if the year prints in four columns, that is from
  -999 to 9999 (`Timestamps.ParseFormat`).
- `redact_generic` is not idempotent on every text: with two assignments on a line, rewriting the
  second can bring a quote into the first one's lookahead
  (`RedactionExample.SharedLineIsNotIdempotent`). It is idempotent if and only if a scan of the
  input finds every closing quote still closing over the values behind it
  (`RedactionSettles.IdempotentIffSettled`), so on newline-separated assignments always.
- `rank_core` chains the keys of two hash maps. In the ranking ahead of the cap their iteration
  order never shows if and only if no two vector candidates share score key and id, and no two BM25-only candidates
  do (`RankTheorems.OrderForgottenIffUntied`); a tie between the kinds is always met vector
  candidate first. With distinct ids it never shows. Ids hash only the first 100 bytes of a chunk
  and a union keeps its members' ids, so it can (`RankExample.SharedIdExposesOrder`).
- `compute_daily` keys days by `date_str` to have them in ascending order. Text order is time
  order, for years of four columns, if and only if the years are not both negative and
  different (`DateOrder.DateStrSortsByDay`); for any years `DateOrder.DateStrSortsIff` says when.
  Both ways out are parsed texts: negative years (`DateOrder.EarlierYearSortsLater`) and the year
  10000 behind an offset (`DateOrder.OffsetReachesFiveColumns`).
- `recall` checks `top_k` behind its push, so a `top_k` of 0 yields one hit exactly when anything
  qualifies (`MemoryRecall.SmallerTopKIsPrefix`, `MemoryRecall.ZeroRecallsOne`).
- An `Anchor` built by hand need not survive printing; every parsed one does
  (`Anchors.ParsesBackIffPrintable`, `Anchors.DisplayIsCanonical`).
- `atomic_write` is documented to leave no stray on failure. It ignores a failed removal
  (`AtomicWriteSafety.FailedRemovalLeavesTempFile`), and a crash leaves its temp file; those are
  all the strays there are (`AtomicWriteSafety.OnlyStraysRemain`).
- `atomic_write` is documented to preserve the destination's mode. It sets the mode behind its
  only fsync, so a power loss can take it back (`AtomicWriteModes.PowerLossTakesModeBack`); the
  mode is kept through every run if and only if it is the default one
  (`AtomicWriteModes.ModeAlwaysKeptIffDefault`).

## Model

| member | source | states |
|---|---|---|
| `Calendar.DaysOfCivil` | src/metrics.rs:463-474 | every integer day number, negative eras included, names a real proleptic Gregorian date, and that date counts back to it |
| `Calendar.CivilOfDays` | src/metrics.rs:453-474 | every valid date of every year is the date its day number names |
| `Calendar.SurvivesIffValid` | src/metrics.rs:503-506 | the round trip `parse_iso` tests a date with succeeds exactly for the dates of the 4/100/400 calendar |
| `Calendar.NextDayIsPlusOne` | src/metrics.rs:453-460 | the next calendar day has the next day number, over month ends, leap days and year ends |
| `Calendar.PreviousDayIsMinusOne` | src/metrics.rs:453-460 | so has the day before, backwards |
| `Calendar.ClosedFormTurnsPages` | src/metrics.rs:463-474 | the closed form is the naive counter: turning that many calendar pages from 1970-01-01 lands on the same date |
| `Calendar.DaysAreChronological` | src/metrics.rs:453-460 | day numbers order valid dates as year, month, day do |
| `Decimal.ParsePadded` | src/metrics.rs:557-560 | zero-padded printing parses back, whatever the sign and width |
| `Decimal.ParseIntReads` | src/metrics.rs:487-492 | a numeric field is digits behind one sign at most |
| `Decimal.ParseIntReadsNumerals` | src/metrics.rs:487-492 | and nothing else |
| `Timestamps.ParseFormat` | src/metrics.rs:481-561 | `parse_iso` inverts `format_iso` if and only if the UTC year lies between -999 and 9999; otherwise it answers `None` |
| `Timestamps.AcceptsRealInstants` | src/metrics.rs:481-509 | on digit fields a text is accepted exactly when its fields are a real instant, whatever stands between date and time; it is read as pages turned from the epoch, time of day, less the offset |
| `Timestamps.SeparatorIsIgnored` | src/metrics.rs:486 | the reading does not depend on the character between date and time |
| `Timestamps.AcceptedConformsIff` | src/metrics.rs:477-492 | the promised `None` on any malformation: an accepted text is well formed if and only if no field opens with a sign and a `T` or a space separates date and time |
| `Timestamps.SignedHourIsAccepted` | src/metrics.rs:491-499 | an hour field of `-1` is accepted and read as 23:00 of the day before |
| `Timestamps.OtherSeparatorIsAccepted` | src/metrics.rs:486 | a malformed text with an `X` for the `T` is accepted, and read as the text with the `T` |
| `Timestamps.OffsetIsSubtracted` | src/metrics.rs:508-509 | a local time under an offset is its `Z` reading minus that offset, and unreadable if either part is |
| `Timestamps.OffsetOf` | src/metrics.rs:515-545 | the designators accepted are the empty one, `Z`, `z`, and signed `HH`, `HHMM`, `HH:MM`, with their values |
| `DateOrder.DateStrIsTheDay` | src/metrics.rs:564-567 | any two instants share a date text exactly on one UTC day |
| `DateOrder.DateStrSortsIff` | src/metrics.rs:557-567 | of any two days the text of the earlier sorts first if and only if the years are the same, or the earlier alone is negative, or, the year printed shorter being scaled up to the width of the other, the numbers compare the right way |
| `DateOrder.DateStrSortsByDay` | src/metrics.rs:557-567 | while years print in four columns, text order is time order if and only if the years are not both negative and different |
| `DateOrder.EarlierYearSortsLater` | src/metrics.rs:481-567 | two parsed texts, of the years -1 and -2, whose date texts sort against time |
| `DateOrder.OffsetReachesFiveColumns` | src/metrics.rs:508-567 | an offset reaches the year 10000, whose date text sorts against time |
| `Tokenizer.Tokenize` | src/tokenizer.rs:71-89 | the byte loop yields the recursive tokens |
| `Tokenizer.TokensAreMaximalRuns` | src/tokenizer.rs:71-89 | a text is a token if and only if it is a maximal run of word characters, lowercased |
| `Tokenizer.TokenIsSubstring` | src/tokenizer.rs:71-89 | a token occurs in the lowercased text |
| `Tokenizer.TokensListRuns` | src/tokenizer.rs:71-89 | the tokens are the maximal runs, every one, from left to right |
| `Tokenizer.WordBytesAre` | src/tokenizer.rs:71-89 | a word character is an ASCII letter or digit or the underscore |
| `Tokenizer.EstimateTokens` | src/tokenizer.rs:39-56 | the estimate is one below four bytes, else the whole quarters of the length |
| `RankOrder.RankedIsUnique` | src/retriever.rs:360-364 | a collection in which no two share score key and id has one ranked order |
| `RankOrder.SortForgetsOrder` | src/retriever.rs:360-364 | so sorting any permutation of it gives the same list |
| `RankOrder.SortIsStable` | src/retriever.rs:360-364 | elements that do share both keep the order they came in |
| `RankOrder.SortsAlikeIff` | src/retriever.rs:360-364 | two inputs sort alike if and only if they hold the same elements, the tied ones in the same order |
| `RankOrder.SortRanks` | src/vector_store.rs:20-30 | sorting permutes and ranks: key descending, id ascending |
| `RankOrder.ScoreKeyIsMonotone` | src/embedder.rs:200-202 | rounding to six decimals keeps the order of scores |
| `RankOrder.ScoreKeyIsNearest` | src/embedder.rs:200-202 | the key is the integer nearest to a million times the score, halves going away from zero |
| `RankOrder.RankedMeans` | src/vector_store.rs:20-30 | in a ranking keys fall, and of equal keys ids rise |
| `KeywordStore.Build` | src/keyword_store.rs:57-84 | the built index holds, for every document and token, its frequency, the document counts, and the mean length |
| `KeywordStore.IndexIsUnique` | src/keyword_store.rs:57-84 | so chunks have one index |
| `KeywordStore.CountTerms` | src/keyword_store.rs:66-73 | document counts rise by one for each distinct term, in any iteration order of the map |
| `KeywordStore.ScoreDocument` | src/keyword_store.rs:92-113 | the loop over distinct terms computes the BM25 sum |
| `KeywordStore.ScoreMeaning` | src/keyword_store.rs:92-113 | scores are never negative, and zero unless a query term occurs in the document |
| `KeywordStore.IdfIsNonNegative` | src/keyword_store.rs:85-91 | the idf of any token is non-negative, given only that `ln` is monotone with `ln 1 = 0` |
| `KeywordStore.Score` | src/keyword_store.rs:114-129 | the scoring method returns the documents whose score does not round to zero, ranked |
| `KeywordScores.ScoreIsBm25` | src/keyword_store.rs:85-113 | the score is the sum over the terms of ln(1 + (N - n + 0.5) / (n + 0.5)) * 2.2 f / (f + 1.2 (0.25 + 0.75 len / mean)), all counted in the chunks' tokens |
| `KeywordScores.HitsAreExactly` | src/keyword_store.rs:114-129 | the documents returned are exactly those whose sum does not round to zero, with that score and their id |
| `KeywordScores.RarerTermWeighsMore` | src/keyword_store.rs:85-91 | a term that fewer chunks hold weighs strictly more, for a strictly increasing logarithm |
| `KeywordScores.MoreOccurrencesWeighMore` | src/keyword_store.rs:92-113 | more occurrences weigh strictly more |
| `KeywordScores.LongerTextWeighsLess` | src/keyword_store.rs:92-113 | a longer chunk weighs strictly less |
| `KeywordStore.HitContainsToken` | src/keyword_store.rs:114-129 | every document returned contains a query token |
| `DiversityCap.CapLoop` | src/retriever.rs:366-385 | the loop with its per-file counters keeps the positions of the greedy walk |
| `DiversityCap.KeptIsAdmissible` | src/retriever.rs:366-385 | what is kept is in order, at most `top_k` long and at most three per file |
| `DiversityCap.GreedyStaysAhead` | src/retriever.rs:366-385 | at every point of the ranking the greedy walk has kept at least as many as any admissible selection |
| `DiversityCap.CapIsOptimal` | src/retriever.rs:359-385 | no admissible selection is longer, and the i-th kept score key is at least that of its i-th element |
| `RankCore.Rank` | src/retriever.rs:262-386 | the loops of `rank_core` compute fuse, blend, sort and cap over the vector candidates and behind them the BM25-only ones, each kind in whatever order its hash map yields it |
| `RankCore.VectorCandidates` | src/retriever.rs:278-293 | the first `max(3 top_k, 1)` by cosine are vector candidates, none for an empty query vector |
| `RankCore.TakeKeys` | src/retriever.rs:308-316 | what was taken before stays in front; behind it come the new keys, each once, in any order |
| `RankScores.FusionByPlaces` | src/retriever.rs:91-97 | the fusion of a document at places i and j of the two rankings is 1/(60+i) + w/(60+j), w being 1.5 for a code lookup and 1 otherwise, a missing place adding nothing |
| `RankScores.FusionAnchors` | src/retriever.rs:494-502 | the anchors of the repository: 1/60 + 1/62, 1/60, 1.5/60, 0 |
| `RankScores.BestFusion` | src/retriever.rs:323 | the best fusion is that of a candidate, no candidate has more, and it is at least 1/60 |
| `RankScores.ResultScore` | src/retriever.rs:325-357 | the score of every result, written out from its cosine, its lexical hit, its places and its path |
| `RankScores.EarlierPlaceScoresMore` | src/retriever.rs:307-357 | of two results alike in cosine, lexical hit and path, the one earlier in one ranking and no later in the other scores strictly more |
| `RankScores.CosineRankingIs` | src/vector_store.rs:20-30 | the cosine ranking lists every chunk once, by rounded cosine and id |
| `RankScores.KeywordRankingIs` | src/retriever.rs:294-305 | the BM25 ranking lists once each chunk whose sum over the query's distinct tokens does not round to zero, by rounded sum and id |
| `RankTheorems.RankingForgetsOrder` | src/retriever.rs:307-385 | with distinct chunk ids the ranking is the same for every iteration order of the hash maps |
| `RankTheorems.OrderForgottenIffUntied` | src/retriever.rs:307-364 | the ranking ahead of the cap is the same for every iteration order of the hash maps if and only if no two vector candidates share score key and id, and no two BM25-only candidates do |
| `RankExample.SharedIdExposesOrder` | src/federation.rs:233-236 | on one corpus and query, with any index and logarithm, the first result is either of two chunks of one id, by the order of the hash maps |
| `RankExample.QueryOfText` | src/retriever.rs:99-102 | the query there has the tokens of the text `n/x.rs` |
| `RankExample.UnionOfMembers` | src/federation.rs:222-253 | that corpus is the federated union of two members with one chunk each |
| `RankTheorems.MaxRrfForgetsOrder` | src/retriever.rs:323 | the maximum folded over the candidates does not depend on their order |
| `RankTheorems.ScoresAreBounded` | src/retriever.rs:325-357 | every core score lies between 0.096 and 0.95 |
| `RankTheorems.BoundsAreMetExactly` | src/retriever.rs:325-357 | the upper bound is met exactly by aligned vectors, a lexical hit, the best fusion score and no penalty; the lower by the opposite of each |
| `RankTheorems.BetterEvidenceScoresNoLess` | src/retriever.rs:325-357 | a chunk at least as good in cosine, lexical distance, fusion score and path never scores less |
| `RankTheorems.KeywordResults` | src/retriever.rs:295-357 | a BM25 candidate has keyword distance 0, scores at least 0.16 and shares a token; with an empty query vector every result does |
| `ImportGraph.Build` | src/graph_store.rs:49-65 | edges are exactly the imports that resolve, never to the file itself, and both directions agree |
| `ImportGraph.ResolvesTo` | src/graph_store.rs:29-43 | a module resolves to the first file whose stem it is, or else to the first that ends in its name and `.py` or `.js` |
| `ImportGraph.ResolvesToNothing` | src/graph_store.rs:29-43 | and to nothing where there is neither |
| `ImportGraph.StemIs` | src/graph_store.rs:32-33 | the stem is what stands before the last dot |
| `ImportGraph.FileNameIs` | src/graph_store.rs:32 | of what stands behind the last slash |
| `ImportGraph.FromPairs` | src/graph_store.rs:85-98 | exactly the listed pairs, self-edges dropped, with mirrored directions |
| `ImportGraph.OutPairs` | src/graph_store.rs:73-84 | the pairs listed are exactly the edges, in text order, each once |
| `ImportGraph.Neighbors` | src/graph_store.rs:99-109 | the neighbours, in or out, once each in text order |
| `ImportGraph.NeighborsAreMutual` | src/graph_store.rs:99-109 | a file neighbours another if and only if the other neighbours it |
| `ImportGraph.ListingIsUnique` | src/graph_store.rs:73-109 | a set has one listing in text order |
| `Expansion.ExpandGraph` | src/retriever.rs:430-479 | the results are the core results expanded by the first two files discovered around the files of the top three |
| `Expansion.BonusFilesMeaning` | src/retriever.rs:431-452 | those are distinct neighbours of the top files, none among the results, and all of them when fewer than two |
| `Discovery.DiscoveredMeaning` | src/retriever.rs:440-457 | walking ordered sets for what is new finds distinct new elements, at most the limit, and everything new when below it |
| `Discovery.FullAt` | src/federation.rs:358-374 | leaving the walk at the limit gives what walking on would |
| `Discovery.DiscoveredInOrder` | src/retriever.rs:440-457 | what is found comes set by set and in text order within one, and what the limit leaves out comes later |
| `Expansion.ExpandLoop` | src/retriever.rs:458-479 | the append loop with its set of keys computes the expansion |
| `Expansion.BestAreTheBest` | src/retriever.rs:459-469 | the picks of a group are its two best chunks by rounded cosine and id, the better first, or all it has |
| `Expansion.AppendNewPush` | src/retriever.rs:469-477 | picks are appended one behind the other, each unless its key is there |
| `Expansion.ExpandPush` | src/retriever.rs:458-479 | groups are expanded one behind the other |
| `Expansion.BonusIs` | src/retriever.rs:475 | a bonus scores 0.85 of its cosine, or nothing |
| `Expansion.ExpandOnlyAppendsBonuses` | src/retriever.rs:458-479 | an expansion keeps the results as a prefix, repeats no (file, start, end), adds at most two per group, each a chunk of the group at its scaled cosine |
| `Expansion.ExpansionKeepsCap` | src/retriever.rs:430-479 | expanding into unrepresented groups keeps any per-file cap of two or more |
| `Expansion.GraphExpansionKeepsCap` | src/retriever.rs:430-479 | the import-graph expansion keeps the cap and adds at most four results |
| `Federation.Denamespace` | src/federation.rs:88-98 | the namespace of a slash-free member is stripped again, whatever the path |
| `Federation.NamespacedIsInjective` | src/federation.rs:88-90 | namespaced paths of slash-free members determine member and path |
| `Federation.CombinedGraph` | src/federation.rs:222-253 | the union graph has exactly the members' namespaced edges, in both directions |
| `Federation.MemberEdgeIs` | src/federation.rs:222-253 | an edge of the union between two files of a member is an edge of the member between them |
| `Federation.TargetsFromIs` | src/federation.rs:353-364 | a member's targets are the ends of its dependency edges |
| `Federation.CombinedChunks` | src/federation.rs:222-253 | the union corpus lists every member's chunks in order, under namespaced paths |
| `Federation.NoCrossMemberEdge` | src/federation.rs:222-253 | with distinct slash-free names no edge of the union crosses members |
| `Federation.UnionNeighborsAreTheMembers` | src/federation.rs:222-253 | the neighbours of `m/f` are the neighbours of `f` in member `m`, prefixed, in the same order |
| `Federation.ChooseTargets` | src/federation.rs:353-374 | the early-exit loops choose the first two members discovered behind the source members |
| `Federation.BonusMembersMeaning` | src/federation.rs:353-374 | those are distinct dependencies of the sources, none of them in a result yet, and all of them when fewer than two |
| `Federation.CrossMemberExpand` | src/federation.rs:346-398 | the cross-member loop is the same expansion with members for groups, in the order chosen |
| `Federation.CrossMemberKeepsCap` | src/federation.rs:346-398 | it keeps the per-file cap and adds at most four results |
| `Federation.FederatedExpansions` | src/federation.rs:277-307 | both expansions together leave the core results first, add at most eight, and keep three per file |
| `Search.Core` | src/retriever.rs:262-386 | the core results are the ranking for some order in which the hash maps can yield the candidates, nothing without a token or a chunk; in rank order, from the corpus, within `top_k` and three per file |
| `Search.CoreIsDeterministic` | src/retriever.rs:206-386 | with distinct chunk ids there is one core result list, and both searches are functions of it |
| `Search.Search` | src/retriever.rs:206-225 | single-store search is the core results and, if enabled, their graph expansion: at most four bonuses that repeat nothing and keep the cap |
| `Search.FederatedSearch` | src/federation.rs:277-307 | federated search adds the cross-member expansion from the members of the core top three: at most eight bonuses in all, unless the core is empty |
| `Search.GraphBonusesAreNeighbors` | src/retriever.rs:430-479 | every graph bonus is a chunk of a file that imports, or is imported by, the file of one of the first three core results, and that no core result is in |
| `Search.MemberBonusesAreDependencies` | src/federation.rs:277-307 | every member bonus is a chunk of a member that the member of one of the first three core results depends on, and that no result before is in |
| `ValueScanner.ScanValue` | src/redactor.rs:239-312 | the scanner with two escape conventions computes the recursive value |
| `ValueScanner.Scan` | src/redactor.rs:239-312 | a value starts unless white space or the end does, is a non-empty prefix, and never crosses a newline |
| `ValueScanner.PunctuationClosesValue` | src/redactor.rs:200-213 | the lookahead loop computes the recursive verdict |
| `ValueGrammar.UnitsAreScanned` | src/redactor.rs:239-302 | a run of escaped characters, doubled quotes, quotes that do not close and plain characters, up to a closing quote or the line's end, is what the scanner takes |
| `ValueGrammar.ScannedIsUnits` | src/redactor.rs:239-302 | every quoted value is such a run |
| `ValueGrammar.QuotedValueIsUnits` | src/redactor.rs:239-301 | so the value, its inside and its quotes are read off that run |
| `ValueGrammar.UnquotedValueIsRun` | src/redactor.rs:305-310 | an unquoted value goes on to the first white space |
| `ScannerLemmas.LookaheadStaysOnLine` | src/redactor.rs:200-213 | the verdict does not depend on anything behind the line |
| `PrefixSearch.FindIsUnique` | src/redactor.rs:61-66 | the recursive search finds the leftmost match of the key and operator pattern, and only that |
| `PrefixSearch.FindNoneIff` | src/redactor.rs:61-66 | it finds nothing if and only if no position matches |
| `KeyGrammar.MatchIsKeyAndOperator` | src/redactor.rs:61-66 | a prefix stands exactly where one of nineteen spellings, in any case, is a whole word before space and a colon or an equals sign; there is one way to read it |
| `KeyGrammar.ClassesAre` | src/redactor.rs:61-66 | word characters and white space within ASCII |
| `Redactor.RedactGeneric` | src/redactor.rs:96-148 | the cursor loop, which skips matches inside consumed values, computes the left-to-right recursion |
| `RedactionSpans.RedactSplices` | src/redactor.rs:96-148 | the output is the input with ordered, disjoint spans replaced and everything else copied; no span is empty or crosses a newline |
| `RedactionSpans.EveryPrefixIsHandled` | src/redactor.rs:96-148 | every match outside the consumed values that has a value has the whole of it replaced, unless it is short or a placeholder without a nested key |
| `RedactionSpans.RedactionReplacesValues` | src/redactor.rs:96-148 | both for the whole text |
| `RedactionRule.TextIsRedactedByRule` | src/redactor.rs:96-148 | every prefix outside the values has its value shown by the rule: the token in its quotes when the inside has eight UTF-8 bytes and no placeholder shape, or a key and operator in it, and otherwise the value; nothing else is replaced |
| `RedactionRule.PlaceholderAgrees` | src/redactor.rs:317-385 | the placeholder shapes, written out |
| `RedactionRule.BytesAgree` | src/redactor.rs:123-124 | the length compared is that in UTF-8 |
| `RedactionSettles.TokenIsSkippable` | src/redactor.rs:369-374 | the redaction token itself is never redacted again |
| `RedactionSettles.RedactionCreatesNoPrefix` | src/redactor.rs:96-148 | redaction never increases the number of matches |
| `RedactionSettles.IdempotentIffSettled` | src/redactor.rs:96-148 | redacting twice equals redacting once if and only if a scan of the input, stopping at the first quote or white space left behind each closed value, finds every closing quote still closing |
| `RedactionSettles.ClosesRewrittenIff` | src/redactor.rs:200-213 | that scan of the input gives the verdict the lookahead gives on the redacted text |
| `RedactionSettles.NewlineSeparatedIsIdempotent` | src/redactor.rs:96-148 | in particular whenever a newline stands between each value and the next match |
| `RedactionExample.SharedLineIsNotIdempotent` | src/redactor.rs:200-213 | two assignments on one line that redaction changes twice |
| `TempNames.TempNameInjective` | src/atomic.rs:45-47 | temp names are injective in stem, process id and sequence number |
| `TempNames.TempNameIsNotStem` | src/atomic.rs:45-47 | a temp name is never the destination's name |
| `TempNames.TempNameExample` | src/atomic.rs:45-47 | the form of a temp name |
| `AtomicWriteSafety.StepKeeps` | src/atomic.rs:35-84 | every enabled step of every process, crash and error included, keeps the protocol invariant |
| `AtomicWriteSafety.DestinationIsNeverTorn` | src/atomic.rs:35-84 | after every run of any number of calls, with kills, errors and power losses anywhere, the destination holds its initial bytes or one call's complete bytes, and never goes missing |
| `AtomicWriteSafety.OnlyStraysRemain` | src/atomic.rs:51-83 | once no call is under way, the new names are exactly the temp files that a failed removal or a stopped call left; the rest of the directory is untouched |
| `AtomicWriteSafety.NoTempFileRemains` | src/atomic.rs:51-83 | so none remains where no removal failed and no call was stopped over its temp file |
| `AtomicWriteSafety.FailedRemovalLeavesTempFile` | src/atomic.rs:54-57 | a run of one failing call whose removal fails leaves its temp file |
| `AtomicWriteSafety.LastRenameWins` | src/atomic.rs:79-83 | the destination is the last renamed payload until the next rename or power loss |
| `AtomicWriteModes.ModeSurvives` | src/atomic.rs:61-76 | an existing destination keeps its mode bits through every run in which no call failed to read them and no power loss took back a published mode |
| `AtomicWriteModes.PowerLossTakesModeBack` | src/atomic.rs:52-76 | a completed call and a power loss leave the default mode: the bits are set behind the only fsync |
| `AtomicWriteModes.ModeAlwaysKeptIffDefault` | src/atomic.rs:52-76 | without old temp files the mode is kept through every run, power losses included, if and only if it is the default one |
| `AtomicWriteCall.Store.AtomicWrite` | src/atomic.rs:35-84 | a call is a run of the protocol: on success the destination is the payload, on failure it is what it was; the temp name is there afterwards exactly when call and removal failed and the file was created or there before |
| `AtomicWriteCall.Store.Stage` | src/atomic.rs:49-57 | create, write and fsync leave the destination alone |
| `AtomicWriteCall.Store.Publish` | src/atomic.rs:66-83 | mode and rename: published whole, or unchanged and to be cleaned up |
| `AtomicWriteCall.Store.CleanUp` | src/atomic.rs:54-57 | clean-up leaves the destination alone; the temp name stays exactly when it was there and the removal fails |
| `HeadingWalk.WalkHeadings` | src/markdown.rs:298-331 | the cursor walk terminates and yields exactly the headings of the recursive pre-order that does not enter headings |
| `HeadingWalk.HeadingText` | src/markdown.rs:356-376 | the same for the first `inline` node in pre-order |
| `HeadingWalk.CollectHeadings` | src/markdown.rs:298-331 | the collected headings are in source order |
| `HeadingWalk.WalkIsInSourceOrder` | src/markdown.rs:298-331 | on a tree whose nodes are in source order the final sort changes nothing |
| `HeadingWalk.MoveOn` | src/markdown.rs:311-329 | moving on visits what the path has left, and nothing else |
| `HeadingWalk.MarkersAre` | src/markdown.rs:335-353 | the eight kinds of node that mark a level, and their levels |
| `HeadingWalk.LevelIsOfFirstMarker` | src/markdown.rs:335-353 | a heading's level is that of the first child that marks one |
| `HeadingWalk.InlineIsFirst` | src/markdown.rs:356-376 | the text is that of the first inline node, child by child |
| `HeadingWalk.NoInlineIn` | src/markdown.rs:356-376 | a node with none below it has one exactly when it is inline itself |
| `HeadingWalk.NoMarkerNoLevel` | src/markdown.rs:335-353 | without a marker there is no level |
| `HeadingWalk.HeadingIsReadOff` | src/markdown.rs:298-310 | what is collected is read off a heading node: level, start, line counted from one, text |
| `HeadingWalk.EveryHeadingIsCollected` | src/markdown.rs:298-310 | every heading node with a marker that stands in no other heading is collected |
| `Sections.Chunker.Emit` | src/markdown.rs:136-203 | the recursive splitter appends exactly the chunks of the section's ranges and returns the section's end |
| `Sections.Chunker.EmitAll` | src/markdown.rs:198-203 | its loop visits the subsections one behind the other |
| `Sections.ChunkMarkdown` | src/markdown.rs:106-130 | preamble chunk, then the chunks of every top section |
| `SectionContents.ChunksCarryTheDocument` | src/markdown.rs:106-234 | one chunk for the preamble and each range that is not blank, in order, with its trimmed text, the joined breadcrumb for a name, the heading for a kind, its lines and its token estimate |
| `SectionContents.RangesAreDecidedByBudget` | src/markdown.rs:149-187 | a range is the whole section when its estimate is within the budget, and else its head |
| `SectionContents.SegmentIs` | src/markdown.rs:157-161 | a breadcrumb segment: as many marks as the level, a space, the text |
| `Sections.SectionEnd` | src/markdown.rs:149-152 | a section ends at the first later heading of the same or a higher rank, or at the end |
| `Sections.NestedEndsWithin` | src/markdown.rs:198-202 | a nested call never returns past its parent's section end |
| `SectionTheorems.RangesTileTheDocument` | src/markdown.rs:106-203 | preamble and ranges, in order, are the document: no byte lost, repeated or moved |
| `SectionTheorems.RolledUpChunksFit` | src/markdown.rs:168-187 | a chunk of two or more headings is one whole section and within the token budget |
| `SectionTheorems.OpensIffEnclosersOverBudget` | src/markdown.rs:168-203 | a heading opens a range if and only if every section around it is over budget |
| `SectionTheorems.LargerBudgetOnlyMerges` | src/markdown.rs:136-203 | raising the budget only removes range boundaries |
| `SectionTheorems.BreadcrumbsNameTheEnclosers` | src/markdown.rs:157-161 | every breadcrumb is the chain of enclosing headings, outermost first, and the heading itself |
| `SectionTheorems.EnclosingIsExact` | src/markdown.rs:149-161 | that chain lists exactly the earlier headings whose section reaches over the heading, in order |
| `SectionTheorems.EnclosersDescend` | src/markdown.rs:149-161 | along it the levels strictly increase |
| `Normalization.Normalize` | src/memory.rs:124-143 | the character loop computes the words joined by single spaces |
| `Normalization.NormalizedKeepsWords` | src/memory.rs:110-143 | normalizing keeps the words and is idempotent |
| `Normalization.NormalizedAlikeIffSameWords` | src/memory.rs:110-151 | two texts normalize alike if and only if they have the same words in order |
| `Normalization.WordsSplit` | src/memory.rs:110-143 | white space separates words |
| `Normalization.WordIsItsWord` | src/memory.rs:110-143 | a text without tab, line feed, form feed, carriage return or space is one word |
| `MemoryStore.LoadEntries` | src/memory.rs:233-265 | the loading loops keep the first entry of each id over all files; ids are distinct |
| `MemoryStore.MemoryFile.Append` | src/memory.rs:199-228 | one buffer, with a repairing line break when the last line is unfinished; a torn write leaves a beginning of it |
| `MemoryStore.MemoryFile.Record` | src/memory.rs:169-196 | redacted, deduplicated, stored: a known id returns a stored entry and leaves the file alone, a new one is new exactly when its buffer is complete |
| `MemoryPrivacy.RecordAppendsRedactedEntry` | src/memory.rs:169-228 | in full: nothing under a known digest of the redacted words, else the line of the redacted entry on a line of its own |
| `MemoryPrivacy.RecordedIsRedacted` | src/memory.rs:177-191 | decisions that agree once redacted leave the same file |
| `MemoryPrivacy.RunsAreRedacted` | src/memory.rs:169-228 | so do whole runs of them, torn anywhere |
| `MemoryPrivacy.NewEntryIsRedacted` | src/memory.rs:177-191 | a new entry is loaded with the redacted text and area, and tags and time as given |
| `MemoryRuns.RunsOnlyExtend` | src/memory.rs:169-265 | over every run of records on any initial file, each torn anywhere, what was loaded is a prefix of what is loaded later, with distinct ids |
| `MemoryRuns.WriteLoads` | src/memory.rs:199-265 | a write adds its entry if and only if all of the entry reached the file, its line end or not, and the id is new; otherwise it adds nothing |
| `MemoryRuns.CompletedRecordIsLast` | src/memory.rs:169-228 | a completed record of a new id is the last loaded entry, behind all that was there |
| `MemoryRuns.CompletedRecordIsKept` | src/memory.rs:169-265 | and it keeps its place after every longer run |
| `MemoryRuns.SameWordsRecordOnce` | src/memory.rs:145-186 | recording again, or recording another text of the same redacted words, leaves the file alone |
| `MemoryRuns.LoadedWasRecorded` | src/memory.rs:169-265 | no entry is loaded that was neither there at the start nor recorded |
| `MemoryRuns.RepairedBoundary` | src/memory.rs:206-225 | whatever an interrupted append left, loading goes on behind the repair as from a finished file |
| `TextLines.LinesAre` | src/memory.rs:241-243 | lines end at breaks and lose a carriage return before one |
| `MemoryRecall.Recall` | src/memory.rs:323-369 | with distinct ids recall is the beginning of the filtered full ranking: nothing qualifying is displaced |
| `MemoryRecall.FilterLoop` | src/memory.rs:348-367 | the filter loop stops behind its push, so a `top_k` of 0 yields one hit |
| `MemoryRecall.SmallerTopKIsPrefix` | src/memory.rs:323-369 | of two recalls with distinct ids the one with the smaller `top_k` returns a prefix of the other; the limit is kept if and only if it is positive or nothing qualifies |
| `MemoryRecall.ZeroRecallsOne` | src/memory.rs:348-367 | with a `top_k` of 0, a store of one entry that shares a token with the query recalls it |
| `MemoryRecall.ZeroRecallsOneInstance` | src/memory.rs:348-367 | so the query `a` with a `top_k` of 0 recalls the entry `a` |
| `MemoryRecall.HitsAreTheQualifying` | src/memory.rs:348-367 | the hits are exactly the entries that score enough and share a token |
| `MemoryRecall.RecallReturnsAsMany` | src/memory.rs:348-367 | a recall returns all that qualify, but no more than `top_k`, or one if that is 0 |
| `MemoryRecall.EntryIsRankedBy` | src/memory.rs:268-300 | an entry is ranked by its text, tags and area, a space before each |
| `Anchors.ParsesBackIffPrintable` | src/relevance.rs:83-167 | an anchor's printed form parses back to it if and only if its facets are trimmed and non-empty, its path has no `#`, its range is in bounds and has a path, and an unranged one does not look ranged |
| `Anchors.DisplayIsCanonical` | src/relevance.rs:83-167 | whatever parses is printed in a form that parses to the same anchor |
| `Anchors.RangeIs` | src/relevance.rs:83-133 | a range is two numbers with a dash between, the first at least one, the second no less, both in 64 bits |
| `Anchors.RangeIsTwoNumbers` | src/relevance.rs:119-129 | and nothing else is a range |
| `Anchors.PlainAnchorIs` | src/relevance.rs:83-133 | an unranged text is split at its first hash, its parts trimmed |
| `Anchors.RangedAnchorIs` | src/relevance.rs:83-133 | a text with digits and dashes behind its last at-sign has that range, or is refused |
| `Anchors.RangedBodyIs` | src/relevance.rs:85-105 | with a range a text needs a path, and behind a hash a kind; its parts are trimmed |
| `TokenSpans.FromChunks` | src/relevance.rs:393-405 | a line weighs the estimate of its text in the first chunk that covers it |
| `TokenSpans.WeightsArePositive` | src/relevance.rs:393-409 | every weight of such a table is at least one, which the scores rest on |
| `TokenSpans.ScoreTokens` | src/relevance.rs:437-475 | none without a ranged anchor; else the scores of the expected and the retrieved line sets, the union mass never going below zero |
| `TokenSpans.TokenMass` | src/relevance.rs:428-430 | the mass of a set of lines, whatever order it is walked in |
| `TokenSpans.MassOfUnion` | src/relevance.rs:463-467 | overlap and union weigh as much as the two sets |
| `TokenSpans.MassOfOne` | src/relevance.rs:463-467 | a single line weighs what the table says |
| `TokenSpans.ScoresMeanCoverage` | src/relevance.rs:437-475 | scores lie in [0, 1] with IoU least; recall is 1 exactly on full coverage, precision exactly when nothing else came, IoU exactly when the sets agree |
| `TokenSpans.ScoresAreShares` | src/relevance.rs:437-475 | precision, recall and IoU are the overlap's share of what was retrieved, expected, and both |
| `TokenSpans.WeightIs` | src/relevance.rs:393-409 | a line weighs its estimate, or one where no chunk has it |
| `TokenSpans.FirstTextIs` | src/relevance.rs:393-405 | a line's text is that in the first chunk to have it |
| `TokenSpans.TextAtIs` | src/relevance.rs:393-405 | a chunk has the lines of its content, counted from its start line |
| `TokenSpans.RelevantIs` | src/relevance.rs:437-448 | the expected lines |
| `TokenSpans.RetrievedIs` | src/relevance.rs:449-452 | the retrieved lines |
| `TokenSpans.MatchesIffSharesLine` | src/relevance.rs:134-154 | a ranged anchor matches a result exactly when the kind agrees and they share a line of the file |
| `Saturation.SaturatingMetricSum` | src/aggregator.rs:207-227 | the clamped true sum, with a warning exactly when the true sum does not fit |
| `Saturation.SumForgetsOrder` | src/aggregator.rs:207-227 | the sum does not depend on the order |
| `Saturation.SaturatedGroupsRecombine` | src/aggregator.rs:207-227 | clamped sums of any grouping by key recombine to the clamped total |
| `SavingsLedger.SumByLayer` | src/savings.rs:179-213 | each layer is its clamped true sum, and the grand total that of every bucket in the log |
| `SavingsLedger.LayersRecombine` | src/savings.rs:192-203 | adding clamped layers and clamping the whole log agree |
| `SavingsLedger.RollUpForgetsOrder` | src/savings.rs:177-213 | neither layers nor total depend on the order of the events |
| `SavingsLedger.SumsStayWellFormed` | src/savings.rs:36-56 | saved never exceeds baseline in a sum of buckets where it does not |
| `Rollups.ComputeTotals` | src/aggregator.rs:351-379 | lifetime counts and the clamped token total; helpful and not helpful make up the feedback |
| `Rollups.ComputeUsageBySource` | src/aggregator.rs:301-324 | the two sources split the searches exactly and the saved tokens up to the clamp |
| `Rollups.ComputeDaily` | src/aggregator.rs:480-546 | one point for each day with a search or feedback, in text order, with that day's figures |
| `Rollups.DailyConserves` | src/aggregator.rs:480-546 | over the series searches and feedback add up to the totals, saved tokens up to the clamp |
| `Rollups.SearchesOnDayCount` | src/aggregator.rs:480-507 | a day's figures count its searches, those without a result and those of low confidence |
| `Rollups.FeedbackOnDayCounts` | src/aggregator.rs:508-520 | and its feedback by verdict |
| `Rollups.SourcesCount` | src/aggregator.rs:301-324 | the agent searches are those tagged `mcp`, and all others are the rest |
| `Rollups.OnePointForEachDay` | src/aggregator.rs:480-546 | any two searches share a point exactly on one UTC day |
| `Rollups.DailyRunsForward` | src/aggregator.rs:480-546 | of two days the point of the earlier comes first if and only if the years are the same or sort as texts |
| `RecentSearches.ComputeRecent` | src/aggregator.rs:548-593 | the newest twenty, each with the verdict of the latest feedback on it |
| `RecentSearches.LatestFeedback` | src/aggregator.rs:552-565 | the loop resolves every search id to feedback that none is later than |
| `RecentSearches.NewestFirstIsUnique` | src/aggregator.rs:567-569 | events at distinct positions have one newest-first order |
| `RecentSearches.VerdictIsUnique` | src/aggregator.rs:552-565 | feedback at distinct positions gives each search one verdict |
| `RecentSearches.VerdictMeans` | src/aggregator.rs:552-565 | a verdict is what the latest feedback, by time and then by place, said |
| `RecentSearches.NewestFirstMeans` | src/aggregator.rs:567-569 | the list runs from the newest to the oldest, by time and then by place |

## Left out

- Timestamps.ParseFormat: instants are unbounded integers; overflow of 64-bit seconds is not modelled.
- RankTheorems.ScoresAreBounded: scores are exact reals; rounding of 64-bit floats is not modelled, and `score_key` is the exact rounded integer.
- RankCore.Rank: `is_code_lookup` and `file_hints` are fields of the query, and rank numbers on results are their positions.
- KeywordStore.IdfIsNonNegative: `ln` is any monotone function with `ln 1 = 0`.
- Redactor.RedactGeneric: the nine specific patterns that run before it, and `redact` itself, are not modelled; word characters and white space beyond ASCII are tables given as parameters.
- MemoryRuns.WriteLoads: assumes that a serialized entry is one line, parses back, and does not parse before its last character, as JSON objects do not; the redactor and the digest are arbitrary functions.
- MemoryStore.MemoryFile.Append: a torn write stops between characters, so invalid UTF-8 does not arise; one process appends, and an existing file can be read.
- MemoryStore.LoadEntries: the warning about malformed lines on the error stream is not modelled.
- MemoryRecall.Recall: for stores with repeated ids only the empty cases are stated; `load_entries` never yields one.
- AtomicWriteSafety.NoTempFileRemains: after a failed removal or a stopped call, see `AtomicWriteSafety.OnlyStraysRemain`.
- AtomicWriteModes.ModeAlwaysKeptIffDefault: for directories that hold no temp name of the destination yet; a write truncates such a file and keeps its mode.
- AtomicWrite.Start: a state has one destination; calls on several destinations of one directory, which share the sequence, are not interleaved, though their temp names differ (`TempNames.TempNameInjective`).
- AtomicWriteSafety.LastRenameWins: until a power loss, after which the directory entry may roll back to any earlier rename.
- AtomicWriteSafety.DestinationIsNeverTorn: names of temp files that reappear when a power loss rolls the directory back, the wrap-around of the 64-bit sequence, file names that are not UTF-8, and directories that do not exist are not modelled.
- Sections.ChunkMarkdown: starts from the collected headings; parsing, the nesting guard with its fallback, and chunk ids are not modelled, and every heading starts on a character boundary.
- HeadingWalk.CollectHeadings: trees are given; the grammar that produces them is not part of this model.
- Anchors.ParsesBackIffPrintable: line numbers are bounded at 64 bits; error texts are kinds of errors.
- TokenSpans.ScoreTokens: the nested map of files to lines is one set of lines that carry their file, and sums of weights are unbounded.
- SavingsLedger.SumByLayer: the seven named buckets are a list in the order of the names.
- Rollups.ComputeDaily: means and rates of a day, and the warning text, are left out; so are costs, windows and trend directions.
- Command line, HTTP servers, dashboard, sync, tool protocol and self-update: I/O and presentation.
- Grammars, chunking and compression of code: they rest on foreign parsers.
- SHA-256, JSON, YAML, the hash embedder and the statistics: parameters or absent.
- Configuration loading, fingerprints, pricing, digests and name tables: lookups and formatting with easy properties only.
