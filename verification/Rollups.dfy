/**
 The roll-ups of src/aggregator.rs over the events of one log: lifetime totals, the split by
 source, and the daily series. Means, rates and costs are left out.
 */
module Rollups {
  import opened Lexicographic
  import opened Timestamps
  import opened DateOrder
  import opened ImportGraph
  import opened Saturation

  datatype SearchEvent = SearchEvent(secs: int, id: string, source: string, tokensSaved: nat, isEmpty: bool,
    lowConfidence: bool)

  datatype FeedbackEvent = FeedbackEvent(secs: int, targetId: string, helpful: bool)

  // ----- What is counted, and by which key -----

  function Day(s: SearchEvent): string {
    DateStr(s.secs)
  }

  function FeedbackDay(f: FeedbackEvent): string {
    DateStr(f.secs)
  }

  /** Only the exact tag counts as an agent search. */
  function Source(s: SearchEvent): string {
    if s.source == "mcp" then "mcp" else "cli"
  }

  function One(s: SearchEvent): nat {
    1
  }

  function Tokens(s: SearchEvent): nat {
    s.tokensSaved
  }

  function Empty(s: SearchEvent): nat {
    if s.isEmpty then 1 else 0
  }

  function LowConfidence(s: SearchEvent): nat {
    if s.lowConfidence then 1 else 0
  }

  function Helpful(f: FeedbackEvent): nat {
    if f.helpful then 1 else 0
  }

  function NotHelpful(f: FeedbackEvent): nat {
    if f.helpful then 0 else 1
  }

  // ----- Totals and sources -----

  datatype Totals = Totals(searches: nat, feedback: nat, tokensSaved: nat, helpful: nat, notHelpful: nat)

  method ComputeTotals(searches: seq<SearchEvent>, feedback: seq<FeedbackEvent>) returns (t: Totals)
    ensures t.searches == |searches| && t.feedback == |feedback|
    ensures t.tokensSaved == Sat(Total(searches, Tokens))
    ensures t.helpful == Total(feedback, Helpful) && t.notHelpful == Total(feedback, NotHelpful)
    ensures t.helpful + t.notHelpful == t.feedback
  {
    var tokens, _ := TokensSaved(searches);
    var helpful, notHelpful := 0, 0;
    for i := 0 to |feedback|
      invariant helpful == Total(feedback[..i], Helpful) && notHelpful == Total(feedback[..i], NotHelpful)
      invariant helpful + notHelpful == i
    {
      assert feedback[..i + 1][..i] == feedback[..i];
      if feedback[i].helpful {
        helpful := helpful + 1;
      } else {
        notHelpful := notHelpful + 1;
      }
    }
    assert feedback[..|feedback|] == feedback;
    t := Totals(|searches|, |feedback|, tokens, helpful, notHelpful);
  }

  function TokensOf(searches: seq<SearchEvent>): (r: seq<nat>)
    ensures |r| == |searches| && forall i | 0 <= i < |r| :: r[i] == searches[i].tokensSaved
  {
    seq(|searches|, i requires 0 <= i < |searches| => searches[i].tokensSaved)
  }

  lemma {:induction false} SumOfTokens(searches: seq<SearchEvent>)
    ensures Sum(TokensOf(searches)) == Total(searches, Tokens)
  {
    if searches != [] {
      var init := searches[..|searches| - 1];
      SumOfTokens(init);
      assert TokensOf(searches)[..|init|] == TokensOf(init);
    }
  }

  method TokensSaved(searches: seq<SearchEvent>) returns (total: nat, clamped: bool)
    ensures total == Sat(Total(searches, Tokens))
    ensures clamped <==> Total(searches, Tokens) > MAX_METRIC
  {
    SumOfTokens(searches);
    total, clamped := SaturatingMetricSum(TokensOf(searches));
  }

  datatype SourceUsage = SourceUsage(searches: nat, tokensSaved: nat)

  datatype UsageBySource = UsageBySource(cli: SourceUsage, mcp: SourceUsage)

  /** The searches of one source, in order. */
  function OfSource(searches: seq<SearchEvent>, source: string): seq<SearchEvent> {
    if searches == [] then []
    else
      var init, last := searches[..|searches| - 1], searches[|searches| - 1];
      OfSource(init, source) + if Source(last) == source then [last] else []
  }

  lemma {:induction false} OfSourceTotals(searches: seq<SearchEvent>, source: string, amount: SearchEvent -> nat)
    ensures Total(OfSource(searches, source), amount) == Under(searches, Source, amount, source)
  {
    if searches != [] {
      var init, last := searches[..|searches| - 1], searches[|searches| - 1];
      OfSourceTotals(init, source, amount);
      assert (OfSource(init, source) + [last])[..|OfSource(init, source)|] == OfSource(init, source);
      assert OfSource(init, source) + [] == OfSource(init, source);
    }
  }

  lemma {:induction false} OnesCount(searches: seq<SearchEvent>)
    ensures Total(searches, One) == |searches|
  {
    if searches != [] {
      OnesCount(searches[..|searches| - 1]);
    }
  }

  /** The split by source: counts add up exactly, saved tokens up to the clamp. */
  method ComputeUsageBySource(searches: seq<SearchEvent>) returns (u: UsageBySource)
    ensures u.cli == SourceUsage(Under(searches, Source, One, "cli"), Sat(Under(searches, Source, Tokens, "cli")))
    ensures u.mcp == SourceUsage(Under(searches, Source, One, "mcp"), Sat(Under(searches, Source, Tokens, "mcp")))
    ensures u.cli.searches + u.mcp.searches == |searches|
    ensures Sat(u.cli.tokensSaved + u.mcp.tokensSaved) == Sat(Total(searches, Tokens))
  {
    hide Under;
    var cli: seq<SearchEvent>, mcp: seq<SearchEvent> := [], [];
    for i := 0 to |searches|
      invariant cli == OfSource(searches[..i], "cli") && mcp == OfSource(searches[..i], "mcp")
    {
      assert searches[..i + 1][..i] == searches[..i];
      if searches[i].source == "mcp" {
        mcp := mcp + [searches[i]];
      } else {
        cli := cli + [searches[i]];
      }
    }
    assert searches[..|searches|] == searches;
    var cliTokens, _ := TokensSaved(cli);
    var mcpTokens, _ := TokensSaved(mcp);
    OnesCount(cli);
    OnesCount(mcp);
    OfSourceTotals(searches, "cli", One);
    OfSourceTotals(searches, "mcp", One);
    OfSourceTotals(searches, "cli", Tokens);
    OfSourceTotals(searches, "mcp", Tokens);
    SourcesRecombine(searches, One);
    SourcesRecombine(searches, Tokens);
    OnesCount(searches);
    u := UsageBySource(SourceUsage(|cli|, cliTokens), SourceUsage(|mcp|, mcpTokens));
  }

  lemma SourcesRecombine(searches: seq<SearchEvent>, amount: SearchEvent -> nat)
    ensures Under(searches, Source, amount, "cli") + Under(searches, Source, amount, "mcp") == Total(searches, amount)
  {
    hide Under, Total;
    var sources := ["cli", "mcp"];
    assert sources[0] == "cli" && sources[1] == "mcp";
    GroupsRecombine(sources, searches, Source, amount);
    var groups := Groups(sources, searches, Source, amount);
    assert groups == [groups[0]] + [groups[1]];
    SumConcat([groups[0]], [groups[1]]);
    assert [groups[0]][..0] == [] && [groups[1]][..0] == [];
  }

  // ----- The daily series -----

  datatype DayAcc = DayAcc(searches: nat, tokensSaved: nat, isEmpty: nat, lowConfidence: nat, helpful: nat,
    notHelpful: nat)

  datatype DailyPoint = DailyPoint(date: string, acc: DayAcc)

  /** One day's figures. */
  function OnDay(searches: seq<SearchEvent>, feedback: seq<FeedbackEvent>, d: string): DayAcc {
    DayAcc(Under(searches, Day, One, d), Sat(Under(searches, Day, Tokens, d)), Under(searches, Day, Empty, d),
           Under(searches, Day, LowConfidence, d),
           Under(feedback, FeedbackDay, Helpful, d), Under(feedback, FeedbackDay, NotHelpful, d))
  }

  /** The days with a search or a feedback. */
  function Days(searches: seq<SearchEvent>, feedback: seq<FeedbackEvent>): set<string> {
    (set i | 0 <= i < |searches| :: Day(searches[i])) + (set i | 0 <= i < |feedback| :: FeedbackDay(feedback[i]))
  }

  lemma DaysOfMoreSearches(searches: seq<SearchEvent>, s: SearchEvent, feedback: seq<FeedbackEvent>, d: string)
    ensures Days(searches + [s], feedback) == Days(searches, feedback) + {Day(s)}
    ensures OnDay(searches + [s], feedback, d) ==
      var a := OnDay(searches, feedback, d);
      if Day(s) == d then AddSearch(a, s) else a
  {
    hide Day;
    var more := searches + [s];
    assert more[..|searches|] == searches && more[|searches|] == s;
    assert Days(more, feedback) <= Days(searches, feedback) + {Day(s)};
    forall i | 0 <= i < |searches|
      ensures Day(searches[i]) in Days(more, feedback)
    {
      assert more[i] == searches[i];
    }
    assert Day(more[|searches|]) in Days(more, feedback);
  }

  lemma DaysOfMoreFeedback(searches: seq<SearchEvent>, feedback: seq<FeedbackEvent>, f: FeedbackEvent, d: string)
    ensures Days(searches, feedback + [f]) == Days(searches, feedback) + {FeedbackDay(f)}
    ensures OnDay(searches, feedback + [f], d) ==
      var a := OnDay(searches, feedback, d);
      if FeedbackDay(f) == d then AddFeedback(a, f) else a
  {
    hide FeedbackDay;
    var more := feedback + [f];
    assert more[..|feedback|] == feedback && more[|feedback|] == f;
    assert Days(searches, more) <= Days(searches, feedback) + {FeedbackDay(f)};
    forall i | 0 <= i < |feedback|
      ensures FeedbackDay(feedback[i]) in Days(searches, more)
    {
      assert more[i] == feedback[i];
    }
    assert FeedbackDay(more[|feedback|]) in Days(searches, more);
  }

  function AddSearch(a: DayAcc, s: SearchEvent): DayAcc {
    a.(searches := a.searches + 1, tokensSaved := Sat(a.tokensSaved + s.tokensSaved),
       isEmpty := a.isEmpty + Empty(s), lowConfidence := a.lowConfidence + LowConfidence(s))
  }

  function AddFeedback(a: DayAcc, f: FeedbackEvent): DayAcc {
    a.(helpful := a.helpful + Helpful(f), notHelpful := a.notHelpful + NotHelpful(f))
  }

  const NO_EVENTS := DayAcc(0, 0, 0, 0, 0, 0)

  /** A day without events has nothing on it. */
  lemma {:induction false} NothingUnder<T>(xs: seq<T>, key: T -> string, amount: T -> nat, k: string)
    requires forall i | 0 <= i < |xs| :: key(xs[i]) != k
    ensures Under(xs, key, amount, k) == 0
  {
    if xs != [] {
      NothingUnder(xs[..|xs| - 1], key, amount, k);
    }
  }

  lemma NothingOnDay(searches: seq<SearchEvent>, feedback: seq<FeedbackEvent>, d: string)
    requires d !in Days(searches, feedback)
    ensures OnDay(searches, feedback, d) == NO_EVENTS
  {
    hide Under;
    NothingUnder(searches, Day, One, d);
    NothingUnder(searches, Day, Tokens, d);
    NothingUnder(searches, Day, Empty, d);
    NothingUnder(searches, Day, LowConfidence, d);
    NothingUnder(feedback, FeedbackDay, Helpful, d);
    NothingUnder(feedback, FeedbackDay, NotHelpful, d);
  }

  /** The accumulators of the days seen so far. */
  ghost predicate Accumulated(byDay: map<string, DayAcc>, searches: seq<SearchEvent>, feedback: seq<FeedbackEvent>) {
    byDay.Keys == Days(searches, feedback) && forall d | d in byDay :: byDay[d] == OnDay(searches, feedback, d)
  }

  lemma AccumulateSearch(byDay: map<string, DayAcc>, searches: seq<SearchEvent>, feedback: seq<FeedbackEvent>,
      s: SearchEvent)
    requires Accumulated(byDay, searches, feedback)
    ensures var d := Day(s);
      Accumulated(byDay[d := AddSearch(if d in byDay then byDay[d] else NO_EVENTS, s)], searches + [s], feedback)
  {
    hide OnDay, Days, AddSearch, Day;
    forall d
      ensures Days(searches + [s], feedback) == Days(searches, feedback) + {Day(s)}
      ensures OnDay(searches + [s], feedback, d) ==
        if Day(s) == d then AddSearch(OnDay(searches, feedback, d), s) else OnDay(searches, feedback, d)
    {
      DaysOfMoreSearches(searches, s, feedback, d);
    }
    if Day(s) !in byDay {
      NothingOnDay(searches, feedback, Day(s));
    }
  }

  lemma AccumulateFeedback(byDay: map<string, DayAcc>, searches: seq<SearchEvent>, feedback: seq<FeedbackEvent>,
      f: FeedbackEvent)
    requires Accumulated(byDay, searches, feedback)
    ensures var d := FeedbackDay(f);
      Accumulated(byDay[d := AddFeedback(if d in byDay then byDay[d] else NO_EVENTS, f)], searches, feedback + [f])
  {
    hide OnDay, Days, AddFeedback, FeedbackDay;
    forall d
      ensures Days(searches, feedback + [f]) == Days(searches, feedback) + {FeedbackDay(f)}
      ensures OnDay(searches, feedback + [f], d) ==
        if FeedbackDay(f) == d then AddFeedback(OnDay(searches, feedback, d), f) else OnDay(searches, feedback, d)
    {
      DaysOfMoreFeedback(searches, feedback, f, d);
    }
    if FeedbackDay(f) !in byDay {
      NothingOnDay(searches, feedback, FeedbackDay(f));
    }
  }

  function Dates(series: seq<DailyPoint>): (r: seq<string>)
    ensures |r| == |series| && forall i | 0 <= i < |r| :: r[i] == series[i].date
  {
    seq(|series|, i requires 0 <= i < |series| => series[i].date)
  }

  /** The series of a log: its days in text order, each with its figures. */
  predicate DailySeries(series: seq<DailyPoint>, searches: seq<SearchEvent>, feedback: seq<FeedbackEvent>) {
    && Lists(Dates(series), Days(searches, feedback))
    && forall i | 0 <= i < |series| :: series[i].acc == OnDay(searches, feedback, series[i].date)
  }

  method ComputeDaily(searches: seq<SearchEvent>, feedback: seq<FeedbackEvent>) returns (series: seq<DailyPoint>)
    ensures DailySeries(series, searches, feedback)
  {
    hide OnDay, Days, Day, FeedbackDay, AddSearch, AddFeedback;
    var byDay: map<string, DayAcc> := map[];
    assert Accumulated(byDay, searches[..0], feedback[..0]) by {
      NoDays();
    }
    for i := 0 to |searches|
      invariant Accumulated(byDay, searches[..i], feedback[..0])
    {
      var d := Day(searches[i]);
      AccumulateSearch(byDay, searches[..i], feedback[..0], searches[i]);
      assert searches[..i + 1] == searches[..i] + [searches[i]];
      byDay := byDay[d := AddSearch(if d in byDay then byDay[d] else NO_EVENTS, searches[i])];
    }
    assert searches[..|searches|] == searches;
    for i := 0 to |feedback|
      invariant Accumulated(byDay, searches, feedback[..i])
    {
      var d := FeedbackDay(feedback[i]);
      AccumulateFeedback(byDay, searches, feedback[..i], feedback[i]);
      assert feedback[..i + 1] == feedback[..i] + [feedback[i]];
      byDay := byDay[d := AddFeedback(if d in byDay then byDay[d] else NO_EVENTS, feedback[i])];
    }
    assert feedback[..|feedback|] == feedback;
    var dates := Sorted(byDay.Keys);
    series := seq(|dates|, i requires 0 <= i < |dates| && dates[i] in byDay => DailyPoint(dates[i], byDay[dates[i]]));
    assert Dates(series) == dates;
  }

  lemma NoDays()
    ensures Days([], []) == {}
  {
  }

  // ----- What the series keeps -----

  function Searches(a: DayAcc): nat { a.searches }

  function TokensOn(a: DayAcc): nat { a.tokensSaved }

  function HelpfulOn(a: DayAcc): nat { a.helpful }

  function NotHelpfulOn(a: DayAcc): nat { a.notHelpful }

  /** One figure of every day. */
  function Figures(series: seq<DailyPoint>, figure: DayAcc -> nat): (r: seq<nat>)
    ensures |r| == |series| && forall i | 0 <= i < |r| :: r[i] == figure(series[i].acc)
  {
    seq<nat>(|series|, i requires 0 <= i < |series| => figure(series[i].acc))
  }

  lemma ListedDatesAreDistinct(dates: seq<string>, days: set<string>)
    requires Lists(dates, days)
    ensures DistinctKeys(dates)
  {
    forall i, j | 0 <= i < j < |dates|
      ensures dates[i] != dates[j]
    {
      LexTrichotomy(dates[i], dates[i]);
    }
  }

  lemma SearchFiguresRecombine(series: seq<DailyPoint>, searches: seq<SearchEvent>, feedback: seq<FeedbackEvent>)
    requires DailySeries(series, searches, feedback)
    ensures Sum(Figures(series, Searches)) == |searches|
    ensures Sat(Sum(Figures(series, TokensOn))) == Sat(Total(searches, Tokens))
  {
    hide Under, Sum, Total, Sat, DateStr;
    var dates := Dates(series);
    ListedDatesAreDistinct(dates, Days(searches, feedback));
    assert forall i | 0 <= i < |searches| :: Day(searches[i]) in dates;
    GroupsRecombine(dates, searches, Day, One);
    OnesCount(searches);
    assert Figures(series, Searches) == Groups(dates, searches, Day, One);
    SaturatedGroupsRecombine(dates, searches, Day, Tokens);
    assert Figures(series, TokensOn) == Sats(Groups(dates, searches, Day, Tokens));
  }

  /** The daily series loses nothing: searches and feedback add up, saved tokens up to the clamp. */
  lemma DailyConserves(series: seq<DailyPoint>, searches: seq<SearchEvent>, feedback: seq<FeedbackEvent>)
    requires DailySeries(series, searches, feedback)
    ensures Sum(Figures(series, Searches)) == |searches|
    ensures Sat(Sum(Figures(series, TokensOn))) == Sat(Total(searches, Tokens))
    ensures Sum(Figures(series, HelpfulOn)) == Total(feedback, Helpful)
    ensures Sum(Figures(series, NotHelpfulOn)) == Total(feedback, NotHelpful)
  {
    hide Under, Sum, Total, Sat, DateStr;
    SearchFiguresRecombine(series, searches, feedback);
    var dates := Dates(series);
    ListedDatesAreDistinct(dates, Days(searches, feedback));
    assert forall i | 0 <= i < |feedback| :: FeedbackDay(feedback[i]) in dates;
    GroupsRecombine(dates, feedback, FeedbackDay, Helpful);
    GroupsRecombine(dates, feedback, FeedbackDay, NotHelpful);
    assert Figures(series, HelpfulOn) == Groups(dates, feedback, FeedbackDay, Helpful);
    assert Figures(series, NotHelpfulOn) == Groups(dates, feedback, FeedbackDay, NotHelpful);
  }

  /** Two searches share a point exactly when they fall on one UTC day. */
  lemma OnePointForEachDay(series: seq<DailyPoint>, searches: seq<SearchEvent>, feedback: seq<FeedbackEvent>,
                           a: SearchEvent, b: SearchEvent, i: nat, j: nat)
    requires DailySeries(series, searches, feedback) && i < |series| && j < |series|
    requires series[i].date == Day(a) && series[j].date == Day(b)
    ensures i == j <==> a.secs / DAY == b.secs / DAY
  {
    hide DateStr, OnDay, Days;
    DateStrIsTheDay(a.secs, b.secs);
    ListedDatesAreDistinct(Dates(series), Days(searches, feedback));
    assert Dates(series)[i] == Day(a) && Dates(series)[j] == Day(b);
  }

  /** Of two days' points the earlier comes first exactly when the years are the same or sort as texts. */
  lemma DailyRunsForward(series: seq<DailyPoint>, searches: seq<SearchEvent>, feedback: seq<FeedbackEvent>,
                         a: SearchEvent, b: SearchEvent, i: nat, j: nat)
    requires DailySeries(series, searches, feedback) && i < |series| && j < |series|
    requires series[i].date == Day(a) && series[j].date == Day(b) && a.secs / DAY < b.secs / DAY
    ensures i < j <==> UtcYear(a.secs) == UtcYear(b.secs) || YearsSort(UtcYear(a.secs), UtcYear(b.secs))
  {
    hide DateStr, UtcYear, OnDay, Days, YearsSort, LexLess;
    OnePointForEachDay(series, searches, feedback, a, b, i, j);
    DateStrSortsIff(a.secs, b.secs);
    LexTrichotomy(Day(a), Day(b));
    assert Dates(series)[i] == Day(a) && Dates(series)[j] == Day(b);
  }

  // ----- In the terms of the log -----

  /** A day's searches, those without a result, and those of low confidence. */
  lemma SearchesOnDayCount(searches: seq<SearchEvent>, feedback: seq<FeedbackEvent>, d: string)
    ensures var a := OnDay(searches, feedback, d);
      && a.searches == |set i | 0 <= i < |searches| && DateStr(searches[i].secs) == d|
      && a.isEmpty == |set i | 0 <= i < |searches| && DateStr(searches[i].secs) == d && searches[i].isEmpty|
      && a.lowConfidence == |set i | 0 <= i < |searches| && DateStr(searches[i].secs) == d && searches[i].lowConfidence|
  {
    hide DateStr, Under;
    var any, empty, low := (s: SearchEvent) => true, (s: SearchEvent) => s.isEmpty, (s: SearchEvent) => s.lowConfidence;
    UnderCounts(searches, Day, any, One, d);
    UnderCounts(searches, Day, empty, Empty, d);
    UnderCounts(searches, Day, low, LowConfidence, d);
    assert Places(searches, Day, any, d) == set i | 0 <= i < |searches| && DateStr(searches[i].secs) == d;
    assert Places(searches, Day, empty, d)
        == set i | 0 <= i < |searches| && DateStr(searches[i].secs) == d && searches[i].isEmpty;
    assert Places(searches, Day, low, d)
        == set i | 0 <= i < |searches| && DateStr(searches[i].secs) == d && searches[i].lowConfidence;
  }

  /** A day's feedback, by verdict. */
  lemma FeedbackOnDayCounts(searches: seq<SearchEvent>, feedback: seq<FeedbackEvent>, d: string)
    ensures var a := OnDay(searches, feedback, d);
      && a.helpful == |set i | 0 <= i < |feedback| && DateStr(feedback[i].secs) == d && feedback[i].helpful|
      && a.notHelpful == |set i | 0 <= i < |feedback| && DateStr(feedback[i].secs) == d && !feedback[i].helpful|
  {
    hide DateStr, Under;
    var yes, no := (f: FeedbackEvent) => f.helpful, (f: FeedbackEvent) => !f.helpful;
    UnderCounts(feedback, FeedbackDay, yes, Helpful, d);
    UnderCounts(feedback, FeedbackDay, no, NotHelpful, d);
    assert Places(feedback, FeedbackDay, yes, d)
        == set i | 0 <= i < |feedback| && DateStr(feedback[i].secs) == d && feedback[i].helpful;
    assert Places(feedback, FeedbackDay, no, d)
        == set i | 0 <= i < |feedback| && DateStr(feedback[i].secs) == d && !feedback[i].helpful;
  }

  /** The searches of each source: those tagged `mcp`, and all others. */
  lemma SourcesCount(searches: seq<SearchEvent>)
    ensures Under(searches, Source, One, "mcp") == |set i | 0 <= i < |searches| && searches[i].source == "mcp"|
    ensures Under(searches, Source, One, "cli") == |set i | 0 <= i < |searches| && searches[i].source != "mcp"|
  {
    hide Under;
    var any := (s: SearchEvent) => true;
    UnderCounts(searches, Source, any, One, "mcp");
    UnderCounts(searches, Source, any, One, "cli");
    assert Places(searches, Source, any, "mcp") == set i | 0 <= i < |searches| && searches[i].source == "mcp";
    assert Places(searches, Source, any, "cli") == set i | 0 <= i < |searches| && searches[i].source != "mcp";
  }
}
