/**
 The recent-searches list of src/aggregator.rs: the newest searches of a log, each with the
 verdict of the latest feedback on it. Events carry their position in the log.
 */
module RecentSearches {
  import opened Rollups

  const RECENT_SEARCHES_LIMIT := 20

  datatype At<T> = At(position: nat, event: T)

  datatype Verdict = NoVerdict | HelpfulVerdict | NotHelpfulVerdict

  datatype RecentSearch = RecentSearch(search: SearchEvent, verdict: Verdict)

  // ----- The latest feedback -----

  /** `a` is at least as late as `b`: by time, then by place in the log. */
  predicate NotEarlier(a: At<FeedbackEvent>, b: At<FeedbackEvent>) {
    a.event.secs > b.event.secs || (a.event.secs == b.event.secs && a.position >= b.position)
  }

  /** `f` is feedback on the search, and none on it is later. */
  predicate IsLatest(f: At<FeedbackEvent>, feedback: seq<At<FeedbackEvent>>, id: string) {
    && f in feedback && f.event.targetId == id
    && forall g | g in feedback && g.event.targetId == id :: NotEarlier(f, g)
  }

  function VerdictOf(f: At<FeedbackEvent>): Verdict {
    if f.event.helpful then HelpfulVerdict else NotHelpfulVerdict
  }

  /** The verdict on a search: that of its latest feedback, none without any. */
  predicate LatestVerdict(v: Verdict, feedback: seq<At<FeedbackEvent>>, id: string) {
    if v == NoVerdict then forall g | g in feedback :: g.event.targetId != id
    else exists f | f in feedback :: IsLatest(f, feedback, id) && VerdictOf(f) == v
  }

  method LatestFeedback(feedback: seq<At<FeedbackEvent>>) returns (latest: map<string, At<FeedbackEvent>>)
    ensures forall id | id in latest :: IsLatest(latest[id], feedback, id)
    ensures forall g | g in feedback :: g.event.targetId in latest
  {
    latest := map[];
    for i := 0 to |feedback|
      invariant forall id | id in latest :: IsLatest(latest[id], feedback[..i], id)
      invariant forall g | g in feedback[..i] :: g.event.targetId in latest
    {
      var f := feedback[i];
      var key := f.event.targetId;
      assert feedback[..i + 1] == feedback[..i] + [f];
      if key !in latest || !NotEarlier(latest[key], f) {
        latest := latest[key := f];
      }
    }
    assert feedback[..|feedback|] == feedback;
  }

  // ----- Newest first -----

  predicate Newer(a: At<SearchEvent>, b: At<SearchEvent>) {
    a.event.secs > b.event.secs || (a.event.secs == b.event.secs && a.position > b.position)
  }

  predicate NewestFirst(s: seq<At<SearchEvent>>) {
    forall i, j | 0 <= i < j < |s| :: !Newer(s[j], s[i])
  }

  function Insert(x: At<SearchEvent>, s: seq<At<SearchEvent>>): seq<At<SearchEvent>> {
    if s == [] || !Newer(s[0], x) then [x] + s else [s[0]] + Insert(x, s[1..])
  }

  /** The stable sort. */
  function Sort(s: seq<At<SearchEvent>>): seq<At<SearchEvent>> {
    if s == [] then [] else Insert(s[0], Sort(s[1..]))
  }

  lemma {:induction false} InsertSorts(x: At<SearchEvent>, s: seq<At<SearchEvent>>)
    requires NewestFirst(s)
    ensures NewestFirst(Insert(x, s)) && multiset(Insert(x, s)) == multiset(s) + multiset{x}
  {
    if s != [] && Newer(s[0], x) {
      InsertSorts(x, s[1..]);
      assert s == [s[0]] + s[1..];
      var r := Insert(x, s[1..]);
      forall j | 0 <= j < |r|
        ensures !Newer(r[j], s[0])
      {
        assert r[j] in multiset(s[1..]) + multiset{x};
        assert r[j] in s[1..] || r[j] == x;
      }
    }
  }

  lemma {:induction false} SortSorts(s: seq<At<SearchEvent>>)
    ensures NewestFirst(Sort(s)) && multiset(Sort(s)) == multiset(s) && |Sort(s)| == |s|
  {
    if s != [] {
      SortSorts(s[1..]);
      InsertSorts(s[0], Sort(s[1..]));
      assert s == [s[0]] + s[1..];
    }
    assert |multiset(Sort(s))| == |multiset(s)|;
  }

  /** Among events of distinct positions the newest-first order is the only one. */
  lemma {:induction false} NewestFirstIsUnique(a: seq<At<SearchEvent>>, b: seq<At<SearchEvent>>)
    requires multiset(a) == multiset(b) && NewestFirst(a) && NewestFirst(b)
    requires forall i, j | 0 <= i < j < |a| :: a[i].position != a[j].position
    ensures a == b
  {
    hide NewestFirst;
    if a == [] {
      assert |b| == |multiset(b)| == 0;
    } else {
      SameHead(a, b);
      SameTail(a, b);
      NewestFirstIsUnique(a[1..], b[1..]);
      assert a == [a[0]] + a[1..] && b == [b[0]] + b[1..];
    }
  }

  lemma NewestFirstTail(a: seq<At<SearchEvent>>)
    requires a != [] && NewestFirst(a)
    ensures NewestFirst(a[1..])
  {
    hide Newer;
  }

  lemma SameTail(a: seq<At<SearchEvent>>, b: seq<At<SearchEvent>>)
    requires a != [] && b != [] && a[0] == b[0] && multiset(a) == multiset(b) && NewestFirst(a) && NewestFirst(b)
    ensures multiset(a[1..]) == multiset(b[1..]) && NewestFirst(a[1..]) && NewestFirst(b[1..])
  {
    NewestFirstTail(a);
    NewestFirstTail(b);
    hide NewestFirst;
    assert a == [a[0]] + a[1..] && b == [b[0]] + b[1..];
    assert multiset(a[1..]) == multiset(a) - multiset{a[0]} == multiset(b[1..]);
  }

  lemma SameHead(a: seq<At<SearchEvent>>, b: seq<At<SearchEvent>>)
    requires a != [] && multiset(a) == multiset(b) && NewestFirst(a) && NewestFirst(b)
    requires forall i, j | 0 <= i < j < |a| :: a[i].position != a[j].position
    ensures b != [] && a[0] == b[0]
  {
    assert a[0] in multiset(b);
    assert b[0] in multiset(a);
    var i :| 0 <= i < |a| && a[i] == b[0];
    var j :| 0 <= j < |b| && b[j] == a[0];
    assert !Newer(a[0], b[0]) && !Newer(b[0], a[0]);
  }

  /** The newest searches, at most the limit, each with its latest verdict. */
  method ComputeRecent(searches: seq<At<SearchEvent>>, feedback: seq<At<FeedbackEvent>>)
    returns (recent: seq<RecentSearch>)
    ensures |recent| == if |searches| < 20 then |searches| else 20
    ensures |Sort(searches)| == |searches|
    ensures forall k | 0 <= k < |recent| :: recent[k].search == Sort(searches)[k].event
    ensures forall k | 0 <= k < |recent| :: LatestVerdict(recent[k].verdict, feedback, recent[k].search.id)
  {
    hide Insert, Sort, IsLatest;
    var latest := LatestFeedback(feedback);
    SortSorts(searches);
    var ordered := Sort(searches);
    recent := [];
    for k := 0 to if |ordered| < RECENT_SEARCHES_LIMIT then |ordered| else RECENT_SEARCHES_LIMIT
      invariant |recent| == k
      invariant forall i | 0 <= i < k :: recent[i].search == ordered[i].event
      invariant forall i | 0 <= i < k :: LatestVerdict(recent[i].verdict, feedback, recent[i].search.id)
    {
      var s := ordered[k].event;
      var verdict := NoVerdict;
      if s.id in latest {
        verdict := VerdictOf(latest[s.id]);
        LatestGivesVerdict(latest[s.id], feedback, s.id);
      }
      recent := recent + [RecentSearch(s, verdict)];
    }
  }

  lemma LatestGivesVerdict(f: At<FeedbackEvent>, feedback: seq<At<FeedbackEvent>>, id: string)
    requires IsLatest(f, feedback, id)
    ensures LatestVerdict(VerdictOf(f), feedback, id)
  {
  }

  /** Feedback at distinct positions gives each search one verdict. */
  lemma VerdictIsUnique(v: Verdict, w: Verdict, feedback: seq<At<FeedbackEvent>>, id: string)
    requires forall i, j | 0 <= i < j < |feedback| :: feedback[i].position != feedback[j].position
    requires LatestVerdict(v, feedback, id) && LatestVerdict(w, feedback, id)
    ensures v == w
  {
    if v != NoVerdict && w != NoVerdict {
      var f :| f in feedback && IsLatest(f, feedback, id) && VerdictOf(f) == v;
      var g :| g in feedback && IsLatest(g, feedback, id) && VerdictOf(g) == w;
      assert f.position == g.position;
      var i :| 0 <= i < |feedback| && feedback[i] == f;
      var j :| 0 <= j < |feedback| && feedback[j] == g;
      assert i == j;
    }
  }

  // ----- In the terms of the log -----

  /** A verdict says what the latest feedback on the search said: none of it is later, by time and then by place. */
  lemma VerdictMeans(v: Verdict, feedback: seq<At<FeedbackEvent>>, id: string)
    requires LatestVerdict(v, feedback, id)
    ensures v == NoVerdict <==> forall g | g in feedback :: g.event.targetId != id
    ensures v != NoVerdict ==>
      exists f | f in feedback ::
        && f.event.targetId == id && (f.event.helpful <==> v == HelpfulVerdict)
        && forall g | g in feedback && g.event.targetId == id ::
             g.event.secs < f.event.secs || (g.event.secs == f.event.secs && g.position <= f.position)
  {
  }

  /** The list runs from the newest search to the oldest, by time and then by place in the log. */
  lemma NewestFirstMeans(searches: seq<At<SearchEvent>>, i: nat, j: nat)
    requires i < j < |searches|
    ensures |Sort(searches)| == |searches| && multiset(Sort(searches)) == multiset(searches)
    ensures var a, b := Sort(searches)[i], Sort(searches)[j];
      a.event.secs > b.event.secs || (a.event.secs == b.event.secs && a.position >= b.position)
  {
    hide Sort;
    SortSorts(searches);
    assert !Newer(Sort(searches)[j], Sort(searches)[i]);
  }
}
