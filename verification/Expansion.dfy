/**
 Bonus results: the import-graph expansion of src/retriever.rs and what it shares with the
 cross-member expansion of src/federation.rs. Both append, for each of at most two groups of
 chunks, the group's two best chunks that are not among the results yet.
 */
module Expansion {
  import opened Chunks
  import opened Lexicographic
  import opened RankOrder
  import opened ImportGraph
  import opened Discovery

  const GRAPH_BONUS_CHUNK_SCALE := 0.85
  const GRAPH_MAX_BONUS_FILES := 2
  const CHUNKS_PER_GROUP := 2

  datatype SearchResult = SearchResult(chunk: Chunk, score: real)

  /** The identity under which results are deduplicated. */
  datatype Key = Key(file: string, startLine: nat, endLine: nat)

  function KeyOf(c: Chunk): Key {
    Key(c.file, c.startLine, c.endLine)
  }

  function Keys(results: seq<SearchResult>): set<Key> {
    set i | 0 <= i < |results| :: KeyOf(results[i].chunk)
  }

  function ResultFiles(results: seq<SearchResult>): (r: seq<string>)
    ensures |r| == |results| && forall i | 0 <= i < |r| :: r[i] == results[i].chunk.file
  {
    seq(|results|, i requires 0 <= i < |results| => results[i].chunk.file)
  }

  function Bonus(c: Chunk, cos: real): SearchResult {
    SearchResult(c, (if cos > 0.0 then cos else 0.0) * GRAPH_BONUS_CHUNK_SCALE)
  }

  /** The chunks of the group among the first `n`, scored by cosine. */
  function Members(chunks: seq<Chunk>, labels: seq<string>, qvec: seq<real>, group: string, n: nat): (r: seq<Scored>)
    requires n <= |chunks| == |labels|
    ensures forall i | 0 <= i < |r| ::
      && r[i].doc < n && labels[r[i].doc] == group
      && r[i] == Scored(r[i].doc, Cosine(qvec, chunks[r[i].doc].embedding), chunks[r[i].doc].id)
    ensures forall d | 0 <= d < n && labels[d] == group ::
      Scored(d, Cosine(qvec, chunks[d].embedding), chunks[d].id) in r
  {
    if n == 0 then []
    else
      var r := Members(chunks, labels, qvec, group, n - 1);
      var x := Scored(n - 1, Cosine(qvec, chunks[n - 1].embedding), chunks[n - 1].id);
      if labels[n - 1] == group then r + [x] else r
  }

  /** The best chunks of a group, at most two. */
  function Best(chunks: seq<Chunk>, labels: seq<string>, qvec: seq<real>, group: string): (r: seq<Scored>)
    requires |chunks| == |labels|
    ensures |r| <= CHUNKS_PER_GROUP
    ensures forall i | 0 <= i < |r| :: r[i].doc < |chunks| && labels[r[i].doc] == group
  {
    var members := Members(chunks, labels, qvec, group, |chunks|);
    SortRanks(members);
    var ranked := Sort(members);
    assert forall i | 0 <= i < |ranked| :: ranked[i] in multiset(members);
    if |ranked| <= CHUNKS_PER_GROUP then ranked else ranked[..CHUNKS_PER_GROUP]
  }

  /** Appends the picks whose key is new. */
  function AppendNew(results: seq<SearchResult>, chunks: seq<Chunk>, picks: seq<Scored>): seq<SearchResult>
    requires forall i | 0 <= i < |picks| :: picks[i].doc < |chunks|
    decreases |picks|
  {
    if picks == [] then results
    else
      var c := chunks[picks[0].doc];
      AppendNew(if KeyOf(c) in Keys(results) then results else results + [Bonus(c, picks[0].score)], chunks, picks[1..])
  }

  /** Appends the new best chunks of each group in turn. */
  function Expand(results: seq<SearchResult>, chunks: seq<Chunk>, labels: seq<string>, qvec: seq<real>,
      groups: seq<string>): seq<SearchResult>
    requires |chunks| == |labels|
    decreases |groups|
  {
    if groups == [] then results
    else Expand(AppendNew(results, chunks, Best(chunks, labels, qvec, groups[0])), chunks, labels, qvec, groups[1..])
  }

  method ExpandLoop(start: seq<SearchResult>, chunks: seq<Chunk>, labels: seq<string>, qvec: seq<real>,
      groups: seq<string>)
    returns (results: seq<SearchResult>)
    requires |chunks| == |labels|
    ensures results == Expand(start, chunks, labels, qvec, groups)
  {
    hide Best, Cosine, Sort, Members;
    results := start;
    var existing := Keys(results);
    for g := 0 to |groups|
      invariant existing == Keys(results)
      invariant Expand(results, chunks, labels, qvec, groups[g..]) == Expand(start, chunks, labels, qvec, groups)
    {
      assert groups[g..][1..] == groups[g + 1..];
      var picks := Best(chunks, labels, qvec, groups[g]);
      ghost var before := results;
      for i := 0 to |picks|
        invariant existing == Keys(results)
        invariant AppendNew(results, chunks, picks[i..]) == AppendNew(before, chunks, picks)
      {
        assert picks[i..][1..] == picks[i + 1..];
        var c := chunks[picks[i].doc];
        if KeyOf(c) in existing {
          continue;
        }
        KeysAppend(results, Bonus(c, picks[i].score));
        existing := existing + {KeyOf(c)};
        results := results + [Bonus(c, picks[i].score)];
      }
    }
  }

  lemma KeysAppend(results: seq<SearchResult>, x: SearchResult)
    ensures Keys(results + [x]) == Keys(results) + {KeyOf(x.chunk)}
  {
    var r := results + [x];
    assert forall i | 0 <= i < |results| :: r[i] == results[i];
    assert KeyOf(x.chunk) == KeyOf(r[|results|].chunk);
    forall k | k in Keys(results) + {KeyOf(x.chunk)}
      ensures k in Keys(r)
    {
      if k in Keys(results) {
        var i :| 0 <= i < |results| && KeyOf(results[i].chunk) == k;
        assert KeyOf(r[i].chunk) == k;
      }
    }
  }

  // ----- The import-graph expansion -----

  /** The distinct files of the first three results, in order. */
  function TopFiles(results: seq<SearchResult>, n: nat): (r: seq<string>)
    requires n <= |results|
    ensures forall f :: f in r <==> exists i | 0 <= i < n && i < 3 :: results[i].chunk.file == f
    ensures |r| <= 3 && |r| <= n
  {
    if n == 0 then []
    else
      var r := TopFiles(results, n - 1);
      var f := results[n - 1].chunk.file;
      if n > 3 || f in r then r else r + [f]
  }

  method TopFilesLoop(results: seq<SearchResult>) returns (r: seq<string>)
    ensures r == TopFiles(results, |results|)
  {
    r := [];
    var n := if |results| < 3 then |results| else 3;
    for i := 0 to n
      invariant r == TopFiles(results, i)
    {
      if results[i].chunk.file !in r {
        r := r + [results[i].chunk.file];
      }
    }
    TopFilesStop(results, n, |results|);
  }

  lemma {:induction false} TopFilesStop(results: seq<SearchResult>, m: nat, n: nat)
    requires m <= n <= |results| && (m == n || m >= 3)
    ensures TopFiles(results, m) == TopFiles(results, n)
  {
    if m < n {
      TopFilesStop(results, m, n - 1);
    }
  }

  /** The groups expanded into: neighbours of a top file that no result is in, in order of discovery. */
  ghost predicate BonusFiles(groups: seq<string>, g: Graph, results: seq<SearchResult>) {
    && |groups| <= 2 && (forall i, j | 0 <= i < j < |groups| :: groups[i] != groups[j])
    && (forall i | 0 <= i < |groups| ::
          && groups[i] !in ResultFiles(results)
          && exists f :: f in TopFiles(results, |results|) && groups[i] in Around(g, f))
    && (|groups| < 2 ==>
          forall f, x | f in TopFiles(results, |results|) && x in Around(g, f) && x !in ResultFiles(results) ::
            x in groups)
  }

  /** What each top file imports or is imported by. */
  function AroundEach(g: Graph, top: seq<string>): (r: seq<set<string>>)
    ensures |r| == |top| && forall k | 0 <= k < |r| :: r[k] == Around(g, top[k])
  {
    seq(|top|, k requires 0 <= k < |top| => Around(g, top[k]))
  }

  function FileSet(results: seq<SearchResult>): set<string> {
    set i | 0 <= i < |results| :: results[i].chunk.file
  }

  /** The files expanded into: the first two discovered around the top files, in order. */
  ghost function BonusFilesOf(g: Graph, results: seq<SearchResult>): seq<string> {
    Discovered(AroundEach(g, TopFiles(results, |results|)), FileSet(results), GRAPH_MAX_BONUS_FILES)
  }

  method ExpandGraph(g: Graph, chunks: seq<Chunk>, qvec: seq<real>, start: seq<SearchResult>)
    returns (results: seq<SearchResult>)
    ensures results == Expand(start, chunks, FilesOf(chunks), qvec, BonusFilesOf(g, start))
  {
    hide Expand, Around, TopFiles, Walk, Fresh;
    if start == [] {
      NothingAround(g);
      ExpandNothing(start, chunks, FilesOf(chunks), qvec);
      return start;
    }
    var have := FileSet(start);
    var top := TopFilesLoop(start);
    ghost var sets := AroundEach(g, top);
    var files: seq<string> := [];
    NothingWalked(have);
    for i := 0 to |top|
      invariant files == Fresh(Walk(sets[..i]), have)
    {
      var neighbors := Neighbors(g, top[i]);
      ghost var walked := Walk(sets[..i]);
      assert walked + neighbors[..0] == walked;
      for j := 0 to |neighbors|
        invariant files == Fresh(walked + neighbors[..j], have)
      {
        FreshPush(walked + neighbors[..j], neighbors[j], have);
        assert walked + neighbors[..j] + [neighbors[j]] == walked + neighbors[..j + 1];
        if neighbors[j] !in have && neighbors[j] !in files {
          files := files + [neighbors[j]];
        }
      }
      WalkPush(sets[..i], sets[i], neighbors);
      assert neighbors[..|neighbors|] == neighbors && sets[..i + 1] == sets[..i] + [sets[i]];
    }
    assert sets[..|top|] == sets;
    results := ExpandLoop(start, chunks, FilesOf(chunks), qvec, FirstFew(files, GRAPH_MAX_BONUS_FILES));
  }

  lemma NothingWalked(have: set<string>)
    ensures Fresh(Walk([]), have) == []
  {
  }

  lemma NothingAround(g: Graph)
    ensures BonusFilesOf(g, []) == []
  {
    assert AroundEach(g, []) == [];
    NothingWalked({});
  }

  lemma BonusFilesMeaning(g: Graph, results: seq<SearchResult>)
    ensures BonusFiles(BonusFilesOf(g, results), g, results)
  {
    hide Around, TopFiles, Discovered;
    var top := TopFiles(results, |results|);
    DiscoveredMeaning(AroundEach(g, top), FileSet(results), GRAPH_MAX_BONUS_FILES);
    forall f | f in ResultFiles(results)
      ensures f in FileSet(results)
    {
      var i :| 0 <= i < |results| && ResultFiles(results)[i] == f;
    }
    forall f | f in FileSet(results)
      ensures f in ResultFiles(results)
    {
      var i :| 0 <= i < |results| && results[i].chunk.file == f;
      assert ResultFiles(results)[i] == f;
    }
  }

  lemma ExpandNothing(results: seq<SearchResult>, chunks: seq<Chunk>, labels: seq<string>, qvec: seq<real>)
    requires |chunks| == |labels|
    ensures Expand(results, chunks, labels, qvec, []) == results
  {
  }

  // ----- What an expansion may do -----

  /** Only appends, and nothing appended repeats the key of anything before it. */
  predicate OnlyAppends(before: seq<SearchResult>, after: seq<SearchResult>) {
    && before <= after
    && forall i, j | |before| <= j < |after| && 0 <= i < j :: KeyOf(after[i].chunk) != KeyOf(after[j].chunk)
  }

  lemma OnlyAppendsIsTransitive(a: seq<SearchResult>, b: seq<SearchResult>, c: seq<SearchResult>)
    requires OnlyAppends(a, b) && OnlyAppends(b, c)
    ensures OnlyAppends(a, c)
  {
    forall i, j | |a| <= j < |c| && 0 <= i < j
      ensures KeyOf(c[i].chunk) != KeyOf(c[j].chunk)
    {
      if j < |b| {
        assert c[i] == b[i] && c[j] == b[j];
      }
    }
  }

  /** A result that is the bonus of a chunk of one of the groups. */
  predicate IsBonus(x: SearchResult, chunks: seq<Chunk>, labels: seq<string>, qvec: seq<real>, groups: seq<string>)
    requires |chunks| == |labels|
  {
    exists d | 0 <= d < |chunks| :: labels[d] in groups && x == Bonus(chunks[d], Cosine(qvec, chunks[d].embedding))
  }

  lemma {:induction false} AppendNewOnlyAppends(results: seq<SearchResult>, chunks: seq<Chunk>, picks: seq<Scored>)
    requires forall i | 0 <= i < |picks| :: picks[i].doc < |chunks|
    ensures var after := AppendNew(results, chunks, picks);
      && OnlyAppends(results, after) && |after| <= |results| + |picks|
      && forall j | |results| <= j < |after| ::
        exists i :: 0 <= i < |picks| && after[j] == Bonus(chunks[picks[i].doc], picks[i].score)
    decreases |picks|
  {
    if picks != [] {
      var c := chunks[picks[0].doc];
      var next := if KeyOf(c) in Keys(results) then results else results + [Bonus(c, picks[0].score)];
      AppendNewOnlyAppends(next, chunks, picks[1..]);
      var after := AppendNew(results, chunks, picks);
      assert OnlyAppends(results, next) by {
        forall i, j | |results| <= j < |next| && 0 <= i < j
          ensures KeyOf(next[i].chunk) != KeyOf(next[j].chunk)
        {
          assert KeyOf(results[i].chunk) in Keys(results);
        }
      }
      OnlyAppendsIsTransitive(results, next, after);
      forall j | |results| <= j < |after|
        ensures exists i :: 0 <= i < |picks| && after[j] == Bonus(chunks[picks[i].doc], picks[i].score)
      {
        if j < |next| {
          assert after[j] == next[j] == Bonus(c, picks[0].score);
        } else {
          var i :| 0 <= i < |picks[1..]| && after[j] == Bonus(chunks[picks[1..][i].doc], picks[1..][i].score);
          assert picks[i + 1] == picks[1..][i];
        }
      }
    }
  }

  /** The picks of a group are bonuses of that group. */
  lemma BestIsBonus(chunks: seq<Chunk>, labels: seq<string>, qvec: seq<real>, group: string, i: nat)
    requires |chunks| == |labels| && i < |Best(chunks, labels, qvec, group)|
    ensures var p := Best(chunks, labels, qvec, group)[i];
      p.doc < |chunks| && labels[p.doc] == group && p.score == Cosine(qvec, chunks[p.doc].embedding)
  {
    hide Cosine;
    var members := Members(chunks, labels, qvec, group, |chunks|);
    SortRanks(members);
    assert Best(chunks, labels, qvec, group)[i] in multiset(Sort(members));
  }

  /**
   An expansion appends at most two results per group, never repeats an earlier key, and
   draws only from chunks of its groups, at their scaled cosine.
   */
  lemma {:induction false} ExpandOnlyAppendsBonuses(results: seq<SearchResult>, chunks: seq<Chunk>,
      labels: seq<string>, qvec: seq<real>, groups: seq<string>)
    requires |chunks| == |labels|
    ensures var after := Expand(results, chunks, labels, qvec, groups);
      && OnlyAppends(results, after) && |after| <= |results| + CHUNKS_PER_GROUP * |groups|
      && forall j | |results| <= j < |after| :: IsBonus(after[j], chunks, labels, qvec, groups)
    decreases |groups|
  {
    hide Best, Cosine, AppendNew;
    if groups != [] {
      var picks := Best(chunks, labels, qvec, groups[0]);
      var next := AppendNew(results, chunks, picks);
      AppendNewOnlyAppends(results, chunks, picks);
      ExpandOnlyAppendsBonuses(next, chunks, labels, qvec, groups[1..]);
      var after := Expand(results, chunks, labels, qvec, groups);
      OnlyAppendsIsTransitive(results, next, after);
      forall j | |results| <= j < |after|
        ensures IsBonus(after[j], chunks, labels, qvec, groups)
      {
        if j < |next| {
          assert after[j] == next[j];
          var i :| 0 <= i < |picks| && next[j] == Bonus(chunks[picks[i].doc], picks[i].score);
          BestIsBonus(chunks, labels, qvec, groups[0], i);
          assert groups[0] in groups;
        } else {
          var d :| 0 <= d < |chunks| && labels[d] in groups[1..]
            && after[j] == Bonus(chunks[d], Cosine(qvec, chunks[d].embedding));
          assert labels[d] in groups;
        }
      }
    }
  }

  // ----- The cap per file -----

  function InFile(results: seq<SearchResult>, file: string): nat {
    multiset(ResultFiles(results))[file]
  }

  lemma InFileAppend(results: seq<SearchResult>, x: SearchResult, file: string)
    ensures InFile(results + [x], file) == InFile(results, file) + if x.chunk.file == file then 1 else 0
  {
    assert ResultFiles(results + [x]) == ResultFiles(results) + [x.chunk.file];
  }

  /** Chunks of one file carry one label. */
  predicate LabelsByFile(chunks: seq<Chunk>, labels: seq<string>)
    requires |chunks| == |labels|
  {
    forall d, e | 0 <= d < |chunks| && 0 <= e < |chunks| && chunks[d].file == chunks[e].file :: labels[d] == labels[e]
  }

  /** Some chunk of the file carries a label among the groups. */
  predicate FileInGroups(chunks: seq<Chunk>, labels: seq<string>, file: string, groups: seq<string>)
    requires |chunks| == |labels|
  {
    exists d | 0 <= d < |chunks| :: chunks[d].file == file && labels[d] in groups
  }

  lemma {:induction false} AppendNewPerFile(results: seq<SearchResult>, chunks: seq<Chunk>, picks: seq<Scored>,
      file: string)
    requires forall i | 0 <= i < |picks| :: picks[i].doc < |chunks|
    ensures InFile(AppendNew(results, chunks, picks), file) <= InFile(results, file) + |picks|
    ensures (forall i | 0 <= i < |picks| :: chunks[picks[i].doc].file != file) ==>
      InFile(AppendNew(results, chunks, picks), file) == InFile(results, file)
    decreases |picks|
  {
    hide InFile, Keys;
    if picks != [] {
      var c := chunks[picks[0].doc];
      InFileAppend(results, Bonus(c, picks[0].score), file);
      var next := if KeyOf(c) in Keys(results) then results else results + [Bonus(c, picks[0].score)];
      AppendNewPerFile(next, chunks, picks[1..], file);
      assert forall i | 0 <= i < |picks[1..]| :: picks[1..][i] == picks[i + 1];
    }
  }

  /** A file gains at most two results, and none unless it belongs to one of the groups. */
  lemma {:induction false} ExpandPerFile(results: seq<SearchResult>, chunks: seq<Chunk>, labels: seq<string>,
      qvec: seq<real>, groups: seq<string>, file: string)
    requires |chunks| == |labels| && LabelsByFile(chunks, labels)
    requires forall i, j | 0 <= i < j < |groups| :: groups[i] != groups[j]
    ensures InFile(Expand(results, chunks, labels, qvec, groups), file)
         <= InFile(results, file) + if FileInGroups(chunks, labels, file, groups) then CHUNKS_PER_GROUP else 0
    decreases |groups|
  {
    hide Best, Cosine, AppendNew, InFile;
    if groups != [] {
      var picks := Best(chunks, labels, qvec, groups[0]);
      AppendNewPerFile(results, chunks, picks, file);
      ExpandPerFile(AppendNew(results, chunks, picks), chunks, labels, qvec, groups[1..], file);
      if FileInGroups(chunks, labels, file, groups[1..]) {
        var d :| 0 <= d < |chunks| && chunks[d].file == file && labels[d] in groups[1..];
        assert labels[d] in groups;
        forall i | 0 <= i < |picks|
          ensures chunks[picks[i].doc].file != file
        {
          assert labels[picks[i].doc] == groups[0] != labels[d];
        }
      } else if !FileInGroups(chunks, labels, file, groups) {
        forall i | 0 <= i < |picks|
          ensures chunks[picks[i].doc].file != file
        {
          assert labels[picks[i].doc] in groups;
        }
      }
    }
  }

  /** No result is in a file of the groups. */
  predicate Unrepresented(results: seq<SearchResult>, chunks: seq<Chunk>, labels: seq<string>, groups: seq<string>)
    requires |chunks| == |labels|
  {
    forall i | 0 <= i < |results| :: !FileInGroups(chunks, labels, results[i].chunk.file, groups)
  }

  /** Expanding into unrepresented groups keeps any per-file cap of two or more. */
  lemma ExpansionKeepsCap(results: seq<SearchResult>, chunks: seq<Chunk>, labels: seq<string>, qvec: seq<real>,
      groups: seq<string>, cap: nat, file: string)
    requires |chunks| == |labels| && LabelsByFile(chunks, labels) && cap >= CHUNKS_PER_GROUP
    requires forall i, j | 0 <= i < j < |groups| :: groups[i] != groups[j]
    requires Unrepresented(results, chunks, labels, groups) && InFile(results, file) <= cap
    ensures InFile(Expand(results, chunks, labels, qvec, groups), file) <= cap
  {
    hide FileInGroups, Expand;
    ExpandPerFile(results, chunks, labels, qvec, groups, file);
    if FileInGroups(chunks, labels, file, groups) {
      assert file !in ResultFiles(results);
    }
  }

  /** The import-graph expansion keeps a ranking's cap per file. */
  lemma GraphExpansionKeepsCap(g: Graph, chunks: seq<Chunk>, qvec: seq<real>, results: seq<SearchResult>,
      groups: seq<string>, cap: nat, file: string)
    requires BonusFiles(groups, g, results) && cap >= CHUNKS_PER_GROUP && InFile(results, file) <= cap
    ensures InFile(Expand(results, chunks, FilesOf(chunks), qvec, groups), file) <= cap
    ensures |Expand(results, chunks, FilesOf(chunks), qvec, groups)| <= |results| + 4
  {
    hide Expand, InFile, TopFiles, Around;
    forall i | 0 <= i < |results|
      ensures !FileInGroups(chunks, FilesOf(chunks), results[i].chunk.file, groups)
    {
      assert results[i].chunk.file in ResultFiles(results) by {
        assert ResultFiles(results)[i] == results[i].chunk.file;
      }
    }
    ExpansionKeepsCap(results, chunks, FilesOf(chunks), qvec, groups, cap, file);
    ExpandOnlyAppendsBonuses(results, chunks, FilesOf(chunks), qvec, groups);
  }

  // ----- What is taken -----

  /** A bonus carries its chunk at 0.85 of its cosine, or at nothing. */
  lemma BonusIs(c: Chunk, cos: real)
    ensures Bonus(c, cos) == SearchResult(c, if cos > 0.0 then 0.85 * cos else 0.0)
  {
  }

  /** `d` is ranked no later than `e`: by the rounded cosine, and of equal ones by the id. */
  predicate NoLater(chunks: seq<Chunk>, qvec: seq<real>, d: nat, e: nat)
    requires d < |chunks| && e < |chunks|
  {
    var a, b := ScoreKey(Cosine(qvec, chunks[d].embedding)), ScoreKey(Cosine(qvec, chunks[e].embedding));
    a > b || (a == b && (chunks[d].id == chunks[e].id || LexLess(chunks[d].id, chunks[e].id)))
  }

  /** A listing of a group's chunks, each once at its cosine, the better ones first. */
  predicate RanksGroup(ranked: seq<Scored>, chunks: seq<Chunk>, labels: seq<string>, qvec: seq<real>, group: string)
    requires |chunks| == |labels|
  {
    && DistinctDocs(ranked)
    && (forall i | 0 <= i < |ranked| :: ranked[i].doc < |chunks| && labels[ranked[i].doc] == group
          && ranked[i].score == Cosine(qvec, chunks[ranked[i].doc].embedding))
    && (forall i, j | 0 <= i < j < |ranked| :: NoLater(chunks, qvec, ranked[i].doc, ranked[j].doc))
    && forall d | 0 <= d < |chunks| && labels[d] == group :: exists k :: 0 <= k < |ranked| && ranked[k].doc == d
  }

  lemma SortRanksGroup(chunks: seq<Chunk>, labels: seq<string>, qvec: seq<real>, group: string)
    requires |chunks| == |labels|
    ensures RanksGroup(Sort(Members(chunks, labels, qvec, group, |chunks|)), chunks, labels, qvec, group)
  {
    hide Cosine, ScoreKey, Sort, LexLess, Members, Before, DistinctDocs, NoLater;
    var members := Members(chunks, labels, qvec, group, |chunks|);
    MembersOnce(chunks, labels, qvec, group, |chunks|);
    SortKeepsDocsDistinct(members);
    SortRanks(members);
    var ranked := Sort(members);
    forall i | 0 <= i < |ranked|
      ensures ranked[i] in members
    {
      assert ranked[i] in multiset(members);
    }
    forall i, j | 0 <= i < j < |ranked|
      ensures NoLater(chunks, qvec, ranked[i].doc, ranked[j].doc)
    {
      assert ranked[i] in members && ranked[j] in members;
      RankedMeans(ranked, i, j);
      KeysAre(chunks, qvec, ranked[i], ranked[j]);
    }
    forall d | 0 <= d < |chunks| && labels[d] == group
      ensures exists k :: 0 <= k < |ranked| && ranked[k].doc == d
    {
      var x := Scored(d, Cosine(qvec, chunks[d].embedding), chunks[d].id);
      assert x in multiset(members) && x in multiset(ranked);
    }
  }

  lemma KeysAre(chunks: seq<Chunk>, qvec: seq<real>, a: Scored, b: Scored)
    requires a.doc < |chunks| && b.doc < |chunks|
    requires a.score == Cosine(qvec, chunks[a.doc].embedding) && a.id == chunks[a.doc].id
    requires b.score == Cosine(qvec, chunks[b.doc].embedding) && b.id == chunks[b.doc].id
    requires || ScoreKey(a.score) > ScoreKey(b.score)
             || (ScoreKey(a.score) == ScoreKey(b.score) && (a.id == b.id || LexLess(a.id, b.id)))
    ensures NoLater(chunks, qvec, a.doc, b.doc)
  {
    hide Cosine, ScoreKey, LexLess;
  }

  /** The picks of a group are its two best chunks, the better one first, or all it has when those are fewer. */
  lemma BestAreTheBest(chunks: seq<Chunk>, labels: seq<string>, qvec: seq<real>, group: string)
    requires |chunks| == |labels|
    ensures var best := Best(chunks, labels, qvec, group);
      && |best| <= 2
      && (forall i | 0 <= i < |best| :: best[i].doc < |chunks| && labels[best[i].doc] == group
            && best[i].score == Cosine(qvec, chunks[best[i].doc].embedding))
      && (|best| == 2 ==> best[0].doc != best[1].doc && NoLater(chunks, qvec, best[0].doc, best[1].doc))
      && forall d | 0 <= d < |chunks| && labels[d] == group && (forall i | 0 <= i < |best| :: best[i].doc != d) ::
           |best| == 2 && NoLater(chunks, qvec, best[0].doc, d) && NoLater(chunks, qvec, best[1].doc, d)
  {
    hide Cosine, Sort, Members, NoLater;
    SortRanksGroup(chunks, labels, qvec, group);
    var ranked := Sort(Members(chunks, labels, qvec, group, |chunks|));
    var best := Best(chunks, labels, qvec, group);
    assert best == if |ranked| <= 2 then ranked else ranked[..2];
    forall d | 0 <= d < |chunks| && labels[d] == group && (forall i | 0 <= i < |best| :: best[i].doc != d)
      ensures |best| == 2 && NoLater(chunks, qvec, best[0].doc, d) && NoLater(chunks, qvec, best[1].doc, d)
    {
      var k :| 0 <= k < |ranked| && ranked[k].doc == d;
      assert k >= |best|;
    }
  }

  lemma {:induction false} MembersOnce(chunks: seq<Chunk>, labels: seq<string>, qvec: seq<real>, group: string, n: nat)
    requires n <= |chunks| == |labels|
    ensures DistinctDocs(Members(chunks, labels, qvec, group, n))
  {
    hide Cosine;
    if n > 0 {
      MembersOnce(chunks, labels, qvec, group, n - 1);
    }
  }

  /** Picks are appended one behind the other, each unless its key is there already. */
  lemma {:induction false} AppendNewPush(results: seq<SearchResult>, chunks: seq<Chunk>, picks: seq<Scored>, p: Scored)
    requires p.doc < |chunks| && forall i | 0 <= i < |picks| :: picks[i].doc < |chunks|
    ensures var r := AppendNew(results, chunks, picks);
      AppendNew(results, chunks, picks + [p]) ==
        if KeyOf(chunks[p.doc]) in Keys(r) then r else r + [Bonus(chunks[p.doc], p.score)]
    decreases |picks|
  {
    hide Keys, Bonus;
    if picks == [] {
      assert picks + [p] == [p] && [p][1..] == [];
      var next := if KeyOf(chunks[p.doc]) in Keys(results) then results else results + [Bonus(chunks[p.doc], p.score)];
      assert AppendNew(next, chunks, []) == next;
    } else {
      var c := chunks[picks[0].doc];
      var next := if KeyOf(c) in Keys(results) then results else results + [Bonus(c, picks[0].score)];
      AppendNewPush(next, chunks, picks[1..], p);
      assert (picks + [p])[1..] == picks[1..] + [p];
    }
  }

  /** Groups are expanded one behind the other. */
  lemma {:induction false} ExpandPush(results: seq<SearchResult>, chunks: seq<Chunk>, labels: seq<string>,
      qvec: seq<real>, groups: seq<string>, g: string)
    requires |chunks| == |labels|
    ensures Expand(results, chunks, labels, qvec, groups + [g])
         == AppendNew(Expand(results, chunks, labels, qvec, groups), chunks, Best(chunks, labels, qvec, g))
    decreases |groups|
  {
    hide Best, AppendNew;
    if groups == [] {
      assert groups + [g] == [g] && [g][1..] == [];
      ExpandNothing(AppendNew(results, chunks, Best(chunks, labels, qvec, g)), chunks, labels, qvec);
    } else {
      var next := AppendNew(results, chunks, Best(chunks, labels, qvec, groups[0]));
      ExpandPush(next, chunks, labels, qvec, groups[1..], g);
      assert (groups + [g])[1..] == groups[1..] + [g];
    }
  }
}
