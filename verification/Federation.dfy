/**
 Federated search of src/federation.rs: the union corpus and union graph over namespaced
 paths, and the cross-member expansion along dependency edges.
 */
module Federation {
  import opened Lexicographic
  import opened Chunks
  import opened ImportGraph
  import opened Discovery
  import opened Expansion

  const GRAPH_MAX_BONUS_MEMBERS := 2

  /** One member of a workspace: its name and its own chunks and import graph. */
  datatype Member = Member(name: string, chunks: seq<Chunk>, graph: Graph)

  // ----- Namespaces -----

  function Namespaced(member: string, rel: string): string {
    member + "/" + rel
  }

  /** The text before the first `/`, or the whole text. */
  function MemberOf(path: string): string {
    if path == "" || path[0] == '/' then "" else [path[0]] + MemberOf(path[1..])
  }

  /** The text behind the first `/`. */
  function RelativeOf(path: string): string {
    if path == "" then "" else if path[0] == '/' then path[1..] else RelativeOf(path[1..])
  }

  /** The namespace of a slash-free member can be stripped again. */
  lemma {:induction false} Denamespace(member: string, rel: string)
    requires '/' !in member
    ensures MemberOf(Namespaced(member, rel)) == member && RelativeOf(Namespaced(member, rel)) == rel
  {
    var p := Namespaced(member, rel);
    if member == "" {
      assert p[1..] == rel;
    } else {
      assert p[1..] == Namespaced(member[1..], rel);
      Denamespace(member[1..], rel);
    }
  }

  lemma NamespacedIsInjective(m: string, r: string, n: string, s: string)
    requires '/' !in m && '/' !in n && Namespaced(m, r) == Namespaced(n, s)
    ensures m == n && r == s
  {
    Denamespace(m, r);
    Denamespace(n, s);
  }

  predicate InNamespace(member: string, path: string) {
    member + "/" <= path
  }

  function Stripped(member: string, path: string): (rel: string)
    requires InNamespace(member, path)
    ensures path == Namespaced(member, rel)
  {
    path[|member| + 1..]
  }

  lemma StripNamespaced(member: string, rel: string)
    ensures InNamespace(member, Namespaced(member, rel)) && Stripped(member, Namespaced(member, rel)) == rel
  {
  }

  function NamespacedAll(member: string, paths: seq<string>): (r: seq<string>)
    ensures |r| == |paths| && forall i | 0 <= i < |r| :: r[i] == Namespaced(member, paths[i])
  {
    seq(|paths|, i requires 0 <= i < |paths| => Namespaced(member, paths[i]))
  }

  // ----- The union -----

  predicate MembersDistinct(members: seq<Member>) {
    && (forall i | 0 <= i < |members| :: '/' !in members[i].name)
    && (forall i, j | 0 <= i < j < |members| :: members[i].name != members[j].name)
  }

  /** `from -> to` is an edge of member `m`, seen from outside. */
  predicate MemberEdge(m: Member, from: string, to: string) {
    && InNamespace(m.name, from) && InNamespace(m.name, to)
    && HasEdge(m.graph, Stripped(m.name, from), Stripped(m.name, to))
  }

  predicate UnionEdge(members: seq<Member>, from: string, to: string) {
    exists k | 0 <= k < |members| :: MemberEdge(members[k], from, to)
  }

  method CombinedGraph(members: seq<Member>) returns (g: Graph)
    ensures Mirrored(g)
    ensures forall a, b :: HasEdge(g, a, b) <==> a != b && UnionEdge(members, a, b)
  {
    var pairs: seq<(string, string)> := [];
    for k := 0 to |members|
      invariant forall a, b :: (a, b) in pairs <==> exists i | 0 <= i < k :: MemberEdge(members[i], a, b)
    {
      var more := MemberPairs(members[k]);
      pairs := pairs + more;
    }
    g := FromPairs(pairs);
  }

  method MemberPairs(m: Member) returns (pairs: seq<(string, string)>)
    ensures forall a, b :: (a, b) in pairs <==> MemberEdge(m, a, b)
  {
    hide HasEdge;
    pairs := [];
    var own := OutPairs(m.graph);
    for i := 0 to |own|
      invariant forall k | 0 <= k < |pairs| :: MemberEdge(m, pairs[k].0, pairs[k].1)
      invariant forall k | 0 <= k < i :: (Namespaced(m.name, own[k].0), Namespaced(m.name, own[k].1)) in pairs
    {
      assert own[i] in own;
      StripNamespaced(m.name, own[i].0);
      StripNamespaced(m.name, own[i].1);
      pairs := pairs + [(Namespaced(m.name, own[i].0), Namespaced(m.name, own[i].1))];
    }
    forall a, b | MemberEdge(m, a, b)
      ensures (a, b) in pairs
    {
      assert (Stripped(m.name, a), Stripped(m.name, b)) in own;
    }
  }

  /** No edge of the union crosses members. */
  lemma NoCrossMemberEdge(members: seq<Member>, g: Graph, a: string, b: string)
    requires MembersDistinct(members)
    requires forall x, y :: HasEdge(g, x, y) <==> x != y && UnionEdge(members, x, y)
    requires HasEdge(g, a, b)
    ensures MemberOf(a) == MemberOf(b) && exists k | 0 <= k < |members| :: members[k].name == MemberOf(a)
  {
    var k :| 0 <= k < |members| && MemberEdge(members[k], a, b);
    Denamespace(members[k].name, Stripped(members[k].name, a));
    Denamespace(members[k].name, Stripped(members[k].name, b));
  }

  /** Edges out of a namespaced file are the member's own. */
  lemma UnionEdgeIsMemberEdge(members: seq<Member>, k: nat, f: string, x: string)
    requires MembersDistinct(members) && k < |members|
    ensures UnionEdge(members, Namespaced(members[k].name, f), x) <==>
      MemberEdge(members[k], Namespaced(members[k].name, f), x)
    ensures UnionEdge(members, x, Namespaced(members[k].name, f)) <==>
      MemberEdge(members[k], x, Namespaced(members[k].name, f))
  {
    hide HasEdge;
    var p := Namespaced(members[k].name, f);
    Denamespace(members[k].name, f);
    forall i | 0 <= i < |members| && (MemberEdge(members[i], p, x) || MemberEdge(members[i], x, p))
      ensures i == k
    {
      NamespacedIsInjective(members[i].name, Stripped(members[i].name, p), members[k].name, f);
      assert !(i < k) && !(k < i);
    }
  }

  /** Around a namespaced file the union holds exactly the member's own neighbours, namespaced. */
  lemma UnionNeighborhood(members: seq<Member>, g: Graph, k: nat, f: string, x: string)
    requires MembersDistinct(members) && k < |members| && Mirrored(members[k].graph) && Mirrored(g)
    requires forall a, b :: HasEdge(g, a, b) <==> a != b && UnionEdge(members, a, b)
    ensures x in Around(g, Namespaced(members[k].name, f)) <==>
      InNamespace(members[k].name, x) && Stripped(members[k].name, x) in Around(members[k].graph, f)
  {
    hide HasEdge, UnionEdge, MembersDistinct;
    var m := members[k];
    var p := Namespaced(m.name, f);
    UnionEdgeIsMemberEdge(members, k, f, x);
    StripNamespaced(m.name, f);
    NeighborsAreMutual(g, p, x);
    if InNamespace(m.name, x) {
      NeighborsAreMutual(m.graph, f, Stripped(m.name, x));
    }
    assert !HasEdge(m.graph, f, f);
  }

  /** ... and lists them in the member's own order. */
  lemma UnionNeighborsAreTheMembers(members: seq<Member>, g: Graph, k: nat, f: string, own: seq<string>,
      all: seq<string>)
    requires MembersDistinct(members) && k < |members| && Mirrored(members[k].graph) && Mirrored(g)
    requires forall a, b :: HasEdge(g, a, b) <==> a != b && UnionEdge(members, a, b)
    requires Lists(own, Around(members[k].graph, f)) && Lists(all, Around(g, Namespaced(members[k].name, f)))
    ensures all == NamespacedAll(members[k].name, own)
  {
    hide HasEdge, UnionEdge, MembersDistinct, Around, Mirrored, LexLess;
    var m := members[k];
    var r := NamespacedAll(m.name, own);
    var around := Around(g, Namespaced(m.name, f));
    forall i, j | 0 <= i < j < |r|
      ensures LexLess(r[i], r[j])
    {
      assert r[i] == (m.name + "/") + own[i] && r[j] == (m.name + "/") + own[j];
      LexCommonPrefix(m.name + "/", own[i], own[j]);
    }
    forall i | 0 <= i < |r|
      ensures r[i] in around
    {
      StripNamespaced(m.name, own[i]);
      UnionNeighborhood(members, g, k, f, r[i]);
    }
    forall x | x in around
      ensures x in r
    {
      UnionNeighborhood(members, g, k, f, x);
      var i :| 0 <= i < |own| && own[i] == Stripped(m.name, x);
      assert r[i] == x;
    }
    ListingIsUnique(r, all, around);
  }

  // ----- The union corpus -----

  /** A member's chunks under their namespaced paths. */
  function NamespacedChunks(m: Member): (r: seq<Chunk>)
    ensures |r| == |m.chunks| && forall i | 0 <= i < |r| ::
      r[i] == m.chunks[i].(file := Namespaced(m.name, m.chunks[i].file))
  {
    seq(|m.chunks|, i requires 0 <= i < |m.chunks| => m.chunks[i].(file := Namespaced(m.name, m.chunks[i].file)))
  }

  function UnionChunks(members: seq<Member>): seq<Chunk> {
    if members == [] then [] else UnionChunks(members[..|members| - 1]) + NamespacedChunks(members[|members| - 1])
  }

  method CombinedChunks(members: seq<Member>) returns (chunks: seq<Chunk>)
    ensures chunks == UnionChunks(members)
  {
    chunks := [];
    for k := 0 to |members|
      invariant chunks == UnionChunks(members[..k])
    {
      assert members[..k + 1][..k] == members[..k];
      for i := 0 to |members[k].chunks|
        invariant chunks == UnionChunks(members[..k]) + NamespacedChunks(members[k])[..i]
      {
        var c := members[k].chunks[i];
        chunks := chunks + [c.(file := Namespaced(members[k].name, c.file))];
      }
    }
    assert members[..|members|] == members;
  }

  /** The member each chunk of the union belongs to. */
  function MembersOf(chunks: seq<Chunk>): (r: seq<string>)
    ensures |r| == |chunks| && forall i | 0 <= i < |r| :: r[i] == MemberOf(chunks[i].file)
  {
    seq(|chunks|, i requires 0 <= i < |chunks| => MemberOf(chunks[i].file))
  }

  // ----- The cross-member expansion -----

  datatype Dependency = Dependency(from: string, to: string)

  function TargetsFrom(edges: seq<Dependency>, from: string): set<string> {
    set i | 0 <= i < |edges| && edges[i].from == from :: edges[i].to
  }

  predicate Represented(results: seq<SearchResult>, member: string) {
    exists i | 0 <= i < |results| :: MemberOf(results[i].chunk.file) == member
  }

  /** The members expanded into: dependency targets of the sources that no result is in, at most two. */
  ghost predicate BonusMembers(targets: seq<string>, edges: seq<Dependency>, sources: seq<string>,
      results: seq<SearchResult>) {
    && |targets| <= 2 && (forall i, j | 0 <= i < j < |targets| :: targets[i] != targets[j])
    && (forall i | 0 <= i < |targets| ::
          !Represented(results, targets[i]) && exists f :: f in sources && targets[i] in TargetsFrom(edges, f))
    && (|targets| < 2 ==>
          forall f, t | f in sources && t in TargetsFrom(edges, f) && !Represented(results, t) :: t in targets)
  }

  /** The targets of each source member. */
  function TargetsOfEach(edges: seq<Dependency>, sources: seq<string>): (r: seq<set<string>>)
    ensures |r| == |sources| && forall k | 0 <= k < |r| :: r[k] == TargetsFrom(edges, sources[k])
  {
    seq(|sources|, k requires 0 <= k < |sources| => TargetsFrom(edges, sources[k]))
  }

  function MemberSet(results: seq<SearchResult>): set<string> {
    set i | 0 <= i < |results| :: MemberOf(results[i].chunk.file)
  }

  /** The members expanded into: the first two discovered behind the sources, in order. */
  ghost function BonusMembersOf(edges: seq<Dependency>, sources: seq<string>, results: seq<SearchResult>): seq<string> {
    Discovered(TargetsOfEach(edges, sources), MemberSet(results), GRAPH_MAX_BONUS_MEMBERS)
  }

  lemma MemberSetRepresents(results: seq<SearchResult>, m: string)
    ensures m in MemberSet(results) <==> Represented(results, m)
  {
  }

  lemma BonusMembersMeaning(edges: seq<Dependency>, sources: seq<string>, results: seq<SearchResult>)
    ensures BonusMembers(BonusMembersOf(edges, sources, results), edges, sources, results)
  {
    hide TargetsFrom, Discovered;
    var targets := BonusMembersOf(edges, sources, results);
    DiscoveredMeaning(TargetsOfEach(edges, sources), MemberSet(results), GRAPH_MAX_BONUS_MEMBERS);
    hide MemberSet, Represented;
    forall i | 0 <= i < |targets|
      ensures !Represented(results, targets[i]) && exists f :: f in sources && targets[i] in TargetsFrom(edges, f)
    {
      MemberSetRepresents(results, targets[i]);
      var k :| 0 <= k < |sources| && targets[i] in TargetsOfEach(edges, sources)[k];
      assert sources[k] in sources;
    }
    forall f, t | f in sources && t in TargetsFrom(edges, f) && !Represented(results, t)
      && |targets| < GRAPH_MAX_BONUS_MEMBERS
      ensures t in targets
    {
      MemberSetRepresents(results, t);
      var k :| 0 <= k < |sources| && sources[k] == f;
      assert t in TargetsOfEach(edges, sources)[k];
    }
  }

  /** The walk over the targets, left at the second one found. */
  method ChooseTargets(edges: seq<Dependency>, sources: seq<string>, results: seq<SearchResult>)
    returns (targets: seq<string>)
    ensures targets == BonusMembersOf(edges, sources, results)
  {
    hide TargetsFrom, Walk, Fresh;
    var represented := MemberSet(results);
    ghost var sets := TargetsOfEach(edges, sources);
    targets := [];
    Expansion.NothingWalked(represented);
    for s := 0 to |sources|
      invariant targets == Fresh(Walk(sets[..s]), represented) && |targets| < GRAPH_MAX_BONUS_MEMBERS
    {
      var reach := Sorted(TargetsFrom(edges, sources[s]));
      ghost var walked := Walk(sets[..s]);
      assert walked + reach[..0] == walked;
      WalkPush(sets[..s], sets[s], reach);
      assert sets[..s + 1] == sets[..s] + [sets[s]];
      for i := 0 to |reach|
        invariant targets == Fresh(walked + reach[..i], represented) && |targets| < GRAPH_MAX_BONUS_MEMBERS
      {
        FreshPush(walked + reach[..i], reach[i], represented);
        assert walked + reach[..i] + [reach[i]] == walked + reach[..i + 1];
        if reach[i] !in represented && reach[i] !in targets {
          targets := targets + [reach[i]];
          if |targets| >= GRAPH_MAX_BONUS_MEMBERS {
            assert walked + reach == walked + reach[..i + 1] + reach[i + 1..];
            FullAt(sets, represented, GRAPH_MAX_BONUS_MEMBERS, s + 1, walked + reach[..i + 1], reach[i + 1..]);
            return;
          }
        }
      }
      assert reach[..|reach|] == reach;
    }
    assert sets[..|sources|] == sets;
  }

  /** The distinct members of the first three results, in order. */
  function TopMembers(results: seq<SearchResult>, n: nat): (r: seq<string>)
    requires n <= |results|
    ensures forall m :: m in r <==> exists i | 0 <= i < n && i < 3 :: MemberOf(results[i].chunk.file) == m
  {
    if n == 0 then []
    else
      var r := TopMembers(results, n - 1);
      var m := MemberOf(results[n - 1].chunk.file);
      if n > 3 || m in r then r else r + [m]
  }

  method CrossMemberExpand(chunks: seq<Chunk>, edges: seq<Dependency>, qvec: seq<real>, sources: seq<string>,
      start: seq<SearchResult>)
    returns (results: seq<SearchResult>)
    ensures results == Expand(start, chunks, MembersOf(chunks), qvec, BonusMembersOf(edges, sources, start))
  {
    var targets := ChooseTargets(edges, sources, start);
    results := ExpandLoop(start, chunks, MembersOf(chunks), qvec, targets);
  }

  /** The cross-member expansion keeps a ranking's cap per file, and appends at most four results. */
  lemma CrossMemberKeepsCap(chunks: seq<Chunk>, edges: seq<Dependency>, qvec: seq<real>, sources: seq<string>,
                            results: seq<SearchResult>, targets: seq<string>, cap: nat, file: string)
    requires BonusMembers(targets, edges, sources, results) && cap >= CHUNKS_PER_GROUP
      && Expansion.InFile(results, file) <= cap
    ensures Expansion.InFile(Expand(results, chunks, MembersOf(chunks), qvec, targets), file) <= cap
    ensures |Expand(results, chunks, MembersOf(chunks), qvec, targets)| <= |results| + 4
  {
    hide Expand, Expansion.InFile, TargetsFrom;
    var labels := MembersOf(chunks);
    forall i | 0 <= i < |results|
      ensures !FileInGroups(chunks, labels, results[i].chunk.file, targets)
    {
      assert Represented(results, MemberOf(results[i].chunk.file));
    }
    ExpansionKeepsCap(results, chunks, labels, qvec, targets, cap, file);
    ExpandOnlyAppendsBonuses(results, chunks, labels, qvec, targets);
  }

  /**
   A federated search over core results: both expansions together append at most eight
   results, keep the cap of three per file, repeat no key, and leave the core ranking first.
   */
  lemma FederatedExpansions(g: Graph, chunks: seq<Chunk>, edges: seq<Dependency>, qvec: seq<real>,
      core: seq<SearchResult>, files: seq<string>, sources: seq<string>, targets: seq<string>)
    requires forall f :: Expansion.InFile(core, f) <= 3
    requires BonusFiles(files, g, core)
    requires var mid := Expand(core, chunks, FilesOf(chunks), qvec, files); BonusMembers(targets, edges, sources, mid)
    ensures var mid := Expand(core, chunks, FilesOf(chunks), qvec, files);
      var final := Expand(mid, chunks, MembersOf(chunks), qvec, targets);
      && OnlyAppends(core, final) && |final| <= |core| + 8 && forall f :: Expansion.InFile(final, f) <= 3
  {
    hide Expand, Expansion.InFile, TargetsFrom, BonusFiles, BonusMembers;
    var mid := Expand(core, chunks, FilesOf(chunks), qvec, files);
    var final := Expand(mid, chunks, MembersOf(chunks), qvec, targets);
    forall f
      ensures Expansion.InFile(final, f) <= 3 && |final| <= |core| + 8
    {
      GraphExpansionKeepsCap(g, chunks, qvec, core, files, 3, f);
      CrossMemberKeepsCap(chunks, edges, qvec, sources, mid, targets, 3, f);
    }
    GraphExpansionKeepsCap(g, chunks, qvec, core, files, 3, "");
    CrossMemberKeepsCap(chunks, edges, qvec, sources, mid, targets, 3, "");
    ExpandOnlyAppendsBonuses(core, chunks, FilesOf(chunks), qvec, files);
    ExpandOnlyAppendsBonuses(mid, chunks, MembersOf(chunks), qvec, targets);
    OnlyAppendsIsTransitive(core, mid, final);
  }

  /** The targets of a member are the ends of its dependency edges. */
  lemma TargetsFromIs(edges: seq<Dependency>, from: string, to: string)
    ensures to in TargetsFrom(edges, from) <==> Dependency(from, to) in edges
  {
  }

  /** An edge of a member is an edge between its files, under their namespaced paths. */
  lemma MemberEdgeIs(m: Member, from: string, to: string)
    ensures MemberEdge(m, m.name + "/" + from, m.name + "/" + to) <==> HasEdge(m.graph, from, to)
  {
    hide HasEdge;
    StripNamespaced(m.name, from);
    StripNamespaced(m.name, to);
  }
}
