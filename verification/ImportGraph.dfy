/**
 The import graph of src/graph_store.rs: directed edges recorded in both directions, and
 neighbours listed in text order. Ordered maps and sets are maps and sets whose listing is
 the sorted one.
 */
module ImportGraph {
  import opened AsciiText
  import opened Options
  import opened Lexicographic

  // ----- Sorted listings -----

  /** `r` lists `s` in text order, each text once: what iterating an ordered set yields. */
  predicate Lists(r: seq<string>, s: set<string>) {
    && (forall i, j | 0 <= i < j < |r| :: LexLess(r[i], r[j]))
    && (forall i | 0 <= i < |r| :: r[i] in s) && (forall x | x in s :: x in r)
  }

  lemma ListingHead(a: seq<string>, s: set<string>, x: string)
    requires Lists(a, s) && x in s
    ensures a != [] && (x == a[0] || LexLess(a[0], x))
  {
    var i :| 0 <= i < |a| && a[i] == x;
  }

  lemma ListingTail(a: seq<string>, s: set<string>)
    requires Lists(a, s) && a != []
    ensures Lists(a[1..], s - {a[0]})
  {
    LexTrichotomy(a[0], a[0]);
    forall i | 0 <= i < |a[1..]|
      ensures a[1..][i] in s - {a[0]}
    {
      assert LexLess(a[0], a[i + 1]);
    }
  }

  lemma {:induction false} ListingIsUnique(a: seq<string>, b: seq<string>, s: set<string>)
    requires Lists(a, s) && Lists(b, s)
    ensures a == b
  {
    if a == [] {
      assert s == {};
      assert b == [];
    } else {
      ListingHead(b, s, a[0]);
      ListingHead(a, s, b[0]);
      LexTrichotomy(a[0], b[0]);
      ListingTail(a, s);
      ListingTail(b, s);
      ListingIsUnique(a[1..], b[1..], s - {a[0]});
      assert a == [a[0]] + a[1..] && b == [b[0]] + b[1..];
    }
  }

  /** The least text of a set. */
  method Least(s: set<string>) returns (m: string)
    requires s != {}
    ensures m in s && forall x | x in s :: x == m || LexLess(m, x)
  {
    m :| m in s;
    var left := s - {m};
    while left != {}
      invariant left <= s && m in s
      invariant forall x | x in s && x !in left :: x == m || LexLess(m, x)
      decreases left
    {
      var y :| y in left;
      left := left - {y};
      LexTrichotomy(m, y);
      if LexLess(y, m) {
        forall x | x in s && x !in left
          ensures x == y || LexLess(y, x)
        {
          if x != y && x != m {
            LexTransitive(y, m, x);
          }
        }
        m := y;
      }
    }
  }

  method Sorted(s: set<string>) returns (r: seq<string>)
    ensures Lists(r, s)
  {
    r := [];
    var left := s;
    while left != {}
      invariant left <= s && Lists(r, s - left)
      invariant forall x, y | x in s - left && y in left :: LexLess(x, y)
      decreases left
    {
      var m := Least(left);
      r := r + [m];
      left := left - {m};
    }
  }

  // ----- The graph -----

  datatype Graph = Graph(outEdges: map<string, set<string>>, inEdges: map<string, set<string>>)

  function Ends(m: map<string, set<string>>, x: string): set<string> {
    if x in m then m[x] else {}
  }

  predicate HasEdge(g: Graph, from: string, to: string) {
    to in Ends(g.outEdges, from)
  }

  predicate HasBackEdge(g: Graph, from: string, to: string) {
    from in Ends(g.inEdges, to)
  }

  /** The two directions mirror each other, and no file is its own neighbour. */
  ghost predicate Mirrored(g: Graph) {
    && (forall a, b :: HasEdge(g, a, b) <==> HasBackEdge(g, a, b))
    && (forall a :: !HasEdge(g, a, a))
  }

  const EMPTY := Graph(map[], map[])

  /** Both entries of one edge. */
  function Insert(g: Graph, from: string, to: string): (r: Graph)
    ensures forall a, b :: HasEdge(r, a, b) <==> HasEdge(g, a, b) || (a == from && b == to)
    ensures forall a, b :: HasBackEdge(r, a, b) <==> HasBackEdge(g, a, b) || (a == from && b == to)
    ensures Mirrored(g) && from != to ==> Mirrored(r)
  {
    Graph(g.outEdges[from := Ends(g.outEdges, from) + {to}], g.inEdges[to := Ends(g.inEdges, to) + {from}])
  }

  /** The last `/`-separated part of a path. */
  function FileName(path: string): string {
    if path == "" then ""
    else if path[|path| - 1] == '/' then ""
    else FileName(path[..|path| - 1]) + [path[|path| - 1]]
  }

  /** A file name without its last extension. */
  function Stem(name: string): string {
    match LastDot(name, |name|)
    case None => name
    case Some(i) => name[..i]
  }

  function LastDot(name: string, n: nat): (r: Option<nat>)
    requires n <= |name|
    ensures r.Some? ==> r.value < n
  {
    if n == 0 then None else if name[n - 1] == '.' then Some(n - 1) else LastDot(name, n - 1)
  }

  function FirstByStem(module_: string, files: seq<string>): Option<string> {
    if files == [] then None
    else if Stem(FileName(files[0])) == module_ then Some(files[0])
    else FirstByStem(module_, files[1..])
  }

  function FirstBySuffix(module_: string, files: seq<string>): Option<string> {
    if files == [] then None
    else if EndsWith(files[0], module_ + ".py") || EndsWith(files[0], module_ + ".js") then Some(files[0])
    else FirstBySuffix(module_, files[1..])
  }

  function ResolveModule(module_: string, files: seq<string>): Option<string> {
    match FirstByStem(module_, files)
    case Some(f) => Some(f)
    case None => FirstBySuffix(module_, files)
  }

  /** One of the imports of `from` among the first `n` resolves to another file `to`. */
  predicate Imports(modules: seq<string>, files: seq<string>, from: string, to: string, n: nat)
    requires n <= |modules|
  {
    from != to && exists i | 0 <= i < n :: ResolveModule(modules[i], files) == Some(to)
  }

  method Build(fileImports: map<string, seq<string>>, files: seq<string>) returns (g: Graph)
    ensures Mirrored(g)
    ensures forall a, b :: HasEdge(g, a, b) <==>
      a in fileImports && Imports(fileImports[a], files, a, b, |fileImports[a]|)
    ensures forall a :: !HasEdge(g, a, a)
  {
    g := EMPTY;
    var left := fileImports.Keys;
    while left != {}
      invariant left <= fileImports.Keys && Mirrored(g)
      invariant forall a, b :: HasEdge(g, a, b) <==>
        a in fileImports.Keys - left && Imports(fileImports[a], files, a, b, |fileImports[a]|)
      decreases left
    {
      var file :| file in left;
      left := left - {file};
      g := AddImports(g, file, fileImports[file], files);
    }
  }

  method AddImports(before: Graph, file: string, modules: seq<string>, files: seq<string>) returns (g: Graph)
    requires Mirrored(before)
    ensures Mirrored(g)
    ensures forall a, b :: HasEdge(g, a, b) <==>
      HasEdge(before, a, b) || (a == file && Imports(modules, files, file, b, |modules|))
  {
    hide ResolveModule;
    g := before;
    for i := 0 to |modules|
      invariant Mirrored(g)
      invariant forall a, b :: HasEdge(g, a, b) <==>
        HasEdge(before, a, b) || (a == file && Imports(modules, files, file, b, i))
    {
      var target := ResolveModule(modules[i], files);
      if target.Some? && target.value != file {
        g := Insert(g, file, target.value);
      }
    }
  }

  method FromPairs(pairs: seq<(string, string)>) returns (g: Graph)
    ensures Mirrored(g)
    ensures forall a, b :: HasEdge(g, a, b) <==> a != b && (a, b) in pairs
  {
    g := EMPTY;
    for i := 0 to |pairs|
      invariant Mirrored(g)
      invariant forall a, b :: HasEdge(g, a, b) <==> a != b && (a, b) in pairs[..i]
    {
      if pairs[i].0 != pairs[i].1 {
        g := Insert(g, pairs[i].0, pairs[i].1);
      }
    }
  }

  /** Pairs by source and then target, in text order, each once. */
  predicate PairsSorted(pairs: seq<(string, string)>) {
    forall i, j | 0 <= i < j < |pairs| ::
      LexLess(pairs[i].0, pairs[j].0) || (pairs[i].0 == pairs[j].0 && LexLess(pairs[i].1, pairs[j].1))
  }

  method OutPairs(g: Graph) returns (pairs: seq<(string, string)>)
    ensures forall a, b :: (a, b) in pairs <==> HasEdge(g, a, b)
    ensures PairsSorted(pairs)
  {
    pairs := [];
    var froms := Sorted(g.outEdges.Keys);
    for i := 0 to |froms|
      invariant forall a, b :: (a, b) in pairs <==> HasEdge(g, a, b) && a in froms[..i]
      invariant PairsSorted(pairs) && forall p | 0 <= p < |pairs| :: pairs[p].0 in froms[..i]
    {
      var tos := Sorted(g.outEdges[froms[i]]);
      ghost var before := pairs;
      for j := 0 to |tos|
        invariant forall a, b :: (a, b) in pairs <==> (a, b) in before || (a == froms[i] && b in tos[..j])
        invariant PairsSorted(pairs)
        invariant forall p | 0 <= p < |pairs| ::
          pairs[p].0 in froms[..i] || (pairs[p].0 == froms[i] && pairs[p].1 in tos[..j])
      {
        pairs := pairs + [(froms[i], tos[j])];
      }
      assert froms[..i + 1] == froms[..i] + [froms[i]];
    }
  }

  /** Successors and predecessors. */
  function Around(g: Graph, file: string): set<string> {
    Ends(g.outEdges, file) + Ends(g.inEdges, file)
  }

  method Neighbors(g: Graph, file: string) returns (r: seq<string>)
    ensures Lists(r, Around(g, file))
  {
    r := Sorted(Ends(g.outEdges, file) + Ends(g.inEdges, file));
  }

  /** Being neighbours is mutual. */
  lemma NeighborsAreMutual(g: Graph, a: string, b: string)
    requires Mirrored(g)
    ensures b in Around(g, a) <==> a in Around(g, b)
    ensures b in Around(g, a) <==> HasEdge(g, a, b) || HasEdge(g, b, a)
  {
    assert HasBackEdge(g, b, a) <==> HasEdge(g, b, a);
    assert HasBackEdge(g, a, b) <==> HasEdge(g, a, b);
  }

  // ----- What a module resolves to -----

  /** The file name is what stands behind the last slash. */
  lemma {:induction false} FileNameIs(dir: string, name: string)
    requires '/' !in name
    ensures FileName(dir + "/" + name) == name && FileName(name) == name
  {
    if name == "" {
      assert dir + "/" + name == dir + "/";
    } else {
      var init := name[..|name| - 1];
      FileNameIs(dir, init);
      assert (dir + "/" + name)[..|dir + "/" + name| - 1] == dir + "/" + init;
      assert name[|name| - 1] in name;
    }
  }

  /** The stem is what stands before the last dot, or all where there is none. */
  lemma StemIs(base: string, extension: string)
    requires '.' !in extension
    ensures Stem(base + "." + extension) == base && Stem(extension) == extension
  {
    var name := base + "." + extension;
    LastDotIs(name, |base|, |name|);
    NoDot(extension, |extension|);
    assert name[..|base|] == base;
  }

  lemma {:induction false} LastDotIs(name: string, i: nat, n: nat)
    requires i < n <= |name| && name[i] == '.' && forall k | i < k < n :: name[k] != '.'
    ensures LastDot(name, n) == Some(i)
  {
    if i < n - 1 {
      LastDotIs(name, i, n - 1);
    }
  }

  lemma {:induction false} NoDot(name: string, n: nat)
    requires n <= |name| && '.' !in name
    ensures LastDot(name, n) == None
  {
    if n > 0 {
      NoDot(name, n - 1);
    }
  }

  /** The text ends in the module's name and one of the two extensions. */
  ghost predicate EndsAsModule(file: string, module_: string) {
    exists dir :: file == dir + module_ + ".py" || file == dir + module_ + ".js"
  }

  lemma EndsAsModuleIs(file: string, module_: string)
    ensures EndsWith(file, module_ + ".py") || EndsWith(file, module_ + ".js") <==> EndsAsModule(file, module_)
  {
    if EndsWith(file, module_ + ".py") || EndsWith(file, module_ + ".js") {
      var dir := file[..|file| - |module_| - 3];
      assert file == dir + module_ + ".py" || file == dir + module_ + ".js";
    }
    if dir :| file == dir + module_ + ".py" || file == dir + module_ + ".js" {
      assert dir + module_ + ".py" == dir + (module_ + ".py") && dir + module_ + ".js" == dir + (module_ + ".js");
    }
  }

  /** The first file whose stem is the module, or else the first that ends as the module's file would. */
  lemma ResolvesTo(module_: string, files: seq<string>, i: nat)
    requires i < |files|
    requires
      || (Stem(FileName(files[i])) == module_ && forall k | 0 <= k < i :: Stem(FileName(files[k])) != module_)
      || ((forall k | 0 <= k < |files| :: Stem(FileName(files[k])) != module_)
          && EndsAsModule(files[i], module_) && forall k | 0 <= k < i :: !EndsAsModule(files[k], module_))
    ensures ResolveModule(module_, files) == Some(files[i])
  {
    hide Stem, FileName, EndsWith, EndsAsModule;
    FirstStemIs(module_, files, i);
    forall k | 0 <= k <= i
      ensures EndsAsModule(files[k], module_) <==>
        EndsWith(files[k], module_ + ".py") || EndsWith(files[k], module_ + ".js")
    {
      EndsAsModuleIs(files[k], module_);
    }
    if EndsAsModule(files[i], module_) && forall k | 0 <= k < i :: !EndsAsModule(files[k], module_) {
      FirstSuffixIs(module_, files, i);
    }
  }

  /** A module that is no file's stem and ends no file resolves to nothing. */
  lemma ResolvesToNothing(module_: string, files: seq<string>)
    requires forall k | 0 <= k < |files| :: Stem(FileName(files[k])) != module_ && !EndsAsModule(files[k], module_)
    ensures ResolveModule(module_, files) == None
  {
    hide Stem, FileName, EndsWith, EndsAsModule;
    if files != [] {
      FirstStemIs(module_, files, 0);
    }
    NoSuffix(module_, files);
  }

  lemma {:induction false} NoSuffix(module_: string, files: seq<string>)
    requires forall k | 0 <= k < |files| :: !EndsAsModule(files[k], module_)
    ensures FirstBySuffix(module_, files) == None
  {
    hide EndsWith, EndsAsModule;
    if files != [] {
      EndsAsModuleIs(files[0], module_);
      NoSuffix(module_, files[1..]);
    }
  }

  lemma {:induction false} FirstStemIs(module_: string, files: seq<string>, i: nat)
    requires i < |files|
    ensures Stem(FileName(files[i])) == module_ && (forall k | 0 <= k < i :: Stem(FileName(files[k])) != module_) ==>
      FirstByStem(module_, files) == Some(files[i])
    ensures (forall k | 0 <= k < |files| :: Stem(FileName(files[k])) != module_) ==> FirstByStem(module_, files) == None
  {
    hide Stem, FileName;
    if i > 0 {
      FirstStemIs(module_, files[1..], i - 1);
    } else if |files| > 1 {
      FirstStemIs(module_, files[1..], 0);
    }
  }

  lemma {:induction false} FirstSuffixIs(module_: string, files: seq<string>, i: nat)
    requires i < |files| && (EndsWith(files[i], module_ + ".py") || EndsWith(files[i], module_ + ".js"))
    requires forall k | 0 <= k < i :: !EndsWith(files[k], module_ + ".py") && !EndsWith(files[k], module_ + ".js")
    ensures FirstBySuffix(module_, files) == Some(files[i])
  {
    hide EndsWith;
    if i > 0 {
      FirstSuffixIs(module_, files[1..], i - 1);
    }
  }
}
