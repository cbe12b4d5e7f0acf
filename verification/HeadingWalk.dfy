/**
 The tree-cursor walks of src/markdown.rs: an iterative pre-order over a parse tree that
 replaces a recursion. The tree is a rose tree, the cursor a focus with its path of
 ancestors; how a node's source text reads is a parameter.
 */
module HeadingWalk {
  import opened Options

  datatype Tree = Node(kind: string, start: nat, row: nat, children: seq<Tree>)

  datatype Heading = Heading(level: nat, start: nat, line: nat, text: string)

  // ----- The recursive walk -----

  predicate IsHeading(t: Tree) {
    t.kind == "atx_heading" || t.kind == "setext_heading"
  }

  function MarkerLevel(kind: string): nat {
    if kind == "atx_h1_marker" || kind == "setext_h1_underline" then 1
    else if kind == "atx_h2_marker" || kind == "setext_h2_underline" then 2
    else if kind == "atx_h3_marker" then 3
    else if kind == "atx_h4_marker" then 4
    else if kind == "atx_h5_marker" then 5
    else if kind == "atx_h6_marker" then 6
    else 0
  }

  /** The level given by the first marker among the children, or 0. */
  function HeadingLevel(children: seq<Tree>): nat {
    if children == [] then 0
    else if MarkerLevel(children[0].kind) > 0 then MarkerLevel(children[0].kind)
    else HeadingLevel(children[1..])
  }

  /** The first `inline` node in pre-order. */
  function FirstInline(t: Tree): Option<Tree>
    decreases t
  {
    if t.kind == "inline" then Some(t) else FirstInlineOf(t.children)
  }

  function FirstInlineOf(ts: seq<Tree>): Option<Tree>
    decreases ts
  {
    if ts == [] then None
    else match FirstInline(ts[0])
      case Some(n) => Some(n)
      case None => FirstInlineOf(ts[1..])
  }

  function TextOf(t: Tree, read: Tree -> string): string {
    match FirstInline(t)
    case Some(n) => read(n)
    case None => ""
  }

  /** What a heading node contributes: nothing without a marker. */
  function HeadingAt(t: Tree, read: Tree -> string): seq<Heading> {
    var level := HeadingLevel(t.children);
    if level > 0 then [Heading(level, t.start, t.row + 1, TextOf(t, read))] else []
  }

  /** The headings in pre-order, heading subtrees not entered. */
  function Headings(t: Tree, read: Tree -> string): seq<Heading>
    decreases t
  {
    if IsHeading(t) then HeadingAt(t, read) else HeadingsOf(t.children, read)
  }

  function HeadingsOf(ts: seq<Tree>, read: Tree -> string): seq<Heading>
    decreases ts
  {
    if ts == [] then [] else Headings(ts[0], read) + HeadingsOf(ts[1..], read)
  }

  function Size(t: Tree): nat
    decreases t
  {
    1 + SizeOf(t.children)
  }

  function SizeOf(ts: seq<Tree>): nat
    decreases ts
  {
    if ts == [] then 0 else Size(ts[0]) + SizeOf(ts[1..])
  }

  // ----- The cursor -----

  /** An ancestor of the focus, and which of its children the path goes through. */
  datatype Crumb = Crumb(parent: Tree, index: nat)

  /** The siblings behind a crumb's child. */
  function Behind(c: Crumb): seq<Tree> {
    if c.index < |c.parent.children| then c.parent.children[c.index + 1..] else []
  }

  predicate IsPath(focus: Tree, path: seq<Crumb>)
    decreases |path|
  {
    path == [] || var c := path[|path| - 1];
      c.index < |c.parent.children| && c.parent.children[c.index] == focus && IsPath(c.parent, path[..|path| - 1])
  }

  /** The headings, and the number of nodes, behind the focus' subtree. */
  function HeadingsBehind(path: seq<Crumb>, read: Tree -> string): seq<Heading> {
    if path == [] then []
    else HeadingsOf(Behind(path[|path| - 1]), read) + HeadingsBehind(path[..|path| - 1], read)
  }

  function NodesBehind(path: seq<Crumb>): nat {
    if path == [] then 0 else SizeOf(Behind(path[|path| - 1])) + NodesBehind(path[..|path| - 1])
  }

  /** The first `inline` node behind the focus' subtree. */
  function InlineBehind(path: seq<Crumb>): Option<Tree> {
    if path == [] then None
    else match FirstInlineOf(Behind(path[|path| - 1]))
      case Some(n) => Some(n)
      case None => InlineBehind(path[..|path| - 1])
  }

  class TreeCursor {
    var focus: Tree
    var path: seq<Crumb>

    predicate Valid()
      reads this
    {
      IsPath(focus, path)
    }

    constructor (root: Tree)
      ensures Valid() && focus == root && path == []
    {
      focus, path := root, [];
    }

    method GotoFirstChild() returns (moved: bool)
      requires Valid()
      modifies this
      ensures Valid() && (moved <==> old(focus).children != [])
      ensures moved ==> focus == old(focus).children[0] && path == old(path) + [Crumb(old(focus), 0)]
      ensures !moved ==> focus == old(focus) && path == old(path)
    {
      moved := focus.children != [];
      if moved {
        path, focus := path + [Crumb(focus, 0)], focus.children[0];
        assert path[..|path| - 1] == old(path);
      }
    }

    method GotoNextSibling() returns (moved: bool)
      requires Valid()
      modifies this
      ensures Valid() && (moved <==> old(path) != [] && Behind(old(path)[|old(path)| - 1]) != [])
      ensures moved ==> var c := old(path)[|old(path)| - 1];
        focus == Behind(c)[0] && path == old(path)[..|old(path)| - 1] + [Crumb(c.parent, c.index + 1)]
      ensures !moved ==> focus == old(focus) && path == old(path)
    {
      moved := path != [] && path[|path| - 1].index + 1 < |path[|path| - 1].parent.children|;
      if moved {
        var c := path[|path| - 1];
        path, focus := path[..|path| - 1] + [Crumb(c.parent, c.index + 1)], c.parent.children[c.index + 1];
        assert path[..|path| - 1] == old(path)[..|path| - 1];
      }
    }

    method GotoParent() returns (moved: bool)
      requires Valid()
      modifies this
      ensures Valid() && (moved <==> old(path) != [])
      ensures moved ==> focus == old(path)[|old(path)| - 1].parent && path == old(path)[..|old(path)| - 1]
      ensures !moved ==> focus == old(focus) && path == old(path)
    {
      moved := path != [];
      if moved {
        focus, path := path[|path| - 1].parent, path[..|path| - 1];
      }
    }
  }

  // ----- The iterative walks -----

  lemma AfterDescent(focus: Tree, path: seq<Crumb>, read: Tree -> string)
    requires focus.children != []
    ensures var deeper := path + [Crumb(focus, 0)];
      && Headings(focus.children[0], read) + HeadingsBehind(deeper, read) ==
        HeadingsOf(focus.children, read) + HeadingsBehind(path, read)
      && FirstOf(FirstInline(focus.children[0]), InlineBehind(deeper)) ==
        FirstOf(FirstInlineOf(focus.children), InlineBehind(path))
      && Size(focus.children[0]) + NodesBehind(deeper) < Size(focus) + NodesBehind(path)
  {
    var deeper := path + [Crumb(focus, 0)];
    assert deeper[..|deeper| - 1] == path;
    assert Behind(deeper[|deeper| - 1]) == focus.children[1..];
  }

  lemma AfterSibling(path: seq<Crumb>, read: Tree -> string)
    requires path != [] && Behind(path[|path| - 1]) != []
    ensures var c := path[|path| - 1]; var next := path[..|path| - 1] + [Crumb(c.parent, c.index + 1)];
      && Headings(Behind(c)[0], read) + HeadingsBehind(next, read) == HeadingsBehind(path, read)
      && FirstOf(FirstInline(Behind(c)[0]), InlineBehind(next)) == InlineBehind(path)
      && Size(Behind(c)[0]) + NodesBehind(next) == NodesBehind(path)
  {
    var c := path[|path| - 1];
    var next := path[..|path| - 1] + [Crumb(c.parent, c.index + 1)];
    assert next[..|next| - 1] == path[..|path| - 1];
    assert Behind(next[|next| - 1]) == Behind(c)[1..];
  }

  lemma AfterParent(path: seq<Crumb>, read: Tree -> string)
    requires path != [] && Behind(path[|path| - 1]) == []
    ensures HeadingsBehind(path[..|path| - 1], read) == HeadingsBehind(path, read)
    ensures NodesBehind(path[..|path| - 1]) == NodesBehind(path)
    ensures InlineBehind(path[..|path| - 1]) == InlineBehind(path)
  {
  }

  function FirstOf(a: Option<Tree>, b: Option<Tree>): Option<Tree> {
    if a.Some? then a else b
  }

  /** The inner loop of both walks: on to the next sibling, climbing until there is one. */
  method MoveOn(cursor: TreeCursor, ghost read: Tree -> string) returns (moved: bool)
    requires cursor.Valid()
    modifies cursor
    ensures cursor.Valid()
    ensures moved ==>
      && Headings(cursor.focus, read) + HeadingsBehind(cursor.path, read) == HeadingsBehind(old(cursor.path), read)
      && FirstOf(FirstInline(cursor.focus), InlineBehind(cursor.path)) == InlineBehind(old(cursor.path))
      && Size(cursor.focus) + NodesBehind(cursor.path) == NodesBehind(old(cursor.path))
    ensures !moved ==> HeadingsBehind(old(cursor.path), read) == [] && InlineBehind(old(cursor.path)) == None
  {
    hide Headings, HeadingsBehind, NodesBehind, InlineBehind, FirstInline, Size;
    while true
      invariant cursor.Valid()
      invariant HeadingsBehind(cursor.path, read) == HeadingsBehind(old(cursor.path), read)
      invariant InlineBehind(cursor.path) == InlineBehind(old(cursor.path))
      invariant NodesBehind(cursor.path) == NodesBehind(old(cursor.path))
      decreases |cursor.path|
    {
      ghost var here := cursor.path;
      moved := cursor.GotoNextSibling();
      if moved {
        AfterSibling(here, read);
        return;
      }
      var up := cursor.GotoParent();
      if !up {
        NothingBehindRoot(read);
        return;
      }
      AfterParent(here, read);
    }
  }

  lemma NothingBehindRoot(read: Tree -> string)
    ensures HeadingsBehind([], read) == [] && InlineBehind([]) == None && NodesBehind([]) == 0
  {
  }

  /** Collects a node; says whether to descend into it. */
  method Visit(node: Tree, read: Tree -> string, before: seq<Heading>) returns (headings: seq<Heading>, descend: bool)
    ensures descend <==> !IsHeading(node)
    ensures headings == before + if descend then [] else HeadingAt(node, read)
  {
    headings, descend := before, true;
    if IsHeading(node) {
      var level := HeadingLevel(node.children);
      if level > 0 {
        var text := HeadingText(node, read);
        headings := headings + [Heading(level, node.start, node.row + 1, text)];
      }
      descend := false;
    }
  }

  /** What is collected, and what the cursor has left, are the headings of the tree. */
  predicate Collected(root: Tree, read: Tree -> string, headings: seq<Heading>, focus: Tree, path: seq<Crumb>) {
    headings + (Headings(focus, read) + HeadingsBehind(path, read)) == Headings(root, read)
  }

  lemma CollectedBelow(root: Tree, read: Tree -> string, headings: seq<Heading>, node: Tree, path: seq<Crumb>)
    requires Collected(root, read, headings, node, path) && !IsHeading(node) && node.children != []
    ensures Collected(root, read, headings, node.children[0], path + [Crumb(node, 0)])
    ensures Size(node.children[0]) + NodesBehind(path + [Crumb(node, 0)]) < Size(node) + NodesBehind(path)
  {
    hide Headings, HeadingsBehind, NodesBehind, InlineBehind, FirstInline, HeadingsOf, FirstOf, Size;
    HeadingsUnfold(node, read);
    AfterDescent(node, path, read);
  }

  lemma CollectedHere(root: Tree, read: Tree -> string, before: seq<Heading>, headings: seq<Heading>, node: Tree,
                      path: seq<Crumb>)
    requires Collected(root, read, before, node, path) && (IsHeading(node) || node.children == [])
    requires headings == before + if IsHeading(node) then HeadingAt(node, read) else []
    ensures headings + HeadingsBehind(path, read) == Headings(root, read)
  {
    hide Headings, HeadingsBehind, HeadingAt, HeadingsOf, Size;
    HeadingsUnfold(node, read);
  }

  /** The walk of `collect_headings`, before its final sort: the headings of the recursive pre-order. */
  method WalkHeadings(root: Tree, read: Tree -> string) returns (headings: seq<Heading>)
    ensures headings == Headings(root, read)
  {
    hide Headings, HeadingsBehind, NodesBehind, InlineBehind, FirstInline, HeadingAt, HeadingsOf, FirstOf, Size;
    headings := [];
    var cursor := new TreeCursor(root);
    NothingBehindRoot(read);
    while true
      invariant fresh(cursor) && cursor.Valid()
      invariant Collected(root, read, headings, cursor.focus, cursor.path)
      decreases Size(cursor.focus) + NodesBehind(cursor.path)
    {
      var node := cursor.focus;
      ghost var before, path := headings, cursor.path;
      NonEmptyTree(node);
      var descend;
      headings, descend := Visit(node, read, headings);
      if descend {
        var down := cursor.GotoFirstChild();
        if down {
          CollectedBelow(root, read, headings, node, path);
          continue;
        }
      }
      CollectedHere(root, read, before, headings, node, path);
      var moved := MoveOn(cursor, read);
      if !moved {
        break;
      }
    }
  }

  lemma NonEmptyTree(node: Tree)
    ensures Size(node) > 0
  {
  }

  lemma HeadingsUnfold(node: Tree, read: Tree -> string)
    ensures Headings(node, read) == if IsHeading(node) then HeadingAt(node, read) else HeadingsOf(node.children, read)
    ensures node.children == [] ==> HeadingsOf(node.children, read) == []
  {
  }

  /** The text of a heading: that of the first `inline` node in pre-order. */
  method HeadingText(root: Tree, read: Tree -> string) returns (text: string)
    ensures text == TextOf(root, read)
  {
    hide Headings, HeadingsBehind, NodesBehind, InlineBehind;
    var cursor := new TreeCursor(root);
    NothingBehindRoot(read);
    while true
      invariant fresh(cursor) && cursor.Valid()
      invariant FirstInline(root) == FirstOf(FirstInline(cursor.focus), InlineBehind(cursor.path))
      decreases Size(cursor.focus) + NodesBehind(cursor.path)
    {
      var node := cursor.focus;
      if node.kind == "inline" {
        return read(node);
      }
      ghost var path := cursor.path;
      var down := cursor.GotoFirstChild();
      if down {
        AfterDescent(node, path, read);
        continue;
      }
      var moved := MoveOn(cursor, read);
      if !moved {
        return "";
      }
    }
  }

  // ----- Source order -----

  /** Puts a heading ahead of those that start later. */
  function InsertByStart(h: Heading, hs: seq<Heading>): seq<Heading> {
    if hs == [] || h.start <= hs[0].start then [h] + hs else [hs[0]] + InsertByStart(h, hs[1..])
  }

  /** The stable sort by start byte that ends `collect_headings`. */
  function SortByStart(hs: seq<Heading>): seq<Heading> {
    if hs == [] then [] else InsertByStart(hs[0], SortByStart(hs[1..]))
  }

  predicate InSourceOrder(hs: seq<Heading>) {
    forall i, j | 0 <= i < j < |hs| :: hs[i].start <= hs[j].start
  }

  lemma {:induction false} InsertPermutes(h: Heading, hs: seq<Heading>)
    ensures multiset(InsertByStart(h, hs)) == multiset(hs) + multiset{h}
  {
    if hs != [] && h.start > hs[0].start {
      InsertPermutes(h, hs[1..]);
      assert hs == [hs[0]] + hs[1..];
    }
  }

  lemma OrderedBehind(first: Heading, hs: seq<Heading>)
    requires InSourceOrder(hs) && forall h | h in multiset(hs) :: first.start <= h.start
    ensures InSourceOrder([first] + hs)
  {
    forall j | 0 <= j < |hs|
      ensures first.start <= hs[j].start
    {
      assert hs[j] in multiset(hs);
    }
  }

  lemma OrderedTail(hs: seq<Heading>)
    requires InSourceOrder(hs) && hs != []
    ensures InSourceOrder(hs[1..]) && hs == [hs[0]] + hs[1..]
    ensures forall h | h in multiset(hs) :: hs[0].start <= h.start
    ensures forall h | h in multiset(hs[1..]) :: hs[0].start <= h.start
  {
  }

  lemma InsertStaysBehind(lo: nat, h: Heading, hs: seq<Heading>)
    requires lo <= h.start && forall x | x in multiset(hs) :: lo <= x.start
    ensures forall x | x in multiset(InsertByStart(h, hs)) :: lo <= x.start
  {
    hide InsertByStart;
    InsertPermutes(h, hs);
  }

  lemma {:induction false} InsertKeepsOrder(h: Heading, hs: seq<Heading>)
    requires InSourceOrder(hs)
    ensures InSourceOrder(InsertByStart(h, hs))
  {
    hide InSourceOrder;
    if hs == [] {
      OrderedBehind(h, hs);
    } else {
      OrderedTail(hs);
      if h.start <= hs[0].start {
        OrderedBehind(h, hs);
      } else {
        InsertKeepsOrder(h, hs[1..]);
        InsertStaysBehind(hs[0].start, h, hs[1..]);
        OrderedBehind(hs[0], InsertByStart(h, hs[1..]));
      }
    }
  }

  method CollectHeadings(root: Tree, read: Tree -> string) returns (headings: seq<Heading>)
    ensures headings == SortByStart(Headings(root, read))
    ensures InSourceOrder(headings)
  {
    var found := WalkHeadings(root, read);
    headings := SortByStart(found);
    SortOrders(found);
  }

  lemma {:induction false} SortOrders(hs: seq<Heading>)
    ensures InSourceOrder(SortByStart(hs)) && multiset(SortByStart(hs)) == multiset(hs)
  {
    if hs != [] {
      SortOrders(hs[1..]);
      InsertPermutes(hs[0], SortByStart(hs[1..]));
      InsertKeepsOrder(hs[0], SortByStart(hs[1..]));
      assert hs == [hs[0]] + hs[1..];
    }
  }

  /** Every node starts no earlier than its parent, and no earlier than the nodes before it. */
  predicate Positioned(t: Tree, from: nat)
    decreases t
  {
    from <= t.start && PositionedAll(t.children, t.start)
  }

  predicate PositionedAll(ts: seq<Tree>, from: nat)
    decreases ts
  {
    ts == [] || (Positioned(ts[0], from) && PositionedAll(ts[1..], LastStart(ts[0])))
  }

  /** The greatest start in a positioned tree: that of its last node in pre-order. */
  function LastStart(t: Tree): nat
    decreases t
  {
    if t.children == [] then t.start else LastStart(t.children[|t.children| - 1])
  }

  /** Headings in source order whose starts lie between two bounds. */
  predicate OrderedWithin(hs: seq<Heading>, lo: nat, hi: nat) {
    InSourceOrder(hs) && forall i | 0 <= i < |hs| :: lo <= hs[i].start <= hi
  }

  lemma OrderedConcat(a: seq<Heading>, b: seq<Heading>, lo: nat, mid: nat, hi: nat)
    requires OrderedWithin(a, lo, mid) && OrderedWithin(b, mid, hi) && lo <= mid <= hi
    ensures OrderedWithin(a + b, lo, hi)
  {
  }

  lemma {:induction false} HeadingsInOrder(t: Tree, from: nat, read: Tree -> string)
    requires Positioned(t, from)
    ensures t.start <= LastStart(t) && OrderedWithin(Headings(t, read), t.start, LastStart(t))
    decreases t, 1
  {
    if t.children != [] {
      HeadingsOfInOrder(t.children, t.start, read);
    }
  }

  lemma {:induction false} HeadingsOfInOrder(ts: seq<Tree>, from: nat, read: Tree -> string)
    requires PositionedAll(ts, from) && ts != []
    ensures from <= LastStart(ts[|ts| - 1]) && OrderedWithin(HeadingsOf(ts, read), from, LastStart(ts[|ts| - 1]))
    decreases ts, 0
  {
    HeadingsInOrder(ts[0], from, read);
    if |ts| > 1 {
      HeadingsOfInOrder(ts[1..], LastStart(ts[0]), read);
      assert ts[1..][|ts[1..]| - 1] == ts[|ts| - 1];
      OrderedConcat(Headings(ts[0], read), HeadingsOf(ts[1..], read), from, LastStart(ts[0]), LastStart(ts[|ts| - 1]));
    } else {
      assert HeadingsOf(ts[1..], read) == [];
    }
  }

  lemma {:induction false} SortKeepsOrdered(hs: seq<Heading>)
    requires InSourceOrder(hs)
    ensures SortByStart(hs) == hs
  {
    if hs != [] {
      SortKeepsOrdered(hs[1..]);
      assert hs == [hs[0]] + hs[1..];
    }
  }

  /** On a positioned tree the final sort changes nothing: the walk is in source order already. */
  lemma WalkIsInSourceOrder(t: Tree, from: nat, read: Tree -> string)
    requires Positioned(t, from)
    ensures SortByStart(Headings(t, read)) == Headings(t, read)
  {
    HeadingsInOrder(t, from, read);
    SortKeepsOrdered(Headings(t, read));
  }

  // ----- What is a heading -----

  /** Eight kinds of node mark a level: six by their marks, two by their underlines. */
  lemma MarkersAre(kind: string)
    ensures MarkerLevel("atx_h1_marker") == 1 && MarkerLevel("atx_h2_marker") == 2 && MarkerLevel("atx_h3_marker") == 3
    ensures MarkerLevel("atx_h4_marker") == 4 && MarkerLevel("atx_h5_marker") == 5 && MarkerLevel("atx_h6_marker") == 6
    ensures MarkerLevel("setext_h1_underline") == 1 && MarkerLevel("setext_h2_underline") == 2
    ensures MarkerLevel(kind) > 0 ==>
      kind in ["atx_h1_marker", "atx_h2_marker", "atx_h3_marker", "atx_h4_marker", "atx_h5_marker", "atx_h6_marker",
               "setext_h1_underline", "setext_h2_underline"]
  {
  }

  /** The level is that of the first child that marks one. */
  lemma {:induction false} LevelIsOfFirstMarker(children: seq<Tree>, i: nat)
    requires i < |children| && MarkerLevel(children[i].kind) > 0
    requires forall k | 0 <= k < i :: MarkerLevel(children[k].kind) == 0
    ensures HeadingLevel(children) == MarkerLevel(children[i].kind)
  {
    if i > 0 {
      LevelIsOfFirstMarker(children[1..], i - 1);
    }
  }

  /** Without a marker there is no level. */
  lemma {:induction false} NoMarkerNoLevel(children: seq<Tree>)
    requires forall k | 0 <= k < |children| :: MarkerLevel(children[k].kind) == 0
    ensures HeadingLevel(children) == 0
  {
    if children != [] {
      NoMarkerNoLevel(children[1..]);
    }
  }

  /** The first inline node is the tree itself, if that is inline, and else that of the first child to have one. */
  lemma InlineIsFirst(t: Tree, i: nat)
    requires i < |t.children| && (forall k | 0 <= k < i :: FirstInline(t.children[k]).None?)
    requires FirstInline(t.children[i]).Some?
    ensures FirstInline(t) == if t.kind == "inline" then Some(t) else FirstInline(t.children[i])
  {
    hide FirstInline;
    InlineUnfolds(t);
    InlineOfIsFirst(t.children, i);
  }

  lemma NoInlineIn(t: Tree)
    requires forall k | 0 <= k < |t.children| :: FirstInline(t.children[k]).None?
    ensures FirstInline(t) == if t.kind == "inline" then Some(t) else None
  {
    hide FirstInline;
    InlineUnfolds(t);
    NoInlineOf(t.children);
  }

  lemma InlineUnfolds(t: Tree)
    ensures FirstInline(t) == if t.kind == "inline" then Some(t) else FirstInlineOf(t.children)
  {
  }

  lemma {:induction false} InlineOfIsFirst(ts: seq<Tree>, i: nat)
    requires i < |ts| && (forall k | 0 <= k < i :: FirstInline(ts[k]).None?) && FirstInline(ts[i]).Some?
    ensures FirstInlineOf(ts) == FirstInline(ts[i])
    decreases ts
  {
    hide FirstInline;
    if i > 0 {
      InlineOfIsFirst(ts[1..], i - 1);
    }
  }

  lemma {:induction false} NoInlineOf(ts: seq<Tree>)
    requires forall k | 0 <= k < |ts| :: FirstInline(ts[k]).None?
    ensures FirstInlineOf(ts) == None
    decreases ts
  {
    hide FirstInline;
    if ts != [] {
      NoInlineOf(ts[1..]);
    }
  }

  /** `n` is the tree, or inside it. */
  predicate Within(n: Tree, t: Tree)
    decreases t
  {
    n == t || exists i | 0 <= i < |t.children| :: Within(n, t.children[i])
  }

  /** A collected heading is read off a heading node: its level, its start, its line counted from one, its text. */
  predicate ReadOff(h: Heading, n: Tree, read: Tree -> string) {
    && (n.kind == "atx_heading" || n.kind == "setext_heading")
    && h.level == HeadingLevel(n.children) > 0 && h.start == n.start && h.line == n.row + 1 && h.text == TextOf(n, read)
  }

  /** Everything collected is read off a heading node of the tree. */
  lemma {:induction false} HeadingIsReadOff(t: Tree, read: Tree -> string, h: Heading) returns (n: Tree)
    requires h in Headings(t, read)
    ensures Within(n, t) && ReadOff(h, n, read)
    decreases t
  {
    hide TextOf, HeadingLevel;
    if IsHeading(t) {
      n := t;
    } else {
      var i;
      i, n := HeadingOfIsReadOff(t.children, read, h);
    }
  }

  lemma {:induction false} HeadingOfIsReadOff(ts: seq<Tree>, read: Tree -> string, h: Heading)
    returns (i: nat, n: Tree)
    requires h in HeadingsOf(ts, read)
    ensures i < |ts| && Within(n, ts[i]) && ReadOff(h, n, read)
    decreases ts
  {
    hide TextOf, HeadingLevel;
    if h in Headings(ts[0], read) {
      i := 0;
      n := HeadingIsReadOff(ts[0], read, h);
    } else {
      i, n := HeadingOfIsReadOff(ts[1..], read, h);
      i := i + 1;
    }
  }

  /** No heading node stands above `n` in the tree. */
  predicate Uncovered(n: Tree, t: Tree)
    decreases t
  {
    n == t || (t.kind != "atx_heading" && t.kind != "setext_heading"
               && exists i | 0 <= i < |t.children| :: Uncovered(n, t.children[i]))
  }

  /** Every heading node with a marker is collected, unless it stands inside another heading. */
  lemma {:induction false} EveryHeadingIsCollected(n: Tree, t: Tree, read: Tree -> string)
    requires n.kind in ["atx_heading", "setext_heading"] && HeadingLevel(n.children) > 0 && Uncovered(n, t)
    ensures Heading(HeadingLevel(n.children), n.start, n.row + 1, TextOf(n, read)) in Headings(t, read)
    decreases t
  {
    hide TextOf, HeadingLevel;
    if n != t {
      var i :| 0 <= i < |t.children| && Uncovered(n, t.children[i]);
      EveryHeadingIsCollected(n, t.children[i], read);
      PartOfHeadings(t.children, i, read);
    }
  }

  lemma {:induction false} PartOfHeadings(ts: seq<Tree>, i: nat, read: Tree -> string)
    requires i < |ts|
    ensures forall h | h in Headings(ts[i], read) :: h in HeadingsOf(ts, read)
    decreases ts
  {
    hide Headings;
    if i > 0 {
      PartOfHeadings(ts[1..], i - 1, read);
    }
  }
}
