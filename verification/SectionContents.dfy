/**
 What the chunks of a document carry: one for each stretch of it that is not blank, in order,
 with its trimmed text, its heading, its breadcrumb, its lines and its token estimate.
 */
module SectionContents {
  import opened HeadingWalk
  import opened Sections
  import opened SectionTheorems

  /** A stretch of the text, the line it starts on, and what its chunk is called. */
  datatype Block = Block(start: nat, end: nat, line: nat, kind: string, name: string)

  /** The parts with a separator between them: a space, a single right-pointing angle mark, a space. */
  function Joined(parts: seq<string>): string {
    if parts == [] then "" else parts[0] + Following(parts[1..])
  }

  function Following(parts: seq<string>): string {
    if parts == [] then "" else " \U{203A} " + parts[0] + Following(parts[1..])
  }

  lemma {:induction false} FollowingPush(parts: seq<string>, x: string)
    ensures Following(parts + [x]) == Following(parts) + " \U{203A} " + x
  {
    if parts == [] {
      assert Following([x]) == " \U{203A} " + x + Following([]);
      assert [] + [x] == [x];
    } else {
      FollowingPush(parts[1..], x);
      assert (parts + [x])[1..] == parts[1..] + [x];
    }
  }

  lemma {:induction false} JoinIsJoined(parts: seq<string>)
    ensures Join(parts) == Joined(parts)
  {
    if |parts| == 1 {
      assert parts[1..] == [];
    } else if |parts| > 1 {
      var init, x := parts[..|parts| - 1], parts[|parts| - 1];
      JoinIsJoined(init);
      FollowingPush(init[1..], x);
      assert init[1..] + [x] == parts[1..];
    }
  }

  lemma {:induction false} MarksAre(n: nat)
    ensures |Marks(n)| == n && forall i | 0 <= i < n :: Marks(n)[i] == '#'
  {
    if n > 0 {
      MarksAre(n - 1);
    }
  }

  /** A breadcrumb segment: as many marks as the level says, a space, the heading's text. */
  lemma SegmentIs(h: Heading)
    ensures var s := Segment(h);
      && |s| == h.level + 1 + |h.text| && (forall i | 0 <= i < h.level :: s[i] == '#')
      && s[h.level] == ' ' && s[h.level + 1..] == h.text
  {
    MarksAre(h.level);
  }

  lemma {:induction false} NewlinesCount(s: string)
    ensures Newlines(s) == multiset(s)['\n']
  {
    if s != "" {
      NewlinesCount(s[1..]);
      assert s == [s[0]] + s[1..];
    }
  }

  // ----- The stretches of a document -----

  function BlockOf(d: Doc, r: Range): Block
    requires r.first < |d.hs|
  {
    var h := d.hs[r.first];
    Block(h.start, if r.last < |d.hs| then d.hs[r.last].start else |d.text|, h.line, h.text, Joined(r.crumb))
  }

  function BlocksOf(d: Doc, rs: seq<Range>): (bs: seq<Block>)
    requires InDoc(d, rs)
    ensures |bs| == |rs|
  {
    seq(|rs|, k requires 0 <= k < |rs| => BlockOf(d, rs[k]))
  }

  /** What stands before the first heading, and behind it the ranges. */
  function Blocks(d: Doc): seq<Block> {
    RangesOfInDoc(d, 0, |d.hs|, []);
    [Block(0, if |d.hs| > 0 then d.hs[0].start else |d.text|, 1, "(preamble)", "(preamble)")]
    + BlocksOf(d, AllRanges(d))
  }

  predicate Inside(d: Doc, b: Block) {
    b.start <= b.end <= |d.text|
  }

  /** The stretches in which trimming leaves something, in order. */
  function Kept(d: Doc, bs: seq<Block>): seq<Block>
    requires forall k | 0 <= k < |bs| :: Inside(d, bs[k])
  {
    if bs == [] then []
    else
      assert Inside(d, bs[0]);
      (if d.trimEnd(d.text[bs[0].start..bs[0].end]) == "" then [] else [bs[0]]) + Kept(d, bs[1..])
  }

  /** The chunk carries the stretch. */
  predicate Carries(d: Doc, c: MarkdownChunk, b: Block)
    requires Inside(d, b)
  {
    && c.content == d.trimEnd(d.text[b.start..b.end])
    && c.start == b.start && c.end == b.end && c.kind == b.kind && c.name == b.name
    && c.startLine == b.line && c.endLine == b.line + multiset(c.content)['\n']
    && c.tokens == if |c.content| < 4 then 1 else |c.content| / 4
  }

  ghost predicate AllCarried(d: Doc, cs: seq<MarkdownChunk>, bs: seq<Block>) {
    && (forall k | 0 <= k < |bs| :: Inside(d, bs[k]))
    && |cs| == |Kept(d, bs)|
    && forall k | 0 <= k < |cs| :: Inside(d, Kept(d, bs)[k]) && Carries(d, cs[k], Kept(d, bs)[k])
  }

  lemma {:induction false} KeptInside(d: Doc, bs: seq<Block>)
    requires forall k | 0 <= k < |bs| :: Inside(d, bs[k])
    ensures forall k | 0 <= k < |Kept(d, bs)| :: Inside(d, Kept(d, bs)[k])
  {
    if bs != [] {
      KeptInside(d, bs[1..]);
    }
  }

  lemma OneCarried(d: Doc, b: Block, name: string)
    requires Inside(d, b) && name == b.name
    ensures AllCarried(d, Listed(MakeChunk(d, b.start, b.end, b.line, b.kind, name)), [b])
  {
    NewlinesCount(d.trimEnd(d.text[b.start..b.end]));
    assert [b][1..] == [];
    assert Kept(d, []) == [];
  }

  lemma {:induction false} CarriedConcat(d: Doc, xs: seq<MarkdownChunk>, ys: seq<MarkdownChunk>, b: Block,
      bs: seq<Block>)
    requires AllCarried(d, xs, [b]) && AllCarried(d, ys, bs)
    ensures AllCarried(d, xs + ys, [b] + bs)
  {
    hide Carries;
    assert [b][1..] == [] && ([b] + bs)[1..] == bs;
    assert Kept(d, []) == [];
    assert Kept(d, [b] + bs) == Kept(d, [b]) + Kept(d, bs);
  }

  lemma {:induction false} RangesCarried(d: Doc, rs: seq<Range>)
    requires d.Valid() && InDoc(d, rs) && forall k | 0 <= k < |rs| :: rs[k].first < rs[k].last
    ensures AllCarried(d, ChunksOf(d, rs), BlocksOf(d, rs))
  {
    hide AllCarried, MakeChunk, Joined, Join;
    if rs == [] {
      NothingCarried(d);
      assert BlocksOf(d, rs) == [];
    } else {
      var b := BlockOf(d, rs[0]);
      RangesCarried(d, rs[1..]);
      JoinIsJoined(rs[0].crumb);
      OneCarried(d, b, Join(rs[0].crumb));
      CarriedConcat(d, ChunkOf(d, rs[0]), ChunksOf(d, rs[1..]), b, BlocksOf(d, rs[1..]));
      assert BlocksOf(d, rs) == [b] + BlocksOf(d, rs[1..]);
    }
  }

  lemma NothingCarried(d: Doc)
    ensures AllCarried(d, [], [])
  {
  }

  lemma {:induction false} TilesAscend(rs: seq<Range>, from: nat, to: nat)
    requires Tiles(rs, from, to)
    ensures forall k | 0 <= k < |rs| :: rs[k].first < rs[k].last
  {
    if rs != [] {
      TilesAscend(rs[1..], rs[0].last, to);
    }
  }

  /**
   A document's chunks: one for each stretch that is not blank, the preamble and the ranges in
   order, carrying the stretch's text, names and lines.
   */
  lemma ChunksCarryTheDocument(d: Doc)
    requires d.Valid()
    ensures AllCarried(d, Chunks(d), Blocks(d))
  {
    hide AllCarried, RangesOf, MakeChunk, BlocksOf, ChunksOf;
    RangesOfInDoc(d, 0, |d.hs|, []);
    RangesTileTheDocument(d);
    TilesAscend(AllRanges(d), 0, |d.hs|);
    RangesCarried(d, AllRanges(d));
    var b := Block(0, if |d.hs| > 0 then d.hs[0].start else |d.text|, 1, "(preamble)", "(preamble)");
    OneCarried(d, b, "(preamble)");
    CarriedConcat(d, Listed(MakeChunk(d, b.start, b.end, b.line, b.kind, "(preamble)")), ChunksOf(d, AllRanges(d)), b,
                  BlocksOf(d, AllRanges(d)));
  }

  // ----- Where a section is split -----

  /** The estimate of a whole section's trimmed text. */
  function SectionTokens(d: Doc, i: nat): nat
    requires d.Valid() && i < |d.hs|
  {
    var end := SectionEnd(d.hs, i);
    var text := d.trimEnd(d.text[d.hs[i].start..if end < |d.hs| then d.hs[end].start else |d.text|]);
    if |text| < 4 then 1 else |text| / 4
  }

  predicate RangeIsDecided(d: Doc, r: Range)
    requires d.Valid()
  {
    && r.first < |d.hs|
    && var end := SectionEnd(d.hs, r.first);
    r.last == if SectionTokens(d, r.first) <= d.budget then end else r.first + 1
  }

  predicate AllDecided(d: Doc, rs: seq<Range>)
    requires d.Valid()
  {
    forall k | 0 <= k < |rs| :: RangeIsDecided(d, rs[k])
  }

  lemma FitsByTokens(d: Doc, i: nat)
    requires d.Valid() && i < |d.hs|
    ensures Fits(d, i) <==> SectionTokens(d, i) <= d.budget
  {
    hide SectionEnd;
  }

  lemma {:induction false} SectionDecided(d: Doc, i: nat, ancestors: seq<string>)
    requires d.Valid() && i < |d.hs|
    ensures AllDecided(d, Ranges(d, i, ancestors))
    decreases |d.hs| - i, 0
  {
    hide Fits, SectionTokens, Doc.Valid;
    FitsByTokens(d, i);
    if Splits(d, i) {
      ListDecided(d, i + 1, SectionEnd(d.hs, i), ancestors + [Segment(d.hs[i])]);
    }
  }

  lemma {:induction false} ListDecided(d: Doc, j: nat, end: nat, ancestors: seq<string>)
    requires d.Valid() && end <= |d.hs|
    ensures AllDecided(d, RangesOf(d, j, end, ancestors))
    decreases |d.hs| - j, 1
  {
    hide RangeIsDecided, Ranges, SectionEnd, Doc.Valid;
    if j < end {
      SectionDecided(d, j, ancestors);
      ListDecided(d, SectionEnd(d.hs, j), end, ancestors);
    }
  }

  /** A range is a heading's whole section when that is within the budget, else its head alone. */
  lemma RangesAreDecidedByBudget(d: Doc)
    requires d.Valid()
    ensures AllDecided(d, AllRanges(d))
  {
    ListDecided(d, 0, |d.hs|, []);
  }
}
