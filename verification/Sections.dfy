/**
 The budgeted split of src/markdown.rs: a section is one range of the document when it fits
 the budget or has no deeper heading, else its head part followed by its subsections. The
 document is a text of one character per byte; how trailing white space is trimmed and how
 chunk ids are hashed are parameters.
 */
module Sections {
  import opened Options
  import opened HeadingWalk
  import opened Tokenizer

  /** A document: its text, its headings, how it trims, and the token budget of a section. */
  datatype Doc = Doc(text: string, hs: seq<Heading>, trimEnd: string -> string, budget: nat) {
    /** Headings in order, inside the text; trimming cuts off an end. */
    ghost predicate Valid() {
      && InSourceOrder(hs) && (forall i | 0 <= i < |hs| :: hs[i].start <= |text|)
      && forall s :: trimEnd(s) <= s
    }
  }

  /** The first heading behind `i`, from `j` on, of the same or a higher rank. */
  function SectionEndFrom(hs: seq<Heading>, level: nat, j: nat): (e: nat)
    requires j <= |hs|
    ensures j <= e <= |hs| && (forall k | j <= k < e :: hs[k].level > level) && (e < |hs| ==> hs[e].level <= level)
    decreases |hs| - j
  {
    if j < |hs| && hs[j].level > level then SectionEndFrom(hs, level, j + 1) else j
  }

  function SectionEnd(hs: seq<Heading>, i: nat): (e: nat)
    requires i < |hs|
    ensures i < e <= |hs| && (e < |hs| ==> hs[e].level <= hs[i].level)
    ensures forall k | i < k < e :: hs[k].level > hs[i].level
  {
    SectionEndFrom(hs, hs[i].level, i + 1)
  }

  /** Where heading `j` starts; the end of the text behind the last one. */
  function ByteAt(d: Doc, j: nat): nat {
    if j < |d.hs| then d.hs[j].start else |d.text|
  }

  /** The text of a byte range, empty when there is no such range. */
  function Slice(text: string, start: nat, end: nat): string {
    if start <= end <= |text| then text[start..end] else ""
  }

  predicate Fits(d: Doc, i: nat)
    requires i < |d.hs|
  {
    EstimateTokens(d.trimEnd(Slice(d.text, d.hs[i].start, ByteAt(d, SectionEnd(d.hs, i))))) <= d.budget
  }

  /** The section of heading `i` is split at its deeper headings. */
  predicate Splits(d: Doc, i: nat)
    requires i < |d.hs|
  {
    !Fits(d, i) && SectionEnd(d.hs, i) > i + 1
  }

  /** A range of the document: headings `first` up to `last`, and the breadcrumb of the first. */
  datatype Range = Range(first: nat, last: nat, crumb: seq<string>)

  function Marks(n: nat): string {
    if n == 0 then "" else Marks(n - 1) + "#"
  }

  /** A breadcrumb segment: the markers of its level, a space, the text. */
  function Segment(h: Heading): string {
    Marks(h.level) + " " + h.text
  }

  /** The ranges `emit` makes of heading `i`'s section. */
  function Ranges(d: Doc, i: nat, ancestors: seq<string>): seq<Range>
    requires i < |d.hs|
    decreases |d.hs| - i, 0
  {
    var crumb := ancestors + [Segment(d.hs[i])];
    if !Splits(d, i) then [Range(i, SectionEnd(d.hs, i), crumb)]
    else [Range(i, i + 1, crumb)] + RangesOf(d, i + 1, SectionEnd(d.hs, i), crumb)
  }

  /** The ranges of the sections from heading `j` up to heading `end`. */
  function RangesOf(d: Doc, j: nat, end: nat, ancestors: seq<string>): seq<Range>
    requires end <= |d.hs|
    decreases |d.hs| - j, 1
  {
    if j >= end then [] else Ranges(d, j, ancestors) + RangesOf(d, SectionEnd(d.hs, j), end, ancestors)
  }

  // ----- Chunks -----

  const PREAMBLE_KIND := "(preamble)"

  const SEPARATOR := " \U{203A} "

  datatype MarkdownChunk = MarkdownChunk(start: nat, end: nat, startLine: nat, endLine: nat,
                                         kind: string, name: string, content: string, tokens: nat)

  function Newlines(s: string): nat {
    if s == "" then 0 else (if s[0] == '\n' then 1 else 0) + Newlines(s[1..])
  }

  function Join(parts: seq<string>): string {
    if parts == [] then "" else if |parts| == 1 then parts[0]
    else Join(parts[..|parts| - 1]) + SEPARATOR + parts[|parts| - 1]
  }

  /** The chunk of a byte range, none when nothing is left after trimming. */
  function MakeChunk(d: Doc, start: nat, end: nat, startLine: nat, kind: string, name: string): Option<MarkdownChunk> {
    var trimmed := d.trimEnd(Slice(d.text, start, end));
    if trimmed == "" then None
    else Some(MarkdownChunk(start, end, startLine, startLine + Newlines(trimmed), kind, name, trimmed,
      EstimateTokens(trimmed)))
  }

  function Listed(c: Option<MarkdownChunk>): seq<MarkdownChunk> {
    match c case Some(x) => [x] case None => []
  }

  function ChunkOf(d: Doc, r: Range): seq<MarkdownChunk>
    requires r.first < |d.hs|
  {
    var h := d.hs[r.first];
    Listed(MakeChunk(d, h.start, ByteAt(d, r.last), h.line, h.text, Join(r.crumb)))
  }

  /** The ranges name headings of the document. */
  predicate InDoc(d: Doc, rs: seq<Range>) {
    forall k | 0 <= k < |rs| :: rs[k].first < |d.hs|
  }

  function ChunksOf(d: Doc, rs: seq<Range>): seq<MarkdownChunk>
    requires InDoc(d, rs)
  {
    if rs == [] then [] else ChunkOf(d, rs[0]) + ChunksOf(d, rs[1..])
  }

  lemma {:induction false} ChunksConcat(d: Doc, a: seq<Range>, b: seq<Range>)
    requires InDoc(d, a) && InDoc(d, b)
    ensures InDoc(d, a + b) && ChunksOf(d, a + b) == ChunksOf(d, a) + ChunksOf(d, b)
  {
    hide ChunkOf;
    if a == [] {
      assert a + b == b;
    } else {
      ChunksConcat(d, a[1..], b);
      assert (a + b)[1..] == a[1..] + b;
    }
  }

  lemma {:induction false} RangesInDoc(d: Doc, i: nat, ancestors: seq<string>)
    requires i < |d.hs|
    ensures InDoc(d, Ranges(d, i, ancestors))
    decreases |d.hs| - i, 0
  {
    if Splits(d, i) {
      RangesOfInDoc(d, i + 1, SectionEnd(d.hs, i), ancestors + [Segment(d.hs[i])]);
    }
  }

  lemma {:induction false} RangesOfInDoc(d: Doc, j: nat, end: nat, ancestors: seq<string>)
    requires end <= |d.hs|
    ensures InDoc(d, RangesOf(d, j, end, ancestors))
    decreases |d.hs| - j, 1
  {
    if j < end {
      RangesInDoc(d, j, ancestors);
      RangesOfInDoc(d, SectionEnd(d.hs, j), end, ancestors);
    }
  }

  /** The chunks of heading `i`'s section, and of the sections from `j` up to `end`. */
  function SectionChunks(d: Doc, i: nat, ancestors: seq<string>): seq<MarkdownChunk>
    requires i < |d.hs|
  {
    RangesInDoc(d, i, ancestors);
    ChunksOf(d, Ranges(d, i, ancestors))
  }

  function ListChunks(d: Doc, j: nat, end: nat, ancestors: seq<string>): seq<MarkdownChunk>
    requires end <= |d.hs|
  {
    RangesOfInDoc(d, j, end, ancestors);
    ChunksOf(d, RangesOf(d, j, end, ancestors))
  }

  lemma SectionChunksUnfold(d: Doc, i: nat, ancestors: seq<string>)
    requires i < |d.hs|
    ensures var crumb := ancestors + [Segment(d.hs[i])];
      SectionChunks(d, i, ancestors) ==
        if !Splits(d, i) then ChunkOf(d, Range(i, SectionEnd(d.hs, i), crumb))
        else ChunkOf(d, Range(i, i + 1, crumb)) + ListChunks(d, i + 1, SectionEnd(d.hs, i), crumb)
  {
    hide ChunkOf, Fits, RangesOf, ChunksOf;
    var crumb := ancestors + [Segment(d.hs[i])];
    if Splits(d, i) {
      RangesOfInDoc(d, i + 1, SectionEnd(d.hs, i), crumb);
      OneRange(d, Range(i, i + 1, crumb));
      ChunksConcat(d, [Range(i, i + 1, crumb)], RangesOf(d, i + 1, SectionEnd(d.hs, i), crumb));
    } else {
      OneRange(d, Range(i, SectionEnd(d.hs, i), crumb));
    }
  }

  lemma ListChunksUnfold(d: Doc, j: nat, end: nat, ancestors: seq<string>)
    requires end <= |d.hs|
    ensures ListChunks(d, j, end, ancestors) ==
      if j >= end then [] else SectionChunks(d, j, ancestors) + ListChunks(d, SectionEnd(d.hs, j), end, ancestors)
  {
    hide ChunkOf, Ranges;
    if j < end {
      RangesInDoc(d, j, ancestors);
      RangesOfInDoc(d, SectionEnd(d.hs, j), end, ancestors);
      ChunksConcat(d, Ranges(d, j, ancestors), RangesOf(d, SectionEnd(d.hs, j), end, ancestors));
    }
  }

  lemma OneRange(d: Doc, r: Range)
    requires r.first < |d.hs|
    ensures InDoc(d, [r]) && ChunksOf(d, [r]) == ChunkOf(d, r)
  {
    assert [r][1..] == [];
    assert ChunksOf(d, []) == [];
  }

  /** A section inside another ends no later than it. */
  lemma NestedEndsWithin(hs: seq<Heading>, i: nat, j: nat)
    requires i < j < |hs| && j < SectionEnd(hs, i)
    ensures SectionEnd(hs, j) <= SectionEnd(hs, i)
  {
    var e := SectionEnd(hs, i);
    assert !(e < SectionEnd(hs, j));
  }

  /** The recursive splitter, appending to one output vector. */
  class Chunker {
    const doc: Doc
    var out: seq<MarkdownChunk>

    constructor (d: Doc)
      ensures doc == d && out == []
    {
      doc, out := d, [];
    }

    method Push(c: Option<MarkdownChunk>)
      modifies this
      ensures out == old(out) + Listed(c)
    {
      if c.Some? {
        out := out + [c.value];
      }
    }

    /**
     Emits heading `i` and all its descendants, and returns the next heading of its rank or
     higher: behind every nested section, never behind the enclosing one's end.
     */
    method Emit(i: nat, ancestors: seq<string>) returns (next: nat)
      requires i < |doc.hs|
      modifies this
      ensures next == SectionEnd(doc.hs, i)
      ensures out == old(out) + SectionChunks(doc, i, ancestors)
      decreases |doc.hs| - i
    {
      hide MakeChunk, Fits, SectionChunks, ListChunks;
      var h := doc.hs[i];
      var end := i + 1;
      while end < |doc.hs| && doc.hs[end].level > h.level
        invariant i < end <= |doc.hs|
        invariant SectionEndFrom(doc.hs, h.level, end) == SectionEnd(doc.hs, i)
      {
        end := end + 1;
      }
      var crumb := ancestors + [Segment(h)];
      SectionChunksUnfold(doc, i, ancestors);
      if Fits(doc, i) || end == i + 1 {
        Push(MakeChunk(doc, h.start, ByteAt(doc, end), h.line, h.text, Join(crumb)));
        return end;
      }
      Push(MakeChunk(doc, h.start, doc.hs[i + 1].start, h.line, h.text, Join(crumb)));
      EmitAll(i, end, crumb);
      return end;
    }

    /** The loop over the subsections of heading `i`. */
    method EmitAll(i: nat, end: nat, crumb: seq<string>)
      requires i < |doc.hs| && end == SectionEnd(doc.hs, i)
      modifies this
      ensures out == old(out) + ListChunks(doc, i + 1, end, crumb)
      decreases |doc.hs| - i, 0
    {
      hide SectionChunks, ListChunks, SectionEndFrom;
      var j := i + 1;
      while j < end
        invariant i < j <= end
        invariant out + ListChunks(doc, j, end, crumb) == old(out) + ListChunks(doc, i + 1, end, crumb)
        decreases end - j
      {
        ListChunksUnfold(doc, j, end, crumb);
        NestedEndsWithin(doc.hs, i, j);
        j := Emit(j, crumb);
      }
      ListChunksUnfold(doc, end, end, crumb);
    }
  }

  /** The chunks of a document: the preamble's, then those of every top section. */
  function Chunks(d: Doc): seq<MarkdownChunk> {
    Listed(MakeChunk(d, 0, ByteAt(d, 0), 1, PREAMBLE_KIND, PREAMBLE_KIND)) + ListChunks(d, 0, |d.hs|, [])
  }

  /** `chunk_markdown` on collected headings. */
  method ChunkMarkdown(d: Doc) returns (chunks: seq<MarkdownChunk>)
    ensures chunks == Chunks(d)
  {
    hide MakeChunk, SectionChunks, ListChunks, SectionEndFrom;
    var chunker := new Chunker(d);
    chunker.Push(MakeChunk(d, 0, ByteAt(d, 0), 1, PREAMBLE_KIND, PREAMBLE_KIND));
    ghost var before := chunker.out;
    assert before == Listed(MakeChunk(d, 0, ByteAt(d, 0), 1, PREAMBLE_KIND, PREAMBLE_KIND));
    var i := 0;
    while i < |d.hs|
      invariant 0 <= i <= |d.hs| && fresh(chunker) && chunker.doc == d
      invariant chunker.out + ListChunks(d, i, |d.hs|, []) == before + ListChunks(d, 0, |d.hs|, [])
      decreases |d.hs| - i
    {
      ListChunksUnfold(d, i, |d.hs|, []);
      i := chunker.Emit(i, []);
    }
    ListChunksUnfold(d, |d.hs|, |d.hs|, []);
    assert chunker.out + [] == chunker.out;
    chunks := chunker.out;
  }
}
